# Mawidy booking client — a Dafny model of its page logic

Mawidy is a browser client for booking barber appointments, built on
Firebase. Customers browse a worker list, open a worker's profile to read
and write reviews, and book an appointment. Workers see their appointments
on a dashboard and confirm or reject them. Most of the code is DOM and
Firestore glue. The repository ships two copies of most pages, under
`controllers/` and `js/`, and the copies differ in small ways.

This project pulls the decisions out of the event handlers and states them
as pure Dafny functions:

- query results come in as sequences;
- intended store writes come back as records;
- redirects and modals come back as values.

The modules follow the pages:

| module | file | what it holds |
|---|---|---|
| `Common` | `common.dfy` | `Option`, `Result`, `Filter`, `Sum` and the JavaScript `\|\|` on strings (`OrElse`) |
| `Text` | `text.dfy` | `trim`, `\s`, `includes`, `endsWith`, `split`/`join`, `indexOf` |
| `Numbers` | `numbers.dfy` | `parseInt` and `String(n)` |
| `Rating` | `rating.dfy` | averages as integer tenths, rounded half-up; the `toFixed(1)` text and its reading back |
| `Model` | `model.dfy` | reviews, appointments, users; the Arabic status literals with an `Other` case |
| `Utils` | `utils.dfy` | the helpers both `utils.js` copies export |
| `Sanitize` | `sanitize.dfy` | the two `sanitizeHTML` functions: the regex one of `js/utils.js` and the text-node one of `controllers/utils.js` |
| `Dashboard` | `dashboard.dfy` | the worker dashboard (both copies) |
| `Profile` | `profile.dfy` | the review section of `controllers/worker_profile.js` |
| `JsProfile` | `jsprofile.dfy` | the review section of `js/worker_profile.js`, with its star-string encoding |
| `Workers` | `workers.dfy` | the worker list (both copies) |
| `Booking` | `booking.dfy` | the booking page (both copies) |
| `Access` | `access.dfy` | the auth guards and role checks (all four files) |
| `Theme` | `theme.dfy` | the theme manager as a record-state machine |
| `Register` | `register.dfy` | registration: password and email patterns, check order, error codes, social sign-in |
| `Settings` | `settings.dfy` | the account settings checks |
| `Mock` | `mock.dfy` | the offline fixtures and their mock rating |

Averages are never floats. A rating average is a natural number of tenths:
`total/count` rounded to the nearest tenth, with ties rounded up. The text
`toFixed(1)` would show is `Rating.Show` of that number.

JavaScript semantics are written out where the code depends on them:

- `parseInt` skips leading white space, takes a sign, and reads hex after `0x`;
- `||` treats `""`, `null` and `undefined` alike;
- `%` keeps the sign of the dividend;
- the `i` flag of the sanitiser's patterns folds ASCII letters only;
- `.` stops at a line terminator.

The `controllers/utils.js` sanitiser sets an element's `textContent` and reads its `innerHTML`. It is modelled by the HTML standard's serialisation of a text node ("escaping a string" outside attribute mode). That serialisation replaces `&`, U+00A0, `<` and `>` with `&amp;`, `&nbsp;`, `&lt;` and `&gt;`. Setting `textContent` to `null` or `undefined` leaves the element empty.

## Model

| member | source | states |
|---|---|---|
| Utils.CalculateAverageRating | js/utils.js:9-14 | a missing or empty list gives "0.0"; otherwise the text reads back as the rounded mean of the ratings, a missing rating adding 0 to the sum; the same at controllers/utils.js:9-25 |
| Utils.AverageAgreesWithTotals | js/utils.js:22-25 | the list average equals `calculateAverageFromTotals` given the list's sum and length, on every list |
| Utils.UnratedReviewCountsAsZero | js/utils.js:12-13 | appending an unrated review keeps the sum and adds one to the count |
| Utils.AverageWithinScale | js/utils.js:12-13 | averages of ratings in 1..5 lie in 1.0..5.0 |
| Rating.FromTotals | js/utils.js:22-25 | count 0 gives "0.0"; otherwise the text reads back as total/count rounded to tenths |
| Rating.RoundTenths | js/utils.js:13 | the result is the nearest tenth of total/count, ties rounding up, stated by the two-sided inequality |
| Rating.RoundTenthsWithin | js/utils.js:12-13 | a total between lo·count and hi·count rounds to between lo and hi |
| Rating.Show | js/utils.js:25 | the `toFixed(1)` text has at least three characters with the point second from the end |
| Rating.ParseShownIff | js/worker.js:243-249 | reading a shown average back (as the rating sort does) gives the number of tenths exactly when the text is that number's rendering |
| Utils.FormatStars | js/utils.js:32-36 | defined exactly for ratings whose whole part is at most 5, and then always 5 glyphs long |
| Utils.FormatStarsCounts | js/utils.js:32-36 | the glyphs are ⌊rating⌋ filled stars and 5 − ⌊rating⌋ empty ones |
| Utils.IsValidRating | js/utils.js:43-45 | an integer rating is accepted exactly when it is one of 1..5 |
| Utils.DisplayRatingStars | controllers/utils.js:389-418 | exactly maxStars stars; star i is full iff i < ⌊rating⌋; the half star sits at ⌊rating⌋ iff the rating has a fractional part |
| Utils.DisplayCounts | controllers/utils.js:389-418 | the display holds min(⌊rating⌋, maxStars) full stars and at most one half star |
| Utils.FormatRelativeTimeAsWritten | controllers/utils.js:52-63 | no date gives no text; under 60 seconds gives "now"; from 60 seconds on the unit is the longest one the age has reached; minutes, hours and years count the whole units elapsed, while days and months always show 0 |
| Utils.DayAndMonthBucketsShowZero | controllers/utils.js:61-62 | as written, every elapsed time in the day and month buckets shows 0 units |
| Utils.ThreeDaysShowsZeroDays | controllers/utils.js:61 | three days ago is shown as "0 days ago" |
| Utils.FormatRelativeTime | controllers/utils.js:52-63 | the corrected buckets: the unit is the longest one the age has reached and the amount is the number of whole units elapsed (so minutes in 1..59, hours 1..23, days 1..29, months 1..12, years ≥ 1) |
| Utils.RelativeTimeAgreesOutsideDaysMonths | controllers/utils.js:56-60 | outside the day and month buckets the corrected text equals the written one |
| Utils.NextFocus | controllers/utils.js:255-264 | Tab lands in 0..n-1 and wraps from the last element to the first |
| Utils.PrevFocus | controllers/utils.js:255-264 | Shift+Tab lands in 0..n-1, wraps from the first element to the last, and follows JavaScript's `%` from index −1 |
| Utils.FocusCycleInverse | controllers/utils.js:255-264 | Shift+Tab undoes Tab, and Tab undoes Shift+Tab, on every element |
| Utils.T | controllers/utils.js:803-805 | the translation when present and non-empty, else the key itself |
| Utils.FirestoreErrorKey | controllers/utils.js:826-836 | a message key exactly for 'unavailable', 'permission-denied' and 'not-found' |
| Utils.HandleFirebaseError | controllers/utils.js:823-836 | a handled code gives its translated message; any other code gives the caller's default, or the translated 'default_error_message' when the caller passes none |
| Utils.UntranslatedKeepsApart | controllers/utils.js:803-805 | an untranslated key is shown as itself, so with no translation table distinct keys give distinct texts |
| Utils.FirestoreErrorKeysDistinct | controllers/utils.js:826-836 | under every translation that keeps the three message keys apart, distinct handled codes give distinct messages, whatever the default |
| Utils.SubmitReview | controllers/utils.js:664-676 | a review is written exactly when the rating is valid and the trimmed comment is non-empty; it carries the trimmed comment and the displayName/email/default name; the same at js/utils.js:577-591 |
| Utils.SubmittedReviewWellFormed | controllers/utils.js:664-676 | every written review has a non-empty comment, a rating in 1..5 and a non-empty name |
| Sanitize.SanitizeHtml | js/utils.js:608-630 | an empty or missing input gives "" |
| Sanitize.SanitizeHtmlSafe | js/utils.js:608-630 | the output has no `<`, `>`, quote or backtick, no `javascript:` or `data:` in any case, and decodes to the input without script blocks and with its schemes rewritten |
| Sanitize.SanitizeHtmlPlain | js/utils.js:608-630 | text without special characters or schemes comes out verbatim |
| Sanitize.StripScripts | js/utils.js:611 | removing script blocks never lengthens the text |
| Sanitize.EscapeInert | js/utils.js:614-624 | after escaping, no `<`, `>`, `'`, `"` or backtick is left |
| Sanitize.UnescapeEscape | js/utils.js:614-624 | decoding the six entities gives back the pre-escape string |
| Sanitize.EscapeUnescape | js/utils.js:614-624 | whatever decodes was produced by escaping what it decodes to, so every `&` starts one of the six entities |
| Sanitize.RewriteNoDanger | js/utils.js:627 | no `javascript:` or `data:` survives the rewrite, and the replacement creates none |
| Sanitize.RewriteIdempotent | js/utils.js:627 | rewriting twice equals rewriting once |
| Sanitize.RewriteIdentity | js/utils.js:627 | text with no scheme is left alone |
| Sanitize.RewriteEscapeCommute | js/utils.js:614-627 | escaping and the scheme rewrite commute |
| Sanitize.EscapeText | controllers/utils.js:693-697 | "" exactly for a missing or empty input |
| Sanitize.EscapeTextSafe | controllers/utils.js:693-697 | the markup has no `<`, `>` or no-break space and reads back to exactly the input |
| Sanitize.TextEscapeUnescape | controllers/utils.js:693-697 | only markup the serialisation produces reads back, and it reads back to what produced it |
| Sanitize.TextEscapePlain | controllers/utils.js:693-697 | text without `&`, `<`, `>` or no-break space is unchanged |
| Sanitize.SanitizersDiffer | controllers/utils.js:693-697 | the two sanitisers differ on a quote: the text-node one keeps it, the other gives `&quot;` |
| Text.TrimEmptyIffAllSpace | js/utils.js:579-580 | `trim` gives "" exactly for white-space-only text |
| Text.TrimIdempotent | controllers/register.js:19-22 | trimming twice equals trimming once |
| Text.JoinSplit | js/worker.js:41 | `split` of a one-character separator loses nothing: joining the parts gives back the text |
| Numbers.ParseInt | js/booking.js:111 | `parseInt` after leading white space: sign, then hex after `0x`, then the longest digit prefix; `None` (NaN) exactly when no digit follows; a negative result needs a leading "-" |
| Numbers.ParseSigned | js/booking.js:111 | the same after the white space: `None` exactly when no digit follows the optional sign; a negative result needs a leading "-" |
| Numbers.ParseIntSkipsSpace | js/booking.js:111 | leading white space never changes the value |
| Numbers.ParseIntDecimal | js/booking.js:111 | an optional sign and any decimal digit run, leading zeros included, read as the signed decimal value of the run, whatever non-digit follows |
| Numbers.ParseIntHex | js/booking.js:111 | an optional sign, "0x" or "0X" and a hex digit run read as the signed base-16 value of the run |
| Numbers.ParseIntPadded | controllers/worker_dashboard.js:539 | the zero-padded "09" reads as 9 |
| Numbers.ParseIntNegativeHex | js/booking.js:111 | "-0x1F" reads as -31 |
| Numbers.ParseIntOfIntToString | js/booking.js:111 | `parseInt(String(i) + rest)` is i when rest does not continue the number |
| Numbers.ParseIntOfString | js/worker_profile.js:217 | `parseInt(String(i)) == i` |
| Model.ParseStatus | controllers/worker_dashboard.js:514-525 | stored status text is classified; `Other` exactly for text other than the three literals |
| Model.StatusRoundTrip | controllers/worker_dashboard.js:514-525 | classifying loses nothing, and well-formed statuses are exactly the classified texts |
| Dashboard.FilteredAppointments | controllers/worker_dashboard.js:411-428 | empty filters return the list unchanged; the result is exactly the appointments matching both active filters; the same at js/worker_dashboard.js:341-358 |
| Dashboard.FilteredIsOnePass | controllers/worker_dashboard.js:415-424 | the status pass followed by the date pass equals one order-preserving pass by the combined condition |
| Dashboard.FilteredBoth | controllers/worker_dashboard.js:415-424 | with both filters set, the two passes equal the combined filter |
| Dashboard.ClearFilters | controllers/worker_dashboard.js:430-435 | both selects become "" and the full list is shown; the same at js/worker_dashboard.js:360-365 |
| Dashboard.UpdateStats | controllers/worker_dashboard.js:242-251 | the three counters are the numbers of appointments with each exact status text; the same at js/worker_dashboard.js:189-198 |
| Dashboard.StatsPartition | controllers/worker_dashboard.js:242-251 | counters plus unknown-status appointments add up to the list length |
| Dashboard.StatsBound | controllers/worker_dashboard.js:242-251 | the counters sum to at most the list length, with equality iff every status is one of the three |
| Dashboard.HandleAppointmentAction | controllers/worker_dashboard.js:298-342 | the dialog opens exactly for an id on the list, holding the first appointment with that id; the same at js/worker_dashboard.js:228-273 |
| Dashboard.ActionStatus | controllers/worker_dashboard.js:358 | "accept" writes confirmed, any other action rejected |
| Dashboard.SetStatus | controllers/worker_dashboard.js:366-369 | only the first appointment with the id changes, and an unknown id leaves the list as it was |
| Dashboard.ExecuteAction | controllers/worker_dashboard.js:345-396 | the pending action is cleared on every path; a missing id or action writes nothing; otherwise the write is the action's status; after a successful write the local list is `SetStatus` of the id and that status, after a failed one it is unchanged; length and every field but status are kept; the same at js/worker_dashboard.js:275-328 |
| Dashboard.ExecuteActionWrites | controllers/worker_dashboard.js:366-369 | after a successful write the first appointment with the id has the action's status and every other appointment is as it was; an unknown id changes nothing |
| Dashboard.ExecuteActionLocal | controllers/worker_dashboard.js:366-369 | any appointment that changes is the first one with the id, and it takes the written status |
| Dashboard.AcceptMovesPendingToConfirmed | js/worker_dashboard.js:288-299 | accepting a pending appointment moves one unit from the pending counter to the confirmed one |
| Dashboard.CardActions | controllers/worker_dashboard.js:216 | accept and reject buttons exactly on pending appointments; the same at js/worker_dashboard.js:171 |
| Dashboard.StatusClass | controllers/worker_dashboard.js:514-525 | each literal maps to its class, and anything else to ""; the same at js/worker_dashboard.js:380-391 |
| Dashboard.FormatTime | controllers/worker_dashboard.js:537-543 | the minutes are the second piece of the split; PM iff the parsed hour is at least 12; NaN when the hour does not parse; a parsed hour in 0..23 is displayed in 1..12 and converts back to that hour; an hour outside 0..23 is shown less 12 when above 12 and as parsed otherwise |
| Dashboard.DisplayHour | controllers/worker_dashboard.js:541 | hours 0..23 display in 1..12 and convert back; other hours are lowered by 12 only when above 12 |
| Dashboard.FormatTimeHourOfDay | js/worker_dashboard.js:403-409 | for any digit run of value 0..23, zero-padded ones included, the displayed hour is in 1..12, PM iff the hour is at least 12, the minutes are copied, and the display converts back to the hour |
| Dashboard.FormatTimePadded | controllers/worker_dashboard.js:537-543 | "09:30" shows hour 9, minutes "30", morning |
| Profile.LastOwned | controllers/worker_profile.js:127-130 | none iff the user owns no review; otherwise the id of the last owned review in query order |
| Profile.ScanReviews | controllers/worker_profile.js:122-161 | the loop sums ratings (missing as 0), counts every review, and finds whether and where the user reviewed |
| Profile.RenderReviews | controllers/worker_profile.js:105-172 | the average is the shared list average; stars follow it; one card per review; controls iff owned; the form iff not yet reviewed |
| Profile.SubmitReview | controllers/worker_profile.js:195-237 | written exactly when the rating is valid and the trimmed comment non-empty; carries the trimmed comment and a translated default name |
| Profile.SubmitReviewAgreesWithShared | controllers/worker_profile.js:214-226 | with the default name translated as the shared one, the page writes what `updateReviewForm` writes |
| Profile.SubmittedReviewGatesForm | controllers/worker_profile.js:165-171 | once the new review is stored the author has reviewed, and it is their last owned review |
| Profile.SaveRating | controllers/worker_profile.js:285-335 | stops in order at: no rating, trimmed comment under 5, no selected worker; the write carries the worker, `clientId` and the escaped comment |
| Profile.SaveRatingCommentIsSafe | controllers/worker_profile.js:313 | the stored comment is inert markup that reads back to the trimmed comment |
| Profile.SavedRatingNeverOwned | controllers/worker_profile.js:309-315 | a `saveRating` document never counts as the user's review, since it has no `userId` |
| Profile.EditStartRating | controllers/worker_profile.js:241-242 | the edit stars start at the card's rating |
| Profile.EditReview | controllers/worker_profile.js:264-268 | the edit writes the trimmed text and the edited rating |
| Profile.EditSkipsValidation | controllers/worker_profile.js:264-268 | an edit sends an empty comment and a 0 rating that the new-review check rejects |
| JsProfile.StarText | js/worker_profile.js:128-130 | defined exactly for r ≤ 5 (above that `repeat` throws), and then 5 glyphs long |
| JsProfile.StarTextRoundTrip | js/worker_profile.js:261-297 | counting the ★ of a star string gives back r, and the ☆ number 5 − r |
| JsProfile.StarTextIsFormatStars | js/utils.js:32-36 | the card's star string is `formatStars` of the whole rating |
| JsProfile.RenderReviews | js/worker_profile.js:105-171 | renders iff every rating is on the star scale; the average is the shared list average; one card per review; the form iff not yet reviewed |
| JsProfile.SubmitReview | js/worker_profile.js:172-198 | written exactly when the parsed rating is in 1..5; the comment is not checked |
| JsProfile.SubmitReviewVersusShared | js/worker_profile.js:177-190 | on integer text the rating checks agree with `isValidRating`, and a blank comment passes here but not in the shared submit |
| JsProfile.SaveEdit | js/worker_profile.js:237-266 | saved exactly when the parsed new rating is in 1..5; the card takes the new stars and text |
| JsProfile.OpenEdit | js/worker_profile.js:214-229 | the saved attributes when both are present, else the shown text and the ★ count, with 5 for no stars; the rating is never 0 |
| JsProfile.OpenEditOfRenderedCard | js/worker_profile.js:214-224 | on a rendered card both paths open at its rating, or at 5 for a 0 rating |
| JsProfile.EditedCardReopens | js/worker_profile.js:258-266 | after an edit the form reopens on the new comment and rating |
| JsProfile.RecalculateAverage | js/worker_profile.js:290-304 | "0.0" for no cards, else the rounded mean of the ★ counts |
| JsProfile.StarTotalOfEncoding | js/worker_profile.js:290-304 | on cards encoding the reviews, the ★ total is the rating sum |
| JsProfile.RecalculateMatchesAverage | js/worker_profile.js:290-304 | the recount equals `calculateAverageRating` over the reviews |
| JsProfile.RecalculateAfterEdit | js/worker_profile.js:258-304 | after an edit the recount is the average with the edited rating in place |
| Workers.Initials | js/worker.js:41 | one or two characters; "?" for a missing or blank name; otherwise starting with the first non-space character; the same at controllers/worker.js:112 |
| Workers.TwoWordInitials | js/worker.js:41 | a two-word name shows the first letter of each word |
| Workers.FirstCharsOfSplit | js/worker.js:41 | the joined first characters are empty iff the name is blank |
| Workers.GroupRatings | js/worker.js:159-167 | the map has an entry exactly for workers with a rated review, holding its total and count |
| Workers.FoldIsRated | js/worker.js:159-167 | the folded total and count are the sum and number of the rated reviews of that worker |
| Workers.IgnoredReviewKeepsAverage | js/worker.js:159-167 | an unrated review, or one for another worker, leaves a worker's average unchanged |
| Workers.LoadWorkers | js/worker.js:170-176 | one entry per worker document, in order, with its fields and the average of its rated reviews |
| Workers.FilterStepsAreSelected | js/worker.js:233-241 | the name pass followed by the availability pass equals one pass by both conditions |
| Workers.SelectedMembership | js/worker.js:233-241 | a worker is kept exactly when it passes both active controls |
| Workers.SortByKey | js/worker.js:243-249 | a permutation, ordered by the numeric rating |
| Workers.ApplyFilters | js/worker.js:228-252 | a nameless worker under a name filter throws; otherwise a permutation of the selection, non-increasing for "high", non-decreasing for "low", and the selection itself for any other sort |
| Workers.EmptyControlsKeepAll | js/worker.js:228-252 | empty controls show the whole list in its order |
| Workers.CardFor | js/worker.js:96-97 | the book button is enabled exactly for an available worker |
| Workers.DisplayWorkers | js/worker.js:17-30 | the empty state shows iff the list is empty; one card per worker in order |
| Workers.DisplayWorkersHiding | controllers/worker.js:89-95 | an empty list shows the empty state, hides the grid and renders no card |
| Workers.DisplaysAgree | controllers/worker.js:82-97 | for every non-empty list the two `displayWorkers` functions draw the same cards: id, initials, rating text and booking button |
| Workers.ClearGrid | controllers/utils.js:500-503 | `showWorkersSkeleton(container, 0)` empties the grid and changes no visibility |
| Workers.LoadWorkersViewAsWritten | controllers/worker.js:21-79 | after a successful load the grid or the empty state shows by list length, and the grid holds no card |
| Workers.LoadWorkersView | controllers/worker.js:21-79 | the intended load: the grid or the empty state by list length, and one card per worker in order |
| Workers.LoadedPagesAgree | js/worker.js:137-185 | the intended controller load ends in the view `js/worker.js` ends in, for every non-empty list |
| Workers.LoadedCardsClearedAsWritten | controllers/worker.js:76-78 | for every non-empty list the shipped controller page shows an empty grid, unlike the intended one |
| Workers.RatingsWithFallback | controllers/worker.js:44-62 | a failed or empty read gives "0.0" and the loop goes on; otherwise the rounded mean of the `average` fields |
| Booking.CalculateWorkerRating | controllers/booking.js:39-62 | "0.0" for no reviews or a failed query; otherwise the shared list average; the same at js/booking.js:29-52 |
| Booking.AgreesWithWorkerListWhenAllRated | js/worker.js:171-173 | when every review is rated, the booking page and the worker list show the same average |
| Booking.UnratedReviewSplitsAverages | controllers/booking.js:49-57 | after fully rated reviews, an unrated one lowers the booking page's average (its count grows by one) while the worker list's stays the same |
| Booking.UnratedReviewSplitsPages | controllers/booking.js:49-57 | a 4 and an unrated review show 2.0 on the booking page where the worker list shows 4.0 |
| Booking.PriceText | js/booking.js:108-124 | "NaN" exactly when `data-price` does not parse; the same at controllers/booking.js:132-148 |
| Booking.PriceTextOfPrice | js/booking.js:108-115 | a price written as digits shows as that number |
| Booking.OnLoad | js/booking.js:131-138 | without a selected worker the page redirects to the list instead of loading |
| Booking.SubmitBooking | controllers/booking.js:180-248 | stops first on a missing service, date or time, then on no user; the write is pending, with the user's id and name and the parsed price |
| Booking.NewBookingAwaitsWorker | controllers/booking.js:210-220 | a new booking reaches the dashboard as pending, with accept and reject buttons |
| Access.RoleAccess | controllers/auth-guard.js:11-46 | a worker is allowed iff the path contains the dashboard or index name, else sent to the dashboard; a customer or client, and a failed lookup, are sent home exactly from the dashboard; any other role is allowed |
| Access.CheckUserRole | controllers/auth-check.js:10-47 | a worker is allowed iff the path contains the dashboard name; the other roles as in the guard; the same at js/auth-check.js:10-47 |
| Access.GuardVersusCheck | controllers/auth-guard.js:19-27 | the guard and the role check differ exactly for a worker on an index path outside the dashboard |
| Access.RoleAccessFixpoint | controllers/auth-guard.js:19-33 | the page a role is sent to is allowed for that role |
| Access.CheckUserRoleFixpoint | controllers/auth-check.js:18-31 | the page a role is sent to is allowed for that role |
| Access.UpdateUserInfo | controllers/utils.js:611-631 | with a user and the element present, the email through the text-node sanitiser, inert and reading back to the email; otherwise home from the three protected pages |
| Access.JsUpdateUserInfo | js/auth-guard.js:62-74 | with a user and the element present, the email through the regex sanitiser, inert and free of unsafe schemes; otherwise home from the three protected pages |
| Access.GuardOnAuth | controllers/auth-guard.js:49-91 | signed out: the selected worker is forgotten, and the login modal opens on a protected or non-index page; signed in: the role decision, then the user info on the index |
| Access.JsGuardOnAuth | js/auth-guard.js:10-48 | signed out: the selected worker is forgotten, home from three pages, the modal on other non-index pages; signed in: user info only on the exact index paths |
| Access.JsGuardFixpoint | js/auth-guard.js:16-20 | the signed-out redirect lands on a page that does not redirect again |
| Access.JsGuardProfileGetsModal | js/auth-guard.js:38-42 | signed out on the profile page, the modal opens and no redirect happens |
| Access.Logout | controllers/auth-guard.js:94-104 | the selected worker is removed, every other entry is kept, and the index page opens; the same at js/auth-guard.js:50-60 |
| Access.LogoutThenGuard | controllers/auth-guard.js:97-101 | the signed-out guards find nothing more to clear after a logout |
| Theme.LoadTheme | controllers/theme-manager.js:32-35 | the stored choice, or "auto" when nothing or "" is stored |
| Theme.SaveTheme | controllers/theme-manager.js:37-40 | the persisted and current choice become the saved one; the document is untouched |
| Theme.LoadAfterSave | controllers/theme-manager.js:32-40 | a saved choice is what the next load reads back |
| Theme.AppliedFor | controllers/theme-manager.js:42-75 | dark exactly for "dark", or for "auto" under a dark system; light otherwise |
| Theme.ApplyTheme | controllers/theme-manager.js:42-75 | sets `data-theme` and the matching meta colour; nothing persisted changes |
| Theme.Init | controllers/theme-manager.js:14-30 | the loaded choice is current and the document shows it |
| Theme.SetTheme | controllers/theme-manager.js:94-99 | one of the three choices is saved and applied; any other value changes nothing |
| Theme.ToggleTheme | controllers/theme-manager.js:87-92 | dark goes to light, anything else to dark, saved and applied |
| Theme.ToggleTwice | controllers/theme-manager.js:87-92 | toggling twice restores the applied theme exactly when it was light or dark |
| Theme.AppliedTheme | controllers/theme-manager.js:141-144 | the attribute, or "light" when it is missing or empty |
| Theme.SystemChanged | controllers/theme-manager.js:21-25 | the system preference re-applies the theme only while the choice is "auto" |
| Theme.ShowsPreserved | controllers/theme-manager.js:21-99 | every operation keeps the document in step with the current choice |
| Theme.AppliedThemeOfChoice | controllers/theme-manager.js:141-144 | in step, the applied theme is the choice for light and dark, and the system's for auto |
| Register.TestStrongPassword | controllers/register.js:14 | accepts exactly the strong passwords: 8 or more characters from the allowed class, with a lower-case letter, an upper-case letter, a digit and a symbol |
| Register.StrongPasswordExamples | controllers/register.js:14 | "Passw0rd!" is strong and "Passw0rdd" is not |
| Register.TestEmail | js/register.js:25-26 | accepts exactly local@domain, with a non-empty local part, no `@` or white space, and a domain dot neither first nor last |
| Register.EmailExamples | js/register.js:25-26 | "a@b.co" is accepted; "a@bco" and "a@.co" are not |
| Register.SubmitRegister | controllers/register.js:19-61 | stops in order at an empty field, a mismatch, a weak password; the sign-up has the trimmed email and name and the untrimmed password |
| Register.RegisterAcceptsOnlyClean | controllers/register.js:28-45 | an accepted sign-up has trimmed non-blank fields and a strong password equal to its confirmation |
| Register.ProfileOf | controllers/register.js:55-61 | the created profile's role is always "customer"; the same at js/register.js:35-40 |
| Register.RegisterErrorKey | controllers/register.js:71-89 | a message key exactly for the four handled 'auth/' codes |
| Register.RegisterErrorMessage | controllers/register.js:71-89 | a handled code gives its translated message, any other code the generic one |
| Register.UntranslatedSeparatesRegisterErrors | controllers/register.js:71-89 | with no translation table the four handled messages differ from each other and from the generic one |
| Register.RegisterErrorsDistinct | controllers/register.js:71-89 | under every translation that keeps the four message keys apart and away from the generic message, handled codes give messages that differ from each other and from the generic one |
| Register.JsSubmitRegister | js/register.js:26-40 | stops in order at the email pattern, an empty password, a password under 6, a mismatch |
| Register.StrongPasswordPassesJsChecks | js/register.js:26-29 | a strong password with a well-formed email passes every js check |
| Register.SocialSignIn | js/register.js:72-84 | Google sign-in creates a customer profile only when none exists; other profiles are untouched; the same at js/register.js:101-111 |
| Register.SocialSignInKeepsProfiles | js/register.js:72-111 | an existing profile is never overwritten, and signing in again changes nothing |
| Settings.TestLongEnough | controllers/settings.js:17 | accepts exactly 6 or more characters with no line terminator |
| Settings.StrongIsLongEnough | controllers/settings.js:17 | every password the registration page calls strong passes the settings check |
| Settings.LineBreakRefused | controllers/settings.js:17 | a six-character password with a line break is refused |
| Settings.UpdateName | controllers/settings.js:55-76 | fails exactly for a blank name; otherwise the stored name is inert markup that reads back to the trimmed name |
| Settings.UpdateNamePlain | controllers/settings.js:57-66 | a name without markup characters is stored as typed, trimmed |
| Settings.UpdatePassword | controllers/settings.js:81-112 | stops in order at an empty field, a mismatch, the six-character pattern; otherwise sends the new password |
| Settings.RegisteredPasswordAccepted | controllers/settings.js:88-101 | the password a user registered with is accepted as a new one |
| Settings.PerformAccountDeletion | controllers/settings.js:139-158 | with `deleteDoc` imported: no user takes the error path and deletes nothing; otherwise the profile and the account of that user |
| Settings.PerformAccountDeletionAsWritten | controllers/settings.js:2-6 | as the imports stand every call fails: the no-user error without a user, the undefined `deleteDoc` with one |
| Settings.AccountNeverDeletedAsWritten | controllers/settings.js:139-158 | for every signed-in user the shipped function deletes nothing where the intended one deletes both records |
| Settings.Declared | controllers/settings.js:160-211 | a script with no comment delimiters parses; one ending inside a comment does not; every name declared comes from a code piece |
| Settings.UnclosedCommentFails | controllers/settings.js:160 | a comment never closed makes the script fail to parse |
| Settings.ClosedCommentSkipped | controllers/settings.js:160-162 | a closed comment is skipped and parsing resumes after it |
| Settings.SettingsScriptAsWrittenFails | controllers/settings.js:160-211 | as shipped the module does not parse, so no handler is declared or wired |
| Settings.SettingsScriptCorrectedWires | controllers/settings.js:207-211 | with the comment closed, every handler is declared and the five globals are assigned |
| Mock.GetMockReviews | controllers/mock-data.js:141-143 | exactly the fixture reviews of the worker |
| Mock.FixturesWellFormed | controllers/mock-data.js:83-129 | every fixture rating is in 1..5 and the review ids are distinct |
| Mock.Worker1Lookup | controllers/mock-data.js:83-129 | worker1 has its two reviews, in fixture order |
| Mock.NoneForOther | controllers/mock-data.js:141-143 | a worker named by no fixture, such as worker5, has no reviews |
| Mock.CalculateMockRatingAsWritten | controllers/mock-data.js:132-138 | the number 0 exactly for a worker without reviews; otherwise the rounded mean as text |
| Mock.EmptyWorkerGetsNumber | controllers/mock-data.js:134 | worker5 gets the number 0 where "0.0" is expected |
| Mock.CalculateMockRating | controllers/mock-data.js:132-138 | the corrected version: "0.0" for no reviews, otherwise the rounded mean |
| Mock.AsWrittenDiffersOnlyWhenEmpty | controllers/mock-data.js:132-138 | the written and corrected versions differ exactly for a worker without reviews |
| Mock.MockRatingAgreesWithSite | controllers/mock-data.js:132-138 | the corrected mock rating equals the site's list average and the worker list's average |
| Mock.Worker1Rating | controllers/mock-data.js:83-137 | worker1 rates "4.5" |

## Left out

- Firebase Auth and Firestore are not modelled. Query results are parameters, and writes are returned records. The store, its failures (beyond the `writeSucceeds` and `None` inputs), `serverTimestamp` and `createdAt` are not modelled.
- The DOM is not modelled: modals, skeletons, button loaders, ARIA, events, the meta element lookup and `updateThemeSelector`. Redirects and modals are returned values.
- Floating point is not modelled. `toFixed(1)` on doubles is modelled as exact half-up rounding of the rational mean. Binary double rounding that lands just below a tie is not modelled, nor are non-integer `average` fields in `controllers/worker.js`.
- Rating.RoundTenths: rounds the exact mean half-up, which can differ from `toFixed(1)` on the double quotient in its last digit.
- Strings are sequences of code points. UTF-16 surrogates are not modelled. `toLowerCase` is an abstract per-character map.
- Negative, non-integer and non-numeric stored ratings are not modelled. Ratings are natural numbers, with `None` for a missing field.
- `NaN` arithmetic in sorts and comparisons is not modelled beyond `parseInt`'s `None`.
- Workers.SortByKey: states a sorted permutation; the stability of `Array.prototype.sort` (ties in arrival order) is built in but not stated.
- The submit handler of `js/booking.js` is not modelled. It reads undeclared `service`, `date` and `time` and calls an unimported `logClientError`, so it never creates an appointment. `Math.random` request ids are left out with it.
- The handlers of `controllers/settings.js` are modelled as the script would run with the comment of line 160 closed (see Findings). `changeLanguage`, `changeTheme` and `applyTheme` (lines 162-204) are modelled only as names the script declares: they store a preference and toggle a class. `Settings.PerformAccountDeletion` reads the unimported `deleteDoc` (line 147) as the deletion it names; the shipped behaviour is `Settings.PerformAccountDeletionAsWritten` (see Findings). The page's own theme key is left out.
- Workers.DisplaysAgree: states agreement of the two `displayWorkers` functions on id, initials, rating text and booking button only; what the controller page finally shows after a load is `Workers.LoadWorkersViewAsWritten` (see Findings). `controllers/worker.js` escapes the worker's name (line 119) where `js/worker.js` shows it raw (line 48), and it escapes the location and falls back to a translated text (line 152) where `js/worker.js` inserts it raw with a fixed Arabic fallback (line 81).
- `controllers/worker_dashboard.js` lines 559-749 are not modelled: the copies of the booking submit, `saveWorkerRating` and `loadWorkerInfo`.
- `controllers/login.js`, `js/login.js`, `controllers/customer_profile.js` and `controllers/i18n.js` are not part of this model. They are sign-in, fetch and render wrappers.
- Relative dates (`formatDate`, `formatCreatedAt`, `dayjs`) and `new Date()` are not modelled. `formatRelativeTime` takes the elapsed seconds as a parameter.
- The mock fixtures keep their ids, workers, users and ratings. Reviewer names, comments and dates are left out because they play no part in any mock function. The mock worker records are left out too.
- The text around the user's email differs between the two `updateUserInfoDisplay` copies. Only the escaped email is modelled.
- The sign-out and reload of the logout link are not modelled.
- None of the code checks for slot conflicts, for one pending booking per client, for review uniqueness per user, or for the current status before a transition. The model adds none of these.

## Findings

| source | as written | input that shows it | evidently intended | confidence | as-written member | corrected member |
|---|---|---|---|---|---|---|
| controllers/utils.js:61-62 | the day bucket divides by 2592000 and the month bucket by 31536000, each bucket's own upper bound | 259200 seconds (three days) shows "0 days ago" | divide by 86400 for days and by 2592000 for months | high, not executed | Utils.FormatRelativeTimeAsWritten | Utils.FormatRelativeTime |
| controllers/settings.js:160 | a `/**` comment opens and is never closed, so the module is a syntax error and none of its handlers is wired | the whole file as shipped | close the comment after its one-line heading | high, not executed | Settings.SettingsScriptAsWrittenFails | Settings.SettingsScriptCorrectedWires |
| controllers/settings.js:147 | `deleteDoc` is called but the Firestore import (lines 2-6) brings in only `doc` and `updateDoc`, so the call throws before either deletion | any signed-in user confirming the deletion | import `deleteDoc` so the profile document and then the account are deleted | high, not executed | Settings.PerformAccountDeletionAsWritten | Settings.PerformAccountDeletion |
| controllers/worker.js:76-78 | the `finally` block calls `showWorkersSkeleton(container, 0)`, which empties the container after `displayWorkers` filled it | any non-empty worker list | clear only the skeleton, before `displayWorkers` draws, as `js/worker.js` does | high, not executed | Workers.LoadWorkersViewAsWritten | Workers.LoadWorkersView |
| controllers/mock-data.js:134 | a worker without mock reviews gets the number 0 | worker5 | "0.0", the text every other average on the site returns | high, not executed | Mock.CalculateMockRatingAsWritten | Mock.CalculateMockRating |

The error codes of `controllers/register.js` carry the `auth/` prefix as the code writes them.
