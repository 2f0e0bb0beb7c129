/**
  The shared helpers both `utils.js` copies export: rating averages and star
  renderings, rating validation, relative-time text, modal Tab cycling, the
  translation lookup `t`, the Firestore error mapping and the review-form
  submit check.
 */
module Utils {

  import opened Common
  import opened Model
  import Rating
  import Text

  /** `cur.rating || 0` for each review, in order. */
  function RatingsOrZero(reviews: seq<Review>): (xs: seq<nat>)
    ensures |xs| == |reviews|
    ensures forall i :: 0 <= i < |xs| ==> xs[i] == OrZero(reviews[i].rating)
  {
    if |reviews| == 0 then [] else RatingsOrZero(reviews[..|reviews| - 1]) + [OrZero(reviews[|reviews| - 1].rating)]
  }

  /**
    `calculateAverageRating`: "0.0" for a missing or empty list, otherwise
    the mean rating to one decimal, a review without a rating adding 0 to
    the sum and 1 to the count.
   */
  function CalculateAverageRating(reviews: Option<seq<Review>>): (text: string)
    ensures reviews.None? || reviews.value == [] ==> text == Rating.Zero
    ensures reviews.Some? && |reviews.value| > 0 ==>
      Rating.ParseShown(text) == Some(Rating.RoundTenths(Sum(RatingsOrZero(reviews.value)), |reviews.value|))
  {
    match reviews
    case None => Rating.Zero
    case Some(rs) => Rating.FromTotals(Sum(RatingsOrZero(rs)), |rs|)
  }

  /** The list form and the totals form agree on every list. */
  lemma AverageAgreesWithTotals(rs: seq<Review>)
    ensures CalculateAverageRating(Some(rs)) == Rating.FromTotals(Sum(RatingsOrZero(rs)), |rs|)
  {
  }

  lemma RatingsOrZeroSnoc(rs: seq<Review>, r: Review)
    ensures RatingsOrZero(rs + [r]) == RatingsOrZero(rs) + [OrZero(r.rating)]
  {
    assert (rs + [r])[..|rs|] == rs;
  }

  lemma SumSnocZero(xs: seq<nat>)
    ensures Sum(xs + [0]) == Sum(xs)
  {
    assert (xs + [0])[..|xs|] == xs;
  }

  /** A review without a rating lowers the average as a zero rating would: same sum, one more in the count. */
  lemma UnratedReviewCountsAsZero(rs: seq<Review>, r: Review)
    requires r.rating.None?
    ensures CalculateAverageRating(Some(rs + [r])) == Rating.FromTotals(Sum(RatingsOrZero(rs)), |rs| + 1)
  {
    RatingsOrZeroSnoc(rs, r);
    SumSnocZero(RatingsOrZero(rs));
  }

  /** Ratings of 1..5 average to 1.0..5.0. */
  lemma AverageWithinScale(rs: seq<Review>)
    requires |rs| > 0
    requires forall i :: 0 <= i < |rs| ==> rs[i].rating.Some? && 1 <= rs[i].rating.value <= 5
    ensures 10 <= Rating.RoundTenths(Sum(RatingsOrZero(rs)), |rs|) <= 50
  {
    var xs := RatingsOrZero(rs);
    forall i | 0 <= i < |xs| ensures 1 <= xs[i] <= 5 {
      assert xs[i] == OrZero(rs[i].rating);
    }
    SumBetween(xs, 1, 5);
    Rating.RoundTenthsWithin(Sum(xs), |xs|, 1, 5);
  }

  lemma {:induction false} SumBetween(xs: seq<nat>, lo: nat, hi: nat)
    requires forall i :: 0 <= i < |xs| ==> lo <= xs[i] <= hi
    ensures lo * |xs| <= Sum(xs) <= hi * |xs|
    decreases |xs|
  {
    if |xs| > 0 {
      SumBetween(xs[..|xs| - 1], lo, hi);
      assert lo * |xs| == lo * (|xs| - 1) + lo;
      assert hi * |xs| == hi * (|xs| - 1) + hi;
    }
  }

  /**
    `formatStars` on a rating given in tenths: ⌊rating⌋ filled stars, then
    the rest of five empty ones. Above 5.9 the empty count is negative and
    `repeat` throws, which is `None`.
   */
  function FormatStars(tenths: nat): (r: Option<string>)
    ensures r.Some? <==> tenths / 10 <= 5
    ensures r.Some? ==> |r.value| == 5
  {
    var full := tenths / 10;
    if full <= 5 then Some(Text.Repeat('★', full) + Text.Repeat('☆', 5 - full)) else None
  }

  /** The filled stars of `formatStars` count the whole part of the rating. */
  lemma FormatStarsCounts(tenths: nat)
    requires tenths / 10 <= 5
    ensures Text.CountChar(FormatStars(tenths).value, '★') == tenths / 10
    ensures Text.CountChar(FormatStars(tenths).value, '☆') == 5 - tenths / 10
  {
    var full := tenths / 10;
    Text.CountCharAppend(Text.Repeat('★', full), Text.Repeat('☆', 5 - full), '★');
    Text.CountCharAppend(Text.Repeat('★', full), Text.Repeat('☆', 5 - full), '☆');
    Text.CountRepeat('★', '★', full);
    Text.CountRepeat('☆', '★', 5 - full);
    Text.CountRepeat('★', '☆', full);
    Text.CountRepeat('☆', '☆', 5 - full);
  }

  /** `isValidRating` on an integer rating: truthy and within 1..5. */
  function IsValidRating(rating: int): (ok: bool)
    ensures ok <==> rating in {1, 2, 3, 4, 5}
  {
    rating != 0 && rating >= 1 && rating <= 5
  }

  datatype Star = Full | Half | Empty

  /**
    `displayRatingStars` on a rating in tenths: a full star below ⌊rating⌋,
    a half star at ⌊rating⌋ when there is a fractional part, empty stars
    otherwise.
   */
  function DisplayRatingStars(tenths: nat, maxStars: nat): (r: seq<Star>)
    ensures |r| == maxStars
    ensures forall i :: 0 <= i < maxStars ==> (r[i] == Full <==> i < tenths / 10)
    ensures forall i :: 0 <= i < maxStars ==> (r[i] == Half <==> i == tenths / 10 && tenths % 10 != 0)
  {
    seq(maxStars, i => if i < tenths / 10 then Full else if i == tenths / 10 && tenths % 10 != 0 then Half else Empty)
  }

  function CountStar(r: seq<Star>, s: Star): nat
  {
    Count(r, x => x == s)
  }

  /** The display holds min(⌊rating⌋, maxStars) full stars and at most one half star. */
  lemma {:induction false} DisplayCounts(tenths: nat, maxStars: nat)
    ensures var r := DisplayRatingStars(tenths, maxStars);
      CountStar(r, Full) == (if tenths / 10 < maxStars then tenths / 10 else maxStars) &&
      CountStar(r, Half) == (if tenths / 10 < maxStars && tenths % 10 != 0 then 1 else 0)
    decreases maxStars
  {
    if maxStars > 0 {
      var r := DisplayRatingStars(tenths, maxStars);
      assert r[..maxStars - 1] == DisplayRatingStars(tenths, maxStars - 1);
      DisplayCounts(tenths, maxStars - 1);
    }
  }

  /** The units of the relative-time text. */
  datatype TimeUnit = Minute | Hour | Day | Month | Year

  /** What `formatRelativeTime` shows: nothing, "now", or "n units ago". */
  datatype RelativeTime = NoDate | JustNow | Ago(amount: int, unit: TimeUnit)

  /** Length of each unit in seconds, with 30-day months and 365-day years. */
  function UnitSeconds(u: TimeUnit): nat
  {
    match u
    case Minute => 60
    case Hour => 3600
    case Day => 86400
    case Month => 2592000
    case Year => 31536000
  }

  /** The unit shown for an age is the longest one the age has reached. */
  predicate InBucket(u: TimeUnit, seconds: int)
  {
    UnitSeconds(u) <= seconds &&
    match u
    case Minute => seconds < UnitSeconds(Hour)
    case Hour => seconds < UnitSeconds(Day)
    case Day => seconds < UnitSeconds(Month)
    case Month => seconds < UnitSeconds(Year)
    case Year => true
  }

  /** `amount` whole units have elapsed, but not `amount + 1`. */
  predicate WholeUnits(amount: int, u: TimeUnit, seconds: int)
  {
    amount * UnitSeconds(u) <= seconds < (amount + 1) * UnitSeconds(u)
  }

  /**
    `formatRelativeTime` exactly as written, given whether a date is present
    and the elapsed whole seconds. The day bucket divides by its own upper
    bound 2592000 and the month bucket by its own upper bound 31536000.
   */
  function FormatRelativeTimeAsWritten(hasDate: bool, seconds: int): (r: RelativeTime)
    ensures !hasDate <==> r == NoDate
    ensures hasDate && seconds < 60 <==> r == JustNow
    ensures hasDate && seconds >= 60 ==> r.Ago? && InBucket(r.unit, seconds)
    ensures r.Ago? && r.unit in {Minute, Hour, Year} ==> WholeUnits(r.amount, r.unit, seconds)
    ensures r.Ago? && r.unit in {Day, Month} ==> r.amount == 0
  {
    if !hasDate then NoDate
    else if seconds < 60 then JustNow
    else if seconds < 3600 then Ago(seconds / 60, Minute)
    else if seconds < 86400 then Ago(seconds / 3600, Hour)
    else if seconds < 2592000 then Ago(seconds / 2592000, Day)
    else if seconds < 31536000 then Ago(seconds / 31536000, Month)
    else Ago(seconds / 31536000, Year)
  }

  /** As written, every day and month text reads "0 days ago" / "0 months ago". */
  lemma DayAndMonthBucketsShowZero(seconds: int)
    requires 86400 <= seconds < 31536000
    ensures FormatRelativeTimeAsWritten(true, seconds).amount == 0
  {
  }

  /** A concrete instance: three days ago is shown as zero days ago. */
  lemma ThreeDaysShowsZeroDays()
    ensures FormatRelativeTimeAsWritten(true, 3 * 86400) == Ago(0, Day)
  {
  }

  /** `formatRelativeTime` with each bucket dividing by its unit's length. */
  function FormatRelativeTime(hasDate: bool, seconds: int): (r: RelativeTime)
    ensures !hasDate <==> r == NoDate
    ensures hasDate && seconds < 60 <==> r == JustNow
    ensures hasDate && seconds >= 60 ==> r.Ago? && InBucket(r.unit, seconds)
    ensures r.Ago? ==> WholeUnits(r.amount, r.unit, seconds)
    ensures r.Ago? && r.unit == Minute ==> 1 <= r.amount <= 59
    ensures r.Ago? && r.unit == Hour ==> 1 <= r.amount <= 23
    ensures r.Ago? && r.unit == Day ==> 1 <= r.amount <= 29
    ensures r.Ago? && r.unit == Month ==> 1 <= r.amount <= 12
    ensures r.Ago? && r.unit == Year ==> r.amount >= 1
  {
    if !hasDate then NoDate
    else if seconds < 60 then JustNow
    else if seconds < 3600 then Ago(seconds / 60, Minute)
    else if seconds < 86400 then Ago(seconds / 3600, Hour)
    else if seconds < 2592000 then Ago(seconds / 86400, Day)
    else if seconds < 31536000 then Ago(seconds / 2592000, Month)
    else Ago(seconds / 31536000, Year)
  }

  /** Outside the day and month buckets the corrected version says what the original says. */
  lemma RelativeTimeAgreesOutsideDaysMonths(hasDate: bool, seconds: int)
    requires seconds < 86400 || seconds >= 31536000
    ensures FormatRelativeTime(hasDate, seconds) == FormatRelativeTimeAsWritten(hasDate, seconds)
  {
  }

  /** JavaScript's `%`: the remainder takes the sign of the dividend. */
  function JsRem(a: int, n: int): int
    requires n > 0
  {
    if a >= 0 then a % n else -((-a) % n)
  }

  /**
    Tab inside the modal: `indexOf` of the focused element (-1 when focus is
    outside the modal) moves forward, Shift+Tab backward, wrapping around.
   */
  function NextFocus(current: int, n: nat): (next: int)
    requires n > 0 && -1 <= current < n
    ensures 0 <= next < n
    ensures next == (if current == n - 1 then 0 else current + 1)
  {
    JsRem(current + 1, n)
  }

  function PrevFocus(current: int, n: nat): (prev: int)
    requires n > 0 && -1 <= current < n
    ensures 0 <= prev < n
    ensures current >= 0 ==> prev == (if current == 0 then n - 1 else current - 1)
    ensures current == -1 ==> prev == (if n == 1 then 0 else n - 2)
  {
    JsRem(current - 1 + n, n)
  }

  /** Shift+Tab undoes Tab on every element of the modal. */
  lemma FocusCycleInverse(current: int, n: nat)
    requires n > 0 && 0 <= current < n
    ensures PrevFocus(NextFocus(current, n), n) == current
    ensures NextFocus(PrevFocus(current, n), n) == current
  {
  }

  /** `t(key)`: the translation when present and non-empty, else the key itself. */
  function T(translations: map<string, string>, key: string): (text: string)
    ensures text == key || (key in translations && text == translations[key])
    ensures key in translations && translations[key] != "" ==> text == translations[key]
    ensures text == "" ==> key == ""
  {
    if key in translations && translations[key] != "" then translations[key] else key
  }

  /** A translation keeps the given keys apart when distinct keys get distinct texts. */
  predicate KeepsApart(translations: map<string, string>, keys: set<string>)
  {
    forall k1, k2 :: k1 in keys && k2 in keys && k1 != k2 ==> T(translations, k1) != T(translations, k2)
  }

  /** Untranslated keys are shown as themselves, so an empty table keeps every key set apart. */
  lemma UntranslatedKeepsApart(keys: set<string>)
    ensures KeepsApart(map[], keys)
  {
  }

  /** The message keys `handleFirebaseError` looks up. */
  const FirestoreKeys: set<string> := {"network_error_message", "permission_denied_message", "not_found_message"}

  /** The message key each handled Firestore error code selects. */
  function FirestoreErrorKey(code: string): (k: Option<string>)
    ensures k.Some? <==> code in {"unavailable", "permission-denied", "not-found"}
    ensures k.Some? ==> k.value in FirestoreKeys
  {
    if code == "unavailable" then Some("network_error_message")
    else if code == "permission-denied" then Some("permission_denied_message")
    else if code == "not-found" then Some("not_found_message")
    else None
  }

  /**
    `handleFirebaseError`: the translated message for a handled code, else
    the default message, which is `t('default_error_message')` when the
    caller passes none.
   */
  function HandleFirebaseError(translations: map<string, string>, code: string, defaultMessage: Option<string>): (m: string)
    ensures FirestoreErrorKey(code).None? && defaultMessage.Some? ==> m == defaultMessage.value
    ensures FirestoreErrorKey(code).None? && defaultMessage.None? ==> m == T(translations, "default_error_message")
    ensures FirestoreErrorKey(code).Some? ==> m == T(translations, FirestoreErrorKey(code).value)
  {
    match FirestoreErrorKey(code)
    case None => defaultMessage.GetOr(T(translations, "default_error_message"))
    case Some(k) => T(translations, k)
  }

  /**
    Distinct handled codes give distinct messages under every translation
    that keeps the three message keys apart, whatever the default.
   */
  lemma FirestoreErrorKeysDistinct(translations: map<string, string>, a: string, b: string, defaultMessage: Option<string>)
    requires KeepsApart(translations, FirestoreKeys)
    requires FirestoreErrorKey(a).Some? && FirestoreErrorKey(b).Some? && a != b
    ensures HandleFirebaseError(translations, a, defaultMessage) != HandleFirebaseError(translations, b, defaultMessage)
  {
    var ka, kb := FirestoreErrorKey(a).value, FirestoreErrorKey(b).value;
    assert ka in FirestoreKeys && kb in FirestoreKeys && ka != kb;
  }

  /** The fallback reviewer name in `updateReviewForm`. */
  const DefaultUserName: string := "مستخدم"

  /** A review document the page asks the store to add. */
  datatype ReviewWrite = ReviewWrite(workerId: Option<string>, comment: string, rating: int, userId: string, userName: string)

  /**
    The submit handler `updateReviewForm` installs. `selected` is the last
    star picked (0 before any pick), `workerId` the stored selected worker.
   */
  function SubmitReview(selected: int, rawComment: string, user: User, workerId: Option<string>): (r: Result<ReviewWrite, string>)
    ensures r.Success? <==> IsValidRating(selected) && !Text.AllSpace(rawComment)
    ensures r.Success? ==>
      && r.value.comment == Text.Trim(rawComment) && r.value.rating == selected
      && r.value.userId == user.uid && r.value.workerId == workerId
      && r.value.userName == OrElse(user.displayName, OrElse(user.email, DefaultUserName))
  {
    var comment := Text.Trim(rawComment);
    Text.TrimEmptyIffAllSpace(rawComment);
    if !IsValidRating(selected) || comment == "" then Failure("أدخل تعليقًا وتقييمًا.")
    else Success(ReviewWrite(workerId, comment, selected, user.uid, OrElse(user.displayName, OrElse(user.email, DefaultUserName))))
  }

  /** A written review always carries a non-empty comment and a 1..5 rating. */
  lemma SubmittedReviewWellFormed(selected: int, rawComment: string, user: User, workerId: Option<string>)
    ensures SubmitReview(selected, rawComment, user, workerId).Success? ==>
      var w := SubmitReview(selected, rawComment, user, workerId).value;
      w.comment != "" && 1 <= w.rating <= 5 && w.userName != ""
  {
    Text.TrimEmptyIffAllSpace(rawComment);
  }
}
