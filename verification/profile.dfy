/**
  The review section of the worker profile page (`controllers/worker_profile.js`):
  the scan over the worker's reviews that totals the ratings and finds the
  signed-in user's own review, the gating of the new-review form, the
  owner-only edit/delete controls, and the three writes the page can make
  (new review, `saveRating`, edit).
 */
module Profile {

  import opened Common
  import opened Model
  import Numbers
  import Rating
  import Sanitize
  import Text
  import Utils

  /** `r.userId === currentUserId`: reviews stored without a `userId` belong to nobody. */
  predicate Owns(r: Review, uid: string)
  {
    r.userId == Some(uid)
  }

  predicate HasReviewed(rs: seq<Review>, uid: string)
  {
    exists i :: 0 <= i < |rs| && Owns(rs[i], uid)
  }

  /** Review `i` is the user's and no later review is. */
  predicate LastOwnedAt(rs: seq<Review>, uid: string, i: int)
  {
    0 <= i < |rs| && Owns(rs[i], uid) && forall j :: i < j < |rs| ==> !Owns(rs[j], uid)
  }

  /** The id of the last review in query order that the user owns. */
  function LastOwned(rs: seq<Review>, uid: string): (r: Option<string>)
    ensures r.None? <==> !HasReviewed(rs, uid)
    ensures r.Some? ==> exists i :: LastOwnedAt(rs, uid, i) && rs[i].id == r.value
  {
    if |rs| == 0 then None
    else if Owns(rs[|rs| - 1], uid) then
      assert LastOwnedAt(rs, uid, |rs| - 1);
      Some(rs[|rs| - 1].id)
    else
      var init := rs[..|rs| - 1];
      var r := LastOwned(init, uid);
      assert HasReviewed(rs, uid) ==> HasReviewed(init, uid) by {
        if HasReviewed(rs, uid) {
          var i :| 0 <= i < |rs| && Owns(rs[i], uid);
          assert init[i] == rs[i];
        }
      }
      if r.Some? then
        var i :| LastOwnedAt(init, uid, i) && init[i].id == r.value;
        assert forall j :: i < j < |rs| - 1 ==> rs[j] == init[j];
        assert LastOwnedAt(rs, uid, i);
        r
      else
        assert forall i :: 0 <= i < |rs| - 1 ==> rs[i] == init[i];
        r
  }

  /** What the `forEach` over the query snapshot accumulates. */
  datatype Scan = Scan(total: nat, count: nat, reviewed: bool, docId: Option<string>)

  /**
    The scan in `fetchAndRenderReviews`: every review adds `rating || 0` to
    the total and one to the count; a review owned by the user sets the flag
    and overwrites the remembered document id.
   */
  method ScanReviews(rs: seq<Review>, uid: string) returns (s: Scan)
    ensures s.total == Sum(Utils.RatingsOrZero(rs)) && s.count == |rs|
    ensures s.reviewed <==> HasReviewed(rs, uid)
    ensures s.docId == LastOwned(rs, uid)
  {
    var total, reviewed, docId := 0, false, None;
    var i := 0;
    while i < |rs|
      invariant 0 <= i <= |rs|
      invariant total == Sum(Utils.RatingsOrZero(rs[..i]))
      invariant reviewed <==> HasReviewed(rs[..i], uid)
      invariant docId == LastOwned(rs[..i], uid)
    {
      ScanStep(rs, i, uid);
      var r := rs[i];
      total := total + OrZero(r.rating);
      if Owns(r, uid) {
        reviewed, docId := true, Some(r.id);
      }
      i := i + 1;
    }
    assert rs[..i] == rs;
    s := Scan(total, i, reviewed, docId);
  }

  /** What one more review does to the three things the scan tracks. */
  lemma ScanStep(rs: seq<Review>, i: nat, uid: string)
    requires i < |rs|
    ensures Sum(Utils.RatingsOrZero(rs[..i + 1])) == Sum(Utils.RatingsOrZero(rs[..i])) + OrZero(rs[i].rating)
    ensures HasReviewed(rs[..i + 1], uid) <==> HasReviewed(rs[..i], uid) || Owns(rs[i], uid)
    ensures LastOwned(rs[..i + 1], uid) == if Owns(rs[i], uid) then Some(rs[i].id) else LastOwned(rs[..i], uid)
  {
    var init, r := rs[..i], rs[i];
    assert rs[..i + 1] == init + [r];
    assert rs[..i + 1][..i] == init;
    Utils.RatingsOrZeroSnoc(init, r);
    var xs := Utils.RatingsOrZero(init);
    assert (xs + [OrZero(r.rating)])[..|xs|] == xs;
    if HasReviewed(init, uid) {
      var j :| 0 <= j < |init| && Owns(init[j], uid);
      assert rs[..i + 1][j] == init[j];
    }
    if Owns(r, uid) {
      assert rs[..i + 1][i] == r;
    }
  }

  /** The form area under the reviews. */
  datatype FormView = ReviewForm | AlreadyRated

  /** One rendered review card: its id, its comment and whether edit/delete buttons are attached. */
  datatype Card = Card(reviewId: string, comment: string, rating: nat, controls: bool)

  datatype ProfileView = ProfileView(average: string, stars: seq<Utils.Star>, cards: seq<Card>, form: FormView)

  /**
    `fetchAndRenderReviews` after the query: one card per review in query
    order, the average from the totals with its star row, and the form
    area.
   */
  method RenderReviews(rs: seq<Review>, uid: string) returns (v: ProfileView)
    ensures v.average == Utils.CalculateAverageRating(Some(rs))
    ensures Rating.ParseShown(v.average).Some?
    ensures v.stars == Utils.DisplayRatingStars(Rating.ParseShown(v.average).value, 5)
    ensures |v.cards| == |rs|
    ensures forall i :: 0 <= i < |rs| ==>
      v.cards[i].reviewId == rs[i].id && v.cards[i].comment == rs[i].comment &&
      v.cards[i].rating == OrZero(rs[i].rating) &&
      (v.cards[i].controls <==> Owns(rs[i], uid))
    ensures v.form == ReviewForm <==> !HasReviewed(rs, uid)
  {
    var s := ScanReviews(rs, uid);
    var cards := seq(|rs|, i requires 0 <= i < |rs| => Card(rs[i].id, rs[i].comment, OrZero(rs[i].rating), Owns(rs[i], uid)));
    var avg := Rating.FromTotals(s.total, s.count);
    var tenths: nat;
    if s.count == 0 {
      Rating.ShowZero();
      Rating.ParseShownIff(avg, 0);
      tenths := 0;
    } else {
      tenths := Rating.RoundTenths(s.total, s.count);
    }
    v := ProfileView(avg, Utils.DisplayRatingStars(tenths, 5), cards, if s.reviewed then AlreadyRated else ReviewForm);
  }

  /**
    The submit handler `setupReviewForm` installs. It differs from the
    shared one only in the fallback name, which is the translation of
    "default_user_name".
   */
  function SubmitReview(translations: map<string, string>, selected: int, rawComment: string, user: User, workerId: Option<string>)
    : (r: Result<Utils.ReviewWrite, string>)
    ensures r.Success? <==> Utils.IsValidRating(selected) && !Text.AllSpace(rawComment)
    ensures r.Success? ==>
      && r.value.comment == Text.Trim(rawComment) && r.value.comment != ""
      && r.value.rating == selected && r.value.userId == user.uid && r.value.workerId == workerId
      && r.value.userName == OrElse(user.displayName, OrElse(user.email, Utils.T(translations, "default_user_name")))
  {
    var comment := Text.Trim(rawComment);
    Text.TrimEmptyIffAllSpace(rawComment);
    if !Utils.IsValidRating(selected) || comment == "" then Failure("missing_rating_message")
    else
      var name := OrElse(user.displayName, OrElse(user.email, Utils.T(translations, "default_user_name")));
      Success(Utils.ReviewWrite(workerId, comment, selected, user.uid, name))
  }

  /** With the Arabic default translated as such, the page's submit and the shared one write the same review. */
  lemma SubmitReviewAgreesWithShared(translations: map<string, string>, selected: int, rawComment: string, user: User, workerId: Option<string>)
    requires Utils.T(translations, "default_user_name") == Utils.DefaultUserName
    ensures SubmitReview(translations, selected, rawComment, user, workerId).Success?
      == Utils.SubmitReview(selected, rawComment, user, workerId).Success?
    ensures SubmitReview(translations, selected, rawComment, user, workerId).Success? ==>
      SubmitReview(translations, selected, rawComment, user, workerId).value == Utils.SubmitReview(selected, rawComment, user, workerId).value
  {
  }

  /** The review document as the next query returns it. */
  function Stored(w: Utils.ReviewWrite, id: string): (r: Review)
    requires w.rating >= 0
    ensures r.id == id && r.userId == Some(w.userId) && r.rating == Some(w.rating as nat)
  {
    Review(id, w.workerId.GetOr(""), Some(w.userId), w.userName, Some(w.rating as nat), w.comment)
  }

  /** Once a new review is stored, the next render offers no form to its author and gives them the controls on it. */
  lemma SubmittedReviewGatesForm(translations: map<string, string>, selected: int, rawComment: string, user: User,
                                 workerId: Option<string>, rs: seq<Review>, id: string)
    requires SubmitReview(translations, selected, rawComment, user, workerId).Success?
    ensures var r := Stored(SubmitReview(translations, selected, rawComment, user, workerId).value, id);
      HasReviewed(rs + [r], user.uid) && LastOwned(rs + [r], user.uid) == Some(id)
  {
    var r := Stored(SubmitReview(translations, selected, rawComment, user, workerId).value, id);
    assert (rs + [r])[|rs|] == r;
  }

  /** Why `saveRating` stops. */
  datatype SaveError = RatingRequired | CommentRequired | NoWorkerSelected

  /** The document `saveRating` adds: the reviewer goes under `clientId`, and there is no `userId`. */
  datatype RatingWrite = RatingWrite(workerId: string, clientId: string, rating: Option<int>, comment: string)

  /**
    `saveRating`. `checked` holds the values of the checked rating inputs,
    `workerId` the stored selected worker ("" when absent).
   */
  function SaveRating(checked: seq<string>, rawComment: string, workerId: string, uid: string): (r: Result<RatingWrite, SaveError>)
    ensures r == Failure(RatingRequired) <==> |checked| == 0
    ensures r == Failure(CommentRequired) <==> |checked| > 0 && |Text.Trim(rawComment)| < 5
    ensures r == Failure(NoWorkerSelected) <==> |checked| > 0 && |Text.Trim(rawComment)| >= 5 && workerId == ""
    ensures r.Success? ==>
      && r.value.workerId == workerId && workerId != "" && r.value.clientId == uid
      && r.value.rating == Numbers.ParseInt(checked[0])
      && |Text.Trim(rawComment)| >= 5
      && r.value.comment == Sanitize.EscapeText(Some(Text.Trim(rawComment)))
  {
    var comment := Text.Trim(rawComment);
    if |checked| == 0 then Failure(RatingRequired)
    else if comment == "" || |comment| < 5 then Failure(CommentRequired)
    else if workerId == "" then Failure(NoWorkerSelected)
    else Success(RatingWrite(workerId, uid, Numbers.ParseInt(checked[0]), Sanitize.EscapeText(Some(comment))))
  }

  /** The stored comment of `saveRating` is inert markup that reads back to the trimmed comment. */
  lemma SaveRatingCommentIsSafe(checked: seq<string>, rawComment: string, workerId: string, uid: string)
    ensures SaveRating(checked, rawComment, workerId, uid).Success? ==>
      var c := SaveRating(checked, rawComment, workerId, uid).value.comment;
      Sanitize.TextInert(c) && Sanitize.TextUnescape(c) == Some(Text.Trim(rawComment))
  {
    Sanitize.EscapeTextSafe(Text.Trim(rawComment));
  }

  /** The review document as the next query returns it: no `userId` field. */
  function StoredRating(w: RatingWrite, id: string): (r: Review)
    ensures r.id == id && r.userId.None?
  {
    var rating := if w.rating.Some? && w.rating.value >= 0 then Some(w.rating.value as nat) else None;
    Review(id, w.workerId, None, "", rating, w.comment)
  }

  /** A rating saved through `saveRating` never counts as the user's own review, so the form stays offered. */
  lemma SavedRatingNeverOwned(rs: seq<Review>, w: RatingWrite, id: string, uid: string)
    ensures HasReviewed(rs + [StoredRating(w, id)], uid) <==> HasReviewed(rs, uid)
    ensures LastOwned(rs + [StoredRating(w, id)], uid) == LastOwned(rs, uid)
  {
    var xs := rs + [StoredRating(w, id)];
    assert xs[..|xs| - 1] == rs;
    if HasReviewed(rs, uid) {
      var i :| 0 <= i < |rs| && Owns(rs[i], uid);
      assert xs[i] == rs[i];
    }
  }

  /** The update `showEditForm`'s save button sends. */
  datatype ReviewEdit = ReviewEdit(comment: string, rating: Option<int>)

  /**
    The rating the edit form starts from: `parseInt` of the card's
    `data-rating`, which the render wrote as `rating || 0`.
   */
  function EditStartRating(card: Card): (v: Option<int>)
    ensures v == Some(card.rating as int)
  {
    Numbers.ParseIntOfIntToString(card.rating, "");
    assert Numbers.IntToString(card.rating) + "" == Numbers.IntToString(card.rating);
    Numbers.ParseInt(Numbers.IntToString(card.rating))
  }

  /**
    The save handler of `showEditForm`: the trimmed text and the edited
    rating (the start rating until a star is picked), with no check on
    either.
   */
  function EditReview(rawText: string, edited: Option<int>): (e: ReviewEdit)
    ensures e.comment == Text.Trim(rawText) && e.rating == edited
  {
    ReviewEdit(Text.Trim(rawText), edited)
  }

  /**
    The edit path writes what the new-review path refuses: a blank comment
    with a zero rating, as left by a card whose review had no rating.
   */
  lemma EditSkipsValidation(translations: map<string, string>, user: User, workerId: Option<string>, card: Card)
    requires card.rating == 0
    ensures SubmitReview(translations, card.rating, " ", user, workerId).Failure?
    ensures EditReview(" ", EditStartRating(card)) == ReviewEdit("", Some(0))
  {
    assert Text.AllSpace(" ");
    Text.TrimEmptyIffAllSpace(" ");
  }
}
