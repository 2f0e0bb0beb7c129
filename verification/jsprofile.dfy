/**
  The older profile page (`js/worker_profile.js`): the same review scan and
  form gating as the controller page, but review cards carry their rating
  as a `★`/`☆` string and as `data-` attributes, edits are checked and
  patched into the card, and the average is recomputed by counting `★` in
  every card.
 */
module JsProfile {

  import opened Common
  import opened Model
  import Numbers
  import Profile
  import Rating
  import Text
  import Utils

  const FullStar: char := '★'
  const EmptyStar: char := '☆'

  /** `"★".repeat(r) + "☆".repeat(5 - r)`; above 5 the second `repeat` throws. */
  function StarText(r: nat): (s: Option<string>)
    ensures s.Some? <==> r <= 5
    ensures s.Some? ==> |s.value| == 5
  {
    if r <= 5 then Some(Text.Repeat(FullStar, r) + Text.Repeat(EmptyStar, 5 - r)) else None
  }

  /** `text.split("").filter(s => s === "★").length`. */
  function StarCount(text: string): nat
  {
    Text.CountChar(text, FullStar)
  }

  /** Counting the filled stars of a star string gives back the rating it encodes. */
  lemma StarTextRoundTrip(r: nat)
    requires r <= 5
    ensures StarCount(StarText(r).value) == r
    ensures Text.CountChar(StarText(r).value, EmptyStar) == 5 - r
  {
    var a, b := Text.Repeat(FullStar, r), Text.Repeat(EmptyStar, 5 - r);
    Text.CountCharAppend(a, b, FullStar);
    Text.CountCharAppend(a, b, EmptyStar);
    Text.CountRepeat(FullStar, FullStar, r);
    Text.CountRepeat(EmptyStar, FullStar, 5 - r);
    Text.CountRepeat(FullStar, EmptyStar, r);
    Text.CountRepeat(EmptyStar, EmptyStar, 5 - r);
  }

  /** The card's star string is the shared `formatStars` of the whole rating. */
  lemma StarTextIsFormatStars(r: nat)
    ensures StarText(r) == Utils.FormatStars(10 * r)
  {
  }

  /** A rendered review card: its attributes, its star string and whether it has edit/delete buttons. */
  datatype JsCard = JsCard(reviewId: string, dataComment: string, dataRating: string, stars: string, controls: bool)

  datatype JsView = JsView(average: string, cards: seq<JsCard>, form: Profile.FormView)

  predicate RatingsOnScale(rs: seq<Review>)
  {
    forall i :: 0 <= i < |rs| ==> OrZero(rs[i].rating) <= 5
  }

  /**
    The `onAuthStateChanged` handler after the query: `None` when a rating
    above 5 makes a star string throw, which abandons the page update.
   */
  method RenderReviews(rs: seq<Review>, uid: string) returns (v: Option<JsView>)
    ensures v.Some? <==> RatingsOnScale(rs)
    ensures v.Some? ==> v.value.average == Utils.CalculateAverageRating(Some(rs))
    ensures v.Some? ==> |v.value.cards| == |rs|
    ensures v.Some? ==> forall i :: 0 <= i < |rs| ==>
      && v.value.cards[i].reviewId == rs[i].id
      && v.value.cards[i].dataComment == rs[i].comment
      && v.value.cards[i].dataRating == Numbers.NatToString(OrZero(rs[i].rating))
      && StarText(OrZero(rs[i].rating)) == Some(v.value.cards[i].stars)
      && (v.value.cards[i].controls <==> Profile.Owns(rs[i], uid))
    ensures v.Some? ==> (v.value.form == Profile.ReviewForm <==> !Profile.HasReviewed(rs, uid))
  {
    if !RatingsOnScale(rs) {
      return None;
    }
    var s := Profile.ScanReviews(rs, uid);
    var cards := seq(|rs|, i requires 0 <= i < |rs| && OrZero(rs[i].rating) <= 5 =>
      JsCard(rs[i].id, rs[i].comment, Numbers.NatToString(OrZero(rs[i].rating)), StarText(OrZero(rs[i].rating)).value, Profile.Owns(rs[i], uid)));
    var average := Rating.FromTotals(s.total, s.count);
    v := Some(JsView(average, cards, if s.reviewed then Profile.AlreadyRated else Profile.ReviewForm));
  }

  /**
    The submit handler attached when the user has not reviewed yet: the
    rating is `parseInt` of the field and must be 1..5; the comment is
    trimmed but not checked.
   */
  function SubmitReview(rawRating: string, rawComment: string, user: User, workerUid: string): (r: Result<Utils.ReviewWrite, string>)
    ensures r.Success? <==> Numbers.ParseInt(rawRating).Some? && 1 <= Numbers.ParseInt(rawRating).value <= 5
    ensures r.Success? ==>
      && Numbers.ParseInt(rawRating) == Some(r.value.rating)
      && r.value.comment == Text.Trim(rawComment) && r.value.workerId == Some(workerUid)
      && r.value.userId == user.uid
      && r.value.userName == OrElse(user.displayName, OrElse(user.email, Utils.DefaultUserName))
  {
    match Numbers.ParseInt(rawRating)
    case None => Failure("يرجى اختيار تقييم صالح")
    case Some(rating) =>
      if rating == 0 || rating < 1 || rating > 5 then Failure("يرجى اختيار تقييم صالح")
      else
        var name := OrElse(user.displayName, OrElse(user.email, Utils.DefaultUserName));
        Success(Utils.ReviewWrite(Some(workerUid), Text.Trim(rawComment), rating, user.uid, name))
  }

  /**
    On a rating field holding `String(k)` the older submit accepts exactly
    the ratings the shared check accepts and, for a comment that is not
    blank, writes what the shared one writes; on a blank comment it still
    writes, with an empty comment.
   */
  lemma SubmitReviewVersusShared(k: int, rawComment: string, user: User, workerUid: string)
    ensures SubmitReview(Numbers.IntToString(k), rawComment, user, workerUid).Success? <==> Utils.IsValidRating(k)
    ensures !Text.AllSpace(rawComment) && Utils.IsValidRating(k) ==>
      Utils.SubmitReview(k, rawComment, user, Some(workerUid)).Success? &&
      SubmitReview(Numbers.IntToString(k), rawComment, user, workerUid).value == Utils.SubmitReview(k, rawComment, user, Some(workerUid)).value
    ensures Text.AllSpace(rawComment) && Utils.IsValidRating(k) ==>
      SubmitReview(Numbers.IntToString(k), rawComment, user, workerUid).value.comment == ""
  {
    Numbers.ParseIntOfString(k);
    Text.TrimEmptyIffAllSpace(rawComment);
    var mine := SubmitReview(Numbers.IntToString(k), rawComment, user, workerUid);
    if mine.Success? && !Text.AllSpace(rawComment) {
      var theirs := Utils.SubmitReview(k, rawComment, user, Some(workerUid));
      assert mine.value == theirs.value;
    }
  }

  /** The edit save: the update sent, and the card as patched afterwards. */
  datatype EditOutcome = EditOutcome(write: Profile.ReviewEdit, card: JsCard)

  /** The save handler of `showEditForm`: the parsed rating must be 1..5, then the card takes the new values. */
  function SaveEdit(card: JsCard, rawText: string, rawRating: string): (r: Result<EditOutcome, string>)
    ensures r.Success? <==> Numbers.ParseInt(rawRating).Some? && 1 <= Numbers.ParseInt(rawRating).value <= 5
    ensures r.Success? ==>
      var v := Numbers.ParseInt(rawRating).value;
      && r.value.write == Profile.ReviewEdit(Text.Trim(rawText), Some(v))
      && r.value.card.reviewId == card.reviewId && r.value.card.controls == card.controls
      && r.value.card.dataComment == Text.Trim(rawText)
      && Numbers.ParseInt(r.value.card.dataRating) == Some(v)
      && StarText(v) == Some(r.value.card.stars) && StarCount(r.value.card.stars) == v
  {
    match Numbers.ParseInt(rawRating)
    case None => Failure("يرجى اختيار تقييم صالح")
    case Some(rating) =>
      if rating == 0 || rating < 1 || rating > 5 then Failure("يرجى اختيار تقييم صالح")
      else
        var comment := Text.Trim(rawText);
        Numbers.ParseIntOfString(rating);
        StarTextRoundTrip(rating);
        var patched := card.(dataComment := comment, dataRating := Numbers.IntToString(rating), stars := StarText(rating).value);
        Success(EditOutcome(Profile.ReviewEdit(comment, Some(rating)), patched))
  }

  /** What the edit form opens with. */
  datatype EditStart = EditStart(comment: string, value: int)

  /**
    The opening values of `showEditForm`: the saved attributes when both
    exist, else the card's comment text and its `★` count (5 when none);
    the number field shows 5 in place of 0 or `NaN`.
   */
  function OpenEdit(savedComment: Option<string>, savedRating: Option<string>, shownComment: string, shownStars: string): (e: EditStart)
    ensures e.value != 0
    ensures savedComment.Some? && savedRating.Some? ==> e.comment == savedComment.value
    ensures savedComment.None? || savedRating.None? ==> e.comment == shownComment && e.value >= 1
  {
    if savedComment.Some? && savedRating.Some? then
      var rating := Numbers.ParseInt(savedRating.value);
      EditStart(savedComment.value, if rating.Some? && rating.value != 0 then rating.value else 5)
    else
      var count := StarCount(shownStars);
      EditStart(shownComment, if count > 0 then count else 5)
  }

  /**
    A card rendered for rating `r` opens the edit form on `r` (5 for an
    unrated review) whether the attributes or the star string are read.
   */
  lemma OpenEditOfRenderedCard(r: nat, comment: string, shownComment: string, shownStars: string)
    requires r <= 5
    ensures OpenEdit(Some(comment), Some(Numbers.NatToString(r)), shownComment, shownStars).value == if r == 0 then 5 else r
    ensures OpenEdit(None, None, shownComment, StarText(r).value).value == if r == 0 then 5 else r
  {
    assert Numbers.ParseInt(Numbers.NatToString(r)) == Some(r) by {
      Numbers.ParseIntOfIntToString(r, "");
      assert Numbers.IntToString(r) + "" == Numbers.NatToString(r);
    }
    StarTextRoundTrip(r);
  }

  /** After a successful edit the form reopens on the new comment and rating. */
  lemma EditedCardReopens(card: JsCard, rawText: string, rawRating: string, shownComment: string, shownStars: string)
    ensures SaveEdit(card, rawText, rawRating).Success? ==>
      var c := SaveEdit(card, rawText, rawRating).value.card;
      OpenEdit(Some(c.dataComment), Some(c.dataRating), shownComment, shownStars)
        == EditStart(Text.Trim(rawText), Numbers.ParseInt(rawRating).value)
  {
  }

  /** Total of the `★` counts of a run of star strings. */
  function StarTotal(texts: seq<string>): nat
  {
    if |texts| == 0 then 0 else StarTotal(texts[..|texts| - 1]) + StarCount(texts[|texts| - 1])
  }

  function CardStars(cards: seq<JsCard>): (texts: seq<string>)
    ensures |texts| == |cards| && forall i :: 0 <= i < |cards| ==> texts[i] == cards[i].stars
  {
    seq(|cards|, i requires 0 <= i < |cards| => cards[i].stars)
  }

  /** `recalculateAverageRating`: every card's `★` count, averaged to one decimal. */
  function RecalculateAverage(cards: seq<JsCard>): (text: string)
    ensures |cards| == 0 ==> text == Rating.Zero
    ensures |cards| > 0 ==> Rating.ParseShown(text) == Some(Rating.RoundTenths(StarTotal(CardStars(cards)), |cards|))
  {
    Rating.FromTotals(StarTotal(CardStars(cards)), |cards|)
  }

  /** Cards whose star strings encode the reviews' ratings, in order. */
  predicate Encodes(cards: seq<JsCard>, rs: seq<Review>)
  {
    |cards| == |rs| && forall i :: 0 <= i < |rs| ==> StarText(OrZero(rs[i].rating)) == Some(cards[i].stars)
  }

  lemma {:induction false} StarTotalOfEncoding(cards: seq<JsCard>, rs: seq<Review>)
    requires Encodes(cards, rs)
    ensures StarTotal(CardStars(cards)) == Sum(Utils.RatingsOrZero(rs))
    decreases |rs|
  {
    if |rs| > 0 {
      var n := |rs| - 1;
      var cs, rs' := cards[..n], rs[..n];
      assert Encodes(cs, rs') by {
        forall i | 0 <= i < n ensures StarText(OrZero(rs'[i].rating)) == Some(cs[i].stars) {
          assert rs'[i] == rs[i] && cs[i] == cards[i];
        }
      }
      StarTotalOfEncoding(cs, rs');
      assert CardStars(cards)[..n] == CardStars(cs);
      assert rs == rs' + [rs[n]];
      Utils.RatingsOrZeroSnoc(rs', rs[n]);
      StarTextRoundTrip(OrZero(rs[n].rating));
    }
  }

  /**
    Recounting stars on cards that encode the reviews gives the average the
    page first showed for those reviews.
   */
  lemma RecalculateMatchesAverage(cards: seq<JsCard>, rs: seq<Review>)
    requires Encodes(cards, rs)
    ensures RecalculateAverage(cards) == Utils.CalculateAverageRating(Some(rs))
  {
    StarTotalOfEncoding(cards, rs);
  }

  /** After an edit patches card `k`, the recount is the average with review `k` carrying the new rating. */
  lemma RecalculateAfterEdit(cards: seq<JsCard>, rs: seq<Review>, k: nat, rawText: string, rawRating: string)
    requires Encodes(cards, rs) && k < |rs|
    ensures SaveEdit(cards[k], rawText, rawRating).Success? ==>
      var v := Numbers.ParseInt(rawRating).value;
      RecalculateAverage(cards[k := SaveEdit(cards[k], rawText, rawRating).value.card])
        == Utils.CalculateAverageRating(Some(rs[k := rs[k].(rating := Some(v as nat))]))
  {
    if SaveEdit(cards[k], rawText, rawRating).Success? {
      RecalculateEdited(cards, rs, k, rawText, rawRating);
    }
  }

  lemma RecalculateEdited(cards: seq<JsCard>, rs: seq<Review>, k: nat, rawText: string, rawRating: string)
    requires Encodes(cards, rs) && k < |rs|
    requires SaveEdit(cards[k], rawText, rawRating).Success?
    ensures var v := Numbers.ParseInt(rawRating).value;
      RecalculateAverage(cards[k := SaveEdit(cards[k], rawText, rawRating).value.card])
        == Utils.CalculateAverageRating(Some(rs[k := rs[k].(rating := Some(v as nat))]))
  {
    var v := Numbers.ParseInt(rawRating).value;
    var cards' := cards[k := SaveEdit(cards[k], rawText, rawRating).value.card];
    var rs' := rs[k := rs[k].(rating := Some(v as nat))];
    assert Encodes(cards', rs') by {
      forall i | 0 <= i < |rs'| ensures StarText(OrZero(rs'[i].rating)) == Some(cards'[i].stars) {
        if i == k {
          assert cards'[i].stars == StarText(v as nat).value;
        }
      }
    }
    RecalculateMatchesAverage(cards', rs');
  }
}
