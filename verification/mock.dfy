/**
  The offline fixtures of `controllers/mock-data.js`: the mock reviews,
  the per-worker lookup, and the mock rating computed from them.
 */
module Mock {

  import opened Common
  import opened Model
  import Rating
  import Utils
  import Workers

  /** The five fixture reviews, without their reviewer names, comments and dates. */
  const MockReviews: seq<Review> := [
    Review("review1", "worker1", Some("user1"), "", Some(5), ""),
    Review("review2", "worker1", Some("user2"), "", Some(4), ""),
    Review("review3", "worker2", Some("user3"), "", Some(5), ""),
    Review("review4", "worker3", Some("user4"), "", Some(5), ""),
    Review("review5", "worker4", Some("user5"), "", Some(4), "")
  ]

  /** The ids of the fixture workers. */
  const MockWorkerIds: seq<string> := ["worker1", "worker2", "worker3", "worker4", "worker5", "worker6"]

  function ForWorker(w: string): Review -> bool
  {
    (r: Review) => r.workerId == w
  }

  /** `getMockReviews`: the fixture reviews of one worker, in fixture order. */
  function GetMockReviews(w: string): (rs: seq<Review>)
    ensures forall i :: 0 <= i < |rs| ==> rs[i].workerId == w && rs[i] in MockReviews
    ensures forall i :: 0 <= i < |MockReviews| && MockReviews[i].workerId == w ==> MockReviews[i] in rs
  {
    Filter(MockReviews, ForWorker(w))
  }

  /** Every fixture rating lies in 1..5, and no two fixture reviews share an id. */
  lemma FixturesWellFormed()
    ensures forall i :: 0 <= i < |MockReviews| ==> MockReviews[i].rating.Some? && 1 <= MockReviews[i].rating.value <= 5
    ensures forall i, j :: 0 <= i < j < |MockReviews| ==> MockReviews[i].id != MockReviews[j].id
  {
  }

  /** The lookup on the fixtures: worker1 has its two reviews, in fixture order. */
  lemma Worker1Lookup()
    ensures GetMockReviews("worker1") == [MockReviews[0], MockReviews[1]]
  {
    var m := MockReviews;
    var p := ForWorker("worker1");
    assert m == [m[0], m[1]] + [m[2], m[3], m[4]];
    FilterAppend([m[0], m[1]], [m[2], m[3], m[4]], p);
    Worker1Front();
    Worker1Back();
  }

  lemma Worker1Front()
    ensures Filter([MockReviews[0], MockReviews[1]], ForWorker("worker1")) == [MockReviews[0], MockReviews[1]]
  {
    FilterAll([MockReviews[0], MockReviews[1]], ForWorker("worker1"));
  }

  lemma Worker1Back()
    ensures Filter([MockReviews[2], MockReviews[3], MockReviews[4]], ForWorker("worker1")) == []
  {
    FilterNone([MockReviews[2], MockReviews[3], MockReviews[4]], ForWorker("worker1"));
  }

  /** A worker named by no fixture review, such as worker5 or worker6, gets no reviews. */
  lemma NoneForOther(w: string)
    requires forall i :: 0 <= i < |MockReviews| ==> MockReviews[i].workerId != w
    ensures GetMockReviews(w) == []
  {
    FilterNone(MockReviews, ForWorker(w));
  }

  /** What `calculateMockRating` returns: a JavaScript number or a string. */
  datatype MockValue = Number(n: nat) | Text(text: string)

  /**
    `calculateMockRating` as written: the number 0 for a worker without
    reviews, otherwise the mean rating to one decimal as a string.
   */
  function CalculateMockRatingAsWritten(w: string): (v: MockValue)
    ensures GetMockReviews(w) == [] <==> v == Number(0)
    ensures v.Text? ==>
      Rating.ParseShown(v.text) == Some(Rating.RoundTenths(Sum(Utils.RatingsOrZero(GetMockReviews(w))), |GetMockReviews(w)|))
  {
    var rs := GetMockReviews(w);
    if |rs| == 0 then Number(0) else Text(Rating.FromTotals(Sum(Utils.RatingsOrZero(rs)), |rs|))
  }

  /** The corrected `calculateMockRating`: "0.0" for a worker without reviews, like every other rating on the site. */
  function CalculateMockRating(w: string): (text: string)
    ensures GetMockReviews(w) == [] ==> text == Rating.Zero
    ensures GetMockReviews(w) != [] ==>
      Rating.ParseShown(text) == Some(Rating.RoundTenths(Sum(Utils.RatingsOrZero(GetMockReviews(w))), |GetMockReviews(w)|))
  {
    var rs := GetMockReviews(w);
    Rating.FromTotals(Sum(Utils.RatingsOrZero(rs)), |rs|)
  }

  /** The written version differs from the corrected one exactly on a worker without reviews. */
  lemma AsWrittenDiffersOnlyWhenEmpty(w: string)
    ensures CalculateMockRatingAsWritten(w) == Text(CalculateMockRating(w)) <==> GetMockReviews(w) != []
  {
  }

  /** worker5 has no reviews: the written version hands back the number 0 where a rating text is expected. */
  lemma EmptyWorkerGetsNumber()
    ensures CalculateMockRatingAsWritten("worker5") == Number(0)
    ensures CalculateMockRating("worker5") == Rating.Zero
  {
    NoneForOther("worker5");
  }

  /**
    Since every fixture review is rated, the corrected mock rating is the
    one `calculateAverageRating` and the worker list compute from the same
    reviews.
   */
  lemma MockRatingAgreesWithSite(w: string)
    ensures CalculateMockRating(w) == Utils.CalculateAverageRating(Some(GetMockReviews(w)))
    ensures CalculateMockRating(w) == Workers.WorkerAverage(MockReviews, w)
  {
    FixturesWellFormed();
    FilterExt(MockReviews, ForWorker(w), Workers.RatedFor(w));
  }

  /** worker1's reviews (5 and 4) give "4.5". */
  lemma Worker1Rating()
    ensures Rating.ParseShown(CalculateMockRating("worker1")) == Some(45)
  {
    Worker1Lookup();
    var rs := GetMockReviews("worker1");
    var xs := Utils.RatingsOrZero(rs);
    assert |rs| == 2 && xs[0] == 5 && xs[1] == 4;
    assert xs[..1][..0] == [] && xs[..1][0] == 5;
    assert Sum(xs[..1]) == 5;
    assert Rating.RoundTenths(9, 2) == 45;
  }
}
