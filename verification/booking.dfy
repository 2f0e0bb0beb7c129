/**
  The booking page (`controllers/booking.js`, `js/booking.js`): the worker's
  rating shown next to the form, the price shown for the chosen service,
  the guard for a missing selected worker, and the checks and record of a
  booking submit.
 */
module Booking {

  import opened Common
  import opened Model
  import Dashboard
  import Numbers
  import Rating
  import Utils
  import Workers

  /**
    `calculateWorkerRating` (identical in both copies). `snapshot` is the
    query for the worker's reviews, `None` when it fails. An empty
    snapshot or a failure gives "0.0"; otherwise every review adds
    `rating || 0` and one to the count.
   */
  method CalculateWorkerRating(snapshot: Option<seq<Review>>) returns (text: string)
    ensures snapshot.None? || snapshot.value == [] ==> text == Rating.Zero
    ensures snapshot.Some? && snapshot.value != [] ==>
      Rating.ParseShown(text) == Some(Rating.RoundTenths(Sum(Utils.RatingsOrZero(snapshot.value)), |snapshot.value|))
    ensures text == Utils.CalculateAverageRating(snapshot)
  {
    if snapshot.None? || snapshot.value == [] {
      return Rating.Zero;
    }
    var rs := snapshot.value;
    var total: nat, count: nat := 0, 0;
    var i := 0;
    while i < |rs|
      invariant 0 <= i <= |rs|
      invariant total == Sum(Utils.RatingsOrZero(rs[..i])) && count == i
    {
      assert rs[..i + 1] == rs[..i] + [rs[i]];
      Utils.RatingsOrZeroSnoc(rs[..i], rs[i]);
      var xs := Utils.RatingsOrZero(rs[..i]);
      assert (xs + [OrZero(rs[i].rating)])[..|xs|] == xs;
      total := total + OrZero(rs[i].rating);
      count := count + 1;
      i := i + 1;
    }
    assert rs[..i] == rs;
    text := Rating.FromTotals(total, count);
  }

  /**
    When every review of the worker carries a rating, the booking page and
    the worker list (which skips unrated reviews) show the same rating.
   */
  lemma AgreesWithWorkerListWhenAllRated(rs: seq<Review>, w: string)
    requires forall i :: 0 <= i < |rs| ==> rs[i].workerId == w && rs[i].rating.Some?
    ensures Utils.CalculateAverageRating(Some(rs)) == Workers.WorkerAverage(rs, w)
  {
    FilterAll(rs, Workers.RatedFor(w));
  }

  /**
    A review without a rating still counts on the booking page, where the
    worker list skips it: after fully rated reviews, an unrated one lowers
    the booking page's average but not the worker list's.
   */
  lemma UnratedReviewSplitsAverages(rs: seq<Review>, r: Review, w: string)
    requires |rs| > 0 && forall i :: 0 <= i < |rs| ==> rs[i].workerId == w && rs[i].rating.Some?
    requires r.workerId == w && r.rating.None?
    ensures Rating.ParseShown(Utils.CalculateAverageRating(Some(rs + [r]))) ==
      Some(Rating.RoundTenths(Sum(Utils.RatingsOrZero(rs)), |rs| + 1))
    ensures Rating.ParseShown(Workers.WorkerAverage(rs + [r], w)) ==
      Some(Rating.RoundTenths(Sum(Utils.RatingsOrZero(rs)), |rs|))
  {
    Utils.UnratedReviewCountsAsZero(rs, r);
    Workers.IgnoredReviewKeepsAverage(rs, r, w);
    AgreesWithWorkerListWhenAllRated(rs, w);
  }

  /** A 4 and an unrated review show 2.0 on the booking page and 4.0 on the worker list. */
  lemma UnratedReviewSplitsPages(a: Review, b: Review, w: string)
    requires a.workerId == w && a.rating == Some(4)
    requires b.workerId == w && b.rating.None?
    ensures Rating.ParseShown(Utils.CalculateAverageRating(Some([a, b]))) == Some(20)
    ensures Rating.ParseShown(Workers.WorkerAverage([a, b], w)) == Some(40)
  {
    assert Utils.RatingsOrZero([a]) == [4] && Sum([4]) == 4 by {
      assert [a][..0] == [];
      assert [4][..0] == [];
    }
    UnratedReviewSplitsAverages([a], b, w);
    assert [a] + [b] == [a, b];
    assert Rating.RoundTenths(4, 2) == 20 && Rating.RoundTenths(4, 1) == 40;
  }

  /**
    The total shown when a service is chosen: `parseInt` of its
    `data-price`, written back as text ("NaN" when it does not parse).
   */
  function PriceText(dataPrice: string): (text: string)
    ensures Numbers.ParseInt(dataPrice).None? <==> text == "NaN"
  {
    match Numbers.ParseInt(dataPrice)
    case None => "NaN"
    case Some(n) =>
      assert Numbers.IntToString(n)[0] != 'N' by {
        if n >= 0 {
          assert Numbers.IsDigit(Numbers.NatToString(n)[0]);
        }
      }
      Numbers.IntToString(n)
  }

  /** A price written as digits, followed by anything that does not continue the number, shows as that number. */
  lemma PriceTextOfPrice(n: int, suffix: string)
    requires suffix == [] || !(Numbers.IsDigit(suffix[0]) || suffix[0] == 'x' || suffix[0] == 'X')
    ensures PriceText(Numbers.IntToString(n) + suffix) == Numbers.IntToString(n)
  {
    Numbers.ParseIntOfIntToString(n, suffix);
  }

  /** What the booking page does on load. */
  datatype Start = LoadWorkerInfo(workerId: string) | RedirectToWorkerList

  /** `js/booking.js` on load: without a selected worker it redirects to the list instead of loading. */
  function OnLoad(selectedWorker: string): (s: Start)
    ensures s == RedirectToWorkerList <==> selectedWorker == ""
    ensures s.LoadWorkerInfo? ==> s.workerId == selectedWorker
  {
    if selectedWorker != "" then LoadWorkerInfo(selectedWorker) else RedirectToWorkerList
  }

  /** The checked service radio: its value and its `data-price`. */
  datatype ServiceChoice = ServiceChoice(value: string, dataPrice: string)

  /** The appointment document `handleBookingSubmit` adds. */
  datatype BookingWrite = BookingWrite(
    workerId: string,
    clientId: string,
    clientName: string,
    service: string,
    price: Option<int>,
    date: string,
    time: string,
    status: Status)

  datatype BookingError = MissingFields | LoginRequired

  /**
    `handleBookingSubmit` of `controllers/booking.js`: a missing service,
    date or time stops with a warning; without a signed-in user the login
    modal opens; otherwise a pending appointment is written, with no check
    against existing bookings.
   */
  function SubmitBooking(service: Option<ServiceChoice>, date: string, time: string, workerId: string, user: Option<User>)
    : (r: Result<BookingWrite, BookingError>)
    ensures r == Failure(MissingFields) <==> service.None? || date == "" || time == ""
    ensures r == Failure(LoginRequired) <==> service.Some? && date != "" && time != "" && user.None?
    ensures r.Success? ==>
      && r.value.status == Pending && StatusText(r.value.status) == PendingText
      && r.value.clientId == user.value.uid
      && r.value.clientName == OrElse(user.value.displayName, user.value.email)
      && r.value.price == Numbers.ParseInt(service.value.dataPrice)
      && r.value.service == service.value.value && r.value.date == date && r.value.time == time
      && r.value.workerId == workerId
  {
    if service.None? || date == "" || time == "" then Failure(MissingFields)
    else if user.None? then Failure(LoginRequired)
    else
      var u := user.value;
      Success(BookingWrite(workerId, u.uid, OrElse(u.displayName, u.email), service.value.value,
        Numbers.ParseInt(service.value.dataPrice), date, time, Pending))
  }

  /** The appointment as the worker's dashboard later reads it. */
  function Stored(w: BookingWrite, id: string): (a: Appointment)
    ensures a.id == id && a.status == w.status && a.workerId == w.workerId && a.clientId == w.clientId
  {
    Appointment(id, w.workerId, w.clientId, w.clientName, w.service, w.price, w.date, w.time, w.status)
  }

  /**
    A new booking reaches the worker as a pending appointment: it carries the
    accept/reject buttons and the "pending" class.
   */
  lemma NewBookingAwaitsWorker(service: Option<ServiceChoice>, date: string, time: string, workerId: string,
                               user: Option<User>, id: string)
    requires SubmitBooking(service, date, time, workerId, user).Success?
    ensures var a := Stored(SubmitBooking(service, date, time, workerId, user).value, id);
      Dashboard.CardActions(a) == ["accept", "reject"] && Dashboard.StatusClass(StatusText(a.status)) == "pending"
  {
  }
}
