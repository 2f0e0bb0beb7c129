/**
  The records the pages read from and write to the store: appointments,
  reviews and the signed-in user, plus the appointment status, which the
  store keeps as one of three Arabic literals.
 */
module Model {

  import opened Common

  const PendingText: string := "بانتظار التأكيد"
  const ConfirmedText: string := "تم التأكيد"
  const RejectedText: string := "مرفوض"

  /** An appointment status; any text other than the three literals is kept verbatim. */
  datatype Status = Pending | Confirmed | Rejected | Other(text: string)

  function StatusText(s: Status): string
  {
    match s
    case Pending => PendingText
    case Confirmed => ConfirmedText
    case Rejected => RejectedText
    case Other(t) => t
  }

  predicate IsKnownText(t: string)
  {
    t == PendingText || t == ConfirmedText || t == RejectedText
  }

  /** A status value as the store can hold it: `Other` never carries one of the three literals. */
  predicate WellFormed(s: Status)
  {
    s.Other? ==> !IsKnownText(s.text)
  }

  /** Classifies stored status text. */
  function ParseStatus(t: string): (s: Status)
    ensures WellFormed(s)
    ensures s.Other? <==> !IsKnownText(t)
  {
    if t == PendingText then Pending
    else if t == ConfirmedText then Confirmed
    else if t == RejectedText then Rejected
    else Other(t)
  }

  /** Classifying stored text loses nothing, and well-formed statuses are exactly the classified texts. */
  lemma StatusRoundTrip(t: string, s: Status)
    ensures StatusText(ParseStatus(t)) == t
    ensures WellFormed(s) ==> ParseStatus(StatusText(s)) == s
  {
  }

  /**
    An appointment document. `price` is the number `parseInt` produced from
    the chosen service's `data-price` (`None` for `NaN`).
   */
  datatype Appointment = Appointment(
    id: string,
    workerId: string,
    clientId: string,
    clientName: string,
    service: string,
    price: Option<int>,
    date: string,
    time: string,
    status: Status)

  /**
    A review document. `userId` is absent on reviews written under
    `clientId`; `rating` is absent when the field is null or missing.
   */
  datatype Review = Review(
    id: string,
    workerId: string,
    userId: Option<string>,
    userName: string,
    rating: Option<nat>,
    comment: string)

  /** The signed-in Firebase user; "" stands for a missing display name or email. */
  datatype User = User(uid: string, displayName: string, email: string)
}
