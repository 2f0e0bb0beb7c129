/**
  The worker's appointment dashboard: the status/date filter, the three
  status counters, the confirm/reject flow with its local update, the
  pending-only action buttons, the status-to-class mapping and the 12-hour
  time display. The two copies of the page share this logic.
 */
module Dashboard {

  import opened Common
  import opened Model
  import Text
  import Numbers

  /** The filter an appointment passes for the two select values; "" disables a filter. */
  predicate Matches(a: Appointment, statusValue: string, dateValue: string)
  {
    (statusValue == "" || StatusText(a.status) == statusValue) && (dateValue == "" || a.date == dateValue)
  }

  function MatchesBoth(statusValue: string, dateValue: string): Appointment -> bool
  {
    (a: Appointment) => Matches(a, statusValue, dateValue)
  }

  function HasStatus(statusValue: string): Appointment -> bool
  {
    (a: Appointment) => StatusText(a.status) == statusValue
  }

  function OnDate(dateValue: string): Appointment -> bool
  {
    (a: Appointment) => a.date == dateValue
  }

  /** `getFilteredAppointments`: status filter first, then date filter. */
  function FilteredAppointments(apps: seq<Appointment>, statusValue: string, dateValue: string): (r: seq<Appointment>)
    ensures statusValue == "" && dateValue == "" ==> r == apps
    ensures forall i :: 0 <= i < |r| ==> r[i] in apps && Matches(r[i], statusValue, dateValue)
    ensures forall i :: 0 <= i < |apps| && Matches(apps[i], statusValue, dateValue) ==> apps[i] in r
  {
    var byStatus := if statusValue != "" then Filter(apps, HasStatus(statusValue)) else apps;
    if dateValue != "" then Filter(byStatus, OnDate(dateValue)) else byStatus
  }

  lemma FilteredBoth(apps: seq<Appointment>, statusValue: string, dateValue: string)
    requires statusValue != "" && dateValue != ""
    ensures Filter(Filter(apps, HasStatus(statusValue)), OnDate(dateValue)) == Filter(apps, MatchesBoth(statusValue, dateValue))
  {
    var ps := HasStatus(statusValue);
    var pd := OnDate(dateValue);
    var m := MatchesBoth(statusValue, dateValue);
    FilterFilter(apps, ps, pd);
    FilterExt(apps, And(ps, pd), m);
  }

  lemma FilteredStatusOnly(apps: seq<Appointment>, statusValue: string)
    requires statusValue != ""
    ensures Filter(apps, HasStatus(statusValue)) == Filter(apps, MatchesBoth(statusValue, ""))
  {
    FilterExt(apps, HasStatus(statusValue), MatchesBoth(statusValue, ""));
  }

  lemma FilteredDateOnly(apps: seq<Appointment>, dateValue: string)
    requires dateValue != ""
    ensures Filter(apps, OnDate(dateValue)) == Filter(apps, MatchesBoth("", dateValue))
  {
    FilterExt(apps, OnDate(dateValue), MatchesBoth("", dateValue));
  }

  /** The two passes equal one order-preserving pass by the combined condition. */
  lemma FilteredIsOnePass(apps: seq<Appointment>, statusValue: string, dateValue: string)
    ensures FilteredAppointments(apps, statusValue, dateValue) == Filter(apps, MatchesBoth(statusValue, dateValue))
  {
    if statusValue != "" && dateValue != "" {
      FilteredBoth(apps, statusValue, dateValue);
    } else if statusValue != "" {
      FilteredStatusOnly(apps, statusValue);
    } else if dateValue != "" {
      FilteredDateOnly(apps, dateValue);
    } else {
      FilterAll(apps, MatchesBoth(statusValue, dateValue));
    }
  }

  /** `clearFilters`: both selects reset to "" and the full list is shown. */
  datatype FilterView = FilterView(statusValue: string, dateValue: string, shown: seq<Appointment>)

  function ClearFilters(apps: seq<Appointment>): (v: FilterView)
    ensures v.statusValue == "" && v.dateValue == ""
    ensures v.shown == FilteredAppointments(apps, v.statusValue, v.dateValue)
    ensures v.shown == apps
  {
    FilterView("", "", apps)
  }

  predicate HasText(a: Appointment, t: string)
  {
    StatusText(a.status) == t
  }

  function CountText(apps: seq<Appointment>, t: string): nat
  {
    Count(apps, (a: Appointment) => HasText(a, t))
  }

  datatype Stats = Stats(pending: nat, confirmed: nat, rejected: nat)

  /** `updateStats`: the three counters by exact status text. */
  function UpdateStats(apps: seq<Appointment>): (s: Stats)
    ensures s.pending == CountText(apps, PendingText)
    ensures s.confirmed == CountText(apps, ConfirmedText)
    ensures s.rejected == CountText(apps, RejectedText)
  {
    Stats(CountText(apps, PendingText), CountText(apps, ConfirmedText), CountText(apps, RejectedText))
  }

  function StatsTotal(s: Stats): nat
  {
    s.pending + s.confirmed + s.rejected
  }

  function Unknown(apps: seq<Appointment>): seq<Appointment>
  {
    Filter(apps, (a: Appointment) => !IsKnownText(StatusText(a.status)))
  }

  lemma CountTextLast(apps: seq<Appointment>, t: string)
    requires |apps| > 0
    ensures CountText(apps, t) == CountText(apps[..|apps| - 1], t) + (if HasText(apps[|apps| - 1], t) then 1 else 0)
  {
  }

  /** Every appointment is counted once, either by a counter or as an unknown status. */
  lemma {:induction false} StatsPartition(apps: seq<Appointment>)
    ensures StatsTotal(UpdateStats(apps)) + |Unknown(apps)| == |apps|
    decreases |apps|
  {
    if |apps| > 0 {
      var init := apps[..|apps| - 1];
      StatsPartition(init);
      CountTextLast(apps, PendingText);
      CountTextLast(apps, ConfirmedText);
      CountTextLast(apps, RejectedText);
    }
  }

  /** The counters never exceed the list, and add up to it exactly when every status is one of the three. */
  lemma StatsBound(apps: seq<Appointment>)
    ensures StatsTotal(UpdateStats(apps)) <= |apps|
    ensures StatsTotal(UpdateStats(apps)) == |apps| <==>
      forall i :: 0 <= i < |apps| ==> IsKnownText(StatusText(apps[i].status))
  {
    StatsPartition(apps);
    if forall i :: 0 <= i < |apps| ==> IsKnownText(StatusText(apps[i].status)) {
      var u := Unknown(apps);
      if |u| > 0 {
        assert u[0] in apps;
      }
    } else {
      var i :| 0 <= i < |apps| && !IsKnownText(StatusText(apps[i].status));
      assert apps[i] in Unknown(apps);
    }
  }

  /** Index of the first appointment with the given id (`findIndex`). */
  function FindIndex(apps: seq<Appointment>, id: string): (r: Option<nat>)
    ensures r.Some? ==> r.value < |apps| && apps[r.value].id == id
    ensures r.Some? ==> forall k :: 0 <= k < r.value ==> apps[k].id != id
    ensures r.None? ==> forall k :: 0 <= k < |apps| ==> apps[k].id != id
  {
    if |apps| == 0 then None
    else if apps[0].id == id then Some(0)
    else match FindIndex(apps[1..], id)
      case None => None
      case Some(k) => Some(k + 1)
  }

  /** The confirmation dialog's pending request, kept until the dialog closes. */
  datatype PendingAction = PendingAction(appointmentId: string, action: string, appointment: Appointment)

  /**
    `handleAppointmentAction`: a click on an action button of an appointment
    that is on the list opens the dialog; otherwise nothing happens.
   */
  function HandleAppointmentAction(apps: seq<Appointment>, id: string, action: string): (r: Option<PendingAction>)
    ensures r.Some? <==> exists k :: 0 <= k < |apps| && apps[k].id == id
    ensures r.Some? ==> r.value.appointmentId == id && r.value.action == action
    ensures r.Some? ==> exists k :: (0 <= k < |apps| && apps[k] == r.value.appointment &&
      forall j :: 0 <= j < k ==> apps[j].id != id)
  {
    match FindIndex(apps, id)
    case None => None
    case Some(k) => Some(PendingAction(id, action, apps[k]))
  }

  /** The status an action writes: "accept" confirms, anything else rejects. */
  function ActionStatus(action: string): (s: Status)
    ensures s == Confirmed <==> action == "accept"
    ensures s == Confirmed || s == Rejected
  {
    if action == "accept" then Confirmed else Rejected
  }

  /** Sets the status of the first appointment with the id; the list is otherwise unchanged. */
  function SetStatus(apps: seq<Appointment>, id: string, s: Status): (r: seq<Appointment>)
    ensures |r| == |apps|
    ensures FindIndex(apps, id).None? ==> r == apps
    ensures FindIndex(apps, id).Some? ==> r == apps[FindIndex(apps, id).value := apps[FindIndex(apps, id).value].(status := s)]
  {
    match FindIndex(apps, id)
    case None => apps
    case Some(k) => apps[k := apps[k].(status := s)]
  }

  /** The store write `updateDoc` is asked to perform. */
  datatype StatusWrite = StatusWrite(appointmentId: string, status: Status)

  datatype DashboardState = DashboardState(apps: seq<Appointment>, pending: Option<PendingAction>)

  datatype ActionOutcome = ActionOutcome(state: DashboardState, write: Option<StatusWrite>)

  /**
    `executeAction`. `writeSucceeds` is the outcome of the store update. A
    missing id or action attempts nothing; a failed write leaves the local
    list alone. The pending action is cleared on every path.
   */
  function ExecuteAction(st: DashboardState, id: string, action: string, writeSucceeds: bool): (o: ActionOutcome)
    ensures o.state.pending.None?
    ensures (id == "" || action == "") ==> o.write.None? && o.state.apps == st.apps
    ensures (id != "" && action != "") ==> o.write == Some(StatusWrite(id, ActionStatus(action)))
    ensures !writeSucceeds ==> o.state.apps == st.apps
    ensures id != "" && action != "" && writeSucceeds ==>
      o.state.apps == SetStatus(st.apps, id, ActionStatus(action))
    ensures |o.state.apps| == |st.apps|
    ensures forall k :: 0 <= k < |st.apps| ==>
      o.state.apps[k].(status := st.apps[k].status) == st.apps[k]
  {
    if id == "" || action == "" then
      ActionOutcome(DashboardState(st.apps, None), None)
    else
      var s := ActionStatus(action);
      var apps := if writeSucceeds then SetStatus(st.apps, id, s) else st.apps;
      ActionOutcome(DashboardState(apps, None), Some(StatusWrite(id, s)))
  }

  /** Only the first appointment with the id can change, and then only to the written status. */
  lemma ExecuteActionLocal(st: DashboardState, id: string, action: string, k: nat)
    requires k < |st.apps|
    requires ExecuteAction(st, id, action, true).state.apps[k] != st.apps[k]
    ensures FindIndex(st.apps, id) == Some(k)
    ensures ExecuteAction(st, id, action, true).state.apps[k].status == ActionStatus(action)
  {
  }

  /**
    A successful action gives the first appointment with the id the status
    of the action; every other appointment is left as it was, and nothing
    changes when no appointment has the id.
   */
  lemma ExecuteActionWrites(st: DashboardState, id: string, action: string)
    requires id != "" && action != ""
    ensures FindIndex(st.apps, id).None? ==> ExecuteAction(st, id, action, true).state.apps == st.apps
    ensures FindIndex(st.apps, id).Some? ==>
      var k := FindIndex(st.apps, id).value;
      var apps := ExecuteAction(st, id, action, true).state.apps;
      apps[k] == st.apps[k].(status := ActionStatus(action)) &&
      forall j :: 0 <= j < |st.apps| && j != k ==> apps[j] == st.apps[j]
  {
  }

  lemma {:induction false} CountTextAppend(xs: seq<Appointment>, ys: seq<Appointment>, t: string)
    ensures CountText(xs + ys, t) == CountText(xs, t) + CountText(ys, t)
  {
    FilterAppend(xs, ys, (a: Appointment) => HasText(a, t));
  }

  lemma CountTextUpdate(apps: seq<Appointment>, k: nat, s: Status, t: string)
    requires k < |apps|
    ensures var r := apps[k := apps[k].(status := s)];
      CountText(r, t) + (if HasText(apps[k], t) then 1 else 0) == CountText(apps, t) + (if StatusText(s) == t then 1 else 0)
  {
    var r := apps[k := apps[k].(status := s)];
    assert apps == apps[..k] + [apps[k]] + apps[k + 1..];
    assert r == apps[..k] + [r[k]] + apps[k + 1..];
    CountTextMiddle(apps[..k], apps[k], apps[k + 1..], t);
    CountTextMiddle(apps[..k], r[k], apps[k + 1..], t);
  }

  lemma CountTextMiddle(pre: seq<Appointment>, x: Appointment, post: seq<Appointment>, t: string)
    ensures CountText(pre + [x] + post, t) == CountText(pre, t) + (if HasText(x, t) then 1 else 0) + CountText(post, t)
  {
    CountTextAppend(pre + [x], post, t);
    CountTextAppend(pre, [x], t);
    FilterSingleton(x, (a: Appointment) => HasText(a, t));
  }

  /** Accepting a pending appointment moves exactly one unit from the pending counter to the confirmed one. */
  lemma AcceptMovesPendingToConfirmed(st: DashboardState, id: string)
    requires id != ""
    requires exists k :: 0 <= k < |st.apps| && st.apps[k].id == id
    requires st.apps[FindIndex(st.apps, id).value].status == Pending
    ensures var after := UpdateStats(ExecuteAction(st, id, "accept", true).state.apps);
      var before := UpdateStats(st.apps);
      after == before.(pending := before.pending - 1, confirmed := before.confirmed + 1)
  {
    var k := FindIndex(st.apps, id).value;
    assert SetStatus(st.apps, id, Confirmed) == st.apps[k := st.apps[k].(status := Confirmed)];
    assert ExecuteAction(st, id, "accept", true).state.apps == st.apps[k := st.apps[k].(status := Confirmed)];
    CountTextUpdate(st.apps, k, Confirmed, PendingText);
    CountTextUpdate(st.apps, k, Confirmed, ConfirmedText);
    CountTextUpdate(st.apps, k, Confirmed, RejectedText);
  }

  /** The buttons a card carries: accept and reject on pending appointments, none otherwise. */
  function CardActions(a: Appointment): (r: seq<string>)
    ensures r != [] <==> StatusText(a.status) == PendingText
    ensures r != [] ==> r == ["accept", "reject"]
  {
    if StatusText(a.status) == PendingText then ["accept", "reject"] else []
  }

  /** `getStatusClass` on the stored status text. */
  function StatusClass(status: string): (c: string)
    ensures c == "pending" <==> status == PendingText
    ensures c == "confirmed" <==> status == ConfirmedText
    ensures c == "rejected" <==> status == RejectedText
    ensures c == "" <==> !IsKnownText(status)
  {
    match ParseStatus(status)
    case Pending => "pending"
    case Confirmed => "confirmed"
    case Rejected => "rejected"
    case Other(_) => ""
  }

  const AmText: string := "صباحاً"
  const PmText: string := "مساءً"

  /**
    The parts `formatTime` interpolates. `hour` is the displayed hour
    (`None` for `NaN`) and `minutes` the second piece of the split
    (`None` for `undefined`).
   */
  datatype TimeView = TimeView(hour: Option<int>, minutes: Option<string>, pm: bool)

  /** `formatTime`: "HH:MM" in 24-hour form to the 12-hour display. */
  function FormatTime(time: string): (v: TimeView)
    ensures var parts := Text.Split(time, ':');
      v.minutes == (if |parts| >= 2 then Some(parts[1]) else None)
    ensures var h := Numbers.ParseInt(Text.Split(time, ':')[0]);
      (v.pm <==> h.Some? && h.value >= 12) && (v.hour.None? <==> h.None?)
    ensures var h := Numbers.ParseInt(Text.Split(time, ':')[0]);
      h.Some? && 0 <= h.value <= 23 ==>
        v.hour.Some? && 1 <= v.hour.value <= 12 && To24(v.hour.value, v.pm) == h.value
    ensures var h := Numbers.ParseInt(Text.Split(time, ':')[0]);
      h.Some? && (h.value < 0 || h.value > 23) ==>
        v.hour == Some(if h.value > 12 then h.value - 12 else h.value)
  {
    var parts := Text.Split(time, ':');
    var hour := Numbers.ParseInt(parts[0]);
    var minutes := if |parts| >= 2 then Some(parts[1]) else None;
    match hour
    case None => TimeView(None, minutes, false)
    case Some(h) => TimeView(Some(DisplayHour(h)), minutes, h >= 12)
  }

  /** The 12-hour display of a parsed hour; hours outside 0..23 are only shifted down by 12 when above 12. */
  function DisplayHour(h: int): (d: int)
    ensures 0 <= h <= 23 ==> 1 <= d <= 12 && To24(d, h >= 12) == h
    ensures (h < 0 || h > 23) ==> d == (if h > 12 then h - 12 else h)
  {
    if h > 12 then h - 12 else if h == 0 then 12 else h
  }

  /** Back from the 12-hour display to the 24-hour clock. */
  function To24(hour: int, pm: bool): int
  {
    if pm then (if hour == 12 then 12 else hour + 12) else (if hour == 12 then 0 else hour)
  }

  /** The rendered text `${displayHour}:${minutes} ${period}`. */
  function TimeText(v: TimeView): string
  {
    (match v.hour case None => "NaN" case Some(h) => Numbers.IntToString(h))
    + ":" + v.minutes.GetOr("undefined") + " " + (if v.pm then PmText else AmText)
  }

  /**
    For an hour of the day written with one or more digits (zero-padded
    "09" included) the displayed hour is in 1..12, the period is PM from 12
    on, the minutes are copied, and the display converts back to the hour
    it came from.
   */
  lemma FormatTimeHourOfDay(hour: string, mm: string)
    requires |hour| >= 1 && Numbers.AllDigits(hour) && Numbers.ValueIn(hour, 10) <= 23
    requires forall k :: 0 <= k < |mm| ==> mm[k] != ':'
    ensures var v := FormatTime(hour + ":" + mm);
      var hh := Numbers.ValueIn(hour, 10);
      v.hour.Some? && 1 <= v.hour.value <= 12 && (v.pm <==> hh >= 12) &&
      v.minutes == Some(mm) && To24(v.hour.value, v.pm) == hh
  {
    var hh := Numbers.ValueIn(hour, 10);
    assert forall k :: 0 <= k < |hour| ==> hour[k] != ':' by {
      forall k | 0 <= k < |hour| ensures hour[k] != ':' {
        assert Numbers.IsDigit(hour[k]);
      }
    }
    Text.SplitOnce(hour, ':', mm);
    assert Numbers.ParseInt(hour) == Some(hh) by {
      Numbers.ParseIntDecimal("", hour, "");
      assert "" + (hour + "") == hour;
    }
    FormatTimeOfParts(hour + ":" + mm, hour, mm, hh);
  }

  /** Once the split and the hour are known, the view is the display of that hour. */
  lemma FormatTimeOfParts(time: string, hour: string, mm: string, h: int)
    requires Text.Split(time, ':') == [hour, mm]
    requires Numbers.ParseInt(hour) == Some(h)
    ensures FormatTime(time) == TimeView(Some(DisplayHour(h)), Some(mm), h >= 12)
  {
  }

  /** A zero-padded morning time. */
  lemma FormatTimePadded()
    ensures FormatTime("09:30") == TimeView(Some(9), Some("30"), false)
  {
    Text.SplitOnce("09", ':', "30");
    assert "09" + [':'] + "30" == "09:30";
    Numbers.ParseIntPadded();
    FormatTimeOfParts("09:30", "09", "30", 9);
  }
}
