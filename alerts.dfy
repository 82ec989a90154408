/** The alerts panel: trips out for more than three days and key checkouts older
    than a cutoff, each with a label telling how long ago they left. */
module AlertsView {
  import opened Common
  import opened Records

  const HourMs: int := 3600000
  const DayMs: int := 86400000
  const ThreeDaysMs: int := 259200000

  /** A trip is overdue when it is still out and left strictly before three days ago. */
  predicate IsOverdueTrip(t: Trip, now: int) {
    t.status == TripOut && t.timeOut < now - ThreeDaysMs
  }

  /** A key checkout is long when it is still out and started strictly before the
      cutoff. */
  predicate IsLongKeyCheckout(tx: KeyTransaction, cutoff: int) {
    tx.status == TxOut && tx.checkoutTime < cutoff
  }

  /** The overdue trips among the trip rows, in their order. */
  function OverdueTrips(trips: seq<Trip>, now: int): (r: seq<Trip>)
    ensures forall t :: t in r <==> t in trips && t.status == TripOut && now - t.timeOut > ThreeDaysMs
    ensures IsSubsequence(r, trips)
  {
    FilterIsSubsequence(trips, (t: Trip) => IsOverdueTrip(t, now));
    Filter(trips, (t: Trip) => IsOverdueTrip(t, now))
  }

  /** The long key checkouts among the transaction rows, in their order. */
  function LongKeyCheckouts(txs: seq<KeyTransaction>, cutoff: int): (r: seq<KeyTransaction>)
    ensures forall t :: t in r <==> t in txs && IsLongKeyCheckout(t, cutoff)
    ensures IsSubsequence(r, txs)
  {
    FilterIsSubsequence(txs, (t: KeyTransaction) => IsLongKeyCheckout(t, cutoff));
    Filter(txs, (t: KeyTransaction) => IsLongKeyCheckout(t, cutoff))
  }

  /** Rows fetched oldest first give alert lists oldest first. */
  lemma AlertsOldestFirst(trips: seq<Trip>, txs: seq<KeyTransaction>, now: int, cutoff: int)
    requires SortedAscending(trips, (t: Trip) => t.timeOut)
    requires SortedAscending(txs, (t: KeyTransaction) => t.checkoutTime)
    ensures SortedAscending(OverdueTrips(trips, now), (t: Trip) => t.timeOut)
    ensures SortedAscending(LongKeyCheckouts(txs, cutoff), (t: KeyTransaction) => t.checkoutTime)
  {
    FilterKeepsAscending(trips, (t: Trip) => IsOverdueTrip(t, now), (t: Trip) => t.timeOut);
    FilterKeepsAscending(txs, (t: KeyTransaction) => IsLongKeyCheckout(t, cutoff), (t: KeyTransaction) => t.checkoutTime);
  }

  /** Whole hours, then whole days of those hours, is whole days of the milliseconds. */
  lemma WholeDaysOfWholeHours(elapsed: int)
    ensures (elapsed / HourMs) / 24 == elapsed / DayMs
  {
    var q := elapsed / HourMs;
    var r := elapsed % HourMs;
    var d := q / 24;
    var e := q % 24;
    assert elapsed == HourMs * (24 * d + e) + r;
    assert elapsed == DayMs * d + (HourMs * e + r);
    assert 0 <= HourMs * e + r < DayMs;
  }

  /** `calculateTimeOut`: the time since `timeOut` in whole days when at least one,
      otherwise in whole hours; the unit takes an "s" only above one. */
  function TimeOutLabel(timeOut: int, now: int): (r: string)
    ensures now - timeOut >= DayMs ==>
              r == IntToString((now - timeOut) / DayMs) + (if now - timeOut >= 2 * DayMs then " days" else " day")
    ensures now - timeOut < DayMs ==>
              r == IntToString((now - timeOut) / HourMs) + (if now - timeOut >= 2 * HourMs then " hours" else " hour")
  {
    var hours := (now - timeOut) / HourMs;
    var days := hours / 24;
    WholeDaysOfWholeHours(now - timeOut);
    if days > 0 then IntToString(days) + " day" + (if days > 1 then "s" else "")
    else IntToString(hours) + " hour" + (if hours > 1 then "s" else "")
  }

  /** Every overdue trip is labelled in days, three or more. */
  lemma OverdueTripLabelledInDays(t: Trip, now: int)
    requires IsOverdueTrip(t, now)
    ensures (now - t.timeOut) / DayMs >= 3
    ensures TimeOutLabel(t.timeOut, now) == IntToString((now - t.timeOut) / DayMs) + " days"
  {
  }

  /** The singular reads "1 day" and, under an hour, "0 hour". */
  lemma SingularLabels(timeOut: int)
    ensures TimeOutLabel(timeOut, timeOut + DayMs) == "1 day"
    ensures TimeOutLabel(timeOut, timeOut + HourMs - 1) == "0 hour"
  {
  }

  /** The panel's two lists. */
  class AlertsPanel {
    var overdueTrips: seq<Trip>
    var longKeyCheckouts: seq<KeyTransaction>
    var loading: bool

    constructor ()
      ensures overdueTrips == [] && longKeyCheckouts == [] && loading
    {
      overdueTrips := [];
      longKeyCheckouts := [];
      loading := true;
    }

    /** `totalAlerts`: the number of entries in both lists. */
    function TotalAlerts(): (n: nat)
      reads this
      ensures n == 0 <==> overdueTrips == [] && longKeyCheckouts == []
    {
      |overdueTrips| + |longKeyCheckouts|
    }

    /** `fetchAlerts` with the key cutoff defined: the rows each query returned (in
        the order asked for, or `None` for no data) narrowed to the alerts. */
    method Refresh(tripRows: Option<seq<Trip>>, txRows: Option<seq<KeyTransaction>>, now: int, keyCutoff: int)
      modifies this
      ensures overdueTrips == (if tripRows.Some? then OverdueTrips(tripRows.value, now) else [])
      ensures longKeyCheckouts == (if txRows.Some? then LongKeyCheckouts(txRows.value, keyCutoff) else [])
      ensures !loading
    {
      loading := true;
      overdueTrips := if tripRows.Some? then OverdueTrips(tripRows.value, now) else [];
      longKeyCheckouts := if txRows.Some? then LongKeyCheckouts(txRows.value, keyCutoff) else [];
      loading := false;
    }

    /** `fetchAlerts` as written: building the key query reads a name that is not
        defined, so the call fails after the trip query and before either list is
        set. The lists keep what they held, which from the start is nothing. */
    method RefreshAsWritten(tripRows: Option<seq<Trip>>, now: int)
      modifies this
      ensures overdueTrips == old(overdueTrips) && longKeyCheckouts == old(longKeyCheckouts)
      ensures !loading
    {
      loading := true;
      loading := false;
    }
  }

  /** The alert the written panel never shows: one overdue trip among the rows is
      enough for the panel with the cutoff defined to show an alert. */
  lemma OverdueTripMakesAlert(trips: seq<Trip>, now: int, i: int)
    requires 0 <= i < |trips| && IsOverdueTrip(trips[i], now)
    ensures |OverdueTrips(trips, now)| > 0
  {
  }
}
