/** The visitor log report: a query narrowed by visitor type, status and arrival
    dates, then a search on the visitor's name or organisation, with the length of
    each visit. */
module VisitorLogView {
  import opened Common
  import opened Records
  import opened VisitorDesk

  /** The query's filters; a missing one is "all". The date bounds are instants in
      milliseconds, the upper one already at the end of its day. */
  datatype VisitorQuery = VisitorQuery(visitorType: Option<VisitorType>, status: Option<VisitorStatus>,
                                       from: Option<int>, to: Option<int>)

  predicate MatchesQuery(q: VisitorQuery, v: Visitor) {
    (q.visitorType.None? || v.visitorType == q.visitorType.value) &&
    (q.status.None? || v.status == q.status.value) &&
    (q.from.None? || v.timeIn >= q.from.value) &&
    (q.to.None? || v.timeIn <= q.to.value)
  }

  /** The sort key of newest first. */
  function Recency(v: Visitor): int {
    -v.timeIn
  }

  /** The rows the query returns from the visitor rows listed newest first: at most a
      page, each matching every filter, newest first still. */
  function AnswerVisitors(rows: seq<Visitor>, q: VisitorQuery): (r: seq<Visitor>)
    ensures |r| <= PageLimit && IsSubsequence(r, rows)
    ensures forall v :: v in r ==> v in rows && MatchesQuery(q, v)
    ensures SortedAscending(rows, Recency) ==> SortedAscending(r, Recency)
  {
    var p := (v: Visitor) => MatchesQuery(q, v);
    if SortedAscending(rows, Recency) then
      QueryPageKeepsOrder(rows, p, Recency);
      QueryPage(rows, p)
    else QueryPage(rows, p)
  }

  /** The search keeps a visitor whose name, or organisation when one is recorded,
      contains the search text, ignoring case. */
  predicate NameMatches(v: Visitor, search: string) {
    IncludesIgnoringCase(v.name, search) ||
    (v.organization.Some? && IncludesIgnoringCase(v.organization.value, search))
  }

  /** The name search, skipped when the search text is empty. */
  function NameSearch(rows: seq<Visitor>, search: string): (r: seq<Visitor>)
    ensures forall v :: v in r <==> v in rows && (search == "" || NameMatches(v, search))
    ensures |r| <= |rows| && IsSubsequence(r, rows)
    ensures SortedAscending(rows, Recency) ==> SortedAscending(r, Recency)
    ensures search == "" ==> r == rows
  {
    if search == "" then
      FilterAllKept(rows, (v: Visitor) => true);
      FilterIsSubsequence(rows, (v: Visitor) => true);
      rows
    else
      var p := (v: Visitor) => NameMatches(v, search);
      FilterIsSubsequence(rows, p);
      if SortedAscending(rows, Recency) then
        FilterKeepsAscending(rows, p, Recency);
        Filter(rows, p)
      else Filter(rows, p)
  }

  const MinuteMs: int := 60000
  const HourMs: int := 3600000

  /** JavaScript's `%`: the remainder takes the sign of the dividend. */
  function JsRem(a: int, d: int): (r: int)
    requires d > 0
    ensures (a - r) % d == 0 && -d < r < d
    ensures a >= 0 ==> 0 <= r
    ensures a < 0 ==> r <= 0
  {
    if a >= 0 then
      MultipleHasNoRemainder(a / d, d);
      a % d
    else
      NegatedRemainder(a, d);
      -((-a) % d)
  }

  /** Adding back the remainder of `-a` makes `a` a multiple of `d`. */
  lemma NegatedRemainder(a: int, d: int)
    requires d > 0 && a < 0
    ensures (a + (-a) % d) % d == 0
  {
    var q := (-a) / d;
    assert a + (-a) % d == d * -q;
    MultipleHasNoRemainder(-q, d);
  }

  /** A multiple of `d` leaves no remainder. */
  lemma MultipleHasNoRemainder(k: int, d: int)
    requires d > 0
    ensures (d * k) % d == 0
  {
    var q := (d * k) / d;
    var m := (d * k) % d;
    assert d * (k - q) == m;
    ProductMagnitude(d, k - q);
  }

  /** A non-zero multiple of `d` is at least `d` away from zero. */
  lemma ProductMagnitude(d: int, j: int)
    requires d > 0
    ensures j >= 1 ==> d * j >= d
    ensures j <= -1 ==> d * j <= -d
  {
    if j >= 1 {
      assert d * j == d + d * (j - 1);
    } else if j <= -1 {
      assert d * j == -d + d * (j + 1);
    }
  }


  /** `calculateDuration`'s whole hours and the minutes left over, computed as the
      screen does: the hours rounded down, the leftover by `%` and rounded down. For a
      visit that did not end before it began, the minutes are under an hour and the
      two together are the visit's whole minutes. */
  function DurationParts(diff: int): (r: (int, int))
    ensures r.0 == diff / HourMs
    ensures diff >= 0 ==> r.0 >= 0 && 0 <= r.1 < 60 && r.0 * 60 + r.1 == diff / MinuteMs
    ensures diff < 0 ==> r.0 < 0 && -60 <= r.1 <= 0
  {
    var hours := diff / HourMs;
    var minutes := JsRem(diff, HourMs) / MinuteMs;
    if diff >= 0 then
      assert diff == HourMs * hours + diff % HourMs;
      assert diff % HourMs == MinuteMs * minutes + (diff % HourMs) % MinuteMs;
      (hours, minutes)
    else
      (hours, minutes)
  }

  /** The duration column: "-" while the visitor has not left; otherwise the whole
      hours and minutes when there is at least one hour, else the minutes alone. */
  function DurationLabel(timeIn: int, timeOut: Option<int>): (r: string)
    ensures r == "-" <==> timeOut.None?
    ensures timeOut.Some? && timeOut.value - timeIn >= HourMs ==>
              r == IntToString(DurationParts(timeOut.value - timeIn).0) + "h " +
                   IntToString(DurationParts(timeOut.value - timeIn).1) + "m"
    ensures timeOut.Some? && timeOut.value - timeIn < HourMs ==>
              r == IntToString(DurationParts(timeOut.value - timeIn).1) + "m"
  {
    if timeOut.None? then "-"
    else
      var (hours, minutes) := DurationParts(timeOut.value - timeIn);
      var r := if hours > 0 then IntToString(hours) + "h " + IntToString(minutes) + "m" else IntToString(minutes) + "m";
      assert r[|r| - 1] == 'm';
      r
  }

  /** A visit of at least an hour reads as hours then minutes under sixty, which
      together give the whole minutes of the visit. */
  lemma LongVisitLabel(timeIn: int, timeOut: int)
    requires timeOut - timeIn >= HourMs
    ensures exists h: int, m: int :: h >= 1 && 0 <= m < 60 && h * 60 + m == (timeOut - timeIn) / MinuteMs &&
                                     DurationLabel(timeIn, Some(timeOut)) == IntToString(h) + "h " + IntToString(m) + "m"
  {
    var (h, m) := DurationParts(timeOut - timeIn);
    assert h >= 1 && 0 <= m < 60 && h * 60 + m == (timeOut - timeIn) / MinuteMs &&
           DurationLabel(timeIn, Some(timeOut)) == IntToString(h) + "h " + IntToString(m) + "m";
  }

  /** A visit ending before it began (clocks out of step) shows its leftover minutes
      alone, never its hours. */
  lemma NegativeVisitShowsMinutesOnly(timeIn: int, timeOut: int)
    requires timeOut < timeIn
    ensures DurationLabel(timeIn, Some(timeOut)) == IntToString(DurationParts(timeOut - timeIn).1) + "m"
  {
  }

  /** A visitor the desk has just registered shows no duration; once checked out, one. */
  lemma DurationAppearsOnCheckout(visitors: map<int, Visitor>, v: int, officer: int, now: int)
    requires v in visitors && visitors[v].timeOut.None?
    ensures DurationLabel(visitors[v].timeIn, visitors[v].timeOut) == "-"
    ensures var after := DepartVisitorRow(visitors, v, officer, now);
            DurationLabel(after[v].timeIn, after[v].timeOut) != "-"
  {
  }

  /** The report's filters and rows. */
  class VisitorLogReport {
    var selectedType: Option<VisitorType>
    var selectedStatus: Option<VisitorStatus>
    var dateFrom: Option<int>
    var dateTo: Option<int>
    var searchName: string
    var visitors: seq<Visitor>
    var loading: bool

    constructor ()
      ensures selectedType == None && selectedStatus == None && dateFrom == None && dateTo == None
      ensures searchName == "" && visitors == [] && !loading
    {
      selectedType := None;
      selectedStatus := None;
      dateFrom := None;
      dateTo := None;
      searchName := "";
      visitors := [];
      loading := false;
    }

    /** The query `fetchVisitors` builds: one filter for each selection that is not
        "all". */
    method BuildQuery() returns (query: VisitorQuery)
      ensures query == VisitorQuery(selectedType, selectedStatus, dateFrom, dateTo)
    {
      query := VisitorQuery(None, None, None, None);
      if selectedType.Some? {
        query := query.(visitorType := selectedType);
      }
      if selectedStatus.Some? {
        query := query.(status := selectedStatus);
      }
      if dateFrom.Some? {
        query := query.(from := dateFrom);
      }
      if dateTo.Some? {
        query := query.(to := dateTo);
      }
    }

    /** `fetchVisitors`: the query is run against the visitor rows listed newest
        first and its answer searched by name. A failed query leaves the rows shown as
        they were. */
    method Fetch(rows: seq<Visitor>, queryFailed: bool) returns (query: VisitorQuery)
      modifies this
      ensures query == VisitorQuery(selectedType, selectedStatus, dateFrom, dateTo)
      ensures selectedType == old(selectedType) && selectedStatus == old(selectedStatus)
      ensures dateFrom == old(dateFrom) && dateTo == old(dateTo) && searchName == old(searchName)
      ensures queryFailed ==> visitors == old(visitors)
      ensures !queryFailed ==> visitors == NameSearch(AnswerVisitors(rows, query), searchName)
      ensures !queryFailed ==> |visitors| <= PageLimit
      ensures !loading
    {
      loading := true;
      query := BuildQuery();
      if !queryFailed {
        var filtered := AnswerVisitors(rows, query);
        if searchName != "" {
          filtered := NameSearch(filtered, searchName);
        }
        visitors := filtered;
      }
      loading := false;
    }
  }
}
