/** The trip history report: a query narrowed by vehicle, status and departure
    dates, then a search on the drivers' names, with the distance of each trip. */
module TripHistoryView {
  import opened Common
  import opened Records
  import opened Ledger

  /** A trip row as the report fetches it, with the names of the drivers it joins;
      a name is missing when the trip has no such driver. */
  datatype TripRow = TripRow(trip: Trip, driverOutName: Option<string>, driverInName: Option<string>)

  /** The query's filters; a missing one is "all". The date bounds are instants in
      milliseconds, the upper one already at the end of its day. */
  datatype TripQuery = TripQuery(vehicle: Option<int>, status: Option<TripStatus>, from: Option<int>, to: Option<int>)

  predicate MatchesQuery(q: TripQuery, t: Trip) {
    (q.vehicle.None? || t.vehicleId == q.vehicle.value) &&
    (q.status.None? || t.status == q.status.value) &&
    (q.from.None? || t.timeOut >= q.from.value) &&
    (q.to.None? || t.timeOut <= q.to.value)
  }

  /** The sort key of newest first. */
  function Recency(x: TripRow): int {
    -x.trip.timeOut
  }

  /** The rows the query returns from the trip rows listed newest first: at most a
      page, each matching every filter, newest first still. */
  function AnswerTrips(rows: seq<TripRow>, q: TripQuery): (r: seq<TripRow>)
    ensures |r| <= PageLimit && IsSubsequence(r, rows)
    ensures forall x :: x in r ==> x in rows && MatchesQuery(q, x.trip)
    ensures SortedAscending(rows, Recency) ==> SortedAscending(r, Recency)
  {
    var p := (x: TripRow) => MatchesQuery(q, x.trip);
    if SortedAscending(rows, Recency) then
      QueryPageKeepsOrder(rows, p, Recency);
      QueryPage(rows, p)
    else QueryPage(rows, p)
  }

  /** Without filters every trip matches, so the query returns the first page of
      rows. */
  lemma NoFiltersReturnsFirstPage(rows: seq<TripRow>)
    ensures AnswerTrips(rows, TripQuery(None, None, None, None)) == Take(rows, PageLimit)
  {
    FilterAllKept(rows, (x: TripRow) => MatchesQuery(TripQuery(None, None, None, None), x.trip));
  }

  /** The search keeps a row when the name of the driver who took the vehicle out, or
      of the one who brought it in, contains the search text, ignoring case. */
  predicate DriverMatches(row: TripRow, search: string) {
    (row.driverOutName.Some? && IncludesIgnoringCase(row.driverOutName.value, search)) ||
    (row.driverInName.Some? && IncludesIgnoringCase(row.driverInName.value, search))
  }

  /** The driver search, skipped when the search text is empty. */
  function DriverSearch(rows: seq<TripRow>, search: string): (r: seq<TripRow>)
    ensures forall x :: x in r <==> x in rows && (search == "" || DriverMatches(x, search))
    ensures IsSubsequence(r, rows)
    ensures search == "" ==> r == rows
  {
    if search == "" then
      assert IsSubsequence(rows, rows) by { FilterAllKept(rows, (x: TripRow) => true); FilterIsSubsequence(rows, (x: TripRow) => true); }
      rows
    else
      FilterIsSubsequence(rows, (x: TripRow) => DriverMatches(x, search));
      Filter(rows, (x: TripRow) => DriverMatches(x, search))
  }

  /** The distance column: end minus start when the ending reading is set and not
      zero; otherwise none (shown as "-"). */
  function Distance(t: Trip): (d: Option<int>)
    ensures d.Some? <==> t.odometerEnd.Some? && t.odometerEnd.value != 0
    ensures d.Some? ==> t.odometerStart + d.value == t.odometerEnd.value
  {
    if t.odometerEnd.Some? && t.odometerEnd.value != 0 then Some(t.odometerEnd.value - t.odometerStart) else None
  }

  /** A trip the gate closed with a reading other than zero shows the distance the gate
      reported, which is not negative. */
  lemma GateReturnShowsDistance(trips: map<int, Trip>, t: int, driver: int, officer: int, end: int, now: int,
                                reason: Option<string>)
    requires t in trips && end >= trips[t].odometerStart && end != 0
    ensures Distance(CloseTripRow(trips, t, driver, officer, end, now, reason)[t]) == Some(end - trips[t].odometerStart)
    ensures end - trips[t].odometerStart >= 0
  {
  }

  /** A trip returned at a reading of 0 shows no distance, as if it were still out. */
  lemma ZeroReadingShowsNoDistance(trips: map<int, Trip>, t: int, driver: int, officer: int, now: int,
                                   reason: Option<string>)
    requires t in trips
    ensures CloseTripRow(trips, t, driver, officer, 0, now, reason)[t].status == TripReturned
    ensures Distance(CloseTripRow(trips, t, driver, officer, 0, now, reason)[t]).None?
  {
  }

  /** The report's filters and rows. */
  class TripReport {
    var selectedVehicle: Option<int>
    var selectedStatus: Option<TripStatus>
    var dateFrom: Option<int>
    var dateTo: Option<int>
    var searchDriver: string
    var trips: seq<TripRow>
    var loading: bool

    constructor ()
      ensures selectedVehicle == None && selectedStatus == None && dateFrom == None && dateTo == None
      ensures searchDriver == "" && trips == [] && !loading
    {
      selectedVehicle := None;
      selectedStatus := None;
      dateFrom := None;
      dateTo := None;
      searchDriver := "";
      trips := [];
      loading := false;
    }

    /** The query `fetchTrips` builds: one filter for each selection that is not
        "all". */
    method BuildQuery() returns (query: TripQuery)
      ensures query == TripQuery(selectedVehicle, selectedStatus, dateFrom, dateTo)
    {
      query := TripQuery(None, None, None, None);
      if selectedVehicle.Some? {
        query := query.(vehicle := selectedVehicle);
      }
      if selectedStatus.Some? {
        query := query.(status := selectedStatus);
      }
      if dateFrom.Some? {
        query := query.(from := dateFrom);
      }
      if dateTo.Some? {
        query := query.(to := dateTo);
      }
    }

    /** `fetchTrips`: the query is run against the trip rows listed newest first and
        its answer searched by driver name. A failed query leaves the rows shown as
        they were. */
    method Fetch(rows: seq<TripRow>, queryFailed: bool) returns (query: TripQuery)
      modifies this
      ensures query == TripQuery(selectedVehicle, selectedStatus, dateFrom, dateTo)
      ensures selectedVehicle == old(selectedVehicle) && selectedStatus == old(selectedStatus)
      ensures dateFrom == old(dateFrom) && dateTo == old(dateTo) && searchDriver == old(searchDriver)
      ensures queryFailed ==> trips == old(trips)
      ensures !queryFailed ==> trips == DriverSearch(AnswerTrips(rows, query), searchDriver)
      ensures |trips| <= PageLimit || trips == old(trips)
      ensures !loading
    {
      loading := true;
      query := BuildQuery();
      if !queryFailed {
        var filtered := AnswerTrips(rows, query);
        if searchDriver != "" {
          filtered := DriverSearch(filtered, searchDriver);
        }
        trips := filtered;
      }
      loading := false;
    }
  }
}
