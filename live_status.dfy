/** The live status board: the current rows of the vehicle, key and visitor tables,
    the open trips and key transactions, and five counts over them. */
module LiveBoardView {
  import opened Common
  import opened Records
  import opened VisitorDesk

  /** The five figures at the top of the board. */
  datatype Stats = Stats(vehiclesOut: nat, vehiclesAvailable: nat, keysCheckedOut: nat, keysAvailable: nat,
                         visitorsOnSite: nat)

  predicate IsInUse(v: Vehicle) { v.status == VehicleInUse }
  predicate IsAvailableVehicle(v: Vehicle) { v.status == VehicleAvailable }
  predicate IsCheckedOut(k: Key) { k.status == KeyCheckedOut }
  predicate IsAvailableKey(k: Key) { k.status == KeyAvailable }

  /** A query's rows, or none when it returned no data (`data || []`). */
  function RowsOrEmpty<T>(rows: Option<seq<T>>): (r: seq<T>)
    ensures rows.Some? ==> r == rows.value
    ensures rows.None? ==> r == []
  {
    if rows.Some? then rows.value else []
  }

  /** The board's counts from the rows it shows (a query that returned no data shows
      none). Vehicles under maintenance count as neither out nor available, so those
      two figures together never exceed the number of vehicles; every key is counted
      once; no rows give zero. */
  function ComputeStats(vehicles: seq<Vehicle>, keys: seq<Key>, onSite: seq<Visitor>): (r: Stats)
    ensures r.vehiclesOut == Count(vehicles, IsInUse)
    ensures r.vehiclesAvailable == Count(vehicles, IsAvailableVehicle)
    ensures r.keysCheckedOut == Count(keys, IsCheckedOut)
    ensures r.keysAvailable == Count(keys, IsAvailableKey)
    ensures r.visitorsOnSite == |onSite|
    ensures r.vehiclesOut + r.vehiclesAvailable <= |vehicles|
    ensures r.keysCheckedOut + r.keysAvailable == |keys|
    ensures vehicles == [] ==> r.vehiclesOut == 0 && r.vehiclesAvailable == 0
    ensures keys == [] ==> r.keysCheckedOut == 0 && r.keysAvailable == 0
  {
    DisjointCountsBounded(vehicles, IsInUse, IsAvailableVehicle);
    ComplementaryCounts(keys, IsCheckedOut, IsAvailableKey);
    Stats(Count(vehicles, IsInUse), Count(vehicles, IsAvailableVehicle),
          Count(keys, IsCheckedOut), Count(keys, IsAvailableKey), |onSite|)
  }

  /** The open trips: the trip rows whose status is out, in the order given. */
  function OpenTripRows(trips: seq<Trip>): (r: seq<Trip>)
    ensures forall t :: t in r <==> t in trips && t.status == TripOut
    ensures IsSubsequence(r, trips)
  {
    FilterIsSubsequence(trips, (t: Trip) => t.status == TripOut);
    Filter(trips, (t: Trip) => t.status == TripOut)
  }

  /** The open key transactions, in the order given. */
  function OpenTxRows(txs: seq<KeyTransaction>): (r: seq<KeyTransaction>)
    ensures forall t :: t in r <==> t in txs && t.status == TxOut
    ensures IsSubsequence(r, txs)
  {
    FilterIsSubsequence(txs, (t: KeyTransaction) => t.status == TxOut);
    Filter(txs, (t: KeyTransaction) => t.status == TxOut)
  }

  /** The visitors on the premises, in the order given. */
  function OnSiteRows(visitors: seq<Visitor>): (r: seq<Visitor>)
    ensures forall v :: v in r <==> v in visitors && v.status == VisitorOnPremises
    ensures IsSubsequence(r, visitors)
  {
    FilterIsSubsequence(visitors, (v: Visitor) => v.status == VisitorOnPremises);
    Filter(visitors, (v: Visitor) => v.status == VisitorOnPremises)
  }

  /** The open rows are listed newest first when the table's rows are. */
  lemma OpenRowsNewestFirst(trips: seq<Trip>, txs: seq<KeyTransaction>)
    requires SortedAscending(trips, (t: Trip) => -t.timeOut)
    requires SortedAscending(txs, (t: KeyTransaction) => -t.checkoutTime)
    ensures SortedAscending(OpenTripRows(trips), (t: Trip) => -t.timeOut)
    ensures SortedAscending(OpenTxRows(txs), (t: KeyTransaction) => -t.checkoutTime)
  {
    FilterKeepsAscending(trips, (t: Trip) => t.status == TripOut, (t: Trip) => -t.timeOut);
    FilterKeepsAscending(txs, (t: KeyTransaction) => t.status == TxOut, (t: KeyTransaction) => -t.checkoutTime);
  }

  /** `rows` lists the table: each row as stored, every row once. */
  predicate ListsTable<T(==)>(rows: seq<T>, table: map<int, T>, id: T -> int) {
    (forall i :: 0 <= i < |rows| ==> id(rows[i]) in table && table[id(rows[i])] == rows[i]) &&
    (forall i, j :: 0 <= i < j < |rows| ==> id(rows[i]) != id(rows[j])) &&
    (forall k :: k in table ==> exists i :: 0 <= i < |rows| && id(rows[i]) == k)
  }

  /** The ids of the table's rows that satisfy `p`. */
  function IdsWhere<T>(table: map<int, T>, p: T -> bool): (r: set<int>)
    ensures forall k :: k in r <==> k in table && p(table[k])
  {
    set k | k in table && p(table[k])
  }

  /** Without rows the listed table is empty. */
  lemma ListsNoRows<T>(table: map<int, T>, id: T -> int)
    requires ListsTable([], table, id)
    ensures table == map[]
  {
    assert forall k :: k !in table;
  }

  /** The rows after the first list the table without the first row. */
  lemma ListsTail<T>(rows: seq<T>, table: map<int, T>, id: T -> int)
    requires rows != [] && ListsTable(rows, table, id)
    ensures ListsTable(rows[1..], table - {id(rows[0])}, id)
  {
    var rest := table - {id(rows[0])};
    var tail := rows[1..];
    forall k | k in rest ensures exists i :: 0 <= i < |tail| && id(tail[i]) == k {
      var i :| 0 <= i < |rows| && id(rows[i]) == k;
      assert i != 0 && id(tail[i - 1]) == k;
    }
    forall i | 0 <= i < |tail| ensures id(tail[i]) in rest && rest[id(tail[i])] == tail[i] {
      assert id(rows[0]) != id(rows[i + 1]);
    }
  }

  /** Taking one row out of the table takes its id out of every selection. */
  lemma IdsWhereRemove<T>(table: map<int, T>, k: int, p: T -> bool)
    requires k in table
    ensures IdsWhere(table, p) == IdsWhere(table - {k}, p) + (if p(table[k]) then {k} else {})
    ensures k !in IdsWhere(table - {k}, p)
  {
  }

  /** Counting the listed rows that satisfy `p` counts the table's rows that do. */
  lemma {:induction false} CountMatchesTable<T>(rows: seq<T>, table: map<int, T>, id: T -> int, p: T -> bool)
    requires ListsTable(rows, table, id)
    ensures Count(rows, p) == |IdsWhere(table, p)|
  {
    if rows == [] {
      ListsNoRows(table, id);
      assert IdsWhere(table, p) == {};
    } else {
      var h := rows[0];
      ListsTail(rows, table, id);
      CountMatchesTable(rows[1..], table - {id(h)}, id, p);
      assert Filter(rows, p) == (if p(h) then [h] else []) + Filter(rows[1..], p);
      IdsWhereRemove(table, id(h), p);
    }
  }

  /** When the visitor rows list the visitor table, the board's visitor figure is the
      number of visitors the desk has on the premises. */
  lemma OnSiteFigureMatchesDesk(rows: seq<Visitor>, table: map<int, Visitor>, vehicles: seq<Vehicle>,
                                keys: seq<Key>)
    requires ListsTable(rows, table, (v: Visitor) => v.id)
    ensures ComputeStats(vehicles, keys, OnSiteRows(rows)).visitorsOnSite == |OnPremisesIds(table)|
  {
    CountMatchesTable(rows, table, (v: Visitor) => v.id, (v: Visitor) => v.status == VisitorOnPremises);
    assert IdsWhere(table, (v: Visitor) => v.status == VisitorOnPremises) == OnPremisesIds(table);
  }

  /** The board's lists and figures. */
  class LiveBoard {
    var vehicles: seq<Vehicle>
    var trips: seq<Trip>
    var keys: seq<Key>
    var keyTransactions: seq<KeyTransaction>
    var visitors: seq<Visitor>
    var stats: Stats
    var loading: bool

    constructor ()
      ensures vehicles == [] && trips == [] && keys == [] && keyTransactions == [] && visitors == []
      ensures stats == Stats(0, 0, 0, 0, 0) && loading
    {
      vehicles := [];
      trips := [];
      keys := [];
      keyTransactions := [];
      visitors := [];
      stats := Stats(0, 0, 0, 0, 0);
      loading := true;
    }

    /** `fetchAllData`: each table's rows, in the order its query asks for, or `None`
        when the query returned no data. The trips, key transactions and visitors are
        narrowed to the open and on-site ones; the figures are counted from what the
        board then shows. */
    method Refresh(vehicleRows: Option<seq<Vehicle>>, tripRows: Option<seq<Trip>>, keyRows: Option<seq<Key>>,
                   txRows: Option<seq<KeyTransaction>>, visitorRows: Option<seq<Visitor>>)
      modifies this
      ensures vehicles == RowsOrEmpty(vehicleRows) && keys == RowsOrEmpty(keyRows)
      ensures trips == OpenTripRows(RowsOrEmpty(tripRows))
      ensures keyTransactions == OpenTxRows(RowsOrEmpty(txRows))
      ensures visitors == OnSiteRows(RowsOrEmpty(visitorRows))
      ensures stats == ComputeStats(vehicles, keys, visitors)
      ensures !loading
    {
      loading := true;
      vehicles := RowsOrEmpty(vehicleRows);
      trips := OpenTripRows(RowsOrEmpty(tripRows));
      keys := RowsOrEmpty(keyRows);
      keyTransactions := OpenTxRows(RowsOrEmpty(txRows));
      visitors := OnSiteRows(RowsOrEmpty(visitorRows));
      stats := ComputeStats(vehicles, keys, visitors);
      loading := false;
    }
  }
}
