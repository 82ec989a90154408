/** The storage service's tables as seen by the handlers: one map from row id to row
    per table, and the source of fresh ids for inserted rows. */
module Tables {
  import opened Records

  class Store {
    var employees: map<int, Employee>
    var keys: map<int, Key>
    var keyTxs: map<int, KeyTransaction>
    var vehicles: map<int, Vehicle>
    var trips: map<int, Trip>
    var visitors: map<int, Visitor>
    /** Every id handed out so far is below this one. */
    var nextId: int

    /** Every id in use, in any table, is below `nextId`. */
    predicate Valid()
      reads this
    {
      (forall id :: id in employees ==> id < nextId) &&
      (forall id :: id in keys ==> id < nextId) &&
      (forall id :: id in keyTxs ==> id < nextId) &&
      (forall id :: id in vehicles ==> id < nextId) &&
      (forall id :: id in trips ==> id < nextId) &&
      (forall id :: id in visitors ==> id < nextId)
    }

    constructor ()
      ensures Valid()
      ensures employees == map[] && keys == map[] && keyTxs == map[]
      ensures vehicles == map[] && trips == map[] && visitors == map[]
    {
      employees := map[];
      keys := map[];
      keyTxs := map[];
      vehicles := map[];
      trips := map[];
      visitors := map[];
      nextId := 0;
    }

    /** The id the storage service gives the next inserted row: used by no table. */
    method FreshId() returns (id: int)
      requires Valid()
      modifies this
      ensures Valid()
      ensures id == old(nextId) && nextId == old(nextId) + 1
      ensures id !in employees && id !in keys && id !in keyTxs
      ensures id !in vehicles && id !in trips && id !in visitors
      ensures employees == old(employees) && keys == old(keys) && keyTxs == old(keyTxs)
      ensures vehicles == old(vehicles) && trips == old(trips) && visitors == old(visitors)
    {
      id := nextId;
      nextId := nextId + 1;
    }
    // Each write below is one insert or update call of the storage service. An
    // update by id of a row that does not exist changes nothing.

    /** Stores `row` under a fresh `id`. */
    method PutKeyTx(id: int, row: KeyTransaction)
      requires Valid() && id < nextId
      modifies this
      ensures Valid() && nextId == old(nextId)
      ensures keyTxs == old(keyTxs)[id := row]
      ensures employees == old(employees) && keys == old(keys)
      ensures vehicles == old(vehicles) && trips == old(trips) && visitors == old(visitors)
    {
      keyTxs := keyTxs[id := row];
    }

    method PutTrip(id: int, row: Trip)
      requires Valid() && id < nextId
      modifies this
      ensures Valid() && nextId == old(nextId)
      ensures trips == old(trips)[id := row]
      ensures employees == old(employees) && keys == old(keys) && keyTxs == old(keyTxs)
      ensures vehicles == old(vehicles) && visitors == old(visitors)
    {
      trips := trips[id := row];
    }

    method PutVisitor(id: int, row: Visitor)
      requires Valid() && id < nextId
      modifies this
      ensures Valid() && nextId == old(nextId)
      ensures visitors == old(visitors)[id := row]
      ensures employees == old(employees) && keys == old(keys) && keyTxs == old(keyTxs)
      ensures vehicles == old(vehicles) && trips == old(trips)
    {
      visitors := visitors[id := row];
    }

    method PutEmployee(id: int, row: Employee)
      requires Valid() && id < nextId
      modifies this
      ensures Valid() && nextId == old(nextId)
      ensures employees == old(employees)[id := row]
      ensures keys == old(keys) && keyTxs == old(keyTxs)
      ensures vehicles == old(vehicles) && trips == old(trips) && visitors == old(visitors)
    {
      employees := employees[id := row];
    }

    method PutKey(id: int, row: Key)
      requires Valid() && id < nextId
      modifies this
      ensures Valid() && nextId == old(nextId)
      ensures keys == old(keys)[id := row]
      ensures employees == old(employees) && keyTxs == old(keyTxs)
      ensures vehicles == old(vehicles) && trips == old(trips) && visitors == old(visitors)
    {
      keys := keys[id := row];
    }

    method PutVehicle(id: int, row: Vehicle)
      requires Valid() && id < nextId
      modifies this
      ensures Valid() && nextId == old(nextId)
      ensures vehicles == old(vehicles)[id := row]
      ensures employees == old(employees) && keys == old(keys) && keyTxs == old(keyTxs)
      ensures trips == old(trips) && visitors == old(visitors)
    {
      vehicles := vehicles[id := row];
    }

    /** Replaces the key table by `m`, which has the same rows: an update by id. */
    method SetKeys(m: map<int, Key>)
      requires Valid() && m.Keys == keys.Keys
      modifies this
      ensures Valid() && nextId == old(nextId)
      ensures keys == m
      ensures employees == old(employees) && keyTxs == old(keyTxs)
      ensures vehicles == old(vehicles) && trips == old(trips) && visitors == old(visitors)
    {
      keys := m;
    }

    method SetKeyTxs(m: map<int, KeyTransaction>)
      requires Valid() && m.Keys == keyTxs.Keys
      modifies this
      ensures Valid() && nextId == old(nextId)
      ensures keyTxs == m
      ensures employees == old(employees) && keys == old(keys)
      ensures vehicles == old(vehicles) && trips == old(trips) && visitors == old(visitors)
    {
      keyTxs := m;
    }

    method SetVehicles(m: map<int, Vehicle>)
      requires Valid() && m.Keys == vehicles.Keys
      modifies this
      ensures Valid() && nextId == old(nextId)
      ensures vehicles == m
      ensures employees == old(employees) && keys == old(keys) && keyTxs == old(keyTxs)
      ensures trips == old(trips) && visitors == old(visitors)
    {
      vehicles := m;
    }

    method SetTrips(m: map<int, Trip>)
      requires Valid() && m.Keys == trips.Keys
      modifies this
      ensures Valid() && nextId == old(nextId)
      ensures trips == m
      ensures employees == old(employees) && keys == old(keys) && keyTxs == old(keyTxs)
      ensures vehicles == old(vehicles) && visitors == old(visitors)
    {
      trips := m;
    }

    method SetVisitors(m: map<int, Visitor>)
      requires Valid() && m.Keys == visitors.Keys
      modifies this
      ensures Valid() && nextId == old(nextId)
      ensures visitors == m
      ensures employees == old(employees) && keys == old(keys) && keyTxs == old(keyTxs)
      ensures vehicles == old(vehicles) && trips == old(trips)
    {
      visitors := m;
    }

    method SetEmployees(m: map<int, Employee>)
      requires Valid() && m.Keys == employees.Keys
      modifies this
      ensures Valid() && nextId == old(nextId)
      ensures employees == m
      ensures keys == old(keys) && keyTxs == old(keyTxs)
      ensures vehicles == old(vehicles) && trips == old(trips) && visitors == old(visitors)
    {
      employees := m;
    }
  }
}
