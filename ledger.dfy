/** The custody ledger: the rows the checkout, return and force-close handlers write,
    and the invariants those writes keep.

    Keys: a key is checked out exactly when one open (status out) transaction
    references it. Vehicles: a vehicle is in use exactly when one open trip
    references it, and then its last odometer reading is that trip's starting
    reading. Checkout, return and force-close keep these, and never lower a
    vehicle's last odometer reading, provided both of their writes are stored and
    checkout is applied to an asset that is still available. */
module Ledger {
  import opened Common
  import opened Records
  import opened Tables

  // ---------------------------------------------------------------------------
  // Key rows

  /** The transaction row a key checkout inserts. */
  function OpenTx(id: int, keyId: int, person: int, officer: int, purpose: string, now: int): KeyTransaction {
    KeyTransaction(id, keyId, person, officer, purpose, now, None, None, None, None, TxOut)
  }

  /** The key update of a checkout: checked out, last taken by `person` at `now`. */
  function CheckOutKeyRow(keys: map<int, Key>, k: int, person: int, now: int): (r: map<int, Key>)
    ensures r.Keys == keys.Keys
    ensures forall id :: id in keys && id != k ==> r[id] == keys[id]
    ensures k in keys ==> r[k].status == KeyCheckedOut && r[k].lastCheckoutBy == Some(person) &&
                          r[k].lastCheckoutTime == Some(now)
    ensures k in keys ==> r[k].id == keys[k].id && r[k].keyNumber == keys[k].keyNumber &&
                          r[k].vehicleId == keys[k].vehicleId
  {
    if k in keys then
      keys[k := keys[k].(status := KeyCheckedOut, lastCheckoutBy := Some(person), lastCheckoutTime := Some(now))]
    else keys
  }

  /** The key update of a return: available, with no last checkout recorded. */
  function ReleaseKeyRow(keys: map<int, Key>, k: int): (r: map<int, Key>)
    ensures r.Keys == keys.Keys
    ensures forall id :: id in keys && id != k ==> r[id] == keys[id]
    ensures k in keys ==> r[k].status == KeyAvailable && r[k].lastCheckoutBy == None &&
                          r[k].lastCheckoutTime == None
    ensures k in keys ==> r[k].id == keys[k].id && r[k].keyNumber == keys[k].keyNumber
  {
    if k in keys then
      keys[k := keys[k].(status := KeyAvailable, lastCheckoutBy := None, lastCheckoutTime := None)]
    else keys
  }

  /** The transaction update of a return. */
  function CloseTxRow(txs: map<int, KeyTransaction>, t: int, returner: int, officer: int, now: int,
                      reason: Option<string>): (r: map<int, KeyTransaction>)
    ensures r.Keys == txs.Keys
    ensures forall id :: id in txs && id != t ==> r[id] == txs[id]
    ensures t in txs ==> r[t].status == TxReturned && r[t].personInId == Some(returner) &&
                         r[t].officerReturnId == Some(officer) && r[t].returnTime == Some(now) &&
                         r[t].reason == reason
    ensures t in txs ==> r[t].id == txs[t].id && r[t].keyId == txs[t].keyId && r[t].personOutId == txs[t].personOutId &&
                         r[t].purpose == txs[t].purpose && r[t].checkoutTime == txs[t].checkoutTime
  {
    if t in txs then
      txs[t := txs[t].(personInId := Some(returner), officerReturnId := Some(officer),
                       returnTime := Some(now), reason := reason, status := TxReturned)]
    else txs
  }

  // ---------------------------------------------------------------------------
  // Key custody invariant

  /** Transaction `id` is open and holds key `k`. */
  predicate IsOpenTx(txs: map<int, KeyTransaction>, id: int, k: int) {
    id in txs && txs[id].status == TxOut && txs[id].keyId == k
  }

  /** Every open transaction names an existing key, a key is checked out exactly when
      an open transaction holds it, and no key is held by two open transactions. */
  ghost predicate KeyCustodyConsistent(keys: map<int, Key>, txs: map<int, KeyTransaction>) {
    (forall id :: id in txs && txs[id].status == TxOut ==> txs[id].keyId in keys) &&
    (forall k :: k in keys ==> (keys[k].status == KeyCheckedOut <==> exists id :: IsOpenTx(txs, id, k))) &&
    (forall a, b :: (a in txs && b in txs && txs[a].status == TxOut && txs[b].status == TxOut &&
                     txs[a].keyId == txs[b].keyId) ==> a == b)
  }

  /** Checking out an available key, with both writes stored, keeps key custody consistent. */
  lemma CheckoutKeepsKeyCustody(keys: map<int, Key>, txs: map<int, KeyTransaction>, k: int, id: int,
                                person: int, officer: int, purpose: string, now: int)
    requires id !in txs
    ensures KeyCustodyConsistent(keys, txs) && k in keys && keys[k].status == KeyAvailable ==>
              KeyCustodyConsistent(CheckOutKeyRow(keys, k, person, now),
                                   txs[id := OpenTx(id, k, person, officer, purpose, now)])
  {
    if KeyCustodyConsistent(keys, txs) && k in keys && keys[k].status == KeyAvailable {
      var keys' := CheckOutKeyRow(keys, k, person, now);
      var txs' := txs[id := OpenTx(id, k, person, officer, purpose, now)];
      assert IsOpenTx(txs', id, k);
      forall j | j in keys'
        ensures keys'[j].status == KeyCheckedOut <==> exists x :: IsOpenTx(txs', x, j)
      {
        if j != k {
          if exists x :: IsOpenTx(txs', x, j) {
            var x :| IsOpenTx(txs', x, j);
            assert IsOpenTx(txs, x, j);
          }
          if keys[j].status == KeyCheckedOut {
            var x :| IsOpenTx(txs, x, j);
            assert IsOpenTx(txs', x, j);
          }
        }
      }
      forall a, b | a in txs' && b in txs' && txs'[a].status == TxOut && txs'[b].status == TxOut &&
                    txs'[a].keyId == txs'[b].keyId
        ensures a == b
      {
        if a != b {
          var other := if a == id then b else a;
          assert IsOpenTx(txs, other, k);
        }
      }
    }
  }

  /** Returning the key of an open transaction, with both writes stored, keeps key
      custody consistent: the transaction was the key's only open one. */
  lemma ReturnKeepsKeyCustody(keys: map<int, Key>, txs: map<int, KeyTransaction>, t: int,
                              returner: int, officer: int, now: int, reason: Option<string>)
    ensures KeyCustodyConsistent(keys, txs) && t in txs && txs[t].status == TxOut ==>
              KeyCustodyConsistent(ReleaseKeyRow(keys, txs[t].keyId),
                                   CloseTxRow(txs, t, returner, officer, now, reason))
  {
    if KeyCustodyConsistent(keys, txs) && t in txs && txs[t].status == TxOut {
      var k := txs[t].keyId;
      var keys' := ReleaseKeyRow(keys, k);
      var txs' := CloseTxRow(txs, t, returner, officer, now, reason);
      forall j | j in keys'
        ensures keys'[j].status == KeyCheckedOut <==> exists x :: IsOpenTx(txs', x, j)
      {
        if exists x :: IsOpenTx(txs', x, j) {
          var x :| IsOpenTx(txs', x, j);
          assert x != t && IsOpenTx(txs, x, j);
          if j == k {
            assert false;
          }
        }
        if j != k && keys[j].status == KeyCheckedOut {
          var x :| IsOpenTx(txs, x, j);
          assert IsOpenTx(txs', x, j);
        }
      }
    }
  }

  /** A return does not check that the transaction is still open. Replaying it on a
      transaction returned earlier, after its key went out again, marks the key
      available while its new transaction stays open. */
  lemma StaleReturnBreaksKeyCustody(keys: map<int, Key>, txs: map<int, KeyTransaction>, t: int,
                                    returner: int, officer: int, now: int, reason: Option<string>)
    requires KeyCustodyConsistent(keys, txs)
    requires t in txs && txs[t].status == TxReturned
    requires txs[t].keyId in keys && keys[txs[t].keyId].status == KeyCheckedOut
    ensures !KeyCustodyConsistent(ReleaseKeyRow(keys, txs[t].keyId),
                                  CloseTxRow(txs, t, returner, officer, now, reason))
  {
    var k := txs[t].keyId;
    var x :| IsOpenTx(txs, x, k);
    var txs' := CloseTxRow(txs, t, returner, officer, now, reason);
    assert IsOpenTx(txs', x, k);
    assert ReleaseKeyRow(keys, k)[k].status == KeyAvailable;
  }

  /** The transaction insert and the key update are separate writes. When the insert
      is stored and the key update is refused, the key stays available under an open
      transaction. */
  lemma HalfCheckoutBreaksKeyCustody(keys: map<int, Key>, txs: map<int, KeyTransaction>, k: int, id: int,
                                     person: int, officer: int, purpose: string, now: int)
    requires k in keys && keys[k].status == KeyAvailable
    ensures !KeyCustodyConsistent(keys, txs[id := OpenTx(id, k, person, officer, purpose, now)])
  {
    assert IsOpenTx(txs[id := OpenTx(id, k, person, officer, purpose, now)], id, k);
  }

  // ---------------------------------------------------------------------------
  // Vehicle and trip rows

  /** The trip row a vehicle checkout inserts. */
  function OpenTrip(id: int, v: int, driver: int, officer: int, destination: string, start: int, now: int): Trip {
    Trip(id, v, driver, officer, destination, start, now, None, None, None, None, None, "", TripOut, None)
  }

  /** The vehicle update of a checkout: in use, with the starting reading as its last. */
  function DispatchVehicleRow(vehicles: map<int, Vehicle>, v: int, start: int): (r: map<int, Vehicle>)
    ensures r.Keys == vehicles.Keys
    ensures forall id :: id in vehicles && id != v ==> r[id] == vehicles[id]
    ensures v in vehicles ==> r[v].status == VehicleInUse && r[v].lastOdometer == start
    ensures v in vehicles ==> r[v].id == vehicles[v].id && r[v].registration == vehicles[v].registration &&
                              r[v].currentLocation == vehicles[v].currentLocation
  {
    if v in vehicles then vehicles[v := vehicles[v].(status := VehicleInUse, lastOdometer := start)]
    else vehicles
  }

  /** The vehicle update of a return: available, with the ending reading as its last. */
  function ReleaseVehicleRow(vehicles: map<int, Vehicle>, v: int, odometer: int): (r: map<int, Vehicle>)
    ensures r.Keys == vehicles.Keys
    ensures forall id :: id in vehicles && id != v ==> r[id] == vehicles[id]
    ensures v in vehicles ==> r[v].status == VehicleAvailable && r[v].lastOdometer == odometer
    ensures v in vehicles ==> r[v].id == vehicles[v].id && r[v].registration == vehicles[v].registration &&
                              r[v].currentLocation == vehicles[v].currentLocation
  {
    if v in vehicles then vehicles[v := vehicles[v].(status := VehicleAvailable, lastOdometer := odometer)]
    else vehicles
  }

  /** The vehicle update of a force-close: available, reading untouched. */
  function FreeVehicleRow(vehicles: map<int, Vehicle>, v: int): (r: map<int, Vehicle>)
    ensures r.Keys == vehicles.Keys
    ensures forall id :: id in vehicles && id != v ==> r[id] == vehicles[id]
    ensures v in vehicles ==> r[v].status == VehicleAvailable && r[v].lastOdometer == vehicles[v].lastOdometer
    ensures v in vehicles ==> r[v].id == vehicles[v].id && r[v].registration == vehicles[v].registration
  {
    if v in vehicles then vehicles[v := vehicles[v].(status := VehicleAvailable)] else vehicles
  }

  /** The trip update of a vehicle return. */
  function CloseTripRow(trips: map<int, Trip>, t: int, driver: int, officer: int, end: int, now: int,
                        reason: Option<string>): (r: map<int, Trip>)
    ensures r.Keys == trips.Keys
    ensures forall id :: id in trips && id != t ==> r[id] == trips[id]
    ensures t in trips ==> r[t].status == TripReturned && r[t].driverInId == Some(driver) &&
                           r[t].officerInId == Some(officer) && r[t].odometerEnd == Some(end) &&
                           r[t].timeIn == Some(now) && r[t].reason == reason
    ensures t in trips ==> r[t].id == trips[t].id && r[t].vehicleId == trips[t].vehicleId &&
                           r[t].odometerStart == trips[t].odometerStart && r[t].driverOutId == trips[t].driverOutId && r[t].timeOut == trips[t].timeOut
  {
    if t in trips then
      trips[t := trips[t].(driverInId := Some(driver), officerInId := Some(officer), odometerEnd := Some(end),
                           timeIn := Some(now), reason := reason, status := TripReturned)]
    else trips
  }

  /** The trip update of a force-close: returned now, ending where it started. */
  function ForceCloseTripRow(trips: map<int, Trip>, t: int, start: int, now: int): (r: map<int, Trip>)
    ensures r.Keys == trips.Keys
    ensures forall id :: id in trips && id != t ==> r[id] == trips[id]
    ensures t in trips ==> r[t].status == TripReturned && r[t].timeIn == Some(now) &&
                           r[t].odometerEnd == Some(start) && r[t].notes == "Force closed by admin"
    ensures t in trips ==> r[t].id == trips[t].id && r[t].vehicleId == trips[t].vehicleId &&
                           r[t].odometerStart == trips[t].odometerStart && r[t].driverInId == trips[t].driverInId
  {
    if t in trips then
      trips[t := trips[t].(status := TripReturned, timeIn := Some(now), odometerEnd := Some(start),
                           notes := "Force closed by admin")]
    else trips
  }

  // ---------------------------------------------------------------------------
  // Vehicle custody invariant and the odometer

  /** Trip `id` is open and uses vehicle `v`. */
  predicate IsOpenTrip(trips: map<int, Trip>, id: int, v: int) {
    id in trips && trips[id].status == TripOut && trips[id].vehicleId == v
  }

  /** Every open trip names an existing vehicle whose last reading is the trip's start,
      a vehicle is in use exactly when an open trip uses it, and no vehicle is used by
      two open trips. */
  ghost predicate VehicleCustodyConsistent(vehicles: map<int, Vehicle>, trips: map<int, Trip>) {
    (forall id :: id in trips && trips[id].status == TripOut ==>
       trips[id].vehicleId in vehicles && vehicles[trips[id].vehicleId].lastOdometer == trips[id].odometerStart) &&
    (forall v :: v in vehicles ==> (vehicles[v].status == VehicleInUse <==> exists id :: IsOpenTrip(trips, id, v))) &&
    (forall a, b :: (a in trips && b in trips && trips[a].status == TripOut && trips[b].status == TripOut &&
                     trips[a].vehicleId == trips[b].vehicleId) ==> a == b)
  }

  /** No vehicle disappears and no vehicle's last odometer reading goes down. */
  predicate OdometersNotLowered(before: map<int, Vehicle>, after: map<int, Vehicle>) {
    forall v :: v in before ==> v in after && after[v].lastOdometer >= before[v].lastOdometer
  }

  /** Checking out an available vehicle at a reading no lower than its last, with both
      writes stored, keeps vehicle custody consistent and lowers no reading. */
  lemma DispatchKeepsVehicleCustody(vehicles: map<int, Vehicle>, trips: map<int, Trip>, v: int, id: int,
                                    driver: int, officer: int, destination: string, start: int, now: int)
    requires id !in trips
    ensures VehicleCustodyConsistent(vehicles, trips) && v in vehicles &&
            vehicles[v].status == VehicleAvailable && start >= vehicles[v].lastOdometer ==>
              VehicleCustodyConsistent(DispatchVehicleRow(vehicles, v, start),
                                       trips[id := OpenTrip(id, v, driver, officer, destination, start, now)])
    ensures v in vehicles && start >= vehicles[v].lastOdometer ==>
              OdometersNotLowered(vehicles, DispatchVehicleRow(vehicles, v, start))
  {
    if VehicleCustodyConsistent(vehicles, trips) && v in vehicles &&
       vehicles[v].status == VehicleAvailable && start >= vehicles[v].lastOdometer {
      var vehicles' := DispatchVehicleRow(vehicles, v, start);
      var trips' := trips[id := OpenTrip(id, v, driver, officer, destination, start, now)];
      assert IsOpenTrip(trips', id, v);
      forall x | x in trips' && trips'[x].status == TripOut
        ensures trips'[x].vehicleId in vehicles' &&
                vehicles'[trips'[x].vehicleId].lastOdometer == trips'[x].odometerStart
      {
        if x != id {
          assert IsOpenTrip(trips, x, trips[x].vehicleId);
          if trips[x].vehicleId == v {
            assert false;
          }
        }
      }
      forall j | j in vehicles'
        ensures vehicles'[j].status == VehicleInUse <==> exists x :: IsOpenTrip(trips', x, j)
      {
        if j != v {
          if exists x :: IsOpenTrip(trips', x, j) {
            var x :| IsOpenTrip(trips', x, j);
            assert IsOpenTrip(trips, x, j);
          }
          if vehicles[j].status == VehicleInUse {
            var x :| IsOpenTrip(trips, x, j);
            assert IsOpenTrip(trips', x, j);
          }
        }
      }
      forall a, b | a in trips' && b in trips' && trips'[a].status == TripOut && trips'[b].status == TripOut &&
                    trips'[a].vehicleId == trips'[b].vehicleId
        ensures a == b
      {
        if a != b {
          var other := if a == id then b else a;
          assert IsOpenTrip(trips, other, v);
        }
      }
    }
  }

  /** Returning the vehicle of an open trip at a reading no lower than its start, with
      both writes stored, keeps vehicle custody consistent and lowers no reading. */
  lemma ReturnKeepsVehicleCustody(vehicles: map<int, Vehicle>, trips: map<int, Trip>, t: int,
                                  driver: int, officer: int, end: int, now: int, reason: Option<string>)
    ensures VehicleCustodyConsistent(vehicles, trips) && t in trips && trips[t].status == TripOut &&
            end >= trips[t].odometerStart ==>
              VehicleCustodyConsistent(ReleaseVehicleRow(vehicles, trips[t].vehicleId, end),
                                       CloseTripRow(trips, t, driver, officer, end, now, reason)) &&
              OdometersNotLowered(vehicles, ReleaseVehicleRow(vehicles, trips[t].vehicleId, end))
  {
    if VehicleCustodyConsistent(vehicles, trips) && t in trips && trips[t].status == TripOut &&
       end >= trips[t].odometerStart {
      var v := trips[t].vehicleId;
      var vehicles' := ReleaseVehicleRow(vehicles, v, end);
      var trips' := CloseTripRow(trips, t, driver, officer, end, now, reason);
      forall x | x in trips' && trips'[x].status == TripOut
        ensures trips'[x].vehicleId in vehicles' &&
                vehicles'[trips'[x].vehicleId].lastOdometer == trips'[x].odometerStart
      {
        assert x != t && IsOpenTrip(trips, x, trips[x].vehicleId);
        if trips[x].vehicleId == v {
          assert false;
        }
      }
      forall j | j in vehicles'
        ensures vehicles'[j].status == VehicleInUse <==> exists x :: IsOpenTrip(trips', x, j)
      {
        if exists x :: IsOpenTrip(trips', x, j) {
          var x :| IsOpenTrip(trips', x, j);
          assert x != t && IsOpenTrip(trips, x, j);
          if j == v {
            assert false;
          }
        }
        if j != v && vehicles[j].status == VehicleInUse {
          var x :| IsOpenTrip(trips, x, j);
          assert IsOpenTrip(trips', x, j);
        }
      }
    }
  }

  /** Force-closing an open trip, with both writes stored, keeps vehicle custody
      consistent and leaves every reading as it was. */
  lemma ForceCloseKeepsVehicleCustody(vehicles: map<int, Vehicle>, trips: map<int, Trip>, t: int, now: int)
    ensures VehicleCustodyConsistent(vehicles, trips) && t in trips && trips[t].status == TripOut ==>
              VehicleCustodyConsistent(FreeVehicleRow(vehicles, trips[t].vehicleId),
                                       ForceCloseTripRow(trips, t, trips[t].odometerStart, now))
    ensures t in trips ==> OdometersNotLowered(vehicles, FreeVehicleRow(vehicles, trips[t].vehicleId))
  {
    if VehicleCustodyConsistent(vehicles, trips) && t in trips && trips[t].status == TripOut {
      var v := trips[t].vehicleId;
      var vehicles' := FreeVehicleRow(vehicles, v);
      var trips' := ForceCloseTripRow(trips, t, trips[t].odometerStart, now);
      forall x | x in trips' && trips'[x].status == TripOut
        ensures trips'[x].vehicleId in vehicles' &&
                vehicles'[trips'[x].vehicleId].lastOdometer == trips'[x].odometerStart
      {
        assert x != t && trips'[x] == trips[x];
      }
      forall j | j in vehicles'
        ensures vehicles'[j].status == VehicleInUse <==> exists x :: IsOpenTrip(trips', x, j)
      {
        if exists x :: IsOpenTrip(trips', x, j) {
          var x :| IsOpenTrip(trips', x, j);
          assert x != t && IsOpenTrip(trips, x, j);
          if j == v {
            assert false;
          }
        }
        if j != v && vehicles[j].status == VehicleInUse {
          var x :| IsOpenTrip(trips, x, j);
          assert IsOpenTrip(trips', x, j);
        }
      }
      forall a, b | a in trips' && b in trips' && trips'[a].status == TripOut && trips'[b].status == TripOut &&
                    trips'[a].vehicleId == trips'[b].vehicleId
        ensures a == b
      {
        assert trips'[a] == trips[a] && trips'[b] == trips[b];
      }
    }
  }

  /** Out, then in, then out again: along consistent custody steps the last reading of
      every vehicle only grows, so it never drops below any earlier value. */
  lemma OdometersNotLoweredTransitive(a: map<int, Vehicle>, b: map<int, Vehicle>, c: map<int, Vehicle>)
    requires OdometersNotLowered(a, b) && OdometersNotLowered(b, c)
    ensures OdometersNotLowered(a, c)
  {
  }

  /** The trip insert and the vehicle update are separate writes. When the insert is
      stored and the vehicle update is refused, the vehicle stays available under an
      open trip. */
  lemma HalfDispatchBreaksVehicleCustody(vehicles: map<int, Vehicle>, trips: map<int, Trip>, v: int, id: int,
                                         driver: int, officer: int, destination: string, start: int, now: int)
    requires v in vehicles && vehicles[v].status == VehicleAvailable
    ensures !VehicleCustodyConsistent(vehicles, trips[id := OpenTrip(id, v, driver, officer, destination, start, now)])
  {
    assert IsOpenTrip(trips[id := OpenTrip(id, v, driver, officer, destination, start, now)], id, v);
  }
  // ---------------------------------------------------------------------------
  // The two writes of each custody handler, in the order the handlers issue them.
  // A refused write leaves its table as it was and the second write is not issued.

  /** A key checkout: insert the open transaction under `id`, then mark the key. */
  method WriteCheckout(db: Store, k: int, person: int, officer: int, purpose: string, now: int,
                       txWrite: WriteResult, keyWrite: WriteResult) returns (id: int)
    requires db.Valid()
    modifies db
    ensures db.Valid()
    ensures db.employees == old(db.employees) && db.vehicles == old(db.vehicles)
    ensures db.trips == old(db.trips) && db.visitors == old(db.visitors)
    ensures id == old(db.nextId) && id !in old(db.keyTxs)
    ensures txWrite.Rejected? ==> db.keyTxs == old(db.keyTxs)
    ensures txWrite.Written? ==> db.keyTxs == old(db.keyTxs)[id := OpenTx(id, k, person, officer, purpose, now)]
    ensures txWrite.Written? && keyWrite.Written? ==> db.keys == CheckOutKeyRow(old(db.keys), k, person, now)
    ensures !(txWrite.Written? && keyWrite.Written?) ==> db.keys == old(db.keys)
    ensures txWrite.Written? && keyWrite.Written? && KeyCustodyConsistent(old(db.keys), old(db.keyTxs)) &&
            k in old(db.keys) && old(db.keys)[k].status == KeyAvailable ==>
              KeyCustodyConsistent(db.keys, db.keyTxs)
  {
    ghost var keys0 := db.keys;
    ghost var txs0 := db.keyTxs;
    id := db.FreshId();
    if txWrite.Rejected? {
      return;
    }
    db.PutKeyTx(id, OpenTx(id, k, person, officer, purpose, now));
    if keyWrite.Rejected? {
      return;
    }
    db.SetKeys(CheckOutKeyRow(db.keys, k, person, now));
    CheckoutKeepsKeyCustody(keys0, txs0, k, id, person, officer, purpose, now);
  }

  /** A key return: close transaction `t`, then release key `k`. */
  method WriteKeyReturn(db: Store, t: int, k: int, returner: int, officer: int, now: int, reason: Option<string>,
                        txWrite: WriteResult, keyWrite: WriteResult)
    requires db.Valid()
    modifies db
    ensures db.Valid()
    ensures db.employees == old(db.employees) && db.vehicles == old(db.vehicles)
    ensures db.trips == old(db.trips) && db.visitors == old(db.visitors)
    ensures txWrite.Rejected? ==> db.keyTxs == old(db.keyTxs)
    ensures txWrite.Written? ==> db.keyTxs == CloseTxRow(old(db.keyTxs), t, returner, officer, now, reason)
    ensures txWrite.Written? && keyWrite.Written? ==> db.keys == ReleaseKeyRow(old(db.keys), k)
    ensures !(txWrite.Written? && keyWrite.Written?) ==> db.keys == old(db.keys)
    ensures txWrite.Written? && keyWrite.Written? && KeyCustodyConsistent(old(db.keys), old(db.keyTxs)) &&
            t in old(db.keyTxs) && old(db.keyTxs)[t].status == TxOut && old(db.keyTxs)[t].keyId == k ==>
              KeyCustodyConsistent(db.keys, db.keyTxs)
  {
    ghost var keys0 := db.keys;
    ghost var txs0 := db.keyTxs;
    if txWrite.Rejected? {
      return;
    }
    db.SetKeyTxs(CloseTxRow(db.keyTxs, t, returner, officer, now, reason));
    if keyWrite.Rejected? {
      return;
    }
    db.SetKeys(ReleaseKeyRow(db.keys, k));
    ReturnKeepsKeyCustody(keys0, txs0, t, returner, officer, now, reason);
  }

  /** A vehicle checkout: insert the open trip under `id`, then mark the vehicle. */
  method WriteDispatch(db: Store, v: int, driver: int, officer: int, destination: string, start: int, now: int,
                       tripWrite: WriteResult, vehicleWrite: WriteResult) returns (id: int)
    requires db.Valid()
    modifies db
    ensures db.Valid()
    ensures db.employees == old(db.employees) && db.keys == old(db.keys)
    ensures db.keyTxs == old(db.keyTxs) && db.visitors == old(db.visitors)
    ensures id == old(db.nextId) && id !in old(db.trips)
    ensures tripWrite.Rejected? ==> db.trips == old(db.trips)
    ensures tripWrite.Written? ==>
              db.trips == old(db.trips)[id := OpenTrip(id, v, driver, officer, destination, start, now)]
    ensures tripWrite.Written? && vehicleWrite.Written? ==> db.vehicles == DispatchVehicleRow(old(db.vehicles), v, start)
    ensures !(tripWrite.Written? && vehicleWrite.Written?) ==> db.vehicles == old(db.vehicles)
    ensures v in old(db.vehicles) && start >= old(db.vehicles)[v].lastOdometer ==>
              OdometersNotLowered(old(db.vehicles), db.vehicles)
    ensures tripWrite.Written? && vehicleWrite.Written? && VehicleCustodyConsistent(old(db.vehicles), old(db.trips)) &&
            v in old(db.vehicles) && old(db.vehicles)[v].status == VehicleAvailable &&
            start >= old(db.vehicles)[v].lastOdometer ==>
              VehicleCustodyConsistent(db.vehicles, db.trips)
  {
    ghost var vehicles0 := db.vehicles;
    ghost var trips0 := db.trips;
    id := db.FreshId();
    if tripWrite.Rejected? {
      return;
    }
    db.PutTrip(id, OpenTrip(id, v, driver, officer, destination, start, now));
    if vehicleWrite.Rejected? {
      return;
    }
    db.SetVehicles(DispatchVehicleRow(db.vehicles, v, start));
    DispatchKeepsVehicleCustody(vehicles0, trips0, v, id, driver, officer, destination, start, now);
  }

  /** A vehicle return: close trip `t` at reading `end`, then release vehicle `v` there. */
  method WriteVehicleReturn(db: Store, t: int, v: int, driver: int, officer: int, end: int, now: int,
                            reason: Option<string>, tripWrite: WriteResult, vehicleWrite: WriteResult)
    requires db.Valid()
    modifies db
    ensures db.Valid()
    ensures db.employees == old(db.employees) && db.keys == old(db.keys)
    ensures db.keyTxs == old(db.keyTxs) && db.visitors == old(db.visitors)
    ensures tripWrite.Rejected? ==> db.trips == old(db.trips)
    ensures tripWrite.Written? ==> db.trips == CloseTripRow(old(db.trips), t, driver, officer, end, now, reason)
    ensures tripWrite.Written? && vehicleWrite.Written? ==> db.vehicles == ReleaseVehicleRow(old(db.vehicles), v, end)
    ensures !(tripWrite.Written? && vehicleWrite.Written?) ==> db.vehicles == old(db.vehicles)
    ensures tripWrite.Written? && vehicleWrite.Written? && VehicleCustodyConsistent(old(db.vehicles), old(db.trips)) &&
            t in old(db.trips) && old(db.trips)[t].status == TripOut && old(db.trips)[t].vehicleId == v &&
            end >= old(db.trips)[t].odometerStart ==>
              VehicleCustodyConsistent(db.vehicles, db.trips) && OdometersNotLowered(old(db.vehicles), db.vehicles)
  {
    ghost var vehicles0 := db.vehicles;
    ghost var trips0 := db.trips;
    if tripWrite.Rejected? {
      return;
    }
    db.SetTrips(CloseTripRow(db.trips, t, driver, officer, end, now, reason));
    if vehicleWrite.Rejected? {
      return;
    }
    db.SetVehicles(ReleaseVehicleRow(db.vehicles, v, end));
    ReturnKeepsVehicleCustody(vehicles0, trips0, t, driver, officer, end, now, reason);
  }
}
