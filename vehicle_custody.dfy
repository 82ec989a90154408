/** Vehicle checkout and return at the gate. A checkout inserts an open trip and then
    marks the vehicle in use at the starting reading; a return closes the trip and
    then marks the vehicle available at the ending reading. As for keys, each write's
    outcome is an input and a refused write stops the handler. */
module VehicleCustody {
  import opened Common
  import opened Records
  import opened Identity
  import opened Tables
  import opened Ledger

  /** The vehicles offered for checkout: those whose status is available. */
  function AvailableVehicles(vehicles: map<int, Vehicle>): (r: set<int>)
    ensures forall v :: v in r <==> v in vehicles && vehicles[v].status == VehicleAvailable
  {
    set v | v in vehicles && vehicles[v].status == VehicleAvailable
  }

  /** The trips offered for return: those whose status is out. */
  function OpenTrips(trips: map<int, Trip>): (r: set<int>)
    ensures forall t :: t in r <==> t in trips && trips[t].status == TripOut
  {
    set t | t in trips && trips[t].status == TripOut
  }

  /** While vehicle custody is consistent, the return list has one trip for every
      vehicle in use and none for any other vehicle. */
  lemma ReturnListMatchesVehiclesInUse(vehicles: map<int, Vehicle>, trips: map<int, Trip>)
    requires VehicleCustodyConsistent(vehicles, trips)
    ensures (set t | t in OpenTrips(trips) :: trips[t].vehicleId) ==
            (set v | v in vehicles && vehicles[v].status == VehicleInUse)
  {
    var listed := set t | t in OpenTrips(trips) :: trips[t].vehicleId;
    var inUse := set v | v in vehicles && vehicles[v].status == VehicleInUse;
    forall v | v in inUse ensures v in listed {
      var t :| IsOpenTrip(trips, t, v);
      assert t in OpenTrips(trips);
    }
    forall v | v in listed ensures v in inUse {
      var t :| t in OpenTrips(trips) && trips[t].vehicleId == v;
      assert IsOpenTrip(trips, t, v);
    }
  }

  /** The checkout form. `selectedVehicle` is the row as it was listed. */
  class VehicleOut {
    var selectedVehicle: Option<Vehicle>
    var driverBarcode: string
    var driverData: Option<Employee>
    var odometerStart: string
    var destination: string
    var message: Option<Message>

    constructor ()
      ensures selectedVehicle == None && driverBarcode == "" && driverData == None
      ensures odometerStart == "" && destination == "" && message == None
    {
      selectedVehicle := None;
      driverBarcode := "";
      driverData := None;
      odometerStart := "";
      destination := "";
      message := None;
    }

    /** A click on one of the listed vehicles, which are the available ones. */
    method SelectVehicle(vehicle: Vehicle)
      requires vehicle.status == VehicleAvailable
      modifies this
      ensures selectedVehicle == Some(vehicle)
      ensures driverBarcode == old(driverBarcode) && driverData == old(driverData)
      ensures odometerStart == old(odometerStart) && destination == old(destination) && message == old(message)
    {
      selectedVehicle := Some(vehicle);
    }

    /** `handleDriverScan`: the single active employee with the barcode becomes the
        driver, and the odometer field is filled with the selected vehicle's last
        reading, which reads back as that reading. An unknown barcode changes only the
        barcode and the message. */
    method DriverScan(employees: map<int, Employee>, barcode: string)
      modifies this
      ensures driverBarcode == barcode
      ensures FindActiveEmployee(employees, barcode).Some? ==>
                driverData == FindActiveEmployee(employees, barcode) &&
                message == Some(Success(driverData.value.name + " verified"))
      ensures FindActiveEmployee(employees, barcode).Some? && old(selectedVehicle).Some? ==>
                odometerStart == IntToString(old(selectedVehicle).value.lastOdometer) &&
                ParseInt(odometerStart) == Some(old(selectedVehicle).value.lastOdometer)
      ensures FindActiveEmployee(employees, barcode).None? || old(selectedVehicle).None? ==>
                odometerStart == old(odometerStart)
      ensures FindActiveEmployee(employees, barcode).None? ==>
                driverData == old(driverData) && message == Some(Failure("Employee not found"))
      ensures selectedVehicle == old(selectedVehicle) && destination == old(destination)
    {
      driverBarcode := barcode;
      var found := FindActiveEmployee(employees, barcode);
      if found.Some? {
        driverData := found;
        message := Some(Success(found.value.name + " verified"));
        if selectedVehicle.Some? {
          odometerStart := IntToString(selectedVehicle.value.lastOdometer);
          ParseIntOfIntToString(selectedVehicle.value.lastOdometer);
        }
      } else {
        message := Some(Failure("Employee not found"));
      }
    }

    method OdometerChange(value: string)
      modifies this
      ensures odometerStart == value
      ensures selectedVehicle == old(selectedVehicle) && driverBarcode == old(driverBarcode)
      ensures driverData == old(driverData) && destination == old(destination) && message == old(message)
    {
      odometerStart := value;
    }

    method DestinationChange(value: string)
      modifies this
      ensures destination == value
      ensures selectedVehicle == old(selectedVehicle) && driverBarcode == old(driverBarcode)
      ensures driverData == old(driverData) && odometerStart == old(odometerStart) && message == old(message)
    {
      destination := value;
    }

    /** Every field of the form is filled in. */
    predicate Ready()
      reads this
    {
      selectedVehicle.Some? && driverData.Some? && odometerStart != "" && destination != ""
    }

    /** `handleVehicleOut`. An incomplete form or an unreadable or lower reading writes
        nothing. Otherwise the open trip is inserted; if that succeeds the vehicle is
        marked in use at the starting reading; if that succeeds too the form is cleared.
        `reading` is the typed starting reading as read by `parseInt`. */
    method VehicleOutSubmit(db: Store, officerId: int, now: int, tripWrite: WriteResult, vehicleWrite: WriteResult)
      returns (reading: Option<int>)
      requires db.Valid()
      modifies this, db
      ensures db.Valid()
      ensures db.employees == old(db.employees) && db.keys == old(db.keys)
      ensures db.keyTxs == old(db.keyTxs) && db.visitors == old(db.visitors)
      ensures old(Ready()) ==> reading == ParseInt(old(odometerStart))
      ensures !old(Ready()) ==>
                message == Some(Failure("Please complete all fields")) &&
                db.trips == old(db.trips) && db.vehicles == old(db.vehicles)
      ensures old(Ready()) && !AtLeast(reading, old(selectedVehicle).value.lastOdometer) ==>
                message == Some(Failure("Invalid odometer reading")) &&
                db.trips == old(db.trips) && db.vehicles == old(db.vehicles)
      ensures old(Ready()) && AtLeast(reading, old(selectedVehicle).value.lastOdometer) && tripWrite.Rejected? ==>
                message == Some(Failure(tripWrite.reason)) &&
                db.trips == old(db.trips) && db.vehicles == old(db.vehicles)
      ensures old(Ready()) && AtLeast(reading, old(selectedVehicle).value.lastOdometer) && tripWrite.Written? ==>
                var id := old(db.nextId);
                id !in old(db.trips) &&
                db.trips == old(db.trips)[id := OpenTrip(id, old(selectedVehicle).value.id, old(driverData).value.id,
                                                         officerId, old(destination), reading.value, now)]
      ensures old(Ready()) && AtLeast(reading, old(selectedVehicle).value.lastOdometer) && tripWrite.Written? &&
              vehicleWrite.Rejected? ==>
                message == Some(Failure(vehicleWrite.reason)) && db.vehicles == old(db.vehicles)
      ensures old(Ready()) && AtLeast(reading, old(selectedVehicle).value.lastOdometer) && tripWrite.Written? &&
              vehicleWrite.Written? ==>
                db.vehicles == DispatchVehicleRow(old(db.vehicles), old(selectedVehicle).value.id, reading.value) &&
                message == Some(Success("Vehicle " + old(selectedVehicle).value.registration + " checked out to " +
                                        old(driverData).value.name)) &&
                selectedVehicle == None && driverData == None && driverBarcode == "" &&
                odometerStart == "" && destination == ""
      ensures !(old(Ready()) && AtLeast(reading, old(selectedVehicle).value.lastOdometer) && tripWrite.Written? &&
                vehicleWrite.Written?) ==>
                selectedVehicle == old(selectedVehicle) && driverData == old(driverData) &&
                driverBarcode == old(driverBarcode) && odometerStart == old(odometerStart) &&
                destination == old(destination)
      // checking out the listed row as it still is keeps custody consistent and lowers no reading
      ensures old(Ready()) && AtLeast(reading, old(selectedVehicle).value.lastOdometer) && tripWrite.Written? &&
              vehicleWrite.Written? &&
              old(selectedVehicle).value.id in old(db.vehicles) &&
              old(db.vehicles)[old(selectedVehicle).value.id] == old(selectedVehicle).value &&
              old(selectedVehicle).value.status == VehicleAvailable ==>
                OdometersNotLowered(old(db.vehicles), db.vehicles) &&
                (VehicleCustodyConsistent(old(db.vehicles), old(db.trips)) ==>
                   VehicleCustodyConsistent(db.vehicles, db.trips))
    {
      reading := None;
      if !Ready() {
        message := Some(Failure("Please complete all fields"));
        return;
      }
      var vehicle := selectedVehicle.value;
      var driver := driverData.value;
      reading := ParseInt(odometerStart);
      if !AtLeast(reading, vehicle.lastOdometer) {
        message := Some(Failure("Invalid odometer reading"));
        return;
      }
      var _ := WriteDispatch(db, vehicle.id, driver.id, officerId, destination, reading.value, now,
                             tripWrite, vehicleWrite);
      if tripWrite.Rejected? {
        message := Some(Failure(tripWrite.reason));
        return;
      }
      if vehicleWrite.Rejected? {
        message := Some(Failure(vehicleWrite.reason));
        return;
      }
      message := Some(Success("Vehicle " + vehicle.registration + " checked out to " + driver.name));
      selectedVehicle := None;
      driverData := None;
      driverBarcode := "";
      odometerStart := "";
      destination := "";
    }
  }

  /** A trip as listed on the return form, with its vehicle's registration. */
  datatype TripListing = TripListing(trip: Trip, registration: string)

  /** The return form. `selectedTrip` is the trip as it was listed. */
  class VehicleIn {
    var selectedTrip: Option<TripListing>
    var returnerBarcode: string
    var returnerData: Option<Employee>
    var odometerEnd: string
    var reason: string
    var message: Option<Message>

    constructor ()
      ensures selectedTrip == None && returnerBarcode == "" && returnerData == None
      ensures odometerEnd == "" && reason == "" && message == None
    {
      selectedTrip := None;
      returnerBarcode := "";
      returnerData := None;
      odometerEnd := "";
      reason := "";
      message := None;
    }

    /** A click on one of the listed trips, which are the open ones. */
    method SelectTrip(listing: TripListing)
      requires listing.trip.status == TripOut
      modifies this
      ensures selectedTrip == Some(listing)
      ensures returnerBarcode == old(returnerBarcode) && returnerData == old(returnerData)
      ensures odometerEnd == old(odometerEnd) && reason == old(reason) && message == old(message)
    {
      selectedTrip := Some(listing);
    }

    /** `isDifferentDriver`: a trip is selected, someone has been scanned, and it is
        not the driver who took the vehicle out. */
    predicate IsDifferentDriver()
      reads this
    {
      returnerData.Some? && selectedTrip.Some? && returnerData.value.id != selectedTrip.value.trip.driverOutId
    }

    /** `handleReturnerScan`. */
    method ReturnerScan(employees: map<int, Employee>, barcode: string)
      modifies this
      ensures returnerBarcode == barcode
      ensures FindActiveEmployee(employees, barcode).Some? ==>
                returnerData == FindActiveEmployee(employees, barcode) &&
                message == Some(Success(returnerData.value.name + " verified"))
      ensures FindActiveEmployee(employees, barcode).None? ==>
                returnerData == old(returnerData) && message == Some(Failure("Employee not found"))
      ensures selectedTrip == old(selectedTrip) && odometerEnd == old(odometerEnd) && reason == old(reason)
    {
      returnerBarcode := barcode;
      var found := FindActiveEmployee(employees, barcode);
      if found.Some? {
        returnerData := found;
        message := Some(Success(found.value.name + " verified"));
      } else {
        message := Some(Failure("Employee not found"));
      }
    }

    /** A choice in the reason list, shown only for a different driver. */
    method ChooseReason(choice: string)
      requires IsDifferentDriver() && choice in HandoverReasons
      modifies this
      ensures reason == choice && reason != ""
      ensures selectedTrip == old(selectedTrip) && returnerBarcode == old(returnerBarcode)
      ensures returnerData == old(returnerData) && odometerEnd == old(odometerEnd) && message == old(message)
    {
      reason := choice;
    }

    method OdometerChange(value: string)
      modifies this
      ensures odometerEnd == value
      ensures selectedTrip == old(selectedTrip) && returnerBarcode == old(returnerBarcode)
      ensures returnerData == old(returnerData) && reason == old(reason) && message == old(message)
    {
      odometerEnd := value;
    }

    /** A trip, a returner and an ending reading are present. */
    predicate Ready()
      reads this
    {
      selectedTrip.Some? && returnerData.Some? && odometerEnd != ""
    }

    /** The form is filled in and, when a different driver returns, a reason is chosen. */
    predicate Complete()
      reads this
    {
      Ready() && !(IsDifferentDriver() && reason == "")
    }

    /** `handleVehicleIn`; `reading` is the typed ending reading as read by `parseInt`
        and `distance` the distance reported on success. An incomplete form, a
        different driver without a reason, or an unreadable or lower reading writes
        nothing. Otherwise the trip is closed, with the reason only for a different
        driver; if that succeeds the vehicle is released at the ending reading. The
        form is left as it was. */
    method VehicleInSubmit(db: Store, officerId: int, now: int, tripWrite: WriteResult, vehicleWrite: WriteResult)
      returns (reading: Option<int>, distance: Option<nat>)
      requires db.Valid()
      modifies this, db
      ensures db.Valid()
      ensures db.employees == old(db.employees) && db.keys == old(db.keys)
      ensures db.keyTxs == old(db.keyTxs) && db.visitors == old(db.visitors)
      ensures selectedTrip == old(selectedTrip) && returnerBarcode == old(returnerBarcode)
      ensures returnerData == old(returnerData) && odometerEnd == old(odometerEnd) && reason == old(reason)
      ensures old(Complete()) ==> reading == ParseInt(old(odometerEnd))
      ensures !old(Ready()) ==>
                message == Some(Failure("Please complete all fields")) &&
                db.trips == old(db.trips) && db.vehicles == old(db.vehicles)
      ensures old(Ready()) && old(IsDifferentDriver()) && old(reason) == "" ==>
                message == Some(Failure("Please select reason for different driver")) &&
                db.trips == old(db.trips) && db.vehicles == old(db.vehicles)
      ensures old(Complete()) && !AtLeast(reading, old(selectedTrip).value.trip.odometerStart) ==>
                message == Some(Failure("End odometer must be greater than or equal to start odometer")) &&
                db.trips == old(db.trips) && db.vehicles == old(db.vehicles)
      ensures old(Complete()) && AtLeast(reading, old(selectedTrip).value.trip.odometerStart) &&
              tripWrite.Rejected? ==>
                message == Some(Failure(tripWrite.reason)) &&
                db.trips == old(db.trips) && db.vehicles == old(db.vehicles)
      // the reason is stored only for a different driver
      ensures old(Complete()) && AtLeast(reading, old(selectedTrip).value.trip.odometerStart) &&
              tripWrite.Written? ==>
                db.trips == CloseTripRow(old(db.trips), old(selectedTrip).value.trip.id, old(returnerData).value.id,
                                         officerId, reading.value, now,
                                         if old(IsDifferentDriver()) then Some(old(reason)) else None)
      ensures old(Complete()) && AtLeast(reading, old(selectedTrip).value.trip.odometerStart) &&
              tripWrite.Written? && vehicleWrite.Rejected? ==>
                message == Some(Failure(vehicleWrite.reason)) && db.vehicles == old(db.vehicles)
      ensures distance.Some? <==>
                old(Complete()) && AtLeast(reading, old(selectedTrip).value.trip.odometerStart) &&
                tripWrite.Written? && vehicleWrite.Written?
      // the reported distance is the ending reading less the starting one, never negative
      ensures distance.Some? ==>
                reading == Some(old(selectedTrip).value.trip.odometerStart + distance.value) &&
                db.vehicles == ReleaseVehicleRow(old(db.vehicles), old(selectedTrip).value.trip.vehicleId,
                                                 reading.value) &&
                message == Some(Success("Vehicle " + old(selectedTrip).value.registration + " returned. Distance: " +
                                        NatToString(distance.value) + " km"))
      // returning a trip that is still open keeps custody consistent and lowers no reading
      ensures distance.Some? && VehicleCustodyConsistent(old(db.vehicles), old(db.trips)) &&
              old(selectedTrip).value.trip.id in old(db.trips) &&
              old(db.trips)[old(selectedTrip).value.trip.id] == old(selectedTrip).value.trip &&
              old(selectedTrip).value.trip.status == TripOut ==>
                VehicleCustodyConsistent(db.vehicles, db.trips) && OdometersNotLowered(old(db.vehicles), db.vehicles)
    {
      reading := None;
      distance := None;
      if !Ready() {
        message := Some(Failure("Please complete all fields"));
        return;
      }
      var different := IsDifferentDriver();
      if different && reason == "" {
        message := Some(Failure("Please select reason for different driver"));
        return;
      }
      var trip := selectedTrip.value.trip;
      reading := ParseInt(odometerEnd);
      if !AtLeast(reading, trip.odometerStart) {
        message := Some(Failure("End odometer must be greater than or equal to start odometer"));
        return;
      }
      var end := reading.value;
      var stored := if different then Some(reason) else None;
      WriteVehicleReturn(db, trip.id, trip.vehicleId, returnerData.value.id, officerId, end, now, stored,
                         tripWrite, vehicleWrite);
      if tripWrite.Rejected? {
        message := Some(Failure(tripWrite.reason));
        return;
      }
      if vehicleWrite.Rejected? {
        message := Some(Failure(vehicleWrite.reason));
        return;
      }
      var d: nat := end - trip.odometerStart;
      message := Some(Success("Vehicle " + selectedTrip.value.registration + " returned. Distance: " +
                              NatToString(d) + " km"));
      distance := Some(d);
    }
  }
}
