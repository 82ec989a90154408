/** The administrator's trip correction screen: an edit dialog that rewrites a trip's
    status, notes and ending reading, and a force-close for trips still out. Unlike
    the gate handlers, these writes do not check the custody rules, and the lemmas
    at the end show where they break them. */
module TripAdmin {
  import opened Common
  import opened Records
  import opened Tables
  import opened Ledger

  /** The time in an administrator's return records: the trip's own, else now. */
  function TimeInOrNow(trip: Trip, now: int): (r: int)
    ensures trip.timeIn.Some? ==> r == trip.timeIn.value
    ensures trip.timeIn.None? ==> r == now
  {
    if trip.timeIn.Some? then trip.timeIn.value else now
  }

  /** The trip update of the edit dialog: status, notes and the update time always;
      for a returned trip also the ending reading (`None` is a null reading) and the
      time in. Nothing else of the row changes. */
  function SaveTripRow(trips: map<int, Trip>, t: int, status: TripStatus, notes: string, now: int,
                       end: Option<int>, timeIn: int): (r: map<int, Trip>)
    ensures r.Keys == trips.Keys
    ensures forall id :: id in trips && id != t ==> r[id] == trips[id]
    ensures t in trips ==> r[t].status == status && r[t].notes == notes && r[t].updatedAt == Some(now)
    ensures t in trips && status == TripReturned ==> r[t].odometerEnd == end && r[t].timeIn == Some(timeIn)
    ensures t in trips && status == TripOut ==>
              r[t].odometerEnd == trips[t].odometerEnd && r[t].timeIn == trips[t].timeIn
    ensures t in trips ==> r[t].id == trips[t].id && r[t].vehicleId == trips[t].vehicleId &&
                           r[t].odometerStart == trips[t].odometerStart && r[t].driverOutId == trips[t].driverOutId &&
                           r[t].driverInId == trips[t].driverInId && r[t].reason == trips[t].reason
  {
    if t !in trips then trips
    else if status == TripReturned then
      trips[t := trips[t].(status := status, notes := notes, updatedAt := Some(now), odometerEnd := end,
                           timeIn := Some(timeIn))]
    else trips[t := trips[t].(status := status, notes := notes, updatedAt := Some(now))]
  }

  /** The vehicle update of a save as returned: available, at the reading when one
      was read. A reading that is not a number is sent as null, which a row here
      cannot hold; the previous reading stays. */
  function AdminReleaseRow(vehicles: map<int, Vehicle>, v: int, reading: Option<int>): (r: map<int, Vehicle>)
    ensures r.Keys == vehicles.Keys
    ensures forall id :: id in vehicles && id != v ==> r[id] == vehicles[id]
    ensures v in vehicles ==> r[v].status == VehicleAvailable
    ensures reading.Some? ==> r == ReleaseVehicleRow(vehicles, v, reading.value)
    ensures v in vehicles && reading.None? ==> r[v].lastOdometer == vehicles[v].lastOdometer
  {
    if reading.Some? then ReleaseVehicleRow(vehicles, v, reading.value) else FreeVehicleRow(vehicles, v)
  }

  /** The ending-reading guard of the dialog: a reading is refused only when it is a
      number other than zero (JavaScript truthiness) that lies below the start. */
  predicate EndRefused(reading: Option<int>, start: int) {
    reading.Some? && reading.value != 0 && reading.value < start
  }

  /** The edit dialog and the screen's banner. */
  class TripEditor {
    var dialogOpen: bool
    var editingTrip: Option<Trip>
    var odometerEnd: string
    var status: TripStatus
    var notes: string
    var message: Option<Message>
    /** The pending closes of the dialog that successful saves scheduled. */
    var closeTimers: seq<int>

    constructor ()
      ensures !dialogOpen && editingTrip == None && odometerEnd == "" && status == TripOut
      ensures notes == "" && message == None
      ensures closeTimers == []
    {
      dialogOpen := false;
      editingTrip := None;
      odometerEnd := "";
      status := TripOut;
      notes := "";
      message := None;
      closeTimers := [];
    }

    /** `openDialog`: the form starts from the listed trip. The ending reading is shown
        as its decimal numeral, or left empty when the trip has none, so that it reads
        back as the stored value. */
    method OpenDialog(trip: Trip)
      modifies this
      ensures closeTimers == old(closeTimers)
      ensures dialogOpen && editingTrip == Some(trip) && status == trip.status && notes == trip.notes
      ensures message == None
      ensures trip.odometerEnd.None? ==> odometerEnd == ""
      ensures trip.odometerEnd.Some? ==> odometerEnd == IntToString(trip.odometerEnd.value)
      ensures ParseInt(odometerEnd) == trip.odometerEnd
    {
      editingTrip := Some(trip);
      if trip.odometerEnd.Some? {
        odometerEnd := IntToString(trip.odometerEnd.value);
        ParseIntOfIntToString(trip.odometerEnd.value);
      } else {
        odometerEnd := "";
        ParseIntOfBlank("");
      }
      status := trip.status;
      notes := trip.notes;
      dialogOpen := true;
      message := None;
    }

    method OdometerChange(value: string)
      modifies this
      ensures closeTimers == old(closeTimers)
      ensures odometerEnd == value
      ensures dialogOpen == old(dialogOpen) && editingTrip == old(editingTrip) && status == old(status)
      ensures notes == old(notes) && message == old(message)
    {
      odometerEnd := value;
    }

    method StatusChange(value: TripStatus)
      modifies this
      ensures closeTimers == old(closeTimers)
      ensures status == value
      ensures dialogOpen == old(dialogOpen) && editingTrip == old(editingTrip) && odometerEnd == old(odometerEnd)
      ensures notes == old(notes) && message == old(message)
    {
      status := value;
    }

    method NotesChange(value: string)
      modifies this
      ensures closeTimers == old(closeTimers)
      ensures notes == value
      ensures dialogOpen == old(dialogOpen) && editingTrip == old(editingTrip) && odometerEnd == old(odometerEnd)
      ensures status == old(status) && message == old(message)
    {
      notes := value;
    }

    /** `closeDialog`. */
    method CloseDialog()
      modifies this
      ensures closeTimers == old(closeTimers)
      ensures !dialogOpen && editingTrip == None
      ensures odometerEnd == old(odometerEnd) && status == old(status) && notes == old(notes)
      ensures message == old(message)
    {
      dialogOpen := false;
      editingTrip := None;
    }

    /** Time passes: once a close scheduled by a save is due, the dialog closes as
        `closeDialog` closes it, whatever was opened since. */
    method Tick(now: int)
      modifies this
      ensures closeTimers == Pending(old(closeTimers), now)
      ensures (exists d :: d in old(closeTimers) && d <= now) ==> !dialogOpen && editingTrip == None
      ensures !(exists d :: d in old(closeTimers) && d <= now) ==>
                dialogOpen == old(dialogOpen) && editingTrip == old(editingTrip)
      ensures odometerEnd == old(odometerEnd) && status == old(status) && notes == old(notes)
      ensures message == old(message)
    {
      if exists d :: d in closeTimers && d <= now {
        dialogOpen := false;
        editingTrip := None;
      }
      closeTimers := Pending(closeTimers, now);
    }

    /** `handleSave` on the trip being edited; `reading` is the typed ending reading as
        read by `parseInt` (an empty field, or text that is not a number, reads as
        none). A returned trip needs a non-empty field; a reading refused by
        `EndRefused` writes nothing. Otherwise, for a returned trip, the vehicle is
        first set available at the reading (with no number, the reading sent is null),
        and that write's outcome is not looked at; then the trip row is updated and,
        on success, the dialog's close is scheduled. */
    method Save(db: Store, now: int, vehicleWrite: WriteResult, tripWrite: WriteResult)
      returns (reading: Option<int>)
      requires db.Valid() && editingTrip.Some?
      modifies this, db
      ensures closeTimers == (if !(old(status) == TripReturned && old(odometerEnd) == "") &&
              !EndRefused(reading, old(editingTrip).value.odometerStart) && tripWrite.Written?
                            then old(closeTimers) + [now + DialogCloseMs] else old(closeTimers))
      ensures db.Valid()
      ensures db.employees == old(db.employees) && db.keys == old(db.keys)
      ensures db.keyTxs == old(db.keyTxs) && db.visitors == old(db.visitors)
      ensures dialogOpen == old(dialogOpen) && editingTrip == old(editingTrip) && odometerEnd == old(odometerEnd)
      ensures status == old(status) && notes == old(notes)
      ensures old(status) == TripReturned && old(odometerEnd) == "" ==>
                message == Some(Failure("Ending odometer is required for returned trips")) &&
                db.trips == old(db.trips) && db.vehicles == old(db.vehicles)
      ensures !(old(status) == TripReturned && old(odometerEnd) == "") ==> reading == ParseInt(old(odometerEnd))
      ensures !(old(status) == TripReturned && old(odometerEnd) == "") &&
              EndRefused(reading, old(editingTrip).value.odometerStart) ==>
                message == Some(Failure("Ending odometer must be >= starting odometer")) &&
                db.trips == old(db.trips) && db.vehicles == old(db.vehicles)
      // the vehicle write: only for a returned trip; a reading that does not parse still frees the vehicle
      ensures !(old(status) == TripReturned && old(odometerEnd) == "") &&
              !EndRefused(reading, old(editingTrip).value.odometerStart) ==>
                db.vehicles == (if old(status) == TripReturned && vehicleWrite.Written?
                                then AdminReleaseRow(old(db.vehicles), old(editingTrip).value.vehicleId, reading)
                                else old(db.vehicles))
      ensures !(old(status) == TripReturned && old(odometerEnd) == "") &&
              !EndRefused(reading, old(editingTrip).value.odometerStart) && tripWrite.Rejected? ==>
                message == Some(Failure(tripWrite.reason)) && db.trips == old(db.trips)
      ensures !(old(status) == TripReturned && old(odometerEnd) == "") &&
              !EndRefused(reading, old(editingTrip).value.odometerStart) && tripWrite.Written? ==>
                message == Some(Success("Trip updated successfully")) &&
                db.trips == SaveTripRow(old(db.trips), old(editingTrip).value.id, old(status), old(notes), now,
                                        reading, TimeInOrNow(old(editingTrip).value, now))
      // closing the edited trip, still open as listed, at a reading no lower than its start
      ensures old(status) == TripReturned && old(odometerEnd) != "" && reading.Some? &&
              reading.value >= old(editingTrip).value.odometerStart &&
              vehicleWrite.Written? && tripWrite.Written? &&
              old(editingTrip).value.status == TripOut && old(editingTrip).value.id in old(db.trips) &&
              old(db.trips)[old(editingTrip).value.id] == old(editingTrip).value &&
              VehicleCustodyConsistent(old(db.vehicles), old(db.trips)) ==>
                VehicleCustodyConsistent(db.vehicles, db.trips) && OdometersNotLowered(old(db.vehicles), db.vehicles)
    {
      reading := None;
      if status == TripReturned && odometerEnd == "" {
        message := Some(Failure("Ending odometer is required for returned trips"));
        return;
      }
      if odometerEnd == "" {
        ParseIntOfBlank(odometerEnd);
      } else {
        reading := ParseInt(odometerEnd);
      }
      var trip := editingTrip.value;
      if EndRefused(reading, trip.odometerStart) {
        message := Some(Failure("Ending odometer must be >= starting odometer"));
        return;
      }
      ghost var vehicles0 := db.vehicles;
      ghost var trips0 := db.trips;
      if status == TripReturned && vehicleWrite.Written? {
        db.SetVehicles(AdminReleaseRow(db.vehicles, trip.vehicleId, reading));
      }
      if tripWrite.Rejected? {
        message := Some(Failure(tripWrite.reason));
        return;
      }
      db.SetTrips(SaveTripRow(db.trips, trip.id, status, notes, now, reading, TimeInOrNow(trip, now)));
      message := Some(Success("Trip updated successfully"));
      closeTimers := closeTimers + [now + DialogCloseMs];
      if status == TripReturned && reading.Some? {
        AdminCloseKeepsVehicleCustody(vehicles0, trips0, trip.id, notes, now, reading.value, TimeInOrNow(trip, now));
      }
    }

    /** `handleForceClose` on a listed trip, offered only while it is out. Once the
        administrator confirms, the trip is marked returned now, ending at its starting
        reading, and the vehicle is set available with its reading untouched; neither
        write's outcome is looked at. */
    method ForceClose(db: Store, trip: Trip, confirmed: bool, now: int, tripWrite: WriteResult,
                      vehicleWrite: WriteResult)
      requires db.Valid() && trip.status == TripOut
      modifies this, db
      ensures closeTimers == old(closeTimers)
      ensures db.Valid()
      ensures db.employees == old(db.employees) && db.keys == old(db.keys)
      ensures db.keyTxs == old(db.keyTxs) && db.visitors == old(db.visitors)
      ensures dialogOpen == old(dialogOpen) && editingTrip == old(editingTrip) && odometerEnd == old(odometerEnd)
      ensures status == old(status) && notes == old(notes)
      ensures !confirmed ==> message == old(message) && db.trips == old(db.trips) && db.vehicles == old(db.vehicles)
      ensures confirmed ==> message == Some(Success("Trip force closed"))
      ensures confirmed ==>
                db.trips == (if tripWrite.Written? then ForceCloseTripRow(old(db.trips), trip.id, trip.odometerStart, now)
                             else old(db.trips))
      ensures confirmed ==>
                db.vehicles == (if vehicleWrite.Written? then FreeVehicleRow(old(db.vehicles), trip.vehicleId)
                                else old(db.vehicles))
      // no reading is lowered; closing the listed trip as it still is keeps custody consistent
      ensures OdometersNotLowered(old(db.vehicles), db.vehicles)
      ensures confirmed && tripWrite.Written? && vehicleWrite.Written? &&
              trip.id in old(db.trips) && old(db.trips)[trip.id] == trip &&
              VehicleCustodyConsistent(old(db.vehicles), old(db.trips)) ==>
                VehicleCustodyConsistent(db.vehicles, db.trips)
    {
      if !confirmed {
        return;
      }
      ghost var vehicles0 := db.vehicles;
      ghost var trips0 := db.trips;
      if tripWrite.Written? {
        db.SetTrips(ForceCloseTripRow(db.trips, trip.id, trip.odometerStart, now));
      }
      if vehicleWrite.Written? {
        db.SetVehicles(FreeVehicleRow(db.vehicles, trip.vehicleId));
      }
      message := Some(Success("Trip force closed"));
      if trip.id in trips0 && trips0[trip.id] == trip {
        ForceCloseKeepsVehicleCustody(vehicles0, trips0, trip.id, now);
      }
    }
  }

  // ---------------------------------------------------------------------------
  // The dialog against the custody rules

  /** Correcting an open trip to returned, at a reading no lower than its start and
      with both writes stored, closes it as a gate return would: custody stays
      consistent and no reading is lowered. */
  lemma AdminCloseKeepsVehicleCustody(vehicles: map<int, Vehicle>, trips: map<int, Trip>, t: int,
                                      notes: string, now: int, end: int, timeIn: int)
    ensures VehicleCustodyConsistent(vehicles, trips) && t in trips && trips[t].status == TripOut &&
            end >= trips[t].odometerStart ==>
              VehicleCustodyConsistent(ReleaseVehicleRow(vehicles, trips[t].vehicleId, end),
                                       SaveTripRow(trips, t, TripReturned, notes, now, Some(end), timeIn)) &&
              OdometersNotLowered(vehicles, ReleaseVehicleRow(vehicles, trips[t].vehicleId, end))
  {
    if VehicleCustodyConsistent(vehicles, trips) && t in trips && trips[t].status == TripOut &&
       end >= trips[t].odometerStart {
      var v := trips[t].vehicleId;
      var vehicles' := ReleaseVehicleRow(vehicles, v, end);
      var trips' := SaveTripRow(trips, t, TripReturned, notes, now, Some(end), timeIn);
      forall x | x in trips' && trips'[x].status == TripOut
        ensures trips'[x].vehicleId in vehicles' &&
                vehicles'[trips'[x].vehicleId].lastOdometer == trips'[x].odometerStart
      {
        assert x != t && IsOpenTrip(trips, x, trips[x].vehicleId);
        if trips[x].vehicleId == v {
          assert false;
        }
      }
      forall j | j in vehicles'
        ensures vehicles'[j].status == VehicleInUse <==> exists x :: IsOpenTrip(trips', x, j)
      {
        if exists x :: IsOpenTrip(trips', x, j) {
          var x :| IsOpenTrip(trips', x, j);
          assert x != t && IsOpenTrip(trips, x, j);
          if j == v {
            assert false;
          }
        }
        if j != v && vehicles[j].status == VehicleInUse {
          var x :| IsOpenTrip(trips, x, j);
          assert IsOpenTrip(trips', x, j);
        }
      }
      forall a, b | a in trips' && b in trips' && trips'[a].status == TripOut && trips'[b].status == TripOut &&
                    trips'[a].vehicleId == trips'[b].vehicleId
        ensures a == b
      {
        assert trips'[a] == trips[a] && trips'[b] == trips[b];
      }
    }
  }

  /** Saving a returned trip as out reopens it while its vehicle, not in use, is left
      alone: the vehicle is then free under an open trip. */
  lemma ReopenBreaksVehicleCustody(vehicles: map<int, Vehicle>, trips: map<int, Trip>, t: int,
                                   notes: string, now: int, end: Option<int>, timeIn: int)
    requires t in trips && trips[t].vehicleId in vehicles
    requires vehicles[trips[t].vehicleId].status != VehicleInUse
    ensures !VehicleCustodyConsistent(vehicles, SaveTripRow(trips, t, TripOut, notes, now, end, timeIn))
  {
    var trips' := SaveTripRow(trips, t, TripOut, notes, now, end, timeIn);
    assert IsOpenTrip(trips', t, trips[t].vehicleId);
  }

  /** A reading of 0 passes the guard whatever the start, and returning at it sets the
      vehicle's last reading to 0: a positive reading is lowered. */
  lemma ZeroEndLowersOdometer(vehicles: map<int, Vehicle>, v: int, start: int)
    requires v in vehicles && vehicles[v].lastOdometer > 0
    ensures !EndRefused(Some(0), start)
    ensures !OdometersNotLowered(vehicles, ReleaseVehicleRow(vehicles, v, 0))
  {
  }

  /** A truthy reading passes the guard exactly when it is not below the start. */
  lemma NonZeroEndGuard(end: int, start: int)
    requires end != 0
    ensures !EndRefused(Some(end), start) <==> end >= start
  {
  }
}
