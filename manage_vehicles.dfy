/** The administrator's vehicle register: a dialog that creates or edits a vehicle's
    record. The registration is stored upper-cased and the reading must be a number
    that is not negative; the status and the reading are written as chosen, without
    consulting the trips, so an edit can break the custody rules. */
module VehicleAdmin {
  import opened Common
  import opened Records
  import opened Tables
  import opened Ledger

  /** Where a newly registered vehicle starts: the chief executive's vehicles off the
      premises, every other vehicle on them. */
  function InitialLocation(vehicleType: VehicleType): (r: Location)
    ensures r == OffPremises <==> vehicleType == CeoVehicle
  {
    if vehicleType == CeoVehicle then OffPremises else OnPremises
  }

  /** The row a creation inserts. */
  function NewVehicleRow(id: int, registration: string, vehicleType: VehicleType, notes: string, reading: int,
                         status: VehicleStatus): (r: Vehicle)
    ensures r.id == id && r.registration == ToUpper(registration) && r.lastOdometer == reading
    ensures r.vehicleType == vehicleType && r.status == status && r.currentLocation == InitialLocation(vehicleType)
  {
    Vehicle(id, ToUpper(registration), vehicleType, notes, reading, status, InitialLocation(vehicleType), None)
  }

  /** The update of an edit: the form's fields and the update time on row `v`. The
      location is not part of the form and stays as it was. */
  function EditVehicleRow(vehicles: map<int, Vehicle>, v: int, registration: string, vehicleType: VehicleType,
                          notes: string, reading: int, status: VehicleStatus, now: int): (r: map<int, Vehicle>)
    ensures r.Keys == vehicles.Keys
    ensures forall id :: id in vehicles && id != v ==> r[id] == vehicles[id]
    ensures v in vehicles ==>
              r[v] == Vehicle(vehicles[v].id, ToUpper(registration), vehicleType, notes, reading, status,
                              vehicles[v].currentLocation, Some(now))
  {
    if v in vehicles then
      vehicles[v := vehicles[v].(registration := ToUpper(registration), vehicleType := vehicleType, notes := notes,
                                 lastOdometer := reading, status := status, updatedAt := Some(now))]
    else vehicles
  }

  /** Registering a vehicle under an unused id, in any status but in use, keeps the
      custody rule: no trip can be open on an id the table did not hold. */
  lemma NewVehicleKeepsCustody(vehicles: map<int, Vehicle>, trips: map<int, Trip>, id: int, row: Vehicle)
    requires id !in vehicles && row.status != VehicleInUse
    ensures VehicleCustodyConsistent(vehicles, trips) ==> VehicleCustodyConsistent(vehicles[id := row], trips)
    ensures OdometersNotLowered(vehicles, vehicles[id := row])
  {
    if VehicleCustodyConsistent(vehicles, trips) {
      assert forall t :: !IsOpenTrip(trips, t, id);
    }
  }

  /** Registering a vehicle directly as in use breaks the custody rule: no trip is
      open on it. */
  lemma NewInUseVehicleBreaksCustody(vehicles: map<int, Vehicle>, trips: map<int, Trip>, id: int, row: Vehicle)
    requires id !in vehicles && row.status == VehicleInUse
    ensures VehicleCustodyConsistent(vehicles, trips) ==> !VehicleCustodyConsistent(vehicles[id := row], trips)
  {
    if VehicleCustodyConsistent(vehicles, trips) {
      assert forall t :: !IsOpenTrip(trips, t, id);
      assert id in vehicles[id := row] && vehicles[id := row][id].status == VehicleInUse;
    }
  }

  /** An edit may lower the reading: any value that is not negative is accepted. */
  lemma EditMayLowerOdometer(vehicles: map<int, Vehicle>, v: int, registration: string, vehicleType: VehicleType,
                             notes: string, reading: int, status: VehicleStatus, now: int)
    requires v in vehicles && 0 <= reading < vehicles[v].lastOdometer
    ensures !OdometersNotLowered(vehicles, EditVehicleRow(vehicles, v, registration, vehicleType, notes, reading,
                                                          status, now))
  {
  }

  /** An edit that marks a vehicle with an open trip as anything but in use breaks the
      custody rule. */
  lemma EditOfVehicleOutBreaksCustody(vehicles: map<int, Vehicle>, trips: map<int, Trip>, t: int,
                                      registration: string, vehicleType: VehicleType, notes: string, reading: int,
                                      status: VehicleStatus, now: int)
    requires t in trips && trips[t].status == TripOut && trips[t].vehicleId in vehicles
    requires status != VehicleInUse
    ensures !VehicleCustodyConsistent(EditVehicleRow(vehicles, trips[t].vehicleId, registration, vehicleType, notes,
                                                     reading, status, now), trips)
  {
    var v := trips[t].vehicleId;
    var after := EditVehicleRow(vehicles, v, registration, vehicleType, notes, reading, status, now);
    assert IsOpenTrip(trips, t, v) && after[v].status != VehicleInUse;
  }

  /** The vehicle dialog and the screen's banner. The reading is the text of its
      field. */
  class VehicleEditor {
    var dialogOpen: bool
    var editingVehicle: Option<Vehicle>
    var registration: string
    var vehicleType: VehicleType
    var notes: string
    var lastOdometer: string
    var status: VehicleStatus
    var message: Option<Message>
    /** The pending closes of the dialog that successful saves scheduled. */
    var closeTimers: seq<int>

    constructor ()
      ensures !dialogOpen && editingVehicle == None && registration == "" && vehicleType == CompanyVehicle
      ensures notes == "" && lastOdometer == "0" && status == VehicleAvailable && message == None
      ensures closeTimers == []
    {
      dialogOpen := false;
      editingVehicle := None;
      registration := "";
      vehicleType := CompanyVehicle;
      notes := "";
      lastOdometer := "0";
      status := VehicleAvailable;
      message := None;
      closeTimers := [];
    }

    /** `openDialog`: an existing record fills the form, its reading written as a
        numeral that reads back as the stored value; without one the form takes the
        new-vehicle defaults. */
    method OpenDialog(vehicle: Option<Vehicle>)
      modifies this
      ensures closeTimers == old(closeTimers)
      ensures dialogOpen && editingVehicle == vehicle && message == None
      ensures vehicle.Some? ==>
                registration == vehicle.value.registration && vehicleType == vehicle.value.vehicleType &&
                notes == vehicle.value.notes && status == vehicle.value.status &&
                lastOdometer == IntToString(vehicle.value.lastOdometer) &&
                ParseInt(lastOdometer) == Some(vehicle.value.lastOdometer)
      ensures vehicle.None? ==>
                registration == "" && vehicleType == CompanyVehicle && notes == "" && lastOdometer == "0" &&
                status == VehicleAvailable
    {
      editingVehicle := vehicle;
      if vehicle.Some? {
        var v := vehicle.value;
        registration := v.registration;
        vehicleType := v.vehicleType;
        notes := v.notes;
        lastOdometer := IntToString(v.lastOdometer);
        ParseIntOfIntToString(v.lastOdometer);
        status := v.status;
      } else {
        registration := "";
        vehicleType := CompanyVehicle;
        notes := "";
        lastOdometer := "0";
        status := VehicleAvailable;
      }
      dialogOpen := true;
      message := None;
    }

    /** `closeDialog`: the dialog closes and forgets the record; the form keeps its
        fields until the next opening. */
    method CloseDialog()
      modifies this
      ensures closeTimers == old(closeTimers)
      ensures !dialogOpen && editingVehicle == None
      ensures registration == old(registration) && vehicleType == old(vehicleType) && notes == old(notes)
      ensures lastOdometer == old(lastOdometer) && status == old(status) && message == old(message)
    {
      dialogOpen := false;
      editingVehicle := None;
    }

    /** Time passes: once a close scheduled by a save is due, the dialog closes as
        `closeDialog` closes it, whatever was opened since. */
    method Tick(now: int)
      modifies this
      ensures closeTimers == Pending(old(closeTimers), now)
      ensures (exists d :: d in old(closeTimers) && d <= now) ==> !dialogOpen && editingVehicle == None
      ensures !(exists d :: d in old(closeTimers) && d <= now) ==>
                dialogOpen == old(dialogOpen) && editingVehicle == old(editingVehicle)
      ensures registration == old(registration) && vehicleType == old(vehicleType) && notes == old(notes)
      ensures lastOdometer == old(lastOdometer) && status == old(status) && message == old(message)
    {
      if exists d :: d in closeTimers && d <= now {
        dialogOpen := false;
        editingVehicle := None;
      }
      closeTimers := Pending(closeTimers, now);
    }

    /** `handleSave`. An empty registration, then a reading that does not parse or is
        negative, is refused with nothing written. Otherwise the edited record is
        updated, or a new record is inserted under the next id. `reading` is the
        parsed reading once the registration is present. */
    method Save(db: Store, now: int, write: WriteResult) returns (reading: Option<int>)
      requires db.Valid()
      modifies this, db
      ensures closeTimers == (if old(registration) != "" && AtLeast(reading, 0) && write.Written?
                            then old(closeTimers) + [now + DialogCloseMs] else old(closeTimers))
      ensures db.Valid()
      ensures db.employees == old(db.employees) && db.keys == old(db.keys) && db.keyTxs == old(db.keyTxs)
      ensures db.trips == old(db.trips) && db.visitors == old(db.visitors)
      ensures registration == old(registration) && vehicleType == old(vehicleType) && notes == old(notes)
      ensures lastOdometer == old(lastOdometer) && status == old(status)
      ensures dialogOpen == old(dialogOpen) && editingVehicle == old(editingVehicle)
      ensures old(registration) != "" ==> reading == ParseInt(old(lastOdometer))
      ensures old(registration) == "" ==>
                message == Some(Failure("Please fill in all required fields")) && db.vehicles == old(db.vehicles)
      ensures old(registration) != "" && !AtLeast(reading, 0) ==>
                message == Some(Failure("Invalid odometer reading")) && db.vehicles == old(db.vehicles)
      ensures old(registration) != "" && AtLeast(reading, 0) && write.Rejected? ==>
                message == Some(Failure(write.reason)) && db.vehicles == old(db.vehicles)
      ensures old(registration) != "" && AtLeast(reading, 0) && write.Written? && old(editingVehicle).Some? ==>
                db.vehicles == EditVehicleRow(old(db.vehicles), old(editingVehicle).value.id, old(registration),
                                              old(vehicleType), old(notes), reading.value, old(status), now) &&
                message == Some(Success("Vehicle updated successfully"))
      ensures old(registration) != "" && AtLeast(reading, 0) && write.Written? && old(editingVehicle).None? ==>
                var id := old(db.nextId);
                id !in old(db.vehicles) &&
                db.vehicles == old(db.vehicles)[id := NewVehicleRow(id, old(registration), old(vehicleType),
                                                                    old(notes), reading.value, old(status))] &&
                message == Some(Success("Vehicle added successfully"))
      ensures forall id :: id in db.vehicles && (id !in old(db.vehicles) || db.vehicles[id] != old(db.vehicles)[id]) ==>
                db.vehicles[id].lastOdometer >= 0
    {
      reading := None;
      if registration == "" {
        message := Some(Failure("Please fill in all required fields"));
        return;
      }
      reading := ParseInt(lastOdometer);
      if !AtLeast(reading, 0) {
        message := Some(Failure("Invalid odometer reading"));
        return;
      }
      if editingVehicle.Some? {
        if write.Rejected? {
          message := Some(Failure(write.reason));
          return;
        }
        db.SetVehicles(EditVehicleRow(db.vehicles, editingVehicle.value.id, registration, vehicleType, notes,
                                      reading.value, status, now));
        message := Some(Success("Vehicle updated successfully"));
      } else {
        var id := db.FreshId();
        if write.Rejected? {
          message := Some(Failure(write.reason));
          return;
        }
        db.PutVehicle(id, NewVehicleRow(id, registration, vehicleType, notes, reading.value, status));
        message := Some(Success("Vehicle added successfully"));
      }
      closeTimers := closeTimers + [now + DialogCloseMs];
    }
  }
}
