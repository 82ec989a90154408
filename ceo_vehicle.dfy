/** The chief executive's vehicles: signing one in or out of the premises changes its
    location flag and nothing else. */
module CeoPresence {
  import opened Common
  import opened Records
  import opened Tables
  import opened Identity
  import opened Ledger

  /** The vehicles listed on the screen: those of the CEO type, in the fetched order. */
  function CeoVehicles(vehicles: seq<Vehicle>): (r: seq<Vehicle>)
    ensures forall v :: v in r <==> v in vehicles && v.vehicleType == CeoVehicle
    ensures IsSubsequence(r, vehicles)
  {
    FilterIsSubsequence(vehicles, (v: Vehicle) => v.vehicleType == CeoVehicle);
    Filter(vehicles, (v: Vehicle) => v.vehicleType == CeoVehicle)
  }

  /** The sign-in list: vehicles away from the premises. */
  function AwayList(vehicles: seq<Vehicle>): (r: seq<Vehicle>)
    ensures forall v :: v in r <==> v in vehicles && v.currentLocation == OffPremises
  {
    Filter(vehicles, (v: Vehicle) => v.currentLocation == OffPremises)
  }

  /** The sign-out list: vehicles on the premises. */
  function PresentList(vehicles: seq<Vehicle>): (r: seq<Vehicle>)
    ensures forall v :: v in r <==> v in vehicles && v.currentLocation == OnPremises
  {
    Filter(vehicles, (v: Vehicle) => v.currentLocation == OnPremises)
  }

  /** Each listed vehicle is offered for exactly one of the two actions. */
  lemma SignInOutListsPartition(vehicles: seq<Vehicle>)
    ensures forall v :: !(v in AwayList(vehicles) && v in PresentList(vehicles))
    ensures |AwayList(vehicles)| + |PresentList(vehicles)| == |vehicles|
  {
    ComplementaryCounts(vehicles, (v: Vehicle) => v.currentLocation == OffPremises, (v: Vehicle) => v.currentLocation == OnPremises);
  }

  /** The update of a sign-in or sign-out: only the location of vehicle `v` changes. */
  function RelocateVehicleRow(vehicles: map<int, Vehicle>, v: int, location: Location): (r: map<int, Vehicle>)
    ensures r.Keys == vehicles.Keys
    ensures forall id :: id in vehicles && id != v ==> r[id] == vehicles[id]
    ensures v in vehicles ==> r[v] == vehicles[v].(currentLocation := location)
  {
    if v in vehicles then vehicles[v := vehicles[v].(currentLocation := location)] else vehicles
  }

  /** Moving a vehicle in or out of the premises touches neither its status nor its
      reading, so custody stays as it was. */
  lemma RelocationKeepsVehicleCustody(vehicles: map<int, Vehicle>, trips: map<int, Trip>, v: int, location: Location)
    ensures VehicleCustodyConsistent(vehicles, trips) ==>
              VehicleCustodyConsistent(RelocateVehicleRow(vehicles, v, location), trips)
    ensures OdometersNotLowered(vehicles, RelocateVehicleRow(vehicles, v, location))
  {
  }

  /** The CEO desk's form and banner. */
  class CeoDesk {
    var selectedVehicle: Option<Vehicle>
    var ceoBarcode: string
    var ceoData: Option<Employee>
    var message: Option<Message>

    constructor ()
      ensures selectedVehicle == None && ceoBarcode == "" && ceoData == None && message == None
    {
      selectedVehicle := None;
      ceoBarcode := "";
      ceoData := None;
      message := None;
    }

    /** Choosing a listed vehicle. */
    method SelectVehicle(vehicle: Vehicle)
      requires vehicle.vehicleType == CeoVehicle
      modifies this
      ensures selectedVehicle == Some(vehicle)
      ensures ceoBarcode == old(ceoBarcode) && ceoData == old(ceoData) && message == old(message)
    {
      selectedVehicle := Some(vehicle);
    }

    /** `handleCeoScan`: only the one active employee with the barcode, and only when
        that employee is the CEO, is accepted; otherwise the verified person stays. */
    method CeoScan(employees: map<int, Employee>, barcode: string)
      modifies this
      ensures ceoBarcode == barcode && selectedVehicle == old(selectedVehicle)
      ensures FindActiveEmployee(employees, barcode).Some? && FindActiveEmployee(employees, barcode).value.role == Ceo ==>
                ceoData == FindActiveEmployee(employees, barcode) &&
                message == Some(Success(ceoData.value.name + " verified"))
      ensures !(FindActiveEmployee(employees, barcode).Some? && FindActiveEmployee(employees, barcode).value.role == Ceo) ==>
                ceoData == old(ceoData) && message == Some(Failure("CEO not found or invalid role"))
    {
      ceoBarcode := barcode;
      var found := FindActiveEmployee(employees, barcode);
      if found.Some? && found.value.role == Ceo {
        ceoData := found;
        message := Some(Success(found.value.name + " verified"));
      } else {
        message := Some(Failure("CEO not found or invalid role"));
      }
    }

    /** `handleCeoArrival` (`location` on the premises, banner "signed in") and
        `handleCeoDeparture` (off the premises, "signed out"): with a vehicle chosen and
        the CEO verified, the vehicle's location is set and nothing else changes. */
    method Move(db: Store, location: Location, write: WriteResult)
      requires db.Valid()
      modifies this, db
      ensures db.Valid()
      ensures db.employees == old(db.employees) && db.keys == old(db.keys) && db.keyTxs == old(db.keyTxs)
      ensures db.trips == old(db.trips) && db.visitors == old(db.visitors)
      ensures selectedVehicle == old(selectedVehicle) && ceoBarcode == old(ceoBarcode) && ceoData == old(ceoData)
      ensures old(selectedVehicle).None? || old(ceoData).None? ==>
                message == Some(Failure("Please select vehicle and scan CEO barcode")) &&
                db.vehicles == old(db.vehicles)
      ensures old(selectedVehicle).Some? && old(ceoData).Some? && write.Rejected? ==>
                message == Some(Failure(write.reason)) && db.vehicles == old(db.vehicles)
      ensures old(selectedVehicle).Some? && old(ceoData).Some? && write.Written? ==>
                db.vehicles == RelocateVehicleRow(old(db.vehicles), old(selectedVehicle).value.id, location) &&
                message == Some(Success(old(ceoData).value.name +
                                        (if location == OnPremises then " signed in with " else " signed out with ") +
                                        old(selectedVehicle).value.registration))
      ensures VehicleCustodyConsistent(old(db.vehicles), old(db.trips)) ==> VehicleCustodyConsistent(db.vehicles, db.trips)
      ensures OdometersNotLowered(old(db.vehicles), db.vehicles)
    {
      if selectedVehicle.None? || ceoData.None? {
        message := Some(Failure("Please select vehicle and scan CEO barcode"));
        return;
      }
      if write.Rejected? {
        message := Some(Failure(write.reason));
        return;
      }
      var vehicle := selectedVehicle.value;
      RelocationKeepsVehicleCustody(db.vehicles, db.trips, vehicle.id, location);
      db.SetVehicles(RelocateVehicleRow(db.vehicles, vehicle.id, location));
      message := Some(Success(ceoData.value.name + (if location == OnPremises then " signed in with " else " signed out with ") +
                              vehicle.registration));
    }
  }
}
