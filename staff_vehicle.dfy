/** Staff members parking a personal vehicle. A staff session is a visitor record of
    the vehicle type whose purpose is the fixed staff text; arrival inserts one and
    departure marks it departed. */
module StaffParking {
  import opened Common
  import opened Records
  import opened Tables
  import opened Identity
  import opened VisitorDesk

  const StaffPurpose := "Staff Personal Vehicle"

  /** The visitor records that are staff vehicle sessions. */
  predicate IsStaffSession(v: Visitor) {
    v.visitorType == WithVehicle && v.purpose == StaffPurpose
  }

  /** The sessions among the fetched visitor records, in their order. */
  function Sessions(visitors: seq<Visitor>): (r: seq<Visitor>)
    ensures forall v :: v in r <==> v in visitors && IsStaffSession(v)
    ensures IsSubsequence(r, visitors)
  {
    FilterIsSubsequence(visitors, IsStaffSession);
    Filter(visitors, IsStaffSession)
  }

  /** The sessions still on site. */
  function OnSite(sessions: seq<Visitor>): (r: seq<Visitor>)
    ensures forall v :: v in r <==> v in sessions && v.status == VisitorOnPremises
  {
    Filter(sessions, (v: Visitor) => v.status == VisitorOnPremises)
  }

  /** The sessions that have left. */
  function OffSite(sessions: seq<Visitor>): (r: seq<Visitor>)
    ensures forall v :: v in r <==> v in sessions && v.status == VisitorDeparted
  {
    Filter(sessions, (v: Visitor) => v.status == VisitorDeparted)
  }

  /** The two lists share no record and together hold every session once. */
  lemma OnOffSitePartition(sessions: seq<Visitor>)
    ensures forall v :: !(v in OnSite(sessions) && v in OffSite(sessions))
    ensures |OnSite(sessions)| + |OffSite(sessions)| == |sessions|
  {
    ComplementaryCounts(sessions, (v: Visitor) => v.status == VisitorOnPremises, (v: Visitor) => v.status == VisitorDeparted);
  }

  /** The record a staff arrival inserts: the staff member as both name and host, the
      registration upper-cased, on the premises. */
  function StaffArrivalRow(id: int, staff: Employee, registration: string, officer: int, now: int): (r: Visitor)
    ensures IsStaffSession(r) && r.status == VisitorOnPremises
    ensures r.hostEmployeeId == Some(staff.id) && r.vehicleRegistration == Some(ToUpper(registration))
  {
    ArrivalRow(id, staff.name, Some("Staff"), StaffPurpose, Some(staff.id), Some(ToUpper(registration)),
               WithVehicle, officer, now)
  }

  /** The staff desk's form and banner. */
  class StaffDesk {
    var staffBarcode: string
    var staffData: Option<Employee>
    var vehicleReg: string
    var message: Option<Message>

    constructor ()
      ensures staffBarcode == "" && staffData == None && vehicleReg == "" && message == None
    {
      staffBarcode := "";
      staffData := None;
      vehicleReg := "";
      message := None;
    }

    /** `handleStaffScan`: only the one active employee with the barcode, and only when
        that employee is staff, is accepted; otherwise the verified member stays. */
    method StaffScan(employees: map<int, Employee>, barcode: string)
      modifies this
      ensures staffBarcode == barcode && vehicleReg == old(vehicleReg)
      ensures FindActiveEmployee(employees, barcode).Some? && FindActiveEmployee(employees, barcode).value.role == Staff ==>
                staffData == FindActiveEmployee(employees, barcode) &&
                message == Some(Success(staffData.value.name + " verified"))
      ensures !(FindActiveEmployee(employees, barcode).Some? && FindActiveEmployee(employees, barcode).value.role == Staff) ==>
                staffData == old(staffData) && message == Some(Failure("Staff member not found or invalid role"))
    {
      staffBarcode := barcode;
      var found := FindActiveEmployee(employees, barcode);
      if found.Some? && found.value.role == Staff {
        staffData := found;
        message := Some(Success(found.value.name + " verified"));
      } else {
        message := Some(Failure("Staff member not found or invalid role"));
      }
    }

    /** `handleStaffArrival`: needs a verified member and a registration; inserts one
        session. The banner shows the registration as typed. */
    method Arrival(db: Store, officerId: int, now: int, write: WriteResult)
      requires db.Valid()
      modifies this, db
      ensures db.Valid()
      ensures db.employees == old(db.employees) && db.keys == old(db.keys) && db.keyTxs == old(db.keyTxs)
      ensures db.vehicles == old(db.vehicles) && db.trips == old(db.trips)
      ensures staffBarcode == old(staffBarcode) && staffData == old(staffData) && vehicleReg == old(vehicleReg)
      ensures old(staffData).None? || old(vehicleReg) == "" ==>
                message == Some(Failure("Please scan staff barcode and enter vehicle registration")) &&
                db.visitors == old(db.visitors)
      ensures old(staffData).Some? && old(vehicleReg) != "" && write.Rejected? ==>
                message == Some(Failure(write.reason)) && db.visitors == old(db.visitors)
      ensures old(staffData).Some? && old(vehicleReg) != "" && write.Written? ==>
                var id := old(db.nextId);
                id !in old(db.visitors) &&
                db.visitors == old(db.visitors)[id := StaffArrivalRow(id, old(staffData).value, old(vehicleReg),
                                                                       officerId, now)] &&
                message == Some(Success(old(staffData).value.name + " signed in with vehicle " + old(vehicleReg)))
    {
      if staffData.None? || vehicleReg == "" {
        message := Some(Failure("Please scan staff barcode and enter vehicle registration"));
        return;
      }
      var staff := staffData.value;
      var _ := InsertArrival(db, staff.name, Some("Staff"), StaffPurpose, Some(staff.id), Some(ToUpper(vehicleReg)),
                             WithVehicle, officerId, now, write);
      if write.Rejected? {
        message := Some(Failure(write.reason));
        return;
      }
      message := Some(Success(staff.name + " signed in with vehicle " + vehicleReg));
    }

    /** `handleStaffDeparture` on a listed session: that record only is marked departed. */
    method Departure(db: Store, sessionId: int, officerId: int, now: int, write: WriteResult)
      requires db.Valid()
      modifies this, db
      ensures db.Valid()
      ensures db.employees == old(db.employees) && db.keys == old(db.keys) && db.keyTxs == old(db.keyTxs)
      ensures db.vehicles == old(db.vehicles) && db.trips == old(db.trips)
      ensures staffBarcode == old(staffBarcode) && staffData == old(staffData) && vehicleReg == old(vehicleReg)
      ensures write.Rejected? ==> message == Some(Failure(write.reason)) && db.visitors == old(db.visitors)
      ensures write.Written? ==>
                db.visitors == DepartVisitorRow(old(db.visitors), sessionId, officerId, now) &&
                message == Some(Success("Staff signed out successfully"))
    {
      if write.Rejected? {
        message := Some(Failure(write.reason));
        return;
      }
      db.SetVisitors(DepartVisitorRow(db.visitors, sessionId, officerId, now));
      message := Some(Success("Staff signed out successfully"));
    }
  }
}
