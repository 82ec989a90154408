/** The visitor desk: registering a visitor on arrival and checking one out. Both are
    single writes to the visitor table; a visitor is on the premises from the insert
    until the check-out update. */
module VisitorDesk {
  import opened Common
  import opened Records
  import opened Tables

  /** An optional text field as stored: an empty field is null. */
  function NullIfEmpty(s: string): (r: Option<string>)
    ensures r.None? <==> s == ""
    ensures r.Some? ==> r.value == s
  {
    if s == "" then None else Some(s)
  }

  /** The ids of the visitor records whose status is on the premises. */
  function OnPremisesIds(visitors: map<int, Visitor>): (r: set<int>)
    ensures forall id :: id in r <==> id in visitors && visitors[id].status == VisitorOnPremises
  {
    set id | id in visitors && visitors[id].status == VisitorOnPremises
  }

  /** The row a visitor registration inserts; the arrival time is the insert time. */
  function ArrivalRow(id: int, name: string, organization: Option<string>, purpose: string, host: Option<int>,
                      registration: Option<string>, visitorType: VisitorType, officer: int, now: int): (r: Visitor)
    ensures r.id == id && r.name == name && r.organization == organization && r.purpose == purpose
    ensures r.hostEmployeeId == host && r.vehicleRegistration == registration && r.visitorType == visitorType
    ensures r.officerInId == officer
    ensures r.status == VisitorOnPremises && r.timeIn == now && r.timeOut.None? && r.officerOutId.None?
  {
    Visitor(id, name, organization, purpose, host, registration, visitorType, officer, now, None, None,
            VisitorOnPremises)
  }

  /** The update of a check-out: departed now, by `officer`; the rest of the row stays. */
  function DepartVisitorRow(visitors: map<int, Visitor>, v: int, officer: int, now: int): (r: map<int, Visitor>)
    ensures r.Keys == visitors.Keys
    ensures forall id :: id in visitors && id != v ==> r[id] == visitors[id]
    ensures v in visitors ==> r[v].status == VisitorDeparted && r[v].timeOut == Some(now) &&
                              r[v].officerOutId == Some(officer)
    ensures v in visitors ==> r[v].id == visitors[v].id && r[v].name == visitors[v].name &&
                              r[v].purpose == visitors[v].purpose && r[v].visitorType == visitors[v].visitorType &&
                              r[v].timeIn == visitors[v].timeIn && r[v].hostEmployeeId == visitors[v].hostEmployeeId
  {
    if v in visitors then
      visitors[v := visitors[v].(timeOut := Some(now), officerOutId := Some(officer), status := VisitorDeparted)]
    else visitors
  }

  /** An arrival puts exactly the new record on the premises. */
  lemma ArrivalAddsOnPremises(visitors: map<int, Visitor>, id: int, row: Visitor)
    requires id !in visitors && row.status == VisitorOnPremises
    ensures OnPremisesIds(visitors[id := row]) == OnPremisesIds(visitors) + {id}
    ensures |OnPremisesIds(visitors[id := row])| == |OnPremisesIds(visitors)| + 1
  {
  }

  /** A check-out takes exactly that record off the premises. */
  lemma DepartureRemovesOnPremises(visitors: map<int, Visitor>, v: int, officer: int, now: int)
    ensures OnPremisesIds(DepartVisitorRow(visitors, v, officer, now)) == OnPremisesIds(visitors) - {v}
  {
    var after := DepartVisitorRow(visitors, v, officer, now);
    assert forall id :: id in OnPremisesIds(after) <==> id in OnPremisesIds(visitors) && id != v;
  }

  /** Registration looks at no existing record: the same visitor registered twice is on
      the premises twice. */
  lemma RepeatedArrivalAllowed(visitors: map<int, Visitor>, first: int, id: int, row: Visitor)
    requires first in visitors && visitors[first].status == VisitorOnPremises
    requires id !in visitors && row.status == VisitorOnPremises && row.name == visitors[first].name
    ensures first != id
    ensures {first, id} <= OnPremisesIds(visitors[id := row])
    ensures visitors[id := row][first].name == visitors[id := row][id].name
  {
    ArrivalAddsOnPremises(visitors, id, row);
  }

  /** The insert of an arrival under the next id, which is used up even when the
      storage service refuses the row. */
  method InsertArrival(db: Store, name: string, organization: Option<string>, purpose: string, host: Option<int>,
                       registration: Option<string>, visitorType: VisitorType, officer: int, now: int,
                       write: WriteResult) returns (id: int)
    requires db.Valid()
    modifies db
    ensures db.Valid()
    ensures db.employees == old(db.employees) && db.keys == old(db.keys) && db.keyTxs == old(db.keyTxs)
    ensures db.vehicles == old(db.vehicles) && db.trips == old(db.trips)
    ensures id == old(db.nextId) && id !in old(db.visitors)
    ensures write.Rejected? ==> db.visitors == old(db.visitors)
    ensures write.Written? ==>
              db.visitors == old(db.visitors)[id := ArrivalRow(id, name, organization, purpose, host, registration,
                                                               visitorType, officer, now)] &&
              OnPremisesIds(db.visitors) == OnPremisesIds(old(db.visitors)) + {id}
  {
    id := db.FreshId();
    if write.Rejected? {
      return;
    }
    var row := ArrivalRow(id, name, organization, purpose, host, registration, visitorType, officer, now);
    ArrivalAddsOnPremises(db.visitors, id, row);
    db.PutVisitor(id, row);
  }

  /** The registration form and the desk's banner. `host` is the chosen employee, if
      any; the registration field is stored whatever the visitor type. */
  class VisitorForm {
    var visitorName: string
    var organization: string
    var purpose: string
    var host: Option<int>
    var vehicleRegistration: string
    var visitorType: VisitorType
    var message: Option<Message>

    constructor ()
      ensures visitorName == "" && organization == "" && purpose == "" && host == None
      ensures vehicleRegistration == "" && visitorType == WalkIn && message == None
    {
      visitorName := "";
      organization := "";
      purpose := "";
      host := None;
      vehicleRegistration := "";
      visitorType := WalkIn;
      message := None;
    }

    /** `handleRegisterVisitor`. Without a name and a purpose nothing is written.
        Otherwise one on-premises record is inserted, empty optional fields stored as
        null, and on success the form is cleared with the type back to walk-in. */
    method Register(db: Store, officerId: int, now: int, write: WriteResult)
      requires db.Valid()
      modifies this, db
      ensures db.Valid()
      ensures db.employees == old(db.employees) && db.keys == old(db.keys) && db.keyTxs == old(db.keyTxs)
      ensures db.vehicles == old(db.vehicles) && db.trips == old(db.trips)
      ensures old(visitorName) == "" || old(purpose) == "" ==>
                message == Some(Failure("Please enter visitor name and purpose")) && db.visitors == old(db.visitors)
      ensures old(visitorName) != "" && old(purpose) != "" && write.Rejected? ==>
                message == Some(Failure(write.reason)) && db.visitors == old(db.visitors)
      ensures old(visitorName) != "" && old(purpose) != "" && write.Written? ==>
                var id := old(db.nextId);
                id !in old(db.visitors) &&
                db.visitors == old(db.visitors)[id := ArrivalRow(id, old(visitorName), NullIfEmpty(old(organization)),
                                                                  old(purpose), old(host),
                                                                  NullIfEmpty(old(vehicleRegistration)),
                                                                  old(visitorType), officerId, now)] &&
                OnPremisesIds(db.visitors) == OnPremisesIds(old(db.visitors)) + {id} &&
                message == Some(Success(old(visitorName) + " registered successfully")) &&
                visitorName == "" && organization == "" && purpose == "" && host == None &&
                vehicleRegistration == "" && visitorType == WalkIn
      ensures !(old(visitorName) != "" && old(purpose) != "" && write.Written?) ==>
                visitorName == old(visitorName) && organization == old(organization) && purpose == old(purpose) &&
                host == old(host) && vehicleRegistration == old(vehicleRegistration) &&
                visitorType == old(visitorType)
    {
      if visitorName == "" || purpose == "" {
        message := Some(Failure("Please enter visitor name and purpose"));
        return;
      }
      var _ := InsertArrival(db, visitorName, NullIfEmpty(organization), purpose, host,
                             NullIfEmpty(vehicleRegistration), visitorType, officerId, now, write);
      if write.Rejected? {
        message := Some(Failure(write.reason));
        return;
      }
      message := Some(Success(visitorName + " registered successfully"));
      visitorName := "";
      organization := "";
      purpose := "";
      host := None;
      vehicleRegistration := "";
      visitorType := WalkIn;
    }

    /** `handleCheckoutVisitor` on a listed visitor: that record only is marked departed. */
    method CheckOut(db: Store, visitorId: int, officerId: int, now: int, write: WriteResult)
      requires db.Valid()
      modifies this, db
      ensures db.Valid()
      ensures db.employees == old(db.employees) && db.keys == old(db.keys) && db.keyTxs == old(db.keyTxs)
      ensures db.vehicles == old(db.vehicles) && db.trips == old(db.trips)
      ensures visitorName == old(visitorName) && organization == old(organization) && purpose == old(purpose)
      ensures host == old(host) && vehicleRegistration == old(vehicleRegistration) && visitorType == old(visitorType)
      ensures write.Rejected? ==> message == Some(Failure(write.reason)) && db.visitors == old(db.visitors)
      ensures write.Written? ==>
                db.visitors == DepartVisitorRow(old(db.visitors), visitorId, officerId, now) &&
                OnPremisesIds(db.visitors) == OnPremisesIds(old(db.visitors)) - {visitorId} &&
                message == Some(Success("Visitor checked out successfully"))
    {
      if write.Rejected? {
        message := Some(Failure(write.reason));
        return;
      }
      DepartureRemovesOnPremises(db.visitors, visitorId, officerId, now);
      db.SetVisitors(DepartVisitorRow(db.visitors, visitorId, officerId, now));
      message := Some(Success("Visitor checked out successfully"));
    }
  }
}
