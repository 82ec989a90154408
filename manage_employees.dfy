/** The administrator's employee register: a dialog that creates or edits an
    employee's record, with a PIN of exactly four digits, and a deactivation that
    turns an employee's status off without deleting the record. */
module EmployeeAdmin {
  import opened Common
  import opened Records
  import opened Tables
  import opened Identity

  /** The update of an edit: every form field and the update time on row `e`, the
      rest of the table untouched. */
  function EditEmployeeRow(employees: map<int, Employee>, e: int, barcode: string, pin: string, name: string,
                           role: Role, department: string, status: EmployeeStatus, now: int): (r: map<int, Employee>)
    ensures r.Keys == employees.Keys
    ensures forall id :: id in employees && id != e ==> r[id] == employees[id]
    ensures e in employees ==>
              r[e] == Employee(employees[e].id, barcode, pin, name, role, department, status, Some(now))
  {
    if e in employees then
      employees[e := employees[e].(barcode := barcode, pin := pin, name := name, role := role,
                                   department := department, status := status, updatedAt := Some(now))]
    else employees
  }

  /** The update of a deactivation: the status of row `e` only. */
  function DeactivateRow(employees: map<int, Employee>, e: int): (r: map<int, Employee>)
    ensures r.Keys == employees.Keys
    ensures forall id :: id in employees && id != e ==> r[id] == employees[id]
    ensures e in employees ==> r[e] == employees[e].(status := Inactive)
  {
    if e in employees then employees[e := employees[e].(status := Inactive)] else employees
  }

  /** A deactivated employee drops out of every barcode lookup and nobody else does:
      records are kept, but the employee can no longer be scanned or log in. */
  lemma DeactivationRemovesFromLookups(employees: map<int, Employee>, e: int, barcode: string)
    ensures ActiveWithBarcode(DeactivateRow(employees, e), barcode) == ActiveWithBarcode(employees, barcode) - {e}
    ensures DeactivateRow(employees, e).Keys == employees.Keys
  {
    var after := DeactivateRow(employees, e);
    assert forall id :: id in ActiveWithBarcode(after, barcode) <==>
                        id in ActiveWithBarcode(employees, barcode) && id != e;
  }

  /** When `e` was the only active holder of the barcode, the lookup finds nobody
      after `e` is deactivated. */
  lemma DeactivatedEmployeeNotFound(employees: map<int, Employee>, e: int, barcode: string)
    requires ActiveWithBarcode(employees, barcode) == {e}
    ensures FindActiveEmployee(DeactivateRow(employees, e), barcode).None?
  {
    DeactivationRemovesFromLookups(employees, e, barcode);
    assert ActiveWithBarcode(DeactivateRow(employees, e), barcode) == {};
  }

  /** The employee dialog and the screen's banner. An empty `department` is the
      missing value, as in the record. */
  class EmployeeEditor {
    var dialogOpen: bool
    var editingEmployee: Option<Employee>
    var barcode: string
    var pin: string
    var name: string
    var role: Role
    var department: string
    var status: EmployeeStatus
    var message: Option<Message>
    /** The pending closes of the dialog that successful saves scheduled. */
    var closeTimers: seq<int>

    constructor ()
      ensures !dialogOpen && editingEmployee == None && barcode == "" && pin == "1234" && name == ""
      ensures role == Staff && department == "" && status == Active && message == None
      ensures closeTimers == []
    {
      dialogOpen := false;
      editingEmployee := None;
      barcode := "";
      pin := "1234";
      name := "";
      role := Staff;
      department := "";
      status := Active;
      message := None;
      closeTimers := [];
    }

    /** `openDialog`: an existing record fills the form (a missing PIN shows the
        default); without one the form takes the new-employee defaults. */
    method OpenDialog(employee: Option<Employee>)
      modifies this
      ensures closeTimers == old(closeTimers)
      ensures dialogOpen && editingEmployee == employee && message == None
      ensures employee.Some? ==>
                barcode == employee.value.barcode && name == employee.value.name &&
                role == employee.value.role && department == employee.value.department &&
                status == employee.value.status &&
                pin == (if employee.value.pin == "" then "1234" else employee.value.pin)
      ensures employee.None? ==>
                barcode == "" && pin == "1234" && name == "" && role == Staff && department == "" && status == Active
    {
      editingEmployee := employee;
      if employee.Some? {
        var e := employee.value;
        barcode := e.barcode;
        pin := if e.pin == "" then "1234" else e.pin;
        name := e.name;
        role := e.role;
        department := e.department;
        status := e.status;
      } else {
        barcode := "";
        pin := "1234";
        name := "";
        role := Staff;
        department := "";
        status := Active;
      }
      dialogOpen := true;
      message := None;
    }

    /** `closeDialog`: the dialog closes and forgets the record; the form keeps its
        fields until the next opening. */
    method CloseDialog()
      modifies this
      ensures closeTimers == old(closeTimers)
      ensures !dialogOpen && editingEmployee == None
      ensures barcode == old(barcode) && pin == old(pin) && name == old(name) && role == old(role)
      ensures department == old(department) && status == old(status) && message == old(message)
    {
      dialogOpen := false;
      editingEmployee := None;
    }

    /** Time passes: once a close scheduled by a save is due, the dialog closes as
        `closeDialog` closes it, whatever was opened since. */
    method Tick(now: int)
      modifies this
      ensures closeTimers == Pending(old(closeTimers), now)
      ensures (exists d :: d in old(closeTimers) && d <= now) ==> !dialogOpen && editingEmployee == None
      ensures !(exists d :: d in old(closeTimers) && d <= now) ==>
                dialogOpen == old(dialogOpen) && editingEmployee == old(editingEmployee)
      ensures barcode == old(barcode) && pin == old(pin) && name == old(name) && role == old(role)
      ensures department == old(department) && status == old(status) && message == old(message)
    {
      if exists d :: d in closeTimers && d <= now {
        dialogOpen := false;
        editingEmployee := None;
      }
      closeTimers := Pending(closeTimers, now);
    }

    /** The PIN field keeps the first four digits of what is typed. */
    method PinChange(value: string)
      modifies this
      ensures closeTimers == old(closeTimers)
      ensures pin == SanitizePin(value) && AllDigits(pin) && |pin| <= 4
      ensures barcode == old(barcode) && name == old(name) && role == old(role)
      ensures department == old(department) && status == old(status) && message == old(message)
      ensures dialogOpen == old(dialogOpen) && editingEmployee == old(editingEmployee)
    {
      pin := SanitizePin(value);
    }

    /** The form passes the guards of `handleSave`: the text fields are filled in and
        the PIN is exactly four digits. */
    predicate Acceptable()
      reads this
    {
      barcode != "" && name != "" && pin != "" && IsFourDigitPin(pin)
    }

    /** `handleSave`. Empty fields, then a PIN that is not four digits, are refused
        with nothing written. Otherwise the edited record is updated, or a new record
        is inserted under the next id. Every record this writes carries a four-digit
        PIN. */
    method Save(db: Store, now: int, write: WriteResult)
      requires db.Valid()
      modifies this, db
      ensures closeTimers == (if old(Acceptable()) && write.Written?
                            then old(closeTimers) + [now + DialogCloseMs] else old(closeTimers))
      ensures db.Valid()
      ensures db.keys == old(db.keys) && db.keyTxs == old(db.keyTxs) && db.vehicles == old(db.vehicles)
      ensures db.trips == old(db.trips) && db.visitors == old(db.visitors)
      ensures barcode == old(barcode) && pin == old(pin) && name == old(name) && role == old(role)
      ensures department == old(department) && status == old(status)
      ensures dialogOpen == old(dialogOpen) && editingEmployee == old(editingEmployee)
      ensures old(barcode) == "" || old(name) == "" || old(pin) == "" ==>
                message == Some(Failure("Please fill in all required fields")) && db.employees == old(db.employees)
      ensures old(barcode) != "" && old(name) != "" && old(pin) != "" && !IsFourDigitPin(old(pin)) ==>
                message == Some(Failure("PIN must be exactly 4 digits")) && db.employees == old(db.employees)
      ensures old(Acceptable()) && write.Rejected? ==>
                message == Some(Failure(write.reason)) && db.employees == old(db.employees)
      ensures old(Acceptable()) && write.Written? && old(editingEmployee).Some? ==>
                db.employees == EditEmployeeRow(old(db.employees), old(editingEmployee).value.id, old(barcode),
                                                old(pin), old(name), old(role), old(department), old(status), now) &&
                message == Some(Success("Employee updated successfully"))
      ensures old(Acceptable()) && write.Written? && old(editingEmployee).None? ==>
                var id := old(db.nextId);
                id !in old(db.employees) &&
                db.employees == old(db.employees)[id := Employee(id, old(barcode), old(pin), old(name), old(role),
                                                                 old(department), old(status), None)] &&
                message == Some(Success("Employee added successfully"))
      ensures forall id :: id in db.employees && (id !in old(db.employees) || db.employees[id] != old(db.employees)[id]) ==>
                IsFourDigitPin(db.employees[id].pin)
    {
      if barcode == "" || name == "" || pin == "" {
        message := Some(Failure("Please fill in all required fields"));
        return;
      }
      if !IsFourDigitPin(pin) {
        message := Some(Failure("PIN must be exactly 4 digits"));
        return;
      }
      if editingEmployee.Some? {
        if write.Rejected? {
          message := Some(Failure(write.reason));
          return;
        }
        db.SetEmployees(EditEmployeeRow(db.employees, editingEmployee.value.id, barcode, pin, name, role,
                                        department, status, now));
        message := Some(Success("Employee updated successfully"));
      } else {
        var id := db.FreshId();
        if write.Rejected? {
          message := Some(Failure(write.reason));
          return;
        }
        db.PutEmployee(id, Employee(id, barcode, pin, name, role, department, status, None));
        message := Some(Success("Employee added successfully"));
      }
      closeTimers := closeTimers + [now + DialogCloseMs];
    }

    /** `handleDeactivate`, offered for active employees only: once confirmed, the
        record's status becomes inactive and nothing else changes. */
    method Deactivate(db: Store, employee: Employee, confirmed: bool, write: WriteResult)
      requires db.Valid() && employee.status == Active
      modifies this, db
      ensures closeTimers == old(closeTimers)
      ensures db.Valid()
      ensures db.keys == old(db.keys) && db.keyTxs == old(db.keyTxs) && db.vehicles == old(db.vehicles)
      ensures db.trips == old(db.trips) && db.visitors == old(db.visitors)
      ensures barcode == old(barcode) && pin == old(pin) && name == old(name) && role == old(role)
      ensures department == old(department) && status == old(status)
      ensures dialogOpen == old(dialogOpen) && editingEmployee == old(editingEmployee)
      ensures !confirmed ==> message == old(message) && db.employees == old(db.employees)
      ensures confirmed && write.Rejected? ==> message == Some(Failure(write.reason)) && db.employees == old(db.employees)
      ensures confirmed && write.Written? ==>
                db.employees == DeactivateRow(old(db.employees), employee.id) &&
                message == Some(Success("Employee deactivated"))
      ensures db.employees.Keys == old(db.employees).Keys
    {
      if !confirmed {
        return;
      }
      if write.Rejected? {
        message := Some(Failure(write.reason));
        return;
      }
      db.SetEmployees(DeactivateRow(db.employees, employee.id));
      message := Some(Success("Employee deactivated"));
    }
  }
}
