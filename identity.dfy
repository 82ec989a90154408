/** Identity resolution: every scan is resolved to "the active employee with this
    barcode" through a query that yields a row only when exactly one row matches,
    then checked against a role whitelist. Also the PIN digit filter and the
    four-digit rule. */
module Identity {
  import opened Common
  import opened Records

  /** The roles allowed to sign in: security_control, security_gate, admin, supervisor. */
  predicate IsOfficerRole(r: Role) {
    r == SecurityControl || r == SecurityGate || r == Admin || r == Supervisor
  }

  /** Ids of the active employees carrying `barcode`. */
  function ActiveWithBarcode(employees: map<int, Employee>, barcode: string): set<int> {
    set id | id in employees && employees[id].barcode == barcode && employees[id].status == Active
  }

  /** The employee row the barcode-and-active query returns: the match when there is
      exactly one, nothing when there is none or more than one. */
  function FindActiveEmployee(employees: map<int, Employee>, barcode: string): (r: Option<Employee>)
    ensures r.Some? <==> |ActiveWithBarcode(employees, barcode)| == 1
    ensures r.Some? ==> r.value in employees.Values
    ensures r.Some? ==> r.value.barcode == barcode && r.value.status == Active
  {
    match Only(ActiveWithBarcode(employees, barcode))
    case Some(id) => Some(employees[id])
    case None => None
  }

  /** When `id` is the only active employee with the barcode, the lookup returns its row. */
  lemma FindActiveEmployeeUnique(employees: map<int, Employee>, barcode: string, id: int)
    requires id in employees && employees[id].barcode == barcode && employees[id].status == Active
    requires forall other :: other in employees && other != id ==>
               employees[other].barcode != barcode || employees[other].status != Active
    ensures FindActiveEmployee(employees, barcode) == Some(employees[id])
  {
    var s := ActiveWithBarcode(employees, barcode);
    forall x | x in s ensures x == id {}
    assert s == {id};
  }

  /** Two active employees sharing a barcode make every scan of it fail. */
  lemma DuplicateBarcodeFindsNobody(employees: map<int, Employee>, barcode: string, a: int, b: int)
    requires a in employees && b in employees && a != b
    requires employees[a].barcode == barcode && employees[a].status == Active
    requires employees[b].barcode == barcode && employees[b].status == Active
    ensures FindActiveEmployee(employees, barcode) == None
  {
    var s := ActiveWithBarcode(employees, barcode);
    assert {a, b} <= s;
    assert |{a, b}| == 2;
    SubsetCardinality({a, b}, s);
  }

  lemma SubsetCardinality(a: set<int>, b: set<int>)
    requires a <= b
    ensures |a| <= |b|
  {
    assert b == a + (b - a);
  }

  /** `verifyEmployee`: the single active employee with the barcode, provided the role
      is an officer role; nothing otherwise. It only reads the table. */
  function VerifyEmployee(employees: map<int, Employee>, barcode: string): (r: Option<Employee>)
    ensures r.Some? ==> r.value in employees.Values
    ensures r.Some? ==> r.value.barcode == barcode && r.value.status == Active && IsOfficerRole(r.value.role)
    ensures r.Some? ==> r == FindActiveEmployee(employees, barcode)
  {
    match FindActiveEmployee(employees, barcode)
    case Some(e) => if IsOfficerRole(e.role) then Some(e) else None
    case None => None
  }

  /** `verifyEmployee` accepts exactly the sole active holder of the barcode, and only
      when that holder has an officer role. */
  lemma VerifyEmployeeIff(employees: map<int, Employee>, barcode: string, id: int)
    requires id in employees
    ensures VerifyEmployee(employees, barcode) == Some(employees[id]) <==>
            (ActiveWithBarcode(employees, barcode) == {id} && IsOfficerRole(employees[id].role))
  {
    var s := ActiveWithBarcode(employees, barcode);
    if VerifyEmployee(employees, barcode) == Some(employees[id]) {
      var o := Only(s);
      assert o.Some? && s == {o.value};
      assert employees[o.value] == employees[id];
      assert employees[id].barcode == barcode && employees[id].status == Active;
      assert id in s;
    } else if s == {id} {
      assert Only(s) == Some(id);
    }
  }

  /** Ids of the active employees with both this barcode and this PIN. */
  function ActiveWithCredentials(employees: map<int, Employee>, barcode: string, pin: string): set<int> {
    set id | id in employees && employees[id].barcode == barcode && employees[id].pin == pin &&
             employees[id].status == Active
  }

  /** The row the barcode-PIN-active query of the login returns. */
  function FindByCredentials(employees: map<int, Employee>, barcode: string, pin: string): (r: Option<Employee>)
    ensures r.Some? <==> |ActiveWithCredentials(employees, barcode, pin)| == 1
    ensures r.Some? ==> r.value in employees.Values
    ensures r.Some? ==> r.value.barcode == barcode && r.value.pin == pin && r.value.status == Active
  {
    match Only(ActiveWithCredentials(employees, barcode, pin))
    case Some(id) => Some(employees[id])
    case None => None
  }

  /** Every credentials match is a barcode match, so a login can only succeed for a
      barcode whose holders include that employee. */
  lemma CredentialsRefineBarcode(employees: map<int, Employee>, barcode: string, pin: string)
    ensures ActiveWithCredentials(employees, barcode, pin) <= ActiveWithBarcode(employees, barcode)
  {
  }

  /** The PIN field filter `value.replace(/\D/g, '').slice(0, 4)`: the first four digits. */
  function SanitizePin(value: string): (r: string)
    ensures AllDigits(r) && |r| <= 4
    ensures |r| <= |KeepDigits(value)| && r == KeepDigits(value)[..|r|]
    ensures |r| == if |KeepDigits(value)| < 4 then |KeepDigits(value)| else 4
    ensures |KeepDigits(value)| <= 4 ==> r == KeepDigits(value)
  {
    Take(KeepDigits(value), 4)
  }

  /** Filtering an already filtered PIN changes nothing. */
  lemma SanitizePinIdempotent(value: string)
    ensures SanitizePin(SanitizePin(value)) == SanitizePin(value)
  {
  }

  /** `pin.length === 4 && /^\d{4}$/.test(pin)`. */
  predicate IsFourDigitPin(pin: string) {
    |pin| == 4 && AllDigits(pin)
  }

  /** On a value that went through the field filter, the login's length-only check and
      the four-digit rule agree. */
  lemma SanitizedPinLengthSuffices(value: string)
    ensures |SanitizePin(value)| == 4 <==> IsFourDigitPin(SanitizePin(value))
  {
  }
}
