/** The officer session (the auth store) and the two-step login page: scan a badge,
    which must belong to an officer, then enter a four-digit PIN. */
module Auth {
  import opened Common
  import opened Records
  import opened Identity

  /** The session record shared by every page. */
  class AuthStore {
    var currentOfficer: Option<Employee>
    var isAuthenticated: bool
    var loading: bool
    var error: Option<string>

    constructor ()
      ensures currentOfficer == None && !isAuthenticated && !loading && error == None
    {
      currentOfficer := None;
      isAuthenticated := false;
      loading := false;
      error := None;
    }

    /** A signed-in session always names its officer, who holds an officer role. */
    predicate Valid()
      reads this
    {
      isAuthenticated ==> currentOfficer.Some? && IsOfficerRole(currentOfficer.value.role)
    }

    /** `loginWithBarcode`: succeeds only for the single active employee with this
        barcode and PIN whose role is an officer role. A failure records its reason
        and leaves the current session as it was. */
    method LoginWithBarcode(employees: map<int, Employee>, barcode: string, pin: string)
      returns (ok: bool)
      requires Valid()
      modifies this
      ensures Valid() && !loading
      ensures ok <==> (FindByCredentials(employees, barcode, pin).Some? &&
                       IsOfficerRole(FindByCredentials(employees, barcode, pin).value.role))
      ensures ok ==> currentOfficer == FindByCredentials(employees, barcode, pin) &&
                     isAuthenticated && error == None
      ensures ok ==> currentOfficer.value.barcode == barcode && currentOfficer.value.pin == pin &&
                     currentOfficer.value.status == Active
      ensures !ok ==> currentOfficer == old(currentOfficer) && isAuthenticated == old(isAuthenticated)
      ensures FindByCredentials(employees, barcode, pin).None? ==> error == Some("Invalid barcode or PIN")
      ensures FindByCredentials(employees, barcode, pin).Some? && !ok ==>
                error == Some("Access denied. Invalid role.")
    {
      loading := true;
      error := None;
      var employee := FindByCredentials(employees, barcode, pin);
      if employee.None? {
        loading := false;
        error := Some("Invalid barcode or PIN");
        return false;
      }
      if !IsOfficerRole(employee.value.role) {
        loading := false;
        error := Some("Access denied. Invalid role.");
        return false;
      }
      currentOfficer := employee;
      isAuthenticated := true;
      loading := false;
      ok := true;
    }

    /** `logout`: forget the officer and any error. */
    method Logout()
      modifies this
      ensures currentOfficer == None && !isAuthenticated && error == None
      ensures loading == old(loading)
      ensures Valid()
    {
      currentOfficer := None;
      isAuthenticated := false;
      error := None;
    }

    /** `clearError`. */
    method ClearError()
      modifies this
      ensures error == None
      ensures currentOfficer == old(currentOfficer) && isAuthenticated == old(isAuthenticated)
      ensures loading == old(loading)
    {
      error := None;
    }
  }

  /** The login page's own fields. */
  class LoginPage {
    var scannedBarcode: string
    var scannedEmployee: Option<Employee>
    var pin: string
    var pinError: string

    constructor ()
      ensures scannedBarcode == "" && scannedEmployee == None && pin == "" && pinError == ""
    {
      scannedBarcode := "";
      scannedEmployee := None;
      pin := "";
      pinError := "";
    }

    /** `handleBarcodeScanned`: remember the barcode, clear the PIN and its error, then
        ask `verifyEmployee` whether it belongs to an officer. */
    method BarcodeScanned(employees: map<int, Employee>, barcode: string)
      modifies this
      ensures scannedBarcode == barcode && pin == ""
      ensures scannedEmployee == VerifyEmployee(employees, barcode)
      ensures pinError == (if scannedEmployee.None? then "Employee not found" else "")
    {
      scannedBarcode := barcode;
      pinError := "";
      pin := "";
      var employee := VerifyEmployee(employees, barcode);
      if employee.Some? {
        scannedEmployee := employee;
      } else {
        scannedEmployee := None;
        pinError := "Employee not found";
      }
    }

    /** `handlePinChange`: the field keeps the first four digits typed, and a new
        value clears the PIN error. */
    method PinChange(value: string)
      modifies this
      ensures pin == SanitizePin(value) && AllDigits(pin) && |pin| <= 4
      ensures pinError == ""
      ensures scannedBarcode == old(scannedBarcode) && scannedEmployee == old(scannedEmployee)
    {
      pin := SanitizePin(value);
      pinError := "";
    }

    /** `handlePinSubmit`: a PIN of any length but four is refused without a login
        attempt; a failed login reports an invalid PIN and clears the field.
        `navigated` is the move to the dashboard. */
    method PinSubmit(auth: AuthStore, employees: map<int, Employee>) returns (navigated: bool)
      requires auth.Valid()
      modifies this, auth
      ensures auth.Valid()
      ensures |old(pin)| != 4 ==>
                (!navigated && pinError == "PIN must be 4 digits" && pin == old(pin) && unchanged(auth))
      ensures |old(pin)| == 4 ==>
                (navigated <==>
                   (FindByCredentials(employees, old(scannedBarcode), old(pin)).Some? &&
                    IsOfficerRole(FindByCredentials(employees, old(scannedBarcode), old(pin)).value.role)))
      ensures |old(pin)| == 4 && navigated ==>
                auth.isAuthenticated && auth.currentOfficer == FindByCredentials(employees, old(scannedBarcode), old(pin)) &&
                pin == old(pin) && pinError == old(pinError)
      ensures |old(pin)| == 4 && !navigated ==> pinError == "Invalid PIN" && pin == ""
      ensures scannedBarcode == old(scannedBarcode) && scannedEmployee == old(scannedEmployee)
    {
      if |pin| != 4 {
        pinError := "PIN must be 4 digits";
        return false;
      }
      var success := auth.LoginWithBarcode(employees, scannedBarcode, pin);
      if success {
        navigated := true;
      } else {
        pinError := "Invalid PIN";
        pin := "";
        navigated := false;
      }
    }

    /** `handleReset`: back to the empty page. */
    method Reset()
      modifies this
      ensures scannedBarcode == "" && scannedEmployee == None && pin == "" && pinError == ""
    {
      scannedBarcode := "";
      scannedEmployee := None;
      pin := "";
      pinError := "";
    }
  }

  /** The badge step and the PIN step agree on who signs in exactly when the badge
      belongs to a single active employee: with a shared badge the PIN query can still
      single out one officer while the badge step reports nobody. */
  lemma LoginAgreesWithVerification(employees: map<int, Employee>, barcode: string, pin: string)
    requires FindByCredentials(employees, barcode, pin).Some?
    requires IsOfficerRole(FindByCredentials(employees, barcode, pin).value.role)
    ensures VerifyEmployee(employees, barcode) == FindByCredentials(employees, barcode, pin) <==>
            |ActiveWithBarcode(employees, barcode)| == 1
  {
    var creds := ActiveWithCredentials(employees, barcode, pin);
    var holders := ActiveWithBarcode(employees, barcode);
    var id := Only(creds).value;
    assert creds == {id};
    CredentialsRefineBarcode(employees, barcode, pin);
    if |holders| == 1 {
      SingletonIs(holders, id);
      assert Only(holders) == Some(id);
    }
  }
}
