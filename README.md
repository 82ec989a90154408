# Gate custody model

This project models the core of a gate-management web application in Dafny. Security officers at a company gate use it to:

- hand out and take back physical keys;
- dispatch and receive company vehicles;
- sign the chief executive's vehicles in and out;
- log staff parking and visitors.

Administrators also use it to maintain the employee, vehicle, key and trip registers. Every action is tied to an employee by scanning a badge barcode. Officers sign in with a barcode and a four-digit PIN.

The model covers:

- **Scanning**: how raw scans become lookup tokens.
- **Identity and sign-in**: how a token is resolved to "the one active employee with this barcode", and the two-step sign-in.
- **The custody ledger**: the rows each checkout, return and force-close writes. The invariants say a key is checked out exactly when one open transaction holds it, and a vehicle is in use exactly when one open trip uses it. A dispatched vehicle's last odometer reading is its trip's start reading, and a vehicle's reading never goes down.
- **The screens and their handlers**: each is a class whose fields are the screen's state and whose methods are its handlers. The database is a `Store` object with one map per table.
- **The read-only views**: the live status board, alerts, the three history reports and the dashboard's navigation.

Storage calls are given as parameters:

- Each write is either `Written` or `Rejected(reason)`. A rejected write leaves its table unchanged and stops the handler, as the source's early `return` on `error` does.
- Each query's answer is a sequence of rows in the order the query requested.
- Clocks are integer milliseconds passed as `now`. Timers are deadlines that a `Tick(now)` method fires.

Each file is one module:

| file | module | what it holds |
|---|---|---|
| `common.dfy` | `Common` | JavaScript string and number operations the handlers use: `trim`, `includes`, ASCII case conversion, `parseInt`, decimal formatting, and an order-keeping filter and page |
| `records.dfy` | `Records` | the table rows, their enumerations, banner messages and write results |
| `store.dfy` | `Tables` | the database: one map per table and the id counter |
| `normalizer.dfy` | `Normalizer` | cleaning scanned codes |
| `usb_scanner.dfy` | `UsbScanner` | the scanner widget |
| `camera_scanner.dfy` | `CameraScanner` | the camera reader |
| `identity.dfy` | `Identity` | employee lookups, the role whitelist and the PIN filter |
| `auth.dfy` | `Auth` | the session store and the sign-in page |
| `ledger.dfy` | `Ledger` | custody rows, the custody invariants and the paired writes |
| `key_custody.dfy` | `KeyCustody` | key checkout and key return |
| `vehicle_custody.dfy` | `VehicleCustody` | vehicle checkout and vehicle return |
| `manage_trips.dfy` | `TripAdmin` | the trip corrections screen |
| `visitors.dfy` | `VisitorDesk` | the visitor desk |
| `staff_vehicle.dfy` | `StaffParking` | staff parking |
| `ceo_vehicle.dfy` | `CeoPresence` | the chief executive's vehicles |
| `manage_employees.dfy` | `EmployeeAdmin` | the employee register |
| `manage_vehicles.dfy` | `VehicleAdmin` | the vehicle register |
| `manage_keys.dfy` | `KeyAdmin` | the key register |
| `live_status.dfy` | `LiveBoardView` | the live status board |
| `alerts.dfy` | `AlertsView` | the alerts panel |
| `trip_history.dfy` | `TripHistoryView` | the trip history report |
| `key_history.dfy` | `KeyHistoryView` | the key transaction history report |
| `visitor_logs.dfy` | `VisitorLogView` | the visitor log report |
| `dashboard.dfy` | `Dashboard` | the sidebar menu and the tab bar |

Where the written design and the code disagree, the model follows the code:

- **Paired writes are not atomic.** The design describes checkout and return as single custody changes. The code writes the transaction or trip row and the key or vehicle row as two separate calls, with no rollback. `Ledger.HalfCheckoutBreaksKeyCustody` and `Ledger.HalfDispatchBreaksVehicleCustody` show what a half-done pair leaves behind.
- **A return does not recheck that its transaction is still open.** See `Ledger.StaleReturnBreaksKeyCustody`.
- **Administrator edits are not checked against the ledger.** They write status and reading exactly as chosen. See the `...BreaksCustody` and `EditMayLowerOdometer` lemmas.
- **The key-alert cutoff is a parameter.** The code's comment says 24 hours and the panel's footer says 7 days. The code itself never defines the cutoff (see Findings).

## Model

| member | source | states |
|---|---|---|
| Common.Trim | src/components/BarcodeScanner.jsx:59 | the result is no longer than the input, neither starts nor ends with white space, and a string already without white space at its ends is unchanged |
| Common.ParseInt | src/components/ManageVehicles.jsx:100 | `parseInt` with no radix: leading white space, an optional sign, an optional hexadecimal prefix and the longest run of digits; no digit gives NaN, here none |
| Common.ParseIntOfIntToString | src/components/ManageVehicles.jsx:75-100 | reading back the decimal numeral of any integer gives that integer |
| Common.ParseIntOfBlank | src/components/ManageTrips.jsx:93 | a field holding only white space reads as no number |
| Common.IntToString | src/components/ManageVehicles.jsx:75 | the numeral is never empty and starts with `-` exactly for a negative number |
| Common.ToUpper | src/components/ManageVehicles.jsx:113 | each character is upper-cased in place; no lower-case ASCII letter remains |
| Common.ToUpperIdempotent | src/components/ManageKeys.jsx:137 | upper-casing twice is upper-casing once |
| Common.ToLower | src/components/TripHistory.jsx:94 | each character is lower-cased in place |
| Common.IncludesIgnoringCase | src/components/TripHistory.jsx:94-95 | `includes` on the lower-cased haystack and needle |
| Common.IncludesIffOccurs | src/components/TripHistory.jsx:94-95 | `includes` holds exactly when the needle occurs at some position |
| Normalizer.StripLeadingZeros | src/components/BarcodeScanner.jsx:62 | the result is a suffix of the input, everything removed is `'0'`, and the result does not start with `'0'` |
| Normalizer.DropLineBreaks | src/components/BarcodeScanner.jsx:59 | no carriage return or line feed remains, the result is no longer than the input, and a last character that is not a line break stays last |
| Normalizer.DropLineBreaksKeepsClean | src/components/BarcodeScanner.jsx:59 | a string without line breaks is left unchanged |
| Normalizer.DropLineBreaksMembers | src/components/BarcodeScanner.jsx:59 | a character survives exactly when it occurs in the input and is not a line break |
| Normalizer.DropLineBreaksIsFilter | src/components/BarcodeScanner.jsx:59 | dropping line breaks is the order-keeping filter of the characters that are not line breaks |
| Normalizer.DropLineBreaksKeepsOrder | src/components/BarcodeScanner.jsx:59 | the result is a subsequence of the input; every other character keeps all its occurrences and line breaks keep none |
| Normalizer.CleanUsb | src/components/BarcodeScanner.jsx:57-67 | the USB token does not start with `'0'` and is no longer than the raw burst |
| Normalizer.CleanUsbShape | src/components/BarcodeScanner.jsx:59-62 | the token has no line break and does not end in white space |
| Normalizer.CleanUsbTakesFromRaw | src/components/BarcodeScanner.jsx:59-62 | every character of the token occurs in the raw scan |
| Normalizer.CleanCamera | src/components/CameraBarcodeScanner.jsx:48-49 | the camera token does not start with `'0'` and is no longer than the decoded text |
| Normalizer.CleanUsbIdempotentIff | src/components/BarcodeScanner.jsx:59-62 | cleaning a token again changes nothing exactly when the token is empty or does not start with white space |
| Normalizer.CleanUsbIdempotentOnDigits | src/components/BarcodeScanner.jsx:59-62 | on an all-digit scan, cleaning is idempotent |
| Normalizer.StripPadding | src/components/BarcodeScanner.jsx:62 | stripping `k` padding zeros in front of a code that does not start with `'0'` gives back the code |
| Normalizer.AllZerosCleanToEmpty | src/components/BarcodeScanner.jsx:62-67 | a code of zeros only cleans to the empty token on both paths |
| Normalizer.TrimDropsLineBreak | src/components/BarcodeScanner.jsx:59 | the line feed or CR-LF a scanner appends is removed by trimming |
| Normalizer.PaddedCodeCleans | src/components/BarcodeScanner.jsx:59-62 | a code padded with zeros, with or without the scanner's line break, cleans back to the code |
| Normalizer.CardCodeExample | src/components/BarcodeScanner.jsx:59-62 | the padded card code `"00041486001051"` cleans to `"41486001051"` |
| Normalizer.CleanUsbIgnoresSurroundingWhitespace | src/components/BarcodeScanner.jsx:59 | white space around a scan does not change its token |
| Normalizer.LeadingWhitespaceCleans | src/components/BarcodeScanner.jsx:59-62 | a scan starting with white space cleans to the code behind it |
| Normalizer.ZeroBeforeWhitespaceCleans | src/components/BarcodeScanner.jsx:59-62 | a zero followed by white space loses only the zero |
| Normalizer.CleanUsbNotIdempotent | src/components/BarcodeScanner.jsx:59-62 | cleaning is not idempotent in general: `"0 5"` cleans to `" 5"`, which cleans to `"5"` |
| Normalizer.CameraAgreesWithUsb | src/components/CameraBarcodeScanner.jsx:48-49 | the camera and USB paths give the same token whenever the trimmed code has no inner line break |
| UsbScanner.BarcodeScanner.constructor | src/components/BarcodeScanner.jsx:10-14 | the widget starts with empty input and buffer, no pending timers and the indicator off |
| UsbScanner.BarcodeScanner.SetDisabled | src/components/BarcodeScanner.jsx:9 | only the disabled flag changes |
| UsbScanner.BarcodeScanner.KeyPress | src/components/BarcodeScanner.jsx:18-46 | a disabled widget, or a key aimed at another input or a text area, changes nothing; Enter on a non-empty buffer emits the buffer's cleaned token exactly once and empties the buffer; any other key name longer than one character is ignored; anything else, Enter on an empty buffer included, is appended and the idle clear falls due 100 ms later |
| UsbScanner.BarcodeScanner.UsbScan | src/components/BarcodeScanner.jsx:57-72 | emits the cleaned burst, turns the indicator on and schedules its reset 2 s later |
| UsbScanner.BarcodeScanner.Tick | src/components/BarcodeScanner.jsx:40-45 | a due idle clear empties the buffer; due indicator resets fire and only the later ones stay pending; the indicator stays on only if no reset was due |
| UsbScanner.BarcodeScanner.SetManualInput | src/components/BarcodeScanner.jsx:155 | only the manual text changes |
| UsbScanner.BarcodeScanner.ManualSubmit | src/components/BarcodeScanner.jsx:74-85 | empty or disabled: nothing emitted; otherwise the typed text is emitted uncleaned and the field is emptied |
| UsbScanner.BarcodeScanner.CameraScan | src/components/BarcodeScanner.jsx:87-94 | the camera's code is emitted as given and the indicator turns on |
| UsbScanner.AppendAsWritten | src/components/BarcodeScanner.jsx:36-55 | as written, a keystroke is appended but no idle clear survives the re-render |
| UsbScanner.TickBuffer | src/components/BarcodeScanner.jsx:40-45 | a due clear empties the buffer; otherwise nothing changes |
| UsbScanner.IdleClearNeverFiresAsWritten | src/components/BarcodeScanner.jsx:36-55 | as written, a hand-typed key is still in the buffer however long the silence |
| UsbScanner.IdleClearFires | src/components/BarcodeScanner.jsx:40-45 | with the clear kept pending, 100 ms of silence empties the buffer |
| CameraScanner.FirstBackCamera | src/components/CameraBarcodeScanner.jsx:36-39 | finds the first camera labelled back or rear at or after the start, or reports that none exists |
| CameraScanner.SelectDevice | src/components/CameraBarcodeScanner.jsx:36-40 | the opened camera is a back camera whenever one exists, else the first camera |
| CameraScanner.CameraReader.constructor | src/components/CameraBarcodeScanner.jsx:8-11 | not scanning, no decoder, no remembered code and no error |
| CameraScanner.CameraReader.Mount | src/components/CameraBarcodeScanner.jsx:13-20 | the decoder exists and nothing else changes |
| CameraScanner.CameraReader.Start | src/components/CameraBarcodeScanner.jsx:22-72 | without a decoder, or when disabled, nothing happens; no camera gives the "no camera" error; an open failure is reported; otherwise scanning starts on the selected camera |
| CameraScanner.CameraReader.Stop | src/components/CameraBarcodeScanner.jsx:74-89 | scanning is off and no camera is held |
| CameraScanner.CameraReader.Decode | src/components/CameraBarcodeScanner.jsx:45-65 | while scanning, a raw text other than the remembered code is emitted cleaned, once; it is remembered for 3 s and scanning stops; otherwise nothing changes |
| CameraScanner.CameraReader.Tick | src/components/CameraBarcodeScanner.jsx:61-63 | a due 3 s reset forgets the remembered code |
| CameraScanner.PaddedRescanNotSuppressed | src/components/CameraBarcodeScanner.jsx:46-52 | a padded code is remembered without its zeros, so the repeat check compares the raw text with a different string |
| Identity.IsOfficerRole | src/store/authStore.js:28 | the roles allowed to sign in: control-room and gate officers, administrators and supervisors |
| Identity.FindActiveEmployee | src/store/authStore.js:16-21 | a row is found exactly when one active employee has the barcode, and it is that employee's row |
| Identity.FindActiveEmployeeUnique | src/store/authStore.js:16-21 | the only active holder of a barcode is found |
| Identity.DuplicateBarcodeFindsNobody | src/store/authStore.js:16-24 | two active employees sharing a barcode make every lookup of it fail |
| Identity.VerifyEmployee | src/store/authStore.js:14-36 | a verified employee is active, holds the barcode and has an officer role |
| Identity.VerifyEmployeeIff | src/store/authStore.js:14-35 | verification accepts an employee exactly when they are the sole active holder of the barcode and have an officer role |
| Identity.FindByCredentials | src/store/authStore.js:44-50 | a row is found exactly when one active employee has both the barcode and the PIN |
| Identity.CredentialsRefineBarcode | src/store/authStore.js:44-50 | every barcode-and-PIN match is a barcode match |
| Identity.SanitizePin | src/pages/Login.jsx:58 | the field keeps the first four digits typed, or all of them when fewer than four were typed, and nothing else |
| Identity.SanitizePinIdempotent | src/pages/Login.jsx:58 | filtering an already-filtered PIN changes nothing |
| Identity.SanitizedPinLengthSuffices | src/pages/Login.jsx:38-41 | on a filtered PIN, the length-four check and the four-digit rule agree |
| Identity.IsFourDigitPin | src/components/ManageEmployees.jsx:104 | exactly four characters, all of them digits |
| Auth.AuthStore.constructor | src/store/authStore.js:8-11 | signed out, with no error |
| Auth.AuthStore.LoginWithBarcode | src/store/authStore.js:39-73 | succeeds exactly when one active employee has the barcode and the PIN and that employee has an officer role; success signs that employee in with no error; failure keeps the session and records "Invalid barcode or PIN" or "Access denied. Invalid role." |
| Auth.AuthStore.Logout | src/store/authStore.js:76-82 | signed out with no error |
| Auth.AuthStore.ClearError | src/store/authStore.js:85 | the error is cleared and the session is unchanged |
| Auth.LoginPage.constructor | src/pages/Login.jsx:14-17 | an empty page |
| Auth.LoginPage.BarcodeScanned | src/pages/Login.jsx:19-33 | remembers the barcode, clears the PIN and shows the verified employee, or "Employee not found" |
| Auth.LoginPage.PinChange | src/pages/Login.jsx:57-61 | the PIN is the filtered input and the PIN error is cleared |
| Auth.LoginPage.PinSubmit | src/pages/Login.jsx:35-55 | a PIN whose length is not four is refused without a sign-in; otherwise the sign-in runs and the page navigates exactly when it succeeds; a failure shows "Invalid PIN" and clears the PIN |
| Auth.LoginPage.Reset | src/pages/Login.jsx:63-68 | back to the empty page: no barcode, no employee, no PIN, no PIN error |
| Auth.LoginAgreesWithVerification | src/pages/Login.jsx:25-44 | the badge step and the PIN step pick the same employee exactly when that employee is the barcode's only active holder |
| Ledger.KeyCustodyConsistent | src/components/KeyCheckout.jsx:118-140 | every open transaction names a key; a key is checked out exactly when an open transaction holds it; no key is held by two open transactions |
| Ledger.VehicleCustodyConsistent | src/components/VehicleOut.jsx:107-129 | every open trip names a vehicle whose last reading is the trip's start; a vehicle is in use exactly when an open trip uses it; no vehicle is used by two open trips |
| Ledger.OdometersNotLowered | src/components/VehicleOut.jsx:97-101 | no vehicle disappears and no vehicle's last reading goes down |
| Ledger.CheckOutKeyRow | src/components/KeyCheckout.jsx:131-140 | only key `k` changes: checked out, last taken by the person at `now`, identity kept |
| Ledger.ReleaseKeyRow | src/components/KeyReturn.jsx:81-90 | only key `k` changes: available, no last checkout, identity kept |
| Ledger.CloseTxRow | src/components/KeyReturn.jsx:67-78 | only transaction `t` changes: returned by the returner at `now`, with the reason; who took it and which key are kept |
| Ledger.CheckoutKeepsKeyCustody | src/components/KeyCheckout.jsx:118-140 | checking out an available key with both writes stored keeps key custody consistent |
| Ledger.ReturnKeepsKeyCustody | src/components/KeyReturn.jsx:67-90 | returning the key of an open transaction with both writes stored keeps key custody consistent |
| Ledger.StaleReturnBreaksKeyCustody | src/components/KeyReturn.jsx:67-76 | replaying a return on a closed transaction whose key was checked out again breaks key custody |
| Ledger.HalfCheckoutBreaksKeyCustody | src/components/KeyCheckout.jsx:118-140 | an open transaction stored without its key update breaks key custody |
| Ledger.DispatchVehicleRow | src/components/VehicleOut.jsx:121-129 | only vehicle `v` changes: in use, last reading the start |
| Ledger.ReleaseVehicleRow | src/components/VehicleIn.jsx:118-126 | only vehicle `v` changes: available, last reading the end |
| Ledger.FreeVehicleRow | src/components/ManageTrips.jsx:157-160 | only vehicle `v` changes: available, reading untouched |
| Ledger.CloseTripRow | src/components/VehicleIn.jsx:103-115 | only trip `t` changes: returned, with driver, officer, end reading, time and reason |
| Ledger.ForceCloseTripRow | src/components/ManageTrips.jsx:147-155 | only trip `t` changes: returned now, ending at its start reading |
| Ledger.DispatchKeepsVehicleCustody | src/components/VehicleOut.jsx:107-129 | dispatching an available vehicle at no lower a reading, with both writes stored, keeps vehicle custody consistent and no reading goes down |
| Ledger.ReturnKeepsVehicleCustody | src/components/VehicleIn.jsx:103-126 | returning an open trip's vehicle at a reading no lower than its start keeps vehicle custody consistent and no reading goes down |
| Ledger.ForceCloseKeepsVehicleCustody | src/components/ManageTrips.jsx:147-160 | force-closing an open trip keeps vehicle custody consistent and no reading goes down |
| Ledger.OdometersNotLoweredTransitive | src/components/VehicleIn.jsx:118-126 | "no reading goes down" holds across a chain of steps |
| Ledger.HalfDispatchBreaksVehicleCustody | src/components/VehicleOut.jsx:107-129 | an open trip stored without its vehicle update breaks vehicle custody |
| Ledger.WriteCheckout | src/components/KeyCheckout.jsx:118-140 | the transaction goes under a fresh id; the key changes only when both writes are stored, and then custody stays consistent; other tables are untouched |
| Ledger.WriteKeyReturn | src/components/KeyReturn.jsx:67-90 | the transaction closes when its write is stored; the key is released only when both are stored, and then custody stays consistent |
| Ledger.WriteDispatch | src/components/VehicleOut.jsx:107-129 | the trip goes under a fresh id; the vehicle changes only when both writes are stored, and then custody stays consistent with no reading lowered |
| Ledger.WriteVehicleReturn | src/components/VehicleIn.jsx:103-126 | the trip closes when its write is stored; the vehicle is released only when both are stored, and then custody stays consistent |
| KeyCustody.AvailableKeys | src/components/KeyCheckout.jsx:41-46 | exactly the keys whose status is available |
| KeyCustody.OpenTransactions | src/components/KeyCheckout.jsx:58-67 | exactly the transactions whose status is out |
| KeyCustody.ReturnTabMatchesCheckedOutKeys | src/components/KeyCheckout.jsx:41-67 | under consistent custody, the return tab's keys are exactly the checked-out keys and the checkout tab offers all the others |
| KeyCustody.KeyCheckout.constructor | src/components/KeyCheckout.jsx:24-34 | an empty checkout form |
| KeyCustody.KeyCheckout.SelectKey | src/components/KeyCheckout.jsx:192 | only the selected key changes |
| KeyCustody.KeyCheckout.PersonScan | src/components/KeyCheckout.jsx:89-105 | the barcode's sole active holder becomes the person; otherwise the "not found" banner |
| KeyCustody.KeyCheckout.PurposeChange | src/components/KeyCheckout.jsx:231 | only the purpose changes |
| KeyCustody.KeyCheckout.Ready | src/components/KeyCheckout.jsx:109 | a key is selected, a person is verified and a purpose is given |
| KeyCustody.KeyCheckout.Checkout | src/components/KeyCheckout.jsx:108-157 | an incomplete form writes nothing; otherwise the paired checkout writes run, each refusal shows its reason, and full success resets the form and keeps custody consistent |
| KeyCustody.KeyReturn.constructor | src/components/KeyReturn.jsx:17-23 | a return dialog for the transaction with no returner and no reason |
| KeyCustody.KeyReturn.ReturnerScan | src/components/KeyReturn.jsx:33-49 | the barcode's sole active holder becomes the returner; otherwise the "not found" banner |
| KeyCustody.KeyReturn.IsDifferentPerson | src/components/KeyReturn.jsx:25 | someone has been scanned and is not the person who took the key |
| KeyCustody.KeyReturn.OtherFieldShown | src/components/KeyReturn.jsx:159-179 | the free-text reason field shows when a different person returns and "other" is chosen |
| KeyCustody.KeyReturn.ChooseReason | src/components/KeyReturn.jsx:162-179 | the chosen reason is kept, and the free-text field shows exactly for "other" |
| KeyCustody.KeyReturn.TypeOtherReason | src/components/KeyReturn.jsx:175-179 | the typed text replaces the reason |
| KeyCustody.KeyReturn.Return | src/components/KeyReturn.jsx:52-110 | without a returner, or a different person without a reason, nothing is written; otherwise the paired return writes run, the dialog closes exactly when both are stored, and then custody stays consistent |
| VehicleCustody.AvailableVehicles | src/components/VehicleOut.jsx:28-33 | exactly the vehicles whose status is available |
| VehicleCustody.OpenTrips | src/components/VehicleIn.jsx:35-44 | exactly the trips whose status is out |
| VehicleCustody.ReturnListMatchesVehiclesInUse | src/components/VehicleIn.jsx:35-44 | under consistent custody, the vehicles of the listed trips are exactly the vehicles in use |
| VehicleCustody.VehicleOut.constructor | src/components/VehicleOut.jsx:14-22 | an empty checkout form |
| VehicleCustody.VehicleOut.SelectVehicle | src/components/VehicleOut.jsx:177 | only the selected vehicle changes |
| VehicleCustody.VehicleOut.DriverScan | src/components/VehicleOut.jsx:67-88 | the barcode's sole active holder becomes the driver, and the vehicle's last reading fills the odometer field; otherwise the "not found" banner |
| VehicleCustody.VehicleOut.OdometerChange | src/components/VehicleOut.jsx:223 | only the starting reading changes |
| VehicleCustody.VehicleOut.DestinationChange | src/components/VehicleOut.jsx:240 | only the destination changes |
| VehicleCustody.VehicleOut.Ready | src/components/VehicleOut.jsx:92 | a vehicle, a verified driver, a starting reading and a destination are all given |
| VehicleCustody.VehicleOut.VehicleOutSubmit | src/components/VehicleOut.jsx:91-145 | an incomplete form, or a reading that does not parse or is lower than the vehicle's last, writes nothing; otherwise the paired dispatch writes run, and full success keeps custody consistent with no reading lowered |
| VehicleCustody.VehicleIn.constructor | src/components/VehicleIn.jsx:21-29 | an empty return form |
| VehicleCustody.VehicleIn.SelectTrip | src/components/VehicleIn.jsx:177 | only the selected trip changes |
| VehicleCustody.VehicleIn.IsDifferentDriver | src/components/VehicleIn.jsx:79 | a trip is selected and someone other than its driver has been scanned |
| VehicleCustody.VehicleIn.ReturnerScan | src/components/VehicleIn.jsx:61-77 | the barcode's sole active holder becomes the returner; otherwise the "not found" banner |
| VehicleCustody.VehicleIn.ChooseReason | src/components/VehicleIn.jsx:235-245 | the chosen reason, which is never empty, is kept |
| VehicleCustody.VehicleIn.OdometerChange | src/components/VehicleIn.jsx:258 | only the ending reading changes |
| VehicleCustody.VehicleIn.Ready | src/components/VehicleIn.jsx:83 | a trip, a returner and an ending reading are given |
| VehicleCustody.VehicleIn.Complete | src/components/VehicleIn.jsx:83-91 | the form is filled in and a different driver has given a reason |
| VehicleCustody.VehicleIn.VehicleInSubmit | src/components/VehicleIn.jsx:82-150 | an incomplete form, a different driver without a reason, or a reading that does not parse or is below the trip's start writes nothing; otherwise the paired return writes run, and the distance shown is end minus start exactly when both are stored; custody then stays consistent |
| TripAdmin.TimeInOrNow | src/components/ManageTrips.jsx:108 | the trip's own time in when it has one, else now |
| TripAdmin.SaveTripRow | src/components/ManageTrips.jsx:99-119 | only trip `t` changes: status, notes and update time always; a returned trip gets the end reading and time in; an out trip keeps both |
| TripAdmin.AdminReleaseRow | src/components/ManageTrips.jsx:110-118 | only vehicle `v` changes, and it becomes available; at the typed reading when one was read, otherwise with its reading as before |
| TripAdmin.EndRefused | src/components/ManageTrips.jsx:93-97 | a reading is refused only when it is a number other than zero below the start; no number, or zero, passes |
| TripAdmin.TripEditor.constructor | src/components/ManageTrips.jsx:35-44 | the dialog is closed and the form is empty |
| TripAdmin.TripEditor.OpenDialog | src/components/ManageTrips.jsx:73-80 | the form starts from the trip, with an end reading that reads back as the stored one |
| TripAdmin.TripEditor.OdometerChange | src/components/ManageTrips.jsx:291 | only the end reading field changes |
| TripAdmin.TripEditor.StatusChange | src/components/ManageTrips.jsx:272 | only the status changes |
| TripAdmin.TripEditor.NotesChange | src/components/ManageTrips.jsx:302 | only the notes change |
| TripAdmin.TripEditor.CloseDialog | src/components/ManageTrips.jsx:82-85 | the dialog closes and forgets the trip; the fields are kept |
| TripAdmin.TripEditor.Tick | src/components/ManageTrips.jsx:131-133 | the pending close fires once due and closes the dialog as `closeDialog` does, whatever was opened since; closes not yet due stay pending; the form fields and the banner stay |
| TripAdmin.TripEditor.Save | src/components/ManageTrips.jsx:87-139 | returned without an end reading is refused; a reading that is non-zero and below the start is refused; otherwise a returned trip frees its vehicle, at the reading when one was read, and the trip row is rewritten, each refusal stopping the save with its reason; a stored trip row schedules the dialog's close 1.5 s later |
| TripAdmin.TripEditor.ForceClose | src/components/ManageTrips.jsx:141-167 | unconfirmed: nothing changes; confirmed: the trip closes at its start and its vehicle is freed, with no reading lowered and custody kept when both writes are stored |
| TripAdmin.AdminCloseKeepsVehicleCustody | src/components/ManageTrips.jsx:107-126 | correcting an open trip to returned, at a reading no lower than its start, keeps vehicle custody consistent |
| TripAdmin.ReopenBreaksVehicleCustody | src/components/ManageTrips.jsx:101-105 | saving a trip as out while its vehicle is not in use breaks vehicle custody |
| TripAdmin.ZeroEndLowersOdometer | src/components/ManageTrips.jsx:93-97 | a reading of 0 passes the guard, and returning the vehicle at it lowers the reading |
| TripAdmin.NonZeroEndGuard | src/components/ManageTrips.jsx:93-97 | a non-zero reading passes exactly when it is not below the start |
| VisitorDesk.ArrivalRow | src/components/VisitorManagement.jsx:80-89 | the inserted visitor is on the premises, arrived now, checked in by the officer, with no departure yet, and carries the form's fields |
| VisitorDesk.NullIfEmpty | src/components/VisitorManagement.jsx:82-85 | an empty field is stored as null, and any other field as itself |
| VisitorDesk.OnPremisesIds | src/components/VisitorManagement.jsx:36-62 | exactly the visitors on the premises |
| VisitorDesk.DepartVisitorRow | src/components/VisitorManagement.jsx:113-133 | only visitor `v` changes: departed now, by the officer |
| VisitorDesk.ArrivalAddsOnPremises | src/components/VisitorManagement.jsx:78-89 | an arrival adds exactly the new record to those on the premises |
| VisitorDesk.DepartureRemovesOnPremises | src/components/VisitorManagement.jsx:113-133 | a check-out removes exactly that record from those on the premises |
| VisitorDesk.RepeatedArrivalAllowed | src/components/VisitorManagement.jsx:78-89 | a visitor already on the premises can be registered again, giving two records on the premises |
| VisitorDesk.InsertArrival | src/components/VisitorManagement.jsx:78-89 | the arrival row goes under a fresh id when stored; other tables are untouched |
| VisitorDesk.VisitorForm.constructor | src/components/VisitorManagement.jsx:21-33 | an empty walk-in form |
| VisitorDesk.VisitorForm.Register | src/components/VisitorManagement.jsx:69-110 | without a name and a purpose nothing is written; otherwise the arrival is inserted and the form is reset, or the refusal is shown |
| VisitorDesk.VisitorForm.CheckOut | src/components/VisitorManagement.jsx:113-133 | only that visitor is marked departed, or the refusal is shown |
| StaffParking.Sessions | src/components/StaffVehicle.jsx:32-33 | exactly the staff-vehicle visitor records, in order |
| StaffParking.OnSite | src/components/StaffVehicle.jsx:38 | exactly the sessions still on the premises |
| StaffParking.OffSite | src/components/StaffVehicle.jsx:39 | exactly the sessions that have left |
| StaffParking.OnOffSitePartition | src/components/StaffVehicle.jsx:38-39 | the two lists share no session and together hold every session |
| StaffParking.StaffArrivalRow | src/components/StaffVehicle.jsx:81-92 | a staff session on the premises, hosted by the staff member, with the registration upper-cased |
| StaffParking.StaffDesk.constructor | src/components/StaffVehicle.jsx:15-21 | an empty form |
| StaffParking.StaffDesk.StaffScan | src/components/StaffVehicle.jsx:53-69 | only the barcode's sole active holder with the staff role is accepted |
| StaffParking.StaffDesk.Arrival | src/components/StaffVehicle.jsx:72-115 | without a verified member and a registration nothing is written; otherwise one session is inserted, or the refusal is shown |
| StaffParking.StaffDesk.Departure | src/components/StaffVehicle.jsx:118-141 | only that session is marked departed, or the refusal is shown |
| CeoPresence.CeoVehicles | src/components/CeoVehicle.jsx:26 | exactly the vehicles of the CEO type, in order |
| CeoPresence.AwayList | src/components/CeoVehicle.jsx:141 | exactly the vehicles off the premises |
| CeoPresence.PresentList | src/components/CeoVehicle.jsx:142 | exactly the vehicles on the premises |
| CeoPresence.SignInOutListsPartition | src/components/CeoVehicle.jsx:141-142 | each vehicle is offered for exactly one of sign-in and sign-out |
| CeoPresence.RelocateVehicleRow | src/components/CeoVehicle.jsx:70-75 | only vehicle `v`'s location changes |
| CeoPresence.RelocationKeepsVehicleCustody | src/components/CeoVehicle.jsx:70-75 | a sign-in or sign-out keeps vehicle custody consistent and lowers no reading |
| CeoPresence.CeoDesk.constructor | src/components/CeoVehicle.jsx:13-18 | an empty form |
| CeoPresence.CeoDesk.SelectVehicle | src/components/CeoVehicle.jsx:187 | only the selected vehicle changes |
| CeoPresence.CeoDesk.CeoScan | src/components/CeoVehicle.jsx:41-57 | only the barcode's sole active holder with the CEO role is accepted |
| CeoPresence.CeoDesk.Move | src/components/CeoVehicle.jsx:60-98 | without a vehicle and a verified CEO nothing is written; otherwise only the vehicle's location changes, keeping custody |
| EmployeeAdmin.EditEmployeeRow | src/components/ManageEmployees.jsx:113-127 | only employee `e` changes, to the form's fields and the update time |
| EmployeeAdmin.DeactivateRow | src/components/ManageEmployees.jsx:156-171 | only employee `e`'s status changes, to inactive |
| EmployeeAdmin.DeactivationRemovesFromLookups | src/components/ManageEmployees.jsx:156-171 | a deactivated employee drops out of every barcode lookup, and nobody else does |
| EmployeeAdmin.DeactivatedEmployeeNotFound | src/components/ManageEmployees.jsx:156-171 | after deactivating the only active holder, the barcode finds nobody |
| EmployeeAdmin.EmployeeEditor.constructor | src/components/ManageEmployees.jsx:35-47 | the dialog is closed, with the defaults: PIN "1234", staff, active |
| EmployeeAdmin.EmployeeEditor.OpenDialog | src/components/ManageEmployees.jsx:70-90 | the form starts from the record, or from the defaults |
| EmployeeAdmin.EmployeeEditor.CloseDialog | src/components/ManageEmployees.jsx:92-95 | the dialog closes and forgets the record; the fields are kept |
| EmployeeAdmin.EmployeeEditor.Tick | src/components/ManageEmployees.jsx:146-148 | the pending close fires once due and closes the dialog as `closeDialog` does, whatever was opened since; closes not yet due stay pending; the form fields and the banner stay |
| EmployeeAdmin.EmployeeEditor.PinChange | src/components/ManageEmployees.jsx:290-293 | the PIN is the filtered input |
| EmployeeAdmin.EmployeeEditor.Acceptable | src/components/ManageEmployees.jsx:98-107 | barcode, name and PIN are filled in and the PIN is four digits |
| EmployeeAdmin.EmployeeEditor.Save | src/components/ManageEmployees.jsx:97-154 | empty fields, then a PIN that is not four digits, are refused; otherwise the record is updated or inserted under a fresh id, and every changed row has a four-digit PIN; a stored record schedules the dialog's close 1.5 s later |
| EmployeeAdmin.EmployeeEditor.Deactivate | src/components/ManageEmployees.jsx:156-171 | unconfirmed: nothing changes; confirmed: only that employee becomes inactive, or the refusal is shown |
| VehicleAdmin.InitialLocation | src/components/ManageVehicles.jsx:134 | off the premises exactly for the CEO's vehicles |
| VehicleAdmin.NewVehicleRow | src/components/ManageVehicles.jsx:126-138 | a vehicle with the form's fields, the registration upper-cased, starting at its initial location |
| VehicleAdmin.EditVehicleRow | src/components/ManageVehicles.jsx:110-123 | only vehicle `v` changes, to the form's fields, and its location is kept |
| VehicleAdmin.NewVehicleKeepsCustody | src/components/ManageVehicles.jsx:126-138 | registering a vehicle that is not in use keeps vehicle custody |
| VehicleAdmin.NewInUseVehicleBreaksCustody | src/components/ManageVehicles.jsx:126-138 | registering a vehicle as in use breaks vehicle custody |
| VehicleAdmin.EditMayLowerOdometer | src/components/ManageVehicles.jsx:100-104 | an edit accepts any non-negative reading, so it can lower one |
| VehicleAdmin.EditOfVehicleOutBreaksCustody | src/components/ManageVehicles.jsx:110-123 | taking a vehicle with an open trip out of use breaks vehicle custody |
| VehicleAdmin.VehicleEditor.constructor | src/components/ManageVehicles.jsx:35-46 | the dialog is closed, with the defaults: company vehicle, reading "0", available |
| VehicleAdmin.VehicleEditor.OpenDialog | src/components/ManageVehicles.jsx:69-87 | the form starts from the record, with a reading that reads back as the stored one, or from the defaults |
| VehicleAdmin.VehicleEditor.CloseDialog | src/components/ManageVehicles.jsx:89-92 | the dialog closes and forgets the record; the fields are kept |
| VehicleAdmin.VehicleEditor.Tick | src/components/ManageVehicles.jsx:142-144 | the pending close fires once due and closes the dialog as `closeDialog` does, whatever was opened since; closes not yet due stay pending; the form fields and the banner stay |
| VehicleAdmin.VehicleEditor.Save | src/components/ManageVehicles.jsx:94-150 | an empty registration, then a reading that does not parse or is negative, is refused; otherwise the record is updated or inserted, and every changed row has a reading that is not negative; a stored record schedules the dialog's close 1.5 s later |
| KeyAdmin.NewKeyRow | src/components/ManageKeys.jsx:154-161 | a key with the form's fields, the number upper-cased and no checkout recorded |
| KeyAdmin.EditKeyRow | src/components/ManageKeys.jsx:145-153 | only key `k` changes, to the form's fields; its last checkout is kept |
| KeyAdmin.StatusPreservingEditKeepsCustody | src/components/ManageKeys.jsx:145-153 | an edit that keeps the status keeps key custody |
| KeyAdmin.ReleaseOfKeyOutBreaksCustody | src/components/ManageKeys.jsx:136-143 | making a key with an open transaction available breaks key custody |
| KeyAdmin.CheckoutWithoutTxBreaksCustody | src/components/ManageKeys.jsx:145-153 | marking a key checked out with no open transaction breaks key custody |
| KeyAdmin.NewAvailableKeyKeepsCustody | src/components/ManageKeys.jsx:154-161 | registering an available key keeps key custody |
| KeyAdmin.KeyEditor.constructor | src/components/ManageKeys.jsx:35-47 | the dialog is closed, with the defaults: warehouse key, available |
| KeyAdmin.KeyEditor.OpenDialog | src/components/ManageKeys.jsx:103-121 | the form starts from the record, or from the defaults |
| KeyAdmin.KeyEditor.CloseDialog | src/components/ManageKeys.jsx:123-126 | the dialog closes and forgets the record; the fields are kept |
| KeyAdmin.KeyEditor.Tick | src/components/ManageKeys.jsx:165-167 | the pending close fires once due and closes the dialog as `closeDialog` does, whatever was opened since; closes not yet due stay pending; the form fields and the banner stay |
| KeyAdmin.KeyEditor.Save | src/components/ManageKeys.jsx:128-173 | an empty key number is refused; otherwise the record is updated or inserted under a fresh id, or the refusal is shown; a stored record schedules the dialog's close 1.5 s later |
| LiveBoardView.ComputeStats | src/components/LiveStatus.jsx:94-105 | the five figures count the listed rows; out plus available vehicles is at most all vehicles; checked-out plus available keys is all keys |
| LiveBoardView.OpenTripRows | src/components/LiveStatus.jsx:46-56 | exactly the trips that are out, in order |
| LiveBoardView.OpenTxRows | src/components/LiveStatus.jsx:69-79 | exactly the transactions that are out, in order |
| LiveBoardView.OnSiteRows | src/components/LiveStatus.jsx:82-91 | exactly the visitors on the premises, in order |
| LiveBoardView.OpenRowsNewestFirst | src/components/LiveStatus.jsx:46-77 | rows fetched newest first stay newest first |
| LiveBoardView.CountMatchesTable | src/components/LiveStatus.jsx:94-105 | counting the rows that list a table counts the table's matching records |
| LiveBoardView.OnSiteFigureMatchesDesk | src/components/LiveStatus.jsx:82-98 | the board's visitor figure is the number of visitors the desk has on the premises |
| LiveBoardView.LiveBoard.constructor | src/components/LiveStatus.jsx:18-24 | no rows and zero figures |
| LiveBoardView.LiveBoard.Refresh | src/components/LiveStatus.jsx:33-113 | the board shows every vehicle and key, the open trips and transactions and the visitors on site, with figures counted from them |
| AlertsView.OverdueTrips | src/components/Alerts.jsx:17-30 | exactly the trips that are out and left more than three days ago, in order |
| AlertsView.LongKeyCheckouts | src/components/Alerts.jsx:33-42 | exactly the transactions that are out and started before the cutoff, in order |
| AlertsView.AlertsOldestFirst | src/components/Alerts.jsx:28-42 | rows fetched oldest first give alerts oldest first |
| AlertsView.WholeDaysOfWholeHours | src/components/Alerts.jsx:64-65 | whole days of whole hours are whole days of the milliseconds |
| AlertsView.TimeOutLabel | src/components/Alerts.jsx:61-71 | a day or more is shown in whole days, otherwise in whole hours, with the plural above one |
| AlertsView.OverdueTripLabelledInDays | src/components/Alerts.jsx:61-71 | every overdue trip is labelled in days, three or more |
| AlertsView.SingularLabels | src/components/Alerts.jsx:67-70 | exactly one day reads "1 day", and under an hour reads "0 hour" |
| AlertsView.AlertsPanel.constructor | src/components/Alerts.jsx:9-11 | no alerts, loading |
| AlertsView.AlertsPanel.TotalAlerts | src/components/Alerts.jsx:77-79 | the total is zero exactly when both lists are empty |
| AlertsView.AlertsPanel.Refresh | src/components/Alerts.jsx:13-51 | with a defined cutoff, the panel lists the overdue trips and long checkouts among the fetched rows |
| AlertsView.AlertsPanel.RefreshAsWritten | src/components/Alerts.jsx:32-45 | as written, the lists keep what they held, which from the start is nothing |
| AlertsView.OverdueTripMakesAlert | src/components/Alerts.jsx:17-45 | one overdue trip is enough for the corrected panel to show an alert |
| TripHistoryView.AnswerTrips | src/components/TripHistory.jsx:64-84 | at most one page of rows, each matching every filter, in the fetched newest-first order |
| TripHistoryView.NoFiltersReturnsFirstPage | src/components/TripHistory.jsx:64-74 | without filters the query returns the first page |
| TripHistoryView.DriverSearch | src/components/TripHistory.jsx:91-97 | exactly the rows whose outgoing or returning driver's name contains the search, ignoring case; everything when the search is empty |
| TripHistoryView.Distance | src/components/TripHistory.jsx:276-279 | a distance is shown exactly when an end reading is set and not zero, and then start plus distance is the end |
| TripHistoryView.GateReturnShowsDistance | src/components/TripHistory.jsx:276-279 | a gate return at a non-zero reading shows the non-negative distance driven |
| TripHistoryView.ZeroReadingShowsNoDistance | src/components/TripHistory.jsx:276-279 | a trip returned at 0 shows no distance |
| TripHistoryView.TripReport.constructor | src/components/TripHistory.jsx:26-35 | every filter "all", no search and no rows |
| TripHistoryView.TripReport.BuildQuery | src/components/TripHistory.jsx:67-84 | one filter for each selection that is not "all" |
| TripHistoryView.TripReport.Fetch | src/components/TripHistory.jsx:51-105 | shows the query's answer searched by driver name; a failed query keeps the rows; the filters are unchanged |
| KeyHistoryView.AnswerTxs | src/components/KeyTransactionHistory.jsx:65-85 | at most one page of rows, each matching every filter, in the fetched newest-first order |
| KeyHistoryView.TypeFilter | src/components/KeyTransactionHistory.jsx:94-96 | exactly the rows of the chosen key type, in order; everything for "all" |
| KeyHistoryView.PersonSearch | src/components/KeyTransactionHistory.jsx:98-103 | exactly the rows whose taker's or returner's name contains the search, ignoring case; everything when the search is empty |
| KeyHistoryView.Report | src/components/KeyTransactionHistory.jsx:92-105 | at most a page, newest first; a row is shown exactly when it is on the query's page, of the chosen type and matches the search |
| KeyHistoryView.TypeFilterAfterPage | src/components/KeyTransactionHistory.jsx:65-96 | the type filter sees only the first page of query matches |
| KeyHistoryView.KeyHistoryReport.constructor | src/components/KeyTransactionHistory.jsx:26-36 | every filter "all", no search and no rows |
| KeyHistoryView.KeyHistoryReport.BuildQuery | src/components/KeyTransactionHistory.jsx:69-85 | one filter for each selection that is not "all"; the type is not part of the query |
| KeyHistoryView.KeyHistoryReport.Fetch | src/components/KeyTransactionHistory.jsx:52-111 | shows the report's rows for the query, type and search; a failed query keeps the rows |
| VisitorLogView.AnswerVisitors | src/components/VisitorLogs.jsx:48-68 | at most one page of rows, each matching every filter, in the fetched newest-first order |
| VisitorLogView.NameSearch | src/components/VisitorLogs.jsx:75-81 | exactly the visitors whose name or organisation contains the search, ignoring case; everything when the search is empty |
| VisitorLogView.JsRem | src/components/VisitorLogs.jsx:103 | JavaScript's `%`: the remainder differs from the dividend by a multiple of the divisor, is smaller than it in size and takes the dividend's sign |
| VisitorLogView.DurationParts | src/components/VisitorLogs.jsx:101-103 | whole hours and leftover minutes; for a non-negative span, the minutes are under 60 and make up the whole minutes |
| VisitorLogView.DurationLabel | src/components/VisitorLogs.jsx:96-109 | "-" exactly while the visitor has not left; otherwise hours and minutes from an hour up, minutes only below |
| VisitorLogView.LongVisitLabel | src/components/VisitorLogs.jsx:96-109 | a visit of an hour or more reads as at least one hour and under sixty minutes |
| VisitorLogView.NegativeVisitShowsMinutesOnly | src/components/VisitorLogs.jsx:96-109 | a visit that ends before it began shows only its leftover minutes |
| VisitorLogView.DurationAppearsOnCheckout | src/components/VisitorLogs.jsx:96-109 | a visitor on the premises shows "-" until checked out, and a duration after |
| VisitorLogView.VisitorLogReport.constructor | src/components/VisitorLogs.jsx:26-34 | every filter "all", no search and no rows |
| VisitorLogView.VisitorLogReport.BuildQuery | src/components/VisitorLogs.jsx:52-68 | one filter for each selection that is not "all" |
| VisitorLogView.VisitorLogReport.Fetch | src/components/VisitorLogs.jsx:37-89 | shows the query's answer searched by name, at most a page; a failed query keeps the rows |
| Dashboard.IsControlRoom | src/pages/Dashboard.jsx:51 | control-room officers and administrators |
| Dashboard.IsGate | src/pages/Dashboard.jsx:52 | gate officers and administrators |
| Dashboard.IsManager | src/pages/Dashboard.jsx:56 | administrators and supervisors |
| Dashboard.MenuFor | src/pages/Dashboard.jsx:54-114 | every menu ends with visitors, status and reports |
| Dashboard.TabsFor | src/pages/Dashboard.jsx:180-201 | every tab bar ends with visitors, status and reports |
| Dashboard.DefaultTab | src/pages/Dashboard.jsx:179 | the dashboard opens on the control room exactly for control-room roles, and on the gate otherwise |
| Dashboard.BuildMenu | src/pages/Dashboard.jsx:49-114 | no officer: no menu; otherwise the role's menu |
| Dashboard.MenuByRole | src/pages/Dashboard.jsx:54-114 | the menu and tab bar of each role, written out |
| Dashboard.MenuSizes | src/pages/Dashboard.jsx:54-114 | eight items for administrators, six at the gate, four for the control room and supervisors, three otherwise |
| Dashboard.AdminFirstForManagers | src/pages/Dashboard.jsx:57-63 | administration is offered exactly to administrators and supervisors, and comes first |
| Dashboard.ControlRoomMenu | src/pages/Dashboard.jsx:65-71 | key management is offered exactly to control-room roles |
| Dashboard.GateMenu | src/pages/Dashboard.jsx:73-95 | the gate, CEO and staff screens are offered exactly to gate roles |
| Dashboard.GateScreensInOrder | src/pages/Dashboard.jsx:65-95 | the three gate screens come together, in order, just before the shared sections |
| Dashboard.TabBarMatchesMenu | src/pages/Dashboard.jsx:180-201 | the tab bar and the menu list the same sections |
| Dashboard.TabBarOrderDiffersForAdmin | src/pages/Dashboard.jsx:180-201 | the two orders differ exactly for administrators |
| Dashboard.DefaultTabShown | src/pages/Dashboard.jsx:179-201 | the opening tab is on the bar exactly for control-room and gate roles; a supervisor opens on a gate tab that is not there |

## Left out

- Storage and network: every storage call becomes a row sequence or a write result passed in. The joins that bring names and registrations into the rows are given as inputs. So are the server's ordering and its 100-row page.
- Polling and the extra per-row fetches: the periodic refresh timers, the extra queries that add names to listed rows, and the refetch when a dialog closes are not modelled.
- Concurrency: two officers acting on the same key or vehicle at once can interleave their reads and writes. The model treats each handler as running alone; only the non-atomic pairs are shown.
- Cosmetic timers: the resets scheduled after a successful gate action are not modelled. Staff arrival (StaffVehicle.jsx:102-108) waits 2 s, clears the scanned staff member, the registration and the banner, and refetches the sessions. Staff departure (StaffVehicle.jsx:133-136) waits 2 s, clears only the banner, and refetches the sessions. A CEO sign-in or sign-out (CeoVehicle.jsx:85-91, 126-132) waits 2 s, clears the selection, the scanned person and the banner, and refetches the CEO vehicles. A key return (KeyReturn.jsx:98-103) waits 2 s and clears the returner, the reason and the banner; it refetches nothing, because the list is refreshed at once through its success callback. A vehicle return (VehicleIn.jsx:135-143) waits 3 s, clears the whole form and the banner, and refetches the open trips. The 1.5 s close of the trip, employee, vehicle and key dialogs after a successful save is modelled, by each editor's `Tick`.
- Camera and decoder: device access, the ZXing decoder and its streams are left out. The decode callback reads `isScanning` from the render that started it, a stale value that the model does not reproduce; the model treats the flag as current.
- Dates: date-picker strings and the end-of-day bound of the history reports are integer millisecond instants in the model. CSV export is left out.
- Session persistence and browser side effects: `localStorage`, page navigation and console logging.
- Case conversion: `toUpperCase` and `toLowerCase` are modelled for ASCII letters only.
- The history reports: their effects do not refetch when only the search text changes. The model's `Fetch` applies the current search text.
- Other screens: the admin panel container, the reports container and the employee search picker are not part of this model. They are containers or read-only pickers with no custody logic.
- Required-field checks on role, type and status are always met: the model's enumerations cannot be empty.
- TripAdmin.TripEditor.Save: when a returned trip's reading does not parse, the source sends a null reading for the vehicle. The model cannot hold a null reading, so `TripAdmin.AdminReleaseRow` sets the vehicle available with its previous reading.
- TripAdmin.AdminReleaseRow: for a returned trip whose reading does not parse, the source writes `last_odometer: null`; the model's vehicle row has no null reading, so this function keeps the vehicle's previous reading instead.
- Common.ParseInt: JavaScript's `parseInt` yields a double, so a digit run above 2^53 loses precision and a very long run gives `Infinity`; the model's result is an unbounded integer. Odometer readings and ids stay far below that bound, so nothing in the model depends on it.

## Findings

| source | as written | input that shows it | evidently intended | confidence | as-written member | corrected member |
|---|---|---|---|---|---|---|
| src/components/BarcodeScanner.jsx:36-55 | each keystroke updates the buffer, which re-runs the effect; the effect's cleanup clears the 100 ms timeout just scheduled, so the idle clear never fires | on the page a hand-typed "7", then 100 ms or more of silence, then the scanner burst "123" and Enter: the emitted token is "7123" | the buffer is dropped after 100 ms without a keystroke, so the burst emits "123" | not executed | UsbScanner.IdleClearNeverFiresAsWritten | UsbScanner.IdleClearFires |
| src/components/Alerts.jsx:41 | the key-checkout query reads `twentyFourHoursAgo`, which is never defined; the error is caught, so neither list is ever set | any data, for example one trip out for four days: the panel shows no alerts | a cutoff is defined and both lists are filled | not executed | AlertsView.AlertsPanel.RefreshAsWritten | AlertsView.AlertsPanel.Refresh |
