/** The rows of the five gate-custody tables (employees, keys, key transactions,
    vehicles with their trips, visitors) and the fixed value sets their status,
    role and type columns take in the user interface. Row ids are abstract integers
    handed out by the store; timestamps are integer milliseconds. */
module Records {
  import opened Common

  /** The seven roles an employee record can carry. */
  datatype Role = Driver | SecurityControl | SecurityGate | Ceo | Staff | Supervisor | Admin

  datatype EmployeeStatus = Active | Inactive

  datatype KeyType = VehicleKey | WarehouseKey | OfficeKey | OtherKey

  datatype KeyStatus = KeyAvailable | KeyCheckedOut

  datatype TxStatus = TxOut | TxReturned

  datatype VehicleType = CompanyVehicle | CeoVehicle | PersonalVehicle

  datatype VehicleStatus = VehicleAvailable | VehicleInUse | VehicleMaintenance

  datatype Location = OnPremises | OffPremises

  datatype TripStatus = TripOut | TripReturned

  datatype VisitorType = WalkIn | WithVehicle

  datatype VisitorStatus = VisitorOnPremises | VisitorDeparted

  /** An empty `pin` or `department` stands for a missing (null) column. */
  datatype Employee = Employee(
    id: int,
    barcode: string,
    pin: string,
    name: string,
    role: Role,
    department: string,
    status: EmployeeStatus,
    updatedAt: Option<int>)

  datatype Key = Key(
    id: int,
    keyNumber: string,
    keyType: KeyType,
    description: string,
    vehicleId: Option<int>,
    status: KeyStatus,
    lastCheckoutBy: Option<int>,
    lastCheckoutTime: Option<int>,
    updatedAt: Option<int>)

  datatype KeyTransaction = KeyTransaction(
    id: int,
    keyId: int,
    personOutId: int,
    officerCheckoutId: int,
    purpose: string,
    checkoutTime: int,
    personInId: Option<int>,
    officerReturnId: Option<int>,
    returnTime: Option<int>,
    reason: Option<string>,
    status: TxStatus)

  datatype Vehicle = Vehicle(
    id: int,
    registration: string,
    vehicleType: VehicleType,
    notes: string,
    lastOdometer: int,
    status: VehicleStatus,
    currentLocation: Location,
    updatedAt: Option<int>)

  /** `odometerEnd` is `None` while the trip is out, and also when an administrator
      saves an ending reading that does not parse (it is written as null). */
  datatype Trip = Trip(
    id: int,
    vehicleId: int,
    driverOutId: int,
    officerOutId: int,
    destination: string,
    odometerStart: int,
    timeOut: int,
    driverInId: Option<int>,
    officerInId: Option<int>,
    odometerEnd: Option<int>,
    timeIn: Option<int>,
    reason: Option<string>,
    notes: string,
    status: TripStatus,
    updatedAt: Option<int>)

  datatype Visitor = Visitor(
    id: int,
    name: string,
    organization: Option<string>,
    purpose: string,
    hostEmployeeId: Option<int>,
    vehicleRegistration: Option<string>,
    visitorType: VisitorType,
    officerInId: int,
    timeIn: int,
    officerOutId: Option<int>,
    timeOut: Option<int>,
    status: VisitorStatus)

  /** The banner a component shows after an action: `{ type, text }`. */
  datatype Message = Success(text: string) | Failure(text: string)

  /** The five reasons offered when someone other than the original holder returns
      a key or a vehicle. */
  const HandoverReasons: seq<string> :=
    ["driver_swapped_mid_trip", "emergency_takeover", "breakdown_replacement", "shift_change", "other"]

  /** The outcome the storage service reports for one write. */
  datatype WriteResult = Written | Rejected(reason: string)
}
