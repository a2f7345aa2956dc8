/**
 * The rows of the three tables the core touches (`vehicles`, `rentals`,
 * `maintenance`), the dataclass defaults, and the status vocabularies that
 * the tables' CHECK constraints admit.
 *
 * Money is integer cents, timestamps are integer seconds.
 */
module Records {
  import opened Base

  // Vehicle statuses: CHECK (status IN ('available', 'rented', 'maintenance')).
  const Available: string := "available"
  const Rented: string := "rented"
  const InMaintenance: string := "maintenance"

  // Rental statuses: CHECK (rental_status IN (...)).
  const Apply: string := "apply"
  const Active: string := "active"
  const Reject: string := "reject"
  const Completed: string := "completed"
  const Cancelled: string := "cancelled"

  // Maintenance statuses (the maintenance table declares no CHECK).
  const Scheduled: string := "scheduled"
  const Ongoing: string := "ongoing"

  const SecondsPerDay: int := 86400

  /** `timedelta` holds at most 999999999 days. */
  const MaxTimedeltaDays: int := 999999999

  /**
   * The last whole second a `datetime` can hold, 9999-12-31 23:59:59, in
   * seconds since 1970-01-01 (2932897 days to 10000-01-01, less a second).
   */
  const MaxTimestamp: int := 2932897 * 86400 - 1

  /**
   * `start + timedelta(days=days)` raises OverflowError: the duration is
   * beyond `timedelta`'s range, or the sum is past the last `datetime`.
   */
  predicate ReturnDateOverflows(days: nat, now: int) {
    days > MaxTimedeltaDays || now + days * SecondsPerDay > MaxTimestamp
  }

  predicate IsVehicleStatus(s: string) {
    s == Available || s == Rented || s == InMaintenance
  }

  predicate IsRentalStatus(s: string) {
    s == Apply || s == Active || s == Reject || s == Completed || s == Cancelled
  }

  /** A row of `vehicles` (its id is the key of the store's map). */
  datatype Vehicle = Vehicle(
    make: string,
    model: string,
    year: Option<int>,
    licensePlate: string,
    mileage: Option<int>,
    dailyRate: Option<int>,
    description: string,
    status: string)

  /** `Vehicles()`: every field unset, status "available". */
  const NewVehicle: Vehicle := Vehicle("", "", None, "", None, None, "", Available)

  /** A row of `rentals`. */
  datatype Rental = Rental(
    vehicleId: Option<int>,
    customerId: Option<int>,
    staffId: Option<int>,
    startDate: Option<int>,
    expectedReturnDate: Option<int>,
    actualReturnDate: Option<int>,
    initialMileage: Option<int>,
    returnMileage: Option<int>,
    rentalStatus: string,
    totalCost: Option<int>)

  /** `Rentals()` of app/repository: status "apply", mileages 0. */
  const NewRental: Rental := Rental(None, None, None, None, None, None, Some(0), Some(0), Apply, None)

  /** `Rentals()` of the older repository: identical except status "active". */
  const NewLegacyRental: Rental := NewRental.(rentalStatus := Active)

  /** A row of `maintenance`. */
  datatype Maintenance = Maintenance(
    vehicleId: Option<int>,
    staffId: Option<int>,
    description: string,
    maintenanceDate: Option<int>,
    cost: Option<int>,
    status: string,
    completionDate: Option<int>,
    notes: string)

  /** `Maintenance()`: status "scheduled", no completion date. */
  const NewMaintenance: Maintenance := Maintenance(None, None, "", None, None, Scheduled, None, "")

  /**
   * The database: three tables keyed by primary key, plus the
   * AUTOINCREMENT counters (the largest id ever handed out).
   */
  datatype Db = Db(
    vehicles: map<int, Vehicle>,
    rentals: map<int, Rental>,
    rentalSeq: int,
    maintenance: map<int, Maintenance>,
    maintenanceSeq: int)

  /** No stored id exceeds its table's AUTOINCREMENT counter. */
  ghost predicate SeqBounds(db: Db) {
    && (forall id :: id in db.rentals ==> id <= db.rentalSeq)
    && (forall id :: id in db.maintenance ==> id <= db.maintenanceSeq)
  }

  lemma DefaultsAgree()
    ensures NewRental.rentalStatus == Apply && IsRentalStatus(NewRental.rentalStatus)
    ensures NewLegacyRental.rentalStatus == Active && IsRentalStatus(NewLegacyRental.rentalStatus)
    ensures NewVehicle.status == Available && IsVehicleStatus(NewVehicle.status)
    ensures NewMaintenance.status == Scheduled && NewMaintenance.completionDate.None?
    ensures !IsRentalStatus("cancel")
  {
    assert "cancel"[5] != "cancelled"[5] || |"cancel"| != |"cancelled"|;
  }
}
