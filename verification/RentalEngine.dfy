/**
 * The rental commands of car_rental_system/command/rentals.py as
 * transitions `Db × inputs → Step`.
 *
 * Every guard is an early return before any write. A handler that passes
 * its guards writes the vehicle first and the rental second; each write
 * commits on its own, so a failing second write leaves the first in place.
 *
 * Inputs arrive already parsed: a number is the `int(...)` of a string
 * that `validate_digit` accepted, so it is a `nat`. The clock reading
 * `now` is a parameter.
 */
module RentalEngine {
  import opened Base
  import opened Records
  import opened Outcomes
  import VehicleStore
  import RentalStore

  /** The vehicle may be rented: it is available and has a mileage and a daily rate. */
  predicate Rentable(vs: map<int, Vehicle>, vid: int) {
    vid in vs && vs[vid].status == Available && vs[vid].mileage.Some? && vs[vid].dailyRate.Some?
  }

  /** The first vehicle guard that fails, in the handlers' order. */
  function VehicleRefusal(vs: map<int, Vehicle>, vid: int): (r: Option<Refusal>)
    ensures r.None? <==> Rentable(vs, vid)
    ensures vid !in vs ==> r == Some(VehicleNotFound)
    ensures vid in vs && vs[vid].status != Available ==> r == Some(VehicleUnavailable)
  {
    if vid !in vs then Some(VehicleNotFound)
    else if vs[vid].status != Available then Some(VehicleUnavailable)
    else if vs[vid].mileage.None? then Some(MileageUnset)
    else if vs[vid].dailyRate.None? then Some(RateUnset)
    else None
  }

  /** The rental row `add_rental` and `book_rental` build for a rentable vehicle. */
  function NewRentalFor(v: Vehicle, vid: int, customerId: Option<int>, staffId: Option<int>,
                        status: string, days: nat, now: int): (r: Rental)
    requires v.mileage.Some? && v.dailyRate.Some?
    ensures r.vehicleId == Some(vid) && r.customerId == customerId && r.staffId == staffId
    ensures r.startDate == Some(now) && r.expectedReturnDate == Some(now + days * SecondsPerDay)
    ensures r.initialMileage == v.mileage && r.totalCost == Some(v.dailyRate.value * days)
    ensures r.rentalStatus == status
  {
    NewRental.(vehicleId := Some(vid), customerId := customerId, staffId := staffId,
               startDate := Some(now), expectedReturnDate := Some(now + days * SecondsPerDay),
               initialMileage := v.mileage, totalCost := Some(v.dailyRate.value * days),
               rentalStatus := status)
  }

  /**
   * The common tail of `add_rental` and `book_rental` once the actor is
   * known: the return date `now + days` is computed first and raises
   * OverflowError when out of range; then the four vehicle guards; then the
   * vehicle becomes "rented" and the rental is inserted under the next id.
   */
  function PlaceRental(db: Db, vid: int, customerId: Option<int>, staffId: Option<int>,
                       status: string, days: nat, now: int): (s: Step)
    ensures ReturnDateOverflows(days, now) ==> s == Step(db, Crashed(Overflow))
    ensures !ReturnDateOverflows(days, now) && !Rentable(db.vehicles, vid) ==>
              s == Step(db, Refused(VehicleRefusal(db.vehicles, vid).value))
    ensures !ReturnDateOverflows(days, now) && Rentable(db.vehicles, vid) && IsRentalStatus(status) ==>
              && s.outcome == Done
              && s.db.vehicles == db.vehicles[vid := db.vehicles[vid].(status := Rented)]
              && s.db.rentalSeq == db.rentalSeq + 1
              && s.db.rentals == db.rentals[db.rentalSeq + 1 := RentalStore.Stored(NewRentalFor(db.vehicles[vid], vid, customerId, staffId, status, days, now))]
              && s.db.maintenance == db.maintenance && s.db.maintenanceSeq == db.maintenanceSeq
              && (SeqBounds(db) ==> |s.db.rentals| == |db.rentals| + 1 && SeqBounds(s.db))
    ensures !ReturnDateOverflows(days, now) && Rentable(db.vehicles, vid) && !IsRentalStatus(status) ==>
              s == Step(db.(vehicles := db.vehicles[vid := db.vehicles[vid].(status := Rented)]), Crashed(CheckViolation))
  {
    if ReturnDateOverflows(days, now) then Step(db, Crashed(Overflow))
    else
      var refusal := VehicleRefusal(db.vehicles, vid);
      if refusal.Some? then Step(db, Refused(refusal.value))
      else
        var v := db.vehicles[vid];
        var vs := VehicleStore.UpdateStatus(db.vehicles, vid, Rented).value;
        var afterVehicle := db.(vehicles := vs);
        var row := NewRentalFor(v, vid, customerId, staffId, status, days, now);
        match RentalStore.AddRental(db.rentals, db.rentalSeq, row)
        case Err(f) => Step(afterVehicle, Crashed(f))
        case Ok((rs, next)) => Step(afterVehicle.(rentals := rs, rentalSeq := next), Done)
  }

  /**
   * `add_rental` (staff): the acting staff member must be found and have
   * an id; the rental is created "active" with that staff id.
   */
  function AddRental(db: Db, staff: Lookup, vid: nat, customerId: nat, days: nat, now: int): (s: Step)
    ensures staff == NoRecord ==> s == Step(db, Refused(StaffNotFound))
    ensures staff == RecordWithoutId ==> s == Step(db, Refused(StaffIdMissing))
    ensures staff.Found? && ReturnDateOverflows(days, now) ==> s == Step(db, Crashed(Overflow))
    ensures s.outcome == Done <==> staff.Found? && !ReturnDateOverflows(days, now) && Rentable(db.vehicles, vid)
    ensures s.outcome != Done ==> s.db == db
    ensures s.outcome == Done ==>
              && s.db.vehicles == db.vehicles[vid := db.vehicles[vid].(status := Rented)]
              && s.db.rentals.Keys == db.rentals.Keys + {db.rentalSeq + 1}
              && s.db.rentalSeq == db.rentalSeq + 1
              && (forall k :: k in db.rentals && k != db.rentalSeq + 1 ==> s.db.rentals[k] == db.rentals[k])
              && s.db.maintenance == db.maintenance && s.db.maintenanceSeq == db.maintenanceSeq
              && var r := s.db.rentals[db.rentalSeq + 1];
                 && r.rentalStatus == Active && r.staffId == Some(staff.id) && r.customerId == Some(customerId)
                 && r.vehicleId == Some(vid) && r.initialMileage == db.vehicles[vid].mileage
                 && r.totalCost == Some(db.vehicles[vid].dailyRate.value * days)
                 && r.startDate == Some(now) && r.expectedReturnDate == Some(now + days * SecondsPerDay)
    ensures s.outcome == Done && SeqBounds(db) ==>
              && |s.db.rentals| == |db.rentals| + 1
              && (forall k :: k in db.rentals ==> s.db.rentals[k] == db.rentals[k])
              && SeqBounds(s.db)
  {
    match staff
    case NoRecord => Step(db, Refused(StaffNotFound))
    case RecordWithoutId => Step(db, Refused(StaffIdMissing))
    case Found(sid) => PlaceRental(db, vid, Some(customerId), Some(sid), Active, days, now)
  }

  /**
   * `book_rental` (customer): the acting customer must be found and have an
   * id; the rental keeps the record's default status "apply" and has no
   * staff id.
   */
  function BookRental(db: Db, customer: Lookup, vid: nat, days: nat, now: int): (s: Step)
    ensures customer == NoRecord ==> s == Step(db, Refused(CustomerNotFound))
    ensures customer == RecordWithoutId ==> s == Step(db, Refused(CustomerIdMissing))
    ensures customer.Found? && ReturnDateOverflows(days, now) ==> s == Step(db, Crashed(Overflow))
    ensures s.outcome == Done <==> customer.Found? && !ReturnDateOverflows(days, now) && Rentable(db.vehicles, vid)
    ensures s.outcome != Done ==> s.db == db
    ensures s.outcome == Done ==>
              && s.db.vehicles == db.vehicles[vid := db.vehicles[vid].(status := Rented)]
              && s.db.rentals.Keys == db.rentals.Keys + {db.rentalSeq + 1}
              && s.db.rentalSeq == db.rentalSeq + 1
              && (forall k :: k in db.rentals && k != db.rentalSeq + 1 ==> s.db.rentals[k] == db.rentals[k])
              && s.db.maintenance == db.maintenance && s.db.maintenanceSeq == db.maintenanceSeq
              && var r := s.db.rentals[db.rentalSeq + 1];
                 && r.rentalStatus == Apply && r.staffId.None? && r.customerId == Some(customer.id)
                 && r.vehicleId == Some(vid) && r.initialMileage == db.vehicles[vid].mileage
                 && r.totalCost == Some(db.vehicles[vid].dailyRate.value * days)
                 && r.startDate == Some(now) && r.expectedReturnDate == Some(now + days * SecondsPerDay)
    ensures s.outcome == Done && SeqBounds(db) ==>
              && |s.db.rentals| == |db.rentals| + 1
              && (forall k :: k in db.rentals ==> s.db.rentals[k] == db.rentals[k])
              && SeqBounds(s.db)
  {
    match customer
    case NoRecord => Step(db, Refused(CustomerNotFound))
    case RecordWithoutId => Step(db, Refused(CustomerIdMissing))
    case Found(cid) => PlaceRental(db, vid, Some(cid), None, NewRental.rentalStatus, days, now)
  }

  /** The two answers `Prompt.ask` admits in `audit_rental`. */
  datatype AuditChoice = Approve | Decline

  function ChoiceStatus(c: AuditChoice): (s: string)
    ensures IsRentalStatus(s)
  {
    match c
    case Approve => Active
    case Decline => Reject
  }

  /**
   * `audit_rental`: only an application ("apply") can be audited. The
   * chosen status is written; a declined application with a truthy
   * vehicle id frees that vehicle, an approved one leaves it "rented".
   */
  function AuditRental(db: Db, id: nat, choice: AuditChoice): (s: Step)
    ensures id !in db.rentals ==> s == Step(db, Refused(RentalNotFound))
    ensures id in db.rentals && db.rentals[id].rentalStatus != Apply ==> s == Step(db, Refused(StatusChanged))
    ensures s.outcome == Done <==> id in db.rentals && db.rentals[id].rentalStatus == Apply
    ensures s.outcome == Done ==>
              && s.db.rentals == db.rentals[id := db.rentals[id].(rentalStatus := ChoiceStatus(choice))]
              && s.db.rentalSeq == db.rentalSeq && s.db.maintenance == db.maintenance
              && s.db.maintenanceSeq == db.maintenanceSeq
              && (choice == Approve || !TruthyInt(db.rentals[id].vehicleId) ==> s.db.vehicles == db.vehicles)
              && (choice == Decline && TruthyInt(db.rentals[id].vehicleId) ==>
                    s.db.vehicles == VehicleStore.UpdateStatus(db.vehicles, db.rentals[id].vehicleId.value, Available).value)
  {
    match RowById(db.rentals, id)
    case None => Step(db, Refused(RentalNotFound))
    case Some(r) =>
      if r.rentalStatus != Apply then Step(db, Refused(StatusChanged))
      else
        var rs := RentalStore.UpdateStatus(db.rentals, id, ChoiceStatus(choice)).value;
        var vs := if choice == Decline && TruthyInt(r.vehicleId)
                  then VehicleStore.UpdateStatus(db.vehicles, r.vehicleId.value, Available).value
                  else db.vehicles;
        Step(db.(rentals := rs, vehicles := vs), Done)
  }

  /**
   * `cancel_rental`, parameterised by the status string it writes: only an
   * application can be cancelled; its status is rewritten and its vehicle,
   * when the id is truthy, becomes "available".
   */
  function CancelWith(db: Db, id: nat, written: string): (s: Step)
    ensures id !in db.rentals ==> s == Step(db, Refused(RentalNotFound))
    ensures id in db.rentals && db.rentals[id].rentalStatus != Apply ==> s == Step(db, Refused(StatusChanged))
    ensures id in db.rentals && db.rentals[id].rentalStatus == Apply && !IsRentalStatus(written) ==>
              s == Step(db, Crashed(CheckViolation))
    ensures s.outcome == Done <==> id in db.rentals && db.rentals[id].rentalStatus == Apply && IsRentalStatus(written)
    ensures s.outcome == Done ==>
              && s.db.rentals == db.rentals[id := db.rentals[id].(rentalStatus := written)]
              && s.db.rentalSeq == db.rentalSeq && s.db.maintenance == db.maintenance
              && s.db.maintenanceSeq == db.maintenanceSeq
              && (TruthyInt(db.rentals[id].vehicleId) ==>
                    s.db.vehicles == VehicleStore.UpdateStatus(db.vehicles, db.rentals[id].vehicleId.value, Available).value)
              && (!TruthyInt(db.rentals[id].vehicleId) ==> s.db.vehicles == db.vehicles)
  {
    match RowById(db.rentals, id)
    case None => Step(db, Refused(RentalNotFound))
    case Some(r) =>
      if r.rentalStatus != Apply then Step(db, Refused(StatusChanged))
      else
        match RentalStore.UpdateStatus(db.rentals, id, written)
        case Err(f) => Step(db, Crashed(f))
        case Ok(rs) =>
          var vs := if TruthyInt(r.vehicleId)
                    then VehicleStore.UpdateStatus(db.vehicles, r.vehicleId.value, Available).value
                    else db.vehicles;
          Step(db.(rentals := rs, vehicles := vs), Done)
  }

  /**
   * `cancel_rental` as written: it writes "cancel", which the status CHECK
   * constraint rejects, so no cancellation ever takes effect.
   */
  function CancelRentalAsWritten(db: Db, id: nat): (s: Step)
    ensures s.db == db
    ensures s.outcome == Crashed(CheckViolation) <==> id in db.rentals && db.rentals[id].rentalStatus == Apply
    ensures s.outcome != Done
  {
    Records.DefaultsAgree();
    CancelWith(db, id, "cancel")
  }

  /** `cancel_rental` writing the admitted status "cancelled". */
  function CancelRental(db: Db, id: nat): (s: Step)
    ensures s.outcome == Done <==> id in db.rentals && db.rentals[id].rentalStatus == Apply
    ensures s.outcome != Done ==> s.db == db
    ensures s.outcome == Done ==>
              && s.db.rentals == db.rentals[id := db.rentals[id].(rentalStatus := Cancelled)]
              && (TruthyInt(db.rentals[id].vehicleId) ==>
                    s.db.vehicles == VehicleStore.UpdateStatus(db.vehicles, db.rentals[id].vehicleId.value, Available).value)
              && (!TruthyInt(db.rentals[id].vehicleId) ==> s.db.vehicles == db.vehicles)
  {
    CancelWith(db, id, Cancelled)
  }

  /**
   * `complete_rental` as written: refused when the rental is missing, the
   * return mileage is below the initial mileage, or the vehicle id is
   * falsy; a None initial mileage makes the comparison raise. The rental's
   * status is not consulted.
   */
  function CompleteRentalAsWritten(db: Db, id: nat, returnMileage: nat, now: int): (s: Step)
    ensures id !in db.rentals ==> s == Step(db, Refused(RentalNotFound))
    ensures s.outcome == Done <==>
              && id in db.rentals
              && db.rentals[id].initialMileage.Some?
              && db.rentals[id].initialMileage.value <= returnMileage
              && TruthyInt(db.rentals[id].vehicleId)
    ensures s.outcome != Done ==> s.db == db
    ensures id in db.rentals && db.rentals[id].initialMileage.Some? && returnMileage < db.rentals[id].initialMileage.value ==>
              s.outcome == Refused(MileageRegression)
    ensures s.outcome == Done ==>
              && s.db.rentals == RentalStore.CompleteRental(db.rentals, id, returnMileage, now)
              && s.db.vehicles == VehicleStore.UpdateAfterReturn(db.vehicles, db.rentals[id].vehicleId.value, returnMileage)
              && s.db.rentalSeq == db.rentalSeq && s.db.maintenance == db.maintenance
              && s.db.maintenanceSeq == db.maintenanceSeq
  {
    match RowById(db.rentals, id)
    case None => Step(db, Refused(RentalNotFound))
    case Some(r) =>
      if r.initialMileage.None? then Step(db, Crashed(TypeMismatch))
      else if returnMileage < r.initialMileage.value then Step(db, Refused(MileageRegression))
      else if !TruthyInt(r.vehicleId) then Step(db, Refused(VehicleIdMissing))
      else
        Step(db.(rentals := RentalStore.CompleteRental(db.rentals, id, returnMileage, now),
                 vehicles := VehicleStore.UpdateAfterReturn(db.vehicles, r.vehicleId.value, returnMileage)),
             Done)
  }

  /**
   * `complete_rental` with a status guard: only an "active" rental can be
   * completed; past the guard it behaves exactly as written.
   */
  function CompleteRental(db: Db, id: nat, returnMileage: nat, now: int): (s: Step)
    ensures id !in db.rentals ==> s == Step(db, Refused(RentalNotFound))
    ensures id in db.rentals && db.rentals[id].rentalStatus != Active ==> s == Step(db, Refused(StatusChanged))
    ensures id in db.rentals && db.rentals[id].rentalStatus == Active ==> s == CompleteRentalAsWritten(db, id, returnMileage, now)
    ensures s.outcome == Done ==> db.rentals[id].rentalStatus == Active
  {
    match RowById(db.rentals, id)
    case None => Step(db, Refused(RentalNotFound))
    case Some(r) =>
      if r.rentalStatus != Active then Step(db, Refused(StatusChanged))
      else CompleteRentalAsWritten(db, id, returnMileage, now)
  }

  // ---------------------------------------------------------------------
  // `handle`: role-based subcommand tables.
  // ---------------------------------------------------------------------

  /** The logged-in user: the role name and the staff and customer rows found for them. */
  datatype Session = Session(roleName: string, staff: Lookup, customer: Lookup)

  /** The answers the handlers' prompts would collect. */
  datatype RentalInput = RentalInput(
    vehicleId: nat,
    customerId: nat,
    rentalId: nat,
    days: nat,
    returnMileage: nat,
    choice: AuditChoice,
    now: int)

  const CustomerCommands: set<string> := {"list", "book", "cancel"}
  const StaffCommands: set<string> := {"list", "active", "add", "audit", "complete", "cancel"}

  /** `list_rental_history`: the acting customer's rentals. */
  function ListRentalHistory(db: Db, customers: map<int, string>, customer: Lookup): (s: Step)
    ensures s.db == db
    ensures customer == NoRecord ==> s.outcome == Refused(CustomerNotFound)
    ensures customer == RecordWithoutId ==> s.outcome == Refused(CustomerIdMissing)
    ensures customer.Found? ==> s.outcome == RentalRows(RentalStore.GetRentalDetails(db, customers, "", customer.id))
  {
    match customer
    case NoRecord => Step(db, Refused(CustomerNotFound))
    case RecordWithoutId => Step(db, Refused(CustomerIdMissing))
    case Found(cid) => Step(db, RentalRows(RentalStore.GetRentalDetails(db, customers, "", cid)))
  }

  /**
   * `handle(command)` as written, on the split command words: fewer than
   * two words prints help; otherwise the second word is looked up in the
   * customer table for role "customer" and in the staff table for any
   * other role, and the handler found runs as written.
   */
  function HandleRentalCommandAsWritten(db: Db, customers: map<int, string>, session: Session,
                                        parts: seq<string>, input: RentalInput): (s: Step)
    ensures |parts| < 2 ==> s == Step(db, Help)
    ensures |parts| >= 2 && session.roleName == "customer" ==>
              && (parts[1] == "list" ==> s == ListRentalHistory(db, customers, session.customer))
              && (parts[1] == "book" ==> s == BookRental(db, session.customer, input.vehicleId, input.days, input.now))
              && (parts[1] == "cancel" ==> s == CancelRentalAsWritten(db, input.rentalId))
              && (parts[1] !in CustomerCommands ==> s == Step(db, Unknown(parts[1])))
    ensures |parts| >= 2 && session.roleName != "customer" ==>
              && (parts[1] == "list" ==> s == Step(db, RentalRows(RentalStore.GetRentalDetails(db, customers, "", 0))))
              && (parts[1] == "active" ==> s == Step(db, RentalRows(RentalStore.GetRentalDetails(db, customers, Active, 0))))
              && (parts[1] == "add" ==>
                    s == AddRental(db, session.staff, input.vehicleId, input.customerId, input.days, input.now))
              && (parts[1] == "audit" ==> s == AuditRental(db, input.rentalId, input.choice))
              && (parts[1] == "complete" ==> s == CompleteRentalAsWritten(db, input.rentalId, input.returnMileage, input.now))
              && (parts[1] == "cancel" ==> s == CancelRentalAsWritten(db, input.rentalId))
              && (parts[1] !in StaffCommands ==> s == Step(db, Unknown(parts[1])))
  {
    if |parts| < 2 then Step(db, Help)
    else
      var sub := parts[1];
      if session.roleName == "customer" then
        if sub == "list" then ListRentalHistory(db, customers, session.customer)
        else if sub == "book" then BookRental(db, session.customer, input.vehicleId, input.days, input.now)
        else if sub == "cancel" then CancelRentalAsWritten(db, input.rentalId)
        else Step(db, Unknown(sub))
      else
        if sub == "list" then Step(db, RentalRows(RentalStore.GetRentalDetails(db, customers, "", 0)))
        else if sub == "active" then Step(db, RentalRows(RentalStore.GetRentalDetails(db, customers, Active, 0)))
        else if sub == "add" then AddRental(db, session.staff, input.vehicleId, input.customerId, input.days, input.now)
        else if sub == "audit" then AuditRental(db, input.rentalId, input.choice)
        else if sub == "complete" then CompleteRentalAsWritten(db, input.rentalId, input.returnMileage, input.now)
        else if sub == "cancel" then CancelRentalAsWritten(db, input.rentalId)
        else Step(db, Unknown(sub))
  }

  /** The command is routed to `complete_rental`. */
  predicate RoutesToComplete(session: Session, parts: seq<string>) {
    |parts| >= 2 && session.roleName != "customer" && parts[1] == "complete"
  }

  /** The command is routed to `cancel_rental`, from either table. */
  predicate RoutesToCancel(parts: seq<string>) {
    |parts| >= 2 && parts[1] == "cancel"
  }

  /**
   * The same tables with the corrected cancel and completion: every other
   * command behaves as written.
   */
  function HandleRentalCommand(db: Db, customers: map<int, string>, session: Session,
                               parts: seq<string>, input: RentalInput): (s: Step)
    ensures RoutesToCancel(parts) ==> s == CancelRental(db, input.rentalId)
    ensures RoutesToComplete(session, parts) ==> s == CompleteRental(db, input.rentalId, input.returnMileage, input.now)
    ensures !RoutesToCancel(parts) && !RoutesToComplete(session, parts) ==>
              s == HandleRentalCommandAsWritten(db, customers, session, parts, input)
  {
    if RoutesToCancel(parts) then CancelRental(db, input.rentalId)
    else if RoutesToComplete(session, parts) then CompleteRental(db, input.rentalId, input.returnMileage, input.now)
    else HandleRentalCommandAsWritten(db, customers, session, parts, input)
  }

  /**
   * Role gating: a customer's command, as written, never changes an
   * existing rental; every rental row it adds is an "apply" row without
   * staff.
   */
  lemma CustomerGating(db: Db, customers: map<int, string>, session: Session, parts: seq<string>, input: RentalInput)
    requires session.roleName == "customer" && SeqBounds(db)
    ensures var s := HandleRentalCommandAsWritten(db, customers, session, parts, input);
            && (forall k :: k in db.rentals ==> k in s.db.rentals && s.db.rentals[k] == db.rentals[k])
            && (forall k :: k in s.db.rentals && k !in db.rentals ==>
                  s.db.rentals[k].rentalStatus == Apply && s.db.rentals[k].staffId.None?)
  {
    var s := HandleRentalCommandAsWritten(db, customers, session, parts, input);
    if |parts| >= 2 && parts[1] == "book" {
      var b := BookRental(db, session.customer, input.vehicleId, input.days, input.now);
      assert s == b;
    } else {
      assert s.db == db;
    }
  }

  /**
   * Booking and then cancelling the new application: the corrected cancel
   * gives the vehicle back unchanged; the cancel as written raises and
   * leaves the application open and its vehicle "rented".
   */
  lemma BookThenCancelRestoresVehicle(db: Db, customer: Lookup, vid: nat, days: nat, now: int)
    requires customer.Found? && !ReturnDateOverflows(days, now) && Rentable(db.vehicles, vid)
    requires db.rentalSeq >= -1 && vid > 0
    ensures var booked := BookRental(db, customer, vid, days, now).db;
            var cancelled := CancelRental(booked, (db.rentalSeq + 1) as nat);
            && cancelled.outcome == Done
            && cancelled.db.vehicles == db.vehicles
            && cancelled.db.rentals[db.rentalSeq + 1].rentalStatus == Cancelled
    ensures var booked := BookRental(db, customer, vid, days, now).db;
            var asWritten := CancelRentalAsWritten(booked, (db.rentalSeq + 1) as nat);
            && asWritten == Step(booked, Crashed(CheckViolation))
            && booked.rentals[db.rentalSeq + 1].rentalStatus == Apply
            && booked.vehicles[vid].status == Rented
  {
    var booked := BookRental(db, customer, vid, days, now).db;
    assert booked.vehicles[vid].(status := Available) == db.vehicles[vid];
    assert db.vehicles[vid := db.vehicles[vid]] == db.vehicles;
  }

  /** Renting and then returning a vehicle leaves it available at the return mileage. */
  lemma AddThenCompleteReturnsVehicle(db: Db, staff: Lookup, vid: nat, customerId: nat, days: nat, now: int,
                                      returnMileage: nat, later: int)
    requires staff.Found? && !ReturnDateOverflows(days, now) && Rentable(db.vehicles, vid)
    requires db.rentalSeq >= -1 && vid > 0
    requires db.vehicles[vid].mileage.value <= returnMileage
    ensures var rented := AddRental(db, staff, vid, customerId, days, now).db;
            var done := CompleteRental(rented, (db.rentalSeq + 1) as nat, returnMileage, later);
            && done.outcome == Done
            && done.db.vehicles == db.vehicles[vid := db.vehicles[vid].(mileage := Some(returnMileage))]
            && done.db.rentals[db.rentalSeq + 1].rentalStatus == Completed
            && CompleteRentalAsWritten(rented, (db.rentalSeq + 1) as nat, returnMileage, later) == done
  {
    var rented := AddRental(db, staff, vid, customerId, days, now).db;
    assert rented.vehicles[vid].(mileage := Some(returnMileage), status := Available)
        == db.vehicles[vid].(mileage := Some(returnMileage));
  }
}
