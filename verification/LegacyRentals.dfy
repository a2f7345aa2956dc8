/**
 * The older rental commands (command/rentals.py) over the older
 * repository (repository/rentals.py). The acting staff member is the
 * ambient `current_staff`, here a `Lookup`; the vehicle store is the same
 * abstract store the newer commands use.
 */
module LegacyRentals {
  import opened Base
  import opened Records
  import opened Outcomes
  import VehicleStore
  import RentalStore
  import RentalEngine

  /**
   * The older `add_rental`: the staff id is read from `current_staff`
   * (raising when there is none); a missing or unavailable vehicle is
   * refused; before the vehicle is read, the return date is computed and
   * raises OverflowError when out of range; the mileage is copied as it
   * is, possibly None; a None daily
   * rate makes the cost multiplication raise. The rental keeps the older
   * default status "active".
   */
  function LegacyAddRental(db: Db, currentStaff: Lookup, vid: nat, customerId: nat, days: nat, now: int): (s: Step)
    ensures currentStaff == NoRecord ==> s == Step(db, Crashed(NoneAttribute))
    ensures currentStaff != NoRecord && ReturnDateOverflows(days, now) ==> s == Step(db, Crashed(Overflow))
    ensures currentStaff != NoRecord && !ReturnDateOverflows(days, now) && vid !in db.vehicles ==>
              s == Step(db, Refused(VehicleNotFound))
    ensures currentStaff != NoRecord && !ReturnDateOverflows(days, now) && vid in db.vehicles ==>
              db.vehicles[vid].status != Available ==> s == Step(db, Refused(VehicleUnavailable))
    ensures s.outcome == Done <==>
              currentStaff != NoRecord && !ReturnDateOverflows(days, now) && vid in db.vehicles
              && db.vehicles[vid].status == Available && db.vehicles[vid].dailyRate.Some?
    ensures s.outcome != Done ==> s.db == db
    ensures s.outcome == Done ==>
              && s.db.vehicles == db.vehicles[vid := db.vehicles[vid].(status := Rented)]
              && s.db.rentalSeq == db.rentalSeq + 1
              && s.db.rentals.Keys == db.rentals.Keys + {db.rentalSeq + 1}
              && (forall k :: k in db.rentals && k != db.rentalSeq + 1 ==> s.db.rentals[k] == db.rentals[k])
              && s.db.maintenance == db.maintenance && s.db.maintenanceSeq == db.maintenanceSeq
              && var r := s.db.rentals[db.rentalSeq + 1];
                 && r.rentalStatus == Active && r.vehicleId == Some(vid) && r.customerId == Some(customerId)
                 && r.staffId == (if currentStaff.Found? then Some(currentStaff.id) else None)
                 && r.initialMileage == db.vehicles[vid].mileage
                 && r.totalCost == Some(db.vehicles[vid].dailyRate.value * days)
                 && r.startDate == Some(now) && r.expectedReturnDate == Some(now + days * SecondsPerDay)
  {
    if currentStaff == NoRecord then Step(db, Crashed(NoneAttribute))
    else if ReturnDateOverflows(days, now) then Step(db, Crashed(Overflow))
    else if vid !in db.vehicles then Step(db, Refused(VehicleNotFound))
    else
      var v := db.vehicles[vid];
      if v.status != Available then Step(db, Refused(VehicleUnavailable))
      else if v.dailyRate.None? then Step(db, Crashed(TypeMismatch))
      else
        var staffId := if currentStaff.Found? then Some(currentStaff.id) else None;
        var row := NewLegacyRental.(vehicleId := Some(vid), customerId := Some(customerId), staffId := staffId,
                                    startDate := Some(now), expectedReturnDate := Some(now + days * SecondsPerDay),
                                    initialMileage := v.mileage, totalCost := Some(v.dailyRate.value * days));
        var vs := VehicleStore.UpdateStatus(db.vehicles, vid, Rented).value;
        var (rs, next) := RentalStore.AddRental(db.rentals, db.rentalSeq, row).value;
        Step(db.(vehicles := vs, rentals := rs, rentalSeq := next), Done)
  }

  /**
   * The older `cancel_rental`: no existence or status check, the status
   * becomes "cancelled", and the vehicle is never touched.
   */
  function LegacyCancelRental(db: Db, id: nat): (s: Step)
    ensures s.outcome == Done
    ensures s.db.vehicles == db.vehicles
    ensures s.db.rentals.Keys == db.rentals.Keys
    ensures forall k :: k in db.rentals && k != id ==> s.db.rentals[k] == db.rentals[k]
    ensures id in db.rentals ==> s.db.rentals[id] == db.rentals[id].(rentalStatus := Cancelled)
    ensures id !in db.rentals ==> s.db == db
  {
    Step(db.(rentals := RentalStore.CancelRental(db.rentals, id)), Done)
  }

  /** Rental `id` exists, is still open ("apply" or "active") and names a vehicle by a truthy id. */
  predicate HoldsVehicle(db: Db, id: int) {
    id in db.rentals && (db.rentals[id].rentalStatus == Apply || db.rentals[id].rentalStatus == Active)
    && TruthyInt(db.rentals[id].vehicleId)
  }

  /**
   * The older cancel with the vehicle released: the rental is cancelled as
   * before and, when it was still open ("apply" or "active") with a truthy
   * vehicle id, that vehicle becomes "available" again.
   */
  function LegacyCancelRentalCorrected(db: Db, id: nat): (s: Step)
    ensures s.outcome == Done
    ensures s.db.rentals == LegacyCancelRental(db, id).db.rentals
    ensures s.db.rentalSeq == db.rentalSeq && s.db.maintenance == db.maintenance
    ensures s.db.maintenanceSeq == db.maintenanceSeq
    ensures HoldsVehicle(db, id) ==>
              s.db.vehicles == VehicleStore.UpdateStatus(db.vehicles, db.rentals[id].vehicleId.value, Available).value
    ensures !HoldsVehicle(db, id) ==> s.db.vehicles == db.vehicles
  {
    var cancelled := LegacyCancelRental(db, id).db;
    if HoldsVehicle(db, id) then
      Step(cancelled.(vehicles := VehicleStore.UpdateStatus(db.vehicles, db.rentals[id].vehicleId.value, Available).value), Done)
    else Step(cancelled, Done)
  }

  /**
   * The older `complete_rental`: a missing rental is refused; a None
   * initial mileage makes the comparison raise; a return mileage below the
   * initial mileage or a falsy vehicle id is refused; otherwise the rental
   * is completed and its vehicle gets the return mileage and "available".
   * The rental's status is not consulted.
   */
  function LegacyCompleteRental(db: Db, id: nat, returnMileage: nat, now: int): (s: Step)
    ensures id !in db.rentals ==> s == Step(db, Refused(RentalNotFound))
    ensures id in db.rentals && db.rentals[id].initialMileage.None? ==> s == Step(db, Crashed(TypeMismatch))
    ensures id in db.rentals && db.rentals[id].initialMileage.Some? && returnMileage < db.rentals[id].initialMileage.value ==>
              s == Step(db, Refused(MileageRegression))
    ensures s.outcome == Done <==>
              && id in db.rentals
              && db.rentals[id].initialMileage.Some?
              && db.rentals[id].initialMileage.value <= returnMileage
              && TruthyInt(db.rentals[id].vehicleId)
    ensures s.outcome != Done ==> s.db == db
    ensures s.outcome == Done ==>
              && s.db.rentals.Keys == db.rentals.Keys
              && (forall k :: k in db.rentals && k != id ==> s.db.rentals[k] == db.rentals[k])
              && s.db.rentals[id] == db.rentals[id].(returnMileage := Some(returnMileage), actualReturnDate := Some(now),
                                                     rentalStatus := Completed)
              && s.db.rentalSeq == db.rentalSeq && s.db.maintenance == db.maintenance
              && s.db.maintenanceSeq == db.maintenanceSeq
              && var vid := db.rentals[id].vehicleId.value;
                 && (vid in db.vehicles ==>
                       s.db.vehicles == db.vehicles[vid := db.vehicles[vid].(mileage := Some(returnMileage), status := Available)])
                 && (vid !in db.vehicles ==> s.db.vehicles == db.vehicles)
  {
    RentalEngine.CompleteRentalAsWritten(db, id, returnMileage, now)
  }

  /**
   * The older booking by a found staff member agrees with the newer staff
   * booking on every vehicle that is missing or has a mileage and a rate.
   * On an available vehicle with no mileage they part: the older one books
   * it with a None initial mileage, the newer one refuses.
   */
  lemma LegacyAddAgreesWithAddRental(db: Db, sid: int, vid: nat, customerId: nat, days: nat, now: int)
    ensures (vid in db.vehicles ==> db.vehicles[vid].mileage.Some? && db.vehicles[vid].dailyRate.Some?) ==>
              LegacyAddRental(db, Found(sid), vid, customerId, days, now)
              == RentalEngine.AddRental(db, Found(sid), vid, customerId, days, now)
    ensures !ReturnDateOverflows(days, now) && vid in db.vehicles && db.vehicles[vid].status == Available
            && db.vehicles[vid].mileage.None? && db.vehicles[vid].dailyRate.Some? ==>
              && LegacyAddRental(db, Found(sid), vid, customerId, days, now).outcome == Done
              && LegacyAddRental(db, Found(sid), vid, customerId, days, now).db.rentals[db.rentalSeq + 1].initialMileage.None?
              && RentalEngine.AddRental(db, Found(sid), vid, customerId, days, now) == Step(db, Refused(MileageUnset))
  {
    if !ReturnDateOverflows(days, now) && RentalEngine.Rentable(db.vehicles, vid) {
      var v := db.vehicles[vid];
      var older := NewLegacyRental.(vehicleId := Some(vid), customerId := Some(customerId), staffId := Some(sid),
                                    startDate := Some(now), expectedReturnDate := Some(now + days * SecondsPerDay),
                                    initialMileage := v.mileage, totalCost := Some(v.dailyRate.value * days));
      assert RentalStore.Stored(older)
          == RentalStore.Stored(RentalEngine.NewRentalFor(v, vid, Some(customerId), Some(sid), Active, days, now));
    }
  }

  datatype LegacyInput = LegacyInput(vehicleId: nat, customerId: nat, rentalId: nat, days: nat,
                                     returnMileage: nat, now: int)

  const LegacyCommands: set<string> := {"list", "active", "add", "complete", "cancel"}

  /**
   * The older `handle_command`: help for fewer than two words, a message
   * for an unknown subcommand, and otherwise the named handler.
   */
  function LegacyHandleCommand(db: Db, customers: map<int, string>, currentStaff: Lookup,
                               parts: seq<string>, input: LegacyInput): (s: Step)
    ensures |parts| < 2 ==> s == Step(db, Help)
    ensures |parts| >= 2 && parts[1] !in LegacyCommands ==> s == Step(db, Unknown(parts[1]))
    ensures |parts| >= 2 && parts[1] in {"list", "active"} ==> s.db == db && s.outcome.RentalRows?
    ensures |parts| >= 2 && parts[1] == "list" ==> s == Step(db, RentalRows(RentalStore.GetLegacy(db, customers, "")))
    ensures |parts| >= 2 && parts[1] == "active" ==> s == Step(db, RentalRows(RentalStore.GetLegacy(db, customers, Active)))
    ensures |parts| >= 2 && parts[1] == "add" ==>
              s == LegacyAddRental(db, currentStaff, input.vehicleId, input.customerId, input.days, input.now)
    ensures |parts| >= 2 && parts[1] == "complete" ==>
              s == LegacyCompleteRental(db, input.rentalId, input.returnMileage, input.now)
    ensures |parts| >= 2 && parts[1] == "cancel" ==> s == LegacyCancelRental(db, input.rentalId)
  {
    if |parts| < 2 then Step(db, Help)
    else
      var sub := parts[1];
      if sub == "list" then Step(db, RentalRows(RentalStore.GetLegacy(db, customers, "")))
      else if sub == "active" then Step(db, RentalRows(RentalStore.GetLegacy(db, customers, Active)))
      else if sub == "add" then LegacyAddRental(db, currentStaff, input.vehicleId, input.customerId, input.days, input.now)
      else if sub == "complete" then LegacyCompleteRental(db, input.rentalId, input.returnMileage, input.now)
      else if sub == "cancel" then LegacyCancelRental(db, input.rentalId)
      else Step(db, Unknown(sub))
  }
}
