/**
 * The invariant tying the two tables together: a vehicle is "rented"
 * exactly when one open rental ("apply" or "active") holds it, and an
 * open rental's initial mileage is its vehicle's current mileage.
 *
 * Every corrected transition preserves it. The dispatchers as written
 * preserve it except on the inputs named in their lemmas, where the
 * counterexamples in Findings show it breaking.
 */
module Consistency {
  import opened Base
  import opened Records
  import opened Outcomes
  import VehicleStore
  import RentalStore
  import RentalEngine
  import MaintenanceEngine
  import LegacyRentals

  /** A rental that still holds its vehicle. */
  predicate Open(r: Rental) {
    r.rentalStatus == Apply || r.rentalStatus == Active
  }

  /** Rental `k` is open and holds vehicle `v`. */
  ghost predicate Holds(db: Db, k: int, v: int) {
    k in db.rentals && Open(db.rentals[k]) && db.rentals[k].vehicleId == Some(v)
  }

  ghost predicate VehicleIdsPositive(db: Db) {
    forall v :: v in db.vehicles ==> v > 0
  }

  ghost predicate RentalIdsBounded(db: Db) {
    forall k :: k in db.rentals ==> k <= db.rentalSeq
  }

  /** An open rental names an existing vehicle whose mileage it recorded at the start. */
  ghost predicate WellFormedOpen(db: Db, k: int)
    requires k in db.rentals
  {
    var r := db.rentals[k];
    r.vehicleId.Some? && r.vehicleId.value in db.vehicles
    && r.initialMileage.Some? && db.vehicles[r.vehicleId.value].mileage == r.initialMileage
  }

  ghost predicate OpenRentalsWellFormed(db: Db) {
    forall k :: k in db.rentals && Open(db.rentals[k]) ==> WellFormedOpen(db, k)
  }

  ghost predicate RentedIffHeld(db: Db) {
    forall v :: v in db.vehicles ==> (db.vehicles[v].status == Rented <==> exists k :: Holds(db, k, v))
  }

  ghost predicate OneHolderPerVehicle(db: Db) {
    forall k, j, v :: Holds(db, k, v) && Holds(db, j, v) ==> k == j
  }

  ghost predicate Consistent(db: Db) {
    && VehicleIdsPositive(db)
    && RentalIdsBounded(db)
    && OpenRentalsWellFormed(db)
    && RentedIffHeld(db)
    && OneHolderPerVehicle(db)
  }

  /** A store with no rentals whose vehicles are all positive-keyed and none rented. */
  lemma FreshStoreConsistent(db: Db)
    requires db.rentals == map[] && VehicleIdsPositive(db)
    requires forall v :: v in db.vehicles ==> db.vehicles[v].status != Rented
    ensures Consistent(db)
  {
  }

  // ---------------------------------------------------------------------
  // Three shapes of change the transitions are built from.
  // ---------------------------------------------------------------------

  /**
   * A vehicle that is not rented, so that no open rental holds it, may be
   * replaced by any row that is not rented either (status and mileage may
   * change).
   */
  lemma {:induction false} ReplaceFreeVehicle(db: Db, vid: int, row: Vehicle)
    requires Consistent(db)
    requires vid in db.vehicles && db.vehicles[vid].status != Rented && row.status != Rented
    ensures Consistent(db.(vehicles := db.vehicles[vid := row]))
  {
    var db' := db.(vehicles := db.vehicles[vid := row]);
    assert !exists k :: Holds(db, k, vid);
    forall k, v ensures Holds(db', k, v) <==> Holds(db, k, v) { }
    forall k | k in db'.rentals && Open(db'.rentals[k]) ensures WellFormedOpen(db', k) {
      assert WellFormedOpen(db, k);
      assert Holds(db, k, db.rentals[k].vehicleId.value);
    }
    forall v | v in db'.vehicles
      ensures db'.vehicles[v].status == Rented <==> exists k :: Holds(db', k, v)
    {
      if v != vid {
        assert db'.vehicles[v] == db.vehicles[v];
      }
    }
  }

  /** A rental that is not open may be rewritten as another row that is not open. */
  lemma {:induction false} ChangeClosedRental(db: Db, id: int, row: Rental)
    requires Consistent(db)
    requires id in db.rentals && !Open(db.rentals[id]) && !Open(row)
    ensures Consistent(db.(rentals := db.rentals[id := row]))
  {
    var db' := db.(rentals := db.rentals[id := row]);
    forall k, v ensures Holds(db', k, v) <==> Holds(db, k, v) { }
    forall k | k in db'.rentals && Open(db'.rentals[k]) ensures WellFormedOpen(db', k) {
      assert WellFormedOpen(db, k);
    }
  }

  /**
   * An open rental is written as a new open rental on an available
   * vehicle, which becomes "rented".
   */
  lemma {:induction false} OpenRental(db: Db, vid: int, row: Rental)
    requires Consistent(db)
    requires vid in db.vehicles && db.vehicles[vid].status == Available
    requires Open(row) && row.vehicleId == Some(vid)
    requires row.initialMileage.Some? && row.initialMileage == db.vehicles[vid].mileage
    ensures Consistent(db.(vehicles := db.vehicles[vid := db.vehicles[vid].(status := Rented)],
                           rentals := db.rentals[db.rentalSeq + 1 := row],
                           rentalSeq := db.rentalSeq + 1))
  {
    var n := db.rentalSeq + 1;
    var db' := db.(vehicles := db.vehicles[vid := db.vehicles[vid].(status := Rented)],
                   rentals := db.rentals[n := row], rentalSeq := n);
    assert n !in db.rentals;
    assert !exists k :: Holds(db, k, vid);
    forall k, v ensures Holds(db', k, v) <==> (Holds(db, k, v) || (k == n && v == vid)) { }
    forall k | k in db'.rentals && Open(db'.rentals[k]) ensures WellFormedOpen(db', k) {
      if k != n { assert WellFormedOpen(db, k); }
    }
    forall v | v in db'.vehicles
      ensures db'.vehicles[v].status == Rented <==> exists k :: Holds(db', k, v)
    {
      if v == vid {
        assert Holds(db', n, vid);
      } else {
        if exists k :: Holds(db', k, v) {
          var k :| Holds(db', k, v);
          assert Holds(db, k, v);
        }
      }
    }
  }

  /**
   * An open rental closes: its row becomes a non-open row and its vehicle
   * becomes some non-rented row (mileage may change).
   */
  lemma {:induction false} CloseRental(db: Db, id: int, closed: Rental, freed: Vehicle)
    requires Consistent(db)
    requires id in db.rentals && Open(db.rentals[id])
    requires !Open(closed) && freed.status != Rented
    ensures WellFormedOpen(db, id)
    ensures Consistent(db.(rentals := db.rentals[id := closed],
                           vehicles := db.vehicles[db.rentals[id].vehicleId.value := freed]))
  {
    assert WellFormedOpen(db, id);
    var vid := db.rentals[id].vehicleId.value;
    var db' := db.(rentals := db.rentals[id := closed], vehicles := db.vehicles[vid := freed]);
    assert Holds(db, id, vid);
    forall k, v ensures Holds(db', k, v) <==> (Holds(db, k, v) && k != id) { }
    forall k | k in db'.rentals && Open(db'.rentals[k]) ensures WellFormedOpen(db', k) {
      assert WellFormedOpen(db, k);
      assert k != id && Holds(db, k, db.rentals[k].vehicleId.value);
    }
    forall v | v in db'.vehicles
      ensures db'.vehicles[v].status == Rented <==> exists k :: Holds(db', k, v)
    {
      if exists k :: Holds(db', k, v) {
        var k :| Holds(db', k, v);
        assert Holds(db, k, v);
      }
    }
  }

  /** An open rental changes to another open status, keeping vehicle and mileage. */
  lemma {:induction false} KeepOpen(db: Db, id: int, row: Rental)
    requires Consistent(db)
    requires id in db.rentals && Open(db.rentals[id]) && Open(row)
    requires row.vehicleId == db.rentals[id].vehicleId && row.initialMileage == db.rentals[id].initialMileage
    ensures Consistent(db.(rentals := db.rentals[id := row]))
  {
    var db' := db.(rentals := db.rentals[id := row]);
    forall k, v ensures Holds(db', k, v) <==> Holds(db, k, v) { }
    forall k | k in db'.rentals && Open(db'.rentals[k]) ensures WellFormedOpen(db', k) {
      assert WellFormedOpen(db, k);
    }
  }

  /** A positive vehicle key is a truthy vehicle id. */
  lemma OpenVehicleIdTruthy(db: Db, id: int)
    requires Consistent(db) && id in db.rentals && Open(db.rentals[id])
    ensures TruthyInt(db.rentals[id].vehicleId) && db.rentals[id].vehicleId.value in db.vehicles
  {
    assert WellFormedOpen(db, id);
  }

  // ---------------------------------------------------------------------
  // Preservation by each corrected transition.
  // ---------------------------------------------------------------------

  lemma PlaceRentalPreserves(db: Db, vid: int, customerId: Option<int>, staffId: Option<int>,
                             status: string, days: nat, now: int)
    requires Consistent(db)
    requires status == Apply || status == Active
    ensures Consistent(RentalEngine.PlaceRental(db, vid, customerId, staffId, status, days, now).db)
  {
    if RentalEngine.Rentable(db.vehicles, vid) {
      var row := RentalStore.Stored(RentalEngine.NewRentalFor(db.vehicles[vid], vid, customerId, staffId, status, days, now));
      OpenRental(db, vid, row);
    }
  }

  lemma AddRentalPreserves(db: Db, staff: Lookup, vid: nat, customerId: nat, days: nat, now: int)
    requires Consistent(db)
    ensures Consistent(RentalEngine.AddRental(db, staff, vid, customerId, days, now).db)
  {
    if staff.Found? { PlaceRentalPreserves(db, vid, Some(customerId), Some(staff.id), Active, days, now); }
  }

  lemma BookRentalPreserves(db: Db, customer: Lookup, vid: nat, days: nat, now: int)
    requires Consistent(db)
    ensures Consistent(RentalEngine.BookRental(db, customer, vid, days, now).db)
  {
    if customer.Found? { PlaceRentalPreserves(db, vid, Some(customer.id), None, Apply, days, now); }
  }

  lemma AuditRentalPreserves(db: Db, id: nat, choice: RentalEngine.AuditChoice)
    requires Consistent(db)
    ensures Consistent(RentalEngine.AuditRental(db, id, choice).db)
  {
    if id in db.rentals && db.rentals[id].rentalStatus == Apply {
      var r := db.rentals[id];
      OpenVehicleIdTruthy(db, id);
      if choice == RentalEngine.Approve {
        KeepOpen(db, id, r.(rentalStatus := Active));
      } else {
        CloseRental(db, id, r.(rentalStatus := Reject), db.vehicles[r.vehicleId.value].(status := Available));
      }
    }
  }

  lemma CancelRentalPreserves(db: Db, id: nat)
    requires Consistent(db)
    ensures Consistent(RentalEngine.CancelRental(db, id).db)
  {
    if id in db.rentals && db.rentals[id].rentalStatus == Apply {
      var r := db.rentals[id];
      OpenVehicleIdTruthy(db, id);
      CloseRental(db, id, r.(rentalStatus := Cancelled), db.vehicles[r.vehicleId.value].(status := Available));
    }
  }

  lemma CompleteRentalPreserves(db: Db, id: nat, returnMileage: nat, now: int)
    requires Consistent(db)
    ensures Consistent(RentalEngine.CompleteRental(db, id, returnMileage, now).db)
  {
    var s := RentalEngine.CompleteRental(db, id, returnMileage, now);
    if s.outcome == Done {
      var r := db.rentals[id];
      OpenVehicleIdTruthy(db, id);
      var vid := r.vehicleId.value;
      CloseRental(db, id, r.(returnMileage := Some(returnMileage), actualReturnDate := Some(now), rentalStatus := Completed),
                  db.vehicles[vid].(mileage := Some(returnMileage), status := Available));
    }
  }

  /**
   * Completing an open rental never winds its vehicle's odometer back: the
   * new mileage is at least the mileage the vehicle had. This holds for the
   * completion as written whenever the rental is open, and for every
   * completion the corrected handler performs, since it completes only
   * "active" rentals.
   */
  lemma CompleteRentalMileageMonotone(db: Db, id: nat, returnMileage: nat, now: int)
    requires Consistent(db)
    requires RentalEngine.CompleteRentalAsWritten(db, id, returnMileage, now).outcome == Done
    ensures Open(db.rentals[id]) ==>
              var vid := db.rentals[id].vehicleId.value;
              && vid in db.vehicles && db.vehicles[vid].mileage.Some?
              && RentalEngine.CompleteRentalAsWritten(db, id, returnMileage, now).db.vehicles[vid].mileage == Some(returnMileage)
              && db.vehicles[vid].mileage.value <= returnMileage
    ensures RentalEngine.CompleteRental(db, id, returnMileage, now).outcome == Done ==>
              && Open(db.rentals[id])
              && RentalEngine.CompleteRental(db, id, returnMileage, now) == RentalEngine.CompleteRentalAsWritten(db, id, returnMileage, now)
  {
    if Open(db.rentals[id]) {
      assert WellFormedOpen(db, id);
    }
  }

  /**
   * Completing rental `id` as written would free a vehicle that another,
   * open rental holds: the rental is already closed and its vehicle is held.
   */
  ghost predicate StaleCompletion(db: Db, id: int) {
    id in db.rentals && !Open(db.rentals[id]) && db.rentals[id].vehicleId.Some?
    && exists k :: Holds(db, k, db.rentals[id].vehicleId.value)
  }

  /** The completion as written keeps the invariant unless it is a stale completion. */
  lemma CompleteRentalAsWrittenPreserves(db: Db, id: nat, returnMileage: nat, now: int)
    requires Consistent(db)
    ensures !StaleCompletion(db, id) ==> Consistent(RentalEngine.CompleteRentalAsWritten(db, id, returnMileage, now).db)
  {
    var s := RentalEngine.CompleteRentalAsWritten(db, id, returnMileage, now);
    if s.outcome == Done && !StaleCompletion(db, id) {
      var r := db.rentals[id];
      var vid := r.vehicleId.value;
      var closed := r.(returnMileage := Some(returnMileage), actualReturnDate := Some(now), rentalStatus := Completed);
      if Open(r) {
        OpenVehicleIdTruthy(db, id);
        CloseRental(db, id, closed, db.vehicles[vid].(mileage := Some(returnMileage), status := Available));
      } else {
        ChangeClosedRental(db, id, closed);
        var mid := db.(rentals := db.rentals[id := closed]);
        if vid in db.vehicles {
          assert !Holds(mid, id, vid);
          assert forall k :: Holds(mid, k, vid) ==> Holds(db, k, vid);
          ReplaceFreeVehicle(mid, vid, db.vehicles[vid].(mileage := Some(returnMileage), status := Available));
        }
      }
    }
  }

  /** The invariant does not look at the maintenance table. */
  lemma {:induction false} OnlyMaintenanceChanged(db: Db, db': Db)
    requires Consistent(db)
    requires db'.vehicles == db.vehicles && db'.rentals == db.rentals && db'.rentalSeq == db.rentalSeq
    ensures Consistent(db')
  {
    forall k, v ensures Holds(db', k, v) <==> Holds(db, k, v) { }
    forall k | k in db'.rentals && Open(db'.rentals[k]) ensures WellFormedOpen(db', k) {
      assert WellFormedOpen(db, k);
    }
  }

  lemma AddMaintenancePreserves(db: Db, staff: Lookup, vid: nat, description: string, cost: nat, notes: string, now: int)
    requires Consistent(db)
    ensures Consistent(MaintenanceEngine.AddMaintenance(db, staff, vid, description, cost, notes, now).db)
  {
    var s := MaintenanceEngine.AddMaintenance(db, staff, vid, description, cost, notes, now);
    if s.outcome == Done {
      var mid := db.(vehicles := db.vehicles[vid := db.vehicles[vid].(status := InMaintenance)]);
      ReplaceFreeVehicle(db, vid, db.vehicles[vid].(status := InMaintenance));
      OnlyMaintenanceChanged(mid, s.db);
    }
  }

  lemma CompleteMaintenancePreserves(db: Db, id: nat, now: int)
    requires Consistent(db)
    ensures Consistent(MaintenanceEngine.CompleteMaintenance(db, id, now).db)
  {
    var s := MaintenanceEngine.CompleteMaintenance(db, id, now);
    if id in db.maintenance && TruthyInt(db.maintenance[id].vehicleId) {
      var v := db.maintenance[id].vehicleId.value;
      if v in db.vehicles && db.vehicles[v].status == InMaintenance {
        var mid := db.(vehicles := db.vehicles[v := db.vehicles[v].(status := Available)]);
        ReplaceFreeVehicle(db, v, db.vehicles[v].(status := Available));
        OnlyMaintenanceChanged(mid, s.db);
        return;
      }
    }
    OnlyMaintenanceChanged(db, s.db);
  }

  /** Completing maintenance record `id` as written would free a rented vehicle. */
  ghost predicate FreesRentedVehicle(db: Db, id: int) {
    id in db.maintenance && db.maintenance[id].vehicleId.Some?
    && db.maintenance[id].vehicleId.value in db.vehicles
    && db.vehicles[db.maintenance[id].vehicleId.value].status == Rented
  }

  /** The maintenance completion as written keeps the invariant unless it frees a rented vehicle. */
  lemma CompleteMaintenanceAsWrittenPreserves(db: Db, id: nat, now: int)
    requires Consistent(db)
    ensures !FreesRentedVehicle(db, id) ==> Consistent(MaintenanceEngine.CompleteMaintenanceAsWritten(db, id, now).db)
  {
    var s := MaintenanceEngine.CompleteMaintenanceAsWritten(db, id, now);
    if !FreesRentedVehicle(db, id) {
      if id in db.maintenance && TruthyInt(db.maintenance[id].vehicleId) && db.maintenance[id].vehicleId.value in db.vehicles {
        var v := db.maintenance[id].vehicleId.value;
        var mid := db.(vehicles := db.vehicles[v := db.vehicles[v].(status := Available)]);
        ReplaceFreeVehicle(db, v, db.vehicles[v].(status := Available));
        OnlyMaintenanceChanged(mid, s.db);
      } else {
        OnlyMaintenanceChanged(db, s.db);
      }
    }
  }

  /**
   * The rental commands as `handle` dispatches them in the code as written
   * keep the store consistent, except a staff completion of a closed
   * rental whose vehicle is held (see Findings).
   */
  lemma HandleRentalCommandAsWrittenPreserves(db: Db, customers: map<int, string>, session: RentalEngine.Session,
                                              parts: seq<string>, input: RentalEngine.RentalInput)
    requires Consistent(db)
    ensures !(RentalEngine.RoutesToComplete(session, parts) && StaleCompletion(db, input.rentalId)) ==>
              Consistent(RentalEngine.HandleRentalCommandAsWritten(db, customers, session, parts, input).db)
  {
    if |parts| >= 2 {
      var sub := parts[1];
      if session.roleName == "customer" {
        if sub == "book" {
          BookRentalPreserves(db, session.customer, input.vehicleId, input.days, input.now);
        }
      } else if sub == "add" {
        AddRentalPreserves(db, session.staff, input.vehicleId, input.customerId, input.days, input.now);
      } else if sub == "audit" {
        AuditRentalPreserves(db, input.rentalId, input.choice);
      } else if sub == "complete" {
        CompleteRentalAsWrittenPreserves(db, input.rentalId, input.returnMileage, input.now);
      }
    }
  }

  /** Every rental command, as the corrected dispatcher runs it, keeps the store consistent. */
  lemma HandleRentalCommandPreserves(db: Db, customers: map<int, string>, session: RentalEngine.Session,
                                     parts: seq<string>, input: RentalEngine.RentalInput)
    requires Consistent(db)
    ensures Consistent(RentalEngine.HandleRentalCommand(db, customers, session, parts, input).db)
  {
    if RentalEngine.RoutesToCancel(parts) {
      CancelRentalPreserves(db, input.rentalId);
    } else if RentalEngine.RoutesToComplete(session, parts) {
      CompleteRentalPreserves(db, input.rentalId, input.returnMileage, input.now);
    } else {
      HandleRentalCommandAsWrittenPreserves(db, customers, session, parts, input);
    }
  }

  /**
   * The maintenance commands as `handle_command` dispatches them in the
   * code as written keep the store consistent, except a completion that
   * frees a rented vehicle (see Findings).
   */
  lemma HandleMaintenanceCommandAsWrittenPreserves(db: Db, staff: Lookup, parts: seq<string>,
                                                   input: MaintenanceEngine.MaintenanceInput)
    requires Consistent(db)
    ensures !(|parts| >= 2 && parts[1] == "complete" && FreesRentedVehicle(db, input.maintenanceId)) ==>
              Consistent(MaintenanceEngine.HandleMaintenanceCommandAsWritten(db, staff, parts, input).db)
  {
    if |parts| >= 2 {
      var sub := parts[1];
      var s := MaintenanceEngine.HandleMaintenanceCommandAsWritten(db, staff, parts, input);
      if sub == "add" {
        AddMaintenancePreserves(db, staff, input.vehicleId, input.description, input.cost, input.notes, input.now);
      } else if sub == "complete" {
        CompleteMaintenanceAsWrittenPreserves(db, input.maintenanceId, input.now);
      } else {
        OnlyMaintenanceChanged(db, s.db);
      }
    }
  }

  /** Every maintenance command, as the corrected dispatcher runs it, keeps the store consistent. */
  lemma HandleMaintenanceCommandPreserves(db: Db, staff: Lookup, parts: seq<string>, input: MaintenanceEngine.MaintenanceInput)
    requires Consistent(db)
    ensures Consistent(MaintenanceEngine.HandleMaintenanceCommand(db, staff, parts, input).db)
  {
    if |parts| >= 2 && parts[1] == "complete" {
      CompleteMaintenancePreserves(db, input.maintenanceId, input.now);
    } else {
      HandleMaintenanceCommandAsWrittenPreserves(db, staff, parts, input);
    }
  }

  // ---------------------------------------------------------------------
  // The older rental commands.
  // ---------------------------------------------------------------------

  /** The older booking keeps the invariant whenever the vehicle has a mileage to copy. */
  lemma LegacyAddRentalPreserves(db: Db, staff: Lookup, vid: nat, customerId: nat, days: nat, now: int)
    requires Consistent(db)
    ensures (vid in db.vehicles ==> db.vehicles[vid].mileage.Some?) ==>
              Consistent(LegacyRentals.LegacyAddRental(db, staff, vid, customerId, days, now).db)
  {
    var s := LegacyRentals.LegacyAddRental(db, staff, vid, customerId, days, now);
    if s.outcome == Done && db.vehicles[vid].mileage.Some? {
      var n := db.rentalSeq + 1;
      var row := s.db.rentals[n];
      assert s.db.rentals == db.rentals[n := row];
      OpenRental(db, vid, row);
    }
  }

  /** The older cancel with the vehicle released keeps the invariant. */
  lemma LegacyCancelCorrectedPreserves(db: Db, id: nat)
    requires Consistent(db)
    ensures Consistent(LegacyRentals.LegacyCancelRentalCorrected(db, id).db)
  {
    if id in db.rentals {
      var r := db.rentals[id];
      if Open(r) {
        OpenVehicleIdTruthy(db, id);
        CloseRental(db, id, r.(rentalStatus := Cancelled), db.vehicles[r.vehicleId.value].(status := Available));
      } else {
        ChangeClosedRental(db, id, r.(rentalStatus := Cancelled));
      }
    }
  }

  /**
   * The older dispatcher keeps the invariant except on three inputs: a
   * booking that copies a None mileage, a cancel of an open rental (which
   * strands its vehicle), and a stale completion.
   */
  ghost predicate LegacyBreaks(db: Db, parts: seq<string>, input: LegacyRentals.LegacyInput) {
    |parts| >= 2 &&
    ( || (parts[1] == "add" && input.vehicleId in db.vehicles && db.vehicles[input.vehicleId].mileage.None?)
      || (parts[1] == "cancel" && input.rentalId in db.rentals && Open(db.rentals[input.rentalId]))
      || (parts[1] == "complete" && StaleCompletion(db, input.rentalId)))
  }

  lemma LegacyHandleCommandPreserves(db: Db, customers: map<int, string>, staff: Lookup, parts: seq<string>,
                                     input: LegacyRentals.LegacyInput)
    requires Consistent(db)
    ensures !LegacyBreaks(db, parts, input) ==>
              Consistent(LegacyRentals.LegacyHandleCommand(db, customers, staff, parts, input).db)
  {
    if |parts| >= 2 && !LegacyBreaks(db, parts, input) {
      var sub := parts[1];
      if sub == "add" {
        LegacyAddRentalPreserves(db, staff, input.vehicleId, input.customerId, input.days, input.now);
      } else if sub == "complete" {
        CompleteRentalAsWrittenPreserves(db, input.rentalId, input.returnMileage, input.now);
      } else if sub == "cancel" && input.rentalId in db.rentals {
        ChangeClosedRental(db, input.rentalId, db.rentals[input.rentalId].(rentalStatus := Cancelled));
      }
    }
  }
}
