/**
 * Where the handlers as written break the consistency invariant, and
 * what the corrected handlers do on the same inputs.
 */
module Findings {
  import opened Base
  import opened Records
  import opened Outcomes
  import opened Consistency
  import RentalEngine
  import MaintenanceEngine
  import LegacyRentals

  /**
   * `complete_rental` as written, on a rental that is already closed while
   * another open rental holds the same vehicle: it succeeds, frees the
   * vehicle under the open rental and resets its mileage. The corrected
   * handler refuses and writes nothing.
   */
  lemma CompletingClosedRentalFreesRentedVehicle(db: Db, id: nat, holder: int, returnMileage: nat, now: int)
    requires Consistent(db)
    requires id in db.rentals && !Open(db.rentals[id]) && db.rentals[id].vehicleId.Some?
    requires db.rentals[id].initialMileage.Some? && db.rentals[id].initialMileage.value <= returnMileage
    requires Holds(db, holder, db.rentals[id].vehicleId.value)
    ensures var vid := db.rentals[id].vehicleId.value;
            var s := RentalEngine.CompleteRentalAsWritten(db, id, returnMileage, now);
            && s.outcome == Done
            && s.db.vehicles[vid].status == Available
            && s.db.vehicles[vid].mileage == Some(returnMileage)
            && Holds(s.db, holder, vid)
            && !Consistent(s.db)
    ensures RentalEngine.CompleteRental(db, id, returnMileage, now) == Step(db, Refused(StatusChanged))
  {
    var vid := db.rentals[id].vehicleId.value;
    assert WellFormedOpen(db, holder);
    var s := RentalEngine.CompleteRentalAsWritten(db, id, returnMileage, now);
    assert holder != id;
    assert Holds(s.db, holder, vid);
    assert !RentedIffHeld(s.db) by {
      assert vid in s.db.vehicles && s.db.vehicles[vid].status != Rented;
    }
  }

  /**
   * Re-completing a closed rental can move the odometer backwards: the
   * holder's recorded start mileage ends up above the vehicle's mileage.
   */
  lemma CompletingClosedRentalCanLowerMileage(db: Db, id: nat, holder: int, returnMileage: nat, now: int)
    requires Consistent(db)
    requires id in db.rentals && !Open(db.rentals[id]) && db.rentals[id].vehicleId.Some?
    requires db.rentals[id].initialMileage.Some? && db.rentals[id].initialMileage.value <= returnMileage
    requires Holds(db, holder, db.rentals[id].vehicleId.value)
    requires returnMileage < db.rentals[holder].initialMileage.value
    ensures var vid := db.rentals[id].vehicleId.value;
            var s := RentalEngine.CompleteRentalAsWritten(db, id, returnMileage, now);
            s.db.vehicles[vid].mileage.value < db.vehicles[vid].mileage.value
  {
    assert WellFormedOpen(db, holder);
    CompletingClosedRentalFreesRentedVehicle(db, id, holder, returnMileage, now);
  }

  /**
   * `cancel_rental` as written never cancels: on every application it
   * raises at the status write, so the application stays "apply" and its
   * vehicle stays "rented". The corrected handler cancels it and frees the
   * vehicle, keeping the store consistent.
   */
  lemma CancelAsWrittenStrandsApplication(db: Db, id: nat)
    requires Consistent(db)
    requires id in db.rentals && db.rentals[id].rentalStatus == Apply
    ensures var vid := db.rentals[id].vehicleId.value;
            && RentalEngine.CancelRentalAsWritten(db, id) == Step(db, Crashed(CheckViolation))
            && vid in db.vehicles && db.vehicles[vid].status == Rented
    ensures var vid := db.rentals[id].vehicleId.value;
            var s := RentalEngine.CancelRental(db, id);
            && s.outcome == Done
            && s.db.rentals[id].rentalStatus == Cancelled
            && s.db.vehicles[vid].status == Available
            && Consistent(s.db)
  {
    OpenVehicleIdTruthy(db, id);
    assert Holds(db, id, db.rentals[id].vehicleId.value);
    CancelRentalPreserves(db, id);
  }

  /**
   * The older `cancel_rental` on an open rental: the rental is cancelled
   * but its vehicle stays "rented" with no rental holding it. The older
   * cancel with the vehicle released makes it "available" and keeps the
   * store consistent.
   */
  lemma LegacyCancelStrandsVehicle(db: Db, id: nat)
    requires Consistent(db)
    requires id in db.rentals && Open(db.rentals[id])
    ensures var vid := db.rentals[id].vehicleId.value;
            var s := LegacyRentals.LegacyCancelRental(db, id);
            && s.db.vehicles[vid].status == Rented
            && !(exists k :: Holds(s.db, k, vid))
            && !Consistent(s.db)
    ensures var vid := db.rentals[id].vehicleId.value;
            var s := LegacyRentals.LegacyCancelRentalCorrected(db, id);
            && s.db.rentals[id].rentalStatus == Cancelled
            && s.db.vehicles[vid].status == Available
            && Consistent(s.db)
  {
    OpenVehicleIdTruthy(db, id);
    LegacyCancelCorrectedPreserves(db, id);
    assert WellFormedOpen(db, id);
    var vid := db.rentals[id].vehicleId.value;
    var s := LegacyRentals.LegacyCancelRental(db, id);
    assert Holds(db, id, vid);
    forall k | Holds(s.db, k, vid) ensures false {
      assert k != id && Holds(db, k, vid);
    }
  }

  /**
   * `complete_maintenance` as written, on a record whose vehicle has since
   * been rented out: the vehicle becomes "available" under an open
   * rental. The corrected handler leaves it "rented" and keeps the store
   * consistent.
   */
  lemma CompletingMaintenanceFreesRentedVehicle(db: Db, id: nat, holder: int, now: int)
    requires Consistent(db)
    requires id in db.maintenance && db.maintenance[id].vehicleId.Some?
    requires Holds(db, holder, db.maintenance[id].vehicleId.value)
    ensures var vid := db.maintenance[id].vehicleId.value;
            var s := MaintenanceEngine.CompleteMaintenanceAsWritten(db, id, now);
            && s.outcome == Done
            && s.db.vehicles[vid].status == Available
            && Holds(s.db, holder, vid)
            && !Consistent(s.db)
    ensures var vid := db.maintenance[id].vehicleId.value;
            var s := MaintenanceEngine.CompleteMaintenance(db, id, now);
            && s.outcome == Done
            && s.db.vehicles[vid].status == Rented
            && Consistent(s.db)
  {
    var vid := db.maintenance[id].vehicleId.value;
    assert WellFormedOpen(db, holder);
    assert vid in db.vehicles && vid > 0;
    var s := MaintenanceEngine.CompleteMaintenanceAsWritten(db, id, now);
    assert Holds(s.db, holder, vid);
    assert !RentedIffHeld(s.db) by {
      assert vid in s.db.vehicles && s.db.vehicles[vid].status != Rented;
    }
    assert db.vehicles[vid].status == Rented;
    CompleteMaintenancePreserves(db, id, now);
  }
}
