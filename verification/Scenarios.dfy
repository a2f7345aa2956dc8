/**
 * Worked scenarios on a one-vehicle fleet: the first demonstration
 * vehicle (a Toyota Camry at 15000 miles, 45.00 a day).
 */
module Scenarios {
  import opened Base
  import opened Records
  import opened Outcomes
  import opened Consistency
  import VehicleStore
  import RentalEngine
  import MaintenanceEngine
  import Findings

  const Camry: Vehicle := VehicleStore.SeedRows[0].vehicle

  /** The Camry under id 1, nothing else. */
  const Fleet: Db := Db(map[1 := Camry], map[], 0, map[], 0)

  const Day: int := SecondsPerDay

  /** 3000-01-01 00:00:00 in seconds since 1970-01-01: any earlier clock reading books short rentals. */
  const Year3000: int := 32503680000

  lemma FleetConsistent()
    ensures Consistent(Fleet)
    ensures Camry.mileage == Some(15000) && Camry.dailyRate == Some(4500) && Camry.status == Available
  {
    FreshStoreConsistent(Fleet);
  }

  /** Staff booking: two days on vehicle 1 for customer 2 by staff 3. */
  lemma StaffBooking(now: int)
    requires now < Year3000
    ensures var s := RentalEngine.AddRental(Fleet, Found(3), 1, 2, 2, now);
            && s.outcome == Done
            && s.db.rentals[1].rentalStatus == Active
            && s.db.rentals[1].initialMileage == Some(15000)
            && s.db.rentals[1].totalCost == Some(9000)
            && s.db.rentals[1].staffId == Some(3) && s.db.rentals[1].customerId == Some(2)
            && s.db.rentals[1].expectedReturnDate == Some(now + 2 * Day)
            && s.db.vehicles[1].status == Rented
  {
  }

  /** The cost is the daily rate times the days: 45.00 for 3 days is 135.00. */
  lemma ThreeDayCost(now: int)
    requires now < Year3000
    ensures RentalEngine.AddRental(Fleet, Found(3), 1, 2, 3, now).db.rentals[1].totalCost == Some(13500)
  {
  }

  /** A duration of 0 days passes `validate_digit` and books a free, same-day rental. */
  lemma ZeroDayRental(now: int)
    requires now < Year3000
    ensures var s := RentalEngine.AddRental(Fleet, Found(3), 1, 2, 0, now);
            && s.outcome == Done
            && s.db.rentals[1].totalCost == Some(0)
            && s.db.rentals[1].expectedReturnDate == s.db.rentals[1].startDate
  {
  }

  /** A vehicle already rented cannot be booked again; nothing is written. */
  lemma DoubleBookingRefused(now: int, later: int)
    requires now < Year3000 && later < Year3000
    ensures var first := RentalEngine.AddRental(Fleet, Found(3), 1, 2, 2, now).db;
            RentalEngine.BookRental(first, Found(5), 1, 1, later) == Step(first, Refused(VehicleUnavailable))
  {
  }

  /** Customer booking then rejection: the application is rejected and the vehicle released. */
  lemma BookThenReject(now: int)
    requires now < Year3000
    ensures var booked := RentalEngine.BookRental(Fleet, Found(2), 1, 2, now);
            var audited := RentalEngine.AuditRental(booked.db, 1, RentalEngine.Decline);
            && booked.outcome == Done
            && booked.db.rentals[1].rentalStatus == Apply && booked.db.rentals[1].staffId.None?
            && booked.db.vehicles[1].status == Rented
            && audited.outcome == Done
            && audited.db.rentals[1].rentalStatus == Reject
            && audited.db.vehicles[1] == Camry
  {
    var booked := RentalEngine.BookRental(Fleet, Found(2), 1, 2, now);
    assert booked.db.vehicles[1].(status := Available) == Camry;
  }

  /** Completion at 15200 closes the rental; at 14900 it is refused and nothing changes. */
  lemma Completion(now: int, later: int)
    requires now < Year3000
    ensures var rented := RentalEngine.AddRental(Fleet, Found(3), 1, 2, 2, now).db;
            var done := RentalEngine.CompleteRental(rented, 1, 15200, later);
            && done.outcome == Done
            && done.db.rentals[1].rentalStatus == Completed
            && done.db.rentals[1].returnMileage == Some(15200)
            && done.db.rentals[1].actualReturnDate == Some(later)
            && done.db.vehicles[1].mileage == Some(15200)
            && done.db.vehicles[1].status == Available
    ensures var rented := RentalEngine.AddRental(Fleet, Found(3), 1, 2, 2, now).db;
            RentalEngine.CompleteRental(rented, 1, 14900, later) == Step(rented, Refused(MileageRegression))
  {
  }

  /**
   * From the fleet through corrected commands: rent, return, rent again.
   * Completing the first rental a second time, as written, frees the
   * vehicle under the second rental and winds its mileage back.
   */
  lemma RecompletionFromFleet(t1: int, t2: int, t3: int, t4: int)
    requires t1 < Year3000 && t3 < Year3000
    ensures var a := RentalEngine.AddRental(Fleet, Found(3), 1, 2, 1, t1).db;
            var b := RentalEngine.CompleteRental(a, 1, 15200, t2).db;
            var c := RentalEngine.AddRental(b, Found(3), 1, 4, 1, t3).db;
            var d := RentalEngine.CompleteRentalAsWritten(c, 1, 15100, t4);
            && Consistent(c)
            && d.outcome == Done
            && d.db.vehicles[1].status == Available && d.db.rentals[2].rentalStatus == Active
            && d.db.vehicles[1].mileage == Some(15100)
            && c.vehicles[1].mileage == Some(15200)
            && !Consistent(d.db)
  {
    FleetConsistent();
    var a := RentalEngine.AddRental(Fleet, Found(3), 1, 2, 1, t1).db;
    AddRentalPreserves(Fleet, Found(3), 1, 2, 1, t1);
    var b := RentalEngine.CompleteRental(a, 1, 15200, t2).db;
    CompleteRentalPreserves(a, 1, 15200, t2);
    var c := RentalEngine.AddRental(b, Found(3), 1, 4, 1, t3).db;
    AddRentalPreserves(b, Found(3), 1, 4, 1, t3);
    assert Holds(c, 2, 1);
    Findings.CompletingClosedRentalFreesRentedVehicle(c, 1, 2, 15100, t4);
  }

  /**
   * From the fleet: maintain, finish, rent out, then complete the same
   * maintenance record again as written; the rented vehicle is freed.
   */
  lemma MaintenanceRecompletionFromFleet(t1: int, t2: int, t3: int, t4: int)
    requires t3 < Year3000
    ensures var a := MaintenanceEngine.AddMaintenance(Fleet, Found(3), 1, "oil", 5000, "", t1).db;
            var b := MaintenanceEngine.CompleteMaintenance(a, 1, t2).db;
            var c := RentalEngine.AddRental(b, Found(3), 1, 2, 1, t3).db;
            var d := MaintenanceEngine.CompleteMaintenanceAsWritten(c, 1, t4);
            && Consistent(c)
            && d.outcome == Done
            && d.db.vehicles[1].status == Available && d.db.rentals[1].rentalStatus == Active
            && !Consistent(d.db)
  {
    FleetConsistent();
    var a := MaintenanceEngine.AddMaintenance(Fleet, Found(3), 1, "oil", 5000, "", t1).db;
    AddMaintenancePreserves(Fleet, Found(3), 1, "oil", 5000, "", t1);
    var b := MaintenanceEngine.CompleteMaintenance(a, 1, t2).db;
    CompleteMaintenancePreserves(a, 1, t2);
    assert b.vehicles[1] == Camry;
    var c := RentalEngine.AddRental(b, Found(3), 1, 2, 1, t3).db;
    AddRentalPreserves(b, Found(3), 1, 2, 1, t3);
    assert Holds(c, 1, 1);
    Findings.CompletingMaintenanceFreesRentedVehicle(c, 1, 1, t4);
  }
}
