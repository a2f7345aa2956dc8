/**
 * The `vehicles` table and its repository (app/repository/vehicles.py; the
 * repository of car_rental_system is the same code, and the older
 * repository/vehicles.py differs only in calling `make` "brand").
 *
 * Writes follow SQLite: an UPDATE of an absent id touches no row and
 * succeeds; constraints are checked only on rows actually written.
 */
module VehicleStore {
  import opened Base
  import opened Records

  /** `update_status`: rewrite the status of one row, subject to the CHECK constraint. */
  function UpdateStatus(vs: map<int, Vehicle>, id: int, status: string): (r: Result<map<int, Vehicle>>)
    ensures r.Err? <==> id in vs && !IsVehicleStatus(status)
    ensures r.Err? ==> r.fault == CheckViolation
    ensures r.Ok? ==> r.value.Keys == vs.Keys
    ensures r.Ok? ==> forall k :: k in vs && k != id ==> r.value[k] == vs[k]
    ensures r.Ok? && id in vs ==> r.value[id] == vs[id].(status := status)
  {
    if id !in vs then Ok(vs)
    else if !IsVehicleStatus(status) then Err(CheckViolation)
    else Ok(vs[id := vs[id].(status := status)])
  }

  /** Writing the same status twice is the same as writing it once. */
  lemma UpdateStatusIdempotent(vs: map<int, Vehicle>, id: int, status: string)
    requires UpdateStatus(vs, id, status).Ok?
    ensures UpdateStatus(UpdateStatus(vs, id, status).value, id, status) == UpdateStatus(vs, id, status)
  {
    if id in vs {
      var once := UpdateStatus(vs, id, status).value;
      assert once[id].(status := status) == once[id];
      assert once[id := once[id]] == once;
    }
  }

  /** `update_after_return`: mileage := return mileage and status := available, nothing else. */
  function UpdateAfterReturn(vs: map<int, Vehicle>, id: int, returnMileage: int): (r: map<int, Vehicle>)
    ensures r.Keys == vs.Keys
    ensures forall k :: k in vs && k != id ==> r[k] == vs[k]
    ensures id in vs ==> r[id] == vs[id].(mileage := Some(returnMileage), status := Available)
  {
    if id in vs then vs[id := vs[id].(mileage := Some(returnMileage), status := Available)] else vs
  }

  /** Field-wise `new or current`: a falsy new value keeps the current one. */
  function Merge(current: Vehicle, patch: Vehicle): (m: Vehicle)
    ensures m.make == OrStr(patch.make, current.make)
    ensures m.model == OrStr(patch.model, current.model)
    ensures m.year == OrInt(patch.year, current.year)
    ensures m.licensePlate == OrStr(patch.licensePlate, current.licensePlate)
    ensures m.mileage == OrInt(patch.mileage, current.mileage)
    ensures m.dailyRate == OrInt(patch.dailyRate, current.dailyRate)
    ensures m.description == OrStr(patch.description, current.description)
    ensures m.status == OrStr(patch.status, current.status)
  {
    Vehicle(
      OrStr(patch.make, current.make),
      OrStr(patch.model, current.model),
      OrInt(patch.year, current.year),
      OrStr(patch.licensePlate, current.licensePlate),
      OrInt(patch.mileage, current.mileage),
      OrInt(patch.dailyRate, current.dailyRate),
      OrStr(patch.description, current.description),
      OrStr(patch.status, current.status))
  }

  /** Some other vehicle already carries `plate`. */
  predicate PlateTakenByOther(vs: map<int, Vehicle>, id: int, plate: string) {
    exists k :: k in vs && k != id && vs[k].licensePlate == plate
  }

  /**
   * `update_vehicle`: ValueError for a missing id; otherwise the merged row
   * is written unless it breaks the status CHECK or the plate UNIQUE
   * constraint.
   */
  function UpdateVehicle(vs: map<int, Vehicle>, id: int, patch: Vehicle): (r: Result<map<int, Vehicle>>)
    ensures id !in vs ==> r == Err(RowNotFound)
    ensures r.Ok? ==> id in vs && r.value.Keys == vs.Keys
    ensures r.Ok? ==> forall k :: k in vs && k != id ==> r.value[k] == vs[k]
    ensures r.Ok? ==> r.value[id] == Merge(vs[id], patch)
    ensures id in vs ==>
              (r.Err? <==> !IsVehicleStatus(Merge(vs[id], patch).status)
                           || PlateTakenByOther(vs, id, Merge(vs[id], patch).licensePlate))
    ensures id in vs && !IsVehicleStatus(Merge(vs[id], patch).status) ==> r == Err(CheckViolation)
    ensures id in vs && IsVehicleStatus(Merge(vs[id], patch).status) ==>
              PlateTakenByOther(vs, id, Merge(vs[id], patch).licensePlate) ==> r == Err(UniqueViolation)
  {
    if id !in vs then Err(RowNotFound)
    else
      var merged := Merge(vs[id], patch);
      if !IsVehicleStatus(merged.status) then Err(CheckViolation)
      else if PlateTakenByOther(vs, id, merged.licensePlate) then Err(UniqueViolation)
      else Ok(vs[id := merged])
  }

  /** A patch whose every field is falsy. */
  const EmptyPatch: Vehicle := Vehicle("", "", None, "", None, None, "", "")

  /** The stored rows satisfy the table's CHECK and UNIQUE constraints. */
  ghost predicate RowsValid(vs: map<int, Vehicle>) {
    && (forall k :: k in vs ==> IsVehicleStatus(vs[k].status))
    && (forall k, j :: k in vs && j in vs && k != j ==> vs[k].licensePlate != vs[j].licensePlate)
  }

  /** Updating with nothing filled in rewrites the row with its own values. */
  lemma EmptyPatchKeepsRow(vs: map<int, Vehicle>, id: int)
    requires id in vs && RowsValid(vs)
    ensures UpdateVehicle(vs, id, EmptyPatch) == Ok(vs)
  {
    var row := vs[id];
    assert Merge(row, EmptyPatch) == row;
    assert !PlateTakenByOther(vs, id, row.licensePlate);
    assert vs[id := row] == vs;
  }

  /** Applying the same patch twice leaves the row as applying it once. */
  lemma MergeIdempotent(current: Vehicle, patch: Vehicle)
    ensures Merge(Merge(current, patch), patch) == Merge(current, patch)
  {
  }

  /** A mileage of 0 in the patch is falsy and keeps the stored mileage. */
  lemma ZeroMileageKept(current: Vehicle, patch: Vehicle)
    requires patch.mileage == Some(0)
    ensures Merge(current, patch).mileage == current.mileage
  {
  }

  /**
   * `get_vehicles`: rows whose make contains `search` and, when `status`
   * is non-empty, whose status equals it. The rows are returned keyed by id;
   * the query has no ORDER BY.
   */
  function GetVehicles(vs: map<int, Vehicle>, search: string, status: string): (r: map<int, Vehicle>)
    ensures forall k :: k in r <==> k in vs && Contains(vs[k].make, search) && (status != "" ==> vs[k].status == status)
    ensures forall k :: k in r ==> r[k] == vs[k]
  {
    map k | k in vs && Contains(vs[k].make, search) && (status == "" || vs[k].status == status) :: vs[k]
  }

  /** The older repository's `get`: only the brand filter. */
  function SearchByBrand(vs: map<int, Vehicle>, search: string): (r: map<int, Vehicle>)
    ensures forall k :: k in r <==> k in vs && Contains(vs[k].make, search)
    ensures forall k :: k in r ==> r[k] == vs[k]
  {
    GetVehicles(vs, search, "")
  }

  /** With no filters every vehicle is listed. */
  lemma UnfilteredListsAll(vs: map<int, Vehicle>)
    ensures GetVehicles(vs, "", "") == vs
  {
    forall k | k in vs ensures Contains(vs[k].make, "") {
      EmptyFilterMatchesAll(vs[k].make);
    }
  }

  // ---------------------------------------------------------------------
  // create_table: ten demonstration vehicles, each inserted with
  // INSERT OR IGNORE (skipped when its id or its plate is already taken).
  // ---------------------------------------------------------------------

  datatype SeedRow = SeedRow(id: int, vehicle: Vehicle)

  function Demo(make: string, model: string, year: int, plate: string, mileage: int, rate: int, description: string): Vehicle {
    Vehicle(make, model, Some(year), plate, Some(mileage), Some(rate * 100), description, Available)
  }

  const SeedRows: seq<SeedRow> := [
    SeedRow(1, Demo("Toyota", "Camry", 2022, "ABC123", 15000, 45, "Comfortable midsize sedan with excellent fuel economy")),
    SeedRow(2, Demo("Honda", "CR-V", 2021, "XYZ789", 25000, 55, "Popular compact SUV with plenty of cargo space")),
    SeedRow(3, Demo("Ford", "Mustang", 2023, "MUS555", 5000, 75, "Sporty muscle car with powerful engine")),
    SeedRow(4, Demo("BMW", "3 Series", 2022, "BMW444", 20000, 85, "Luxury sedan with premium features")),
    SeedRow(5, Demo("Tesla", "Model 3", 2023, "TSL789", 10000, 95, "Electric vehicle with advanced autopilot")),
    SeedRow(6, Demo("Mercedes", "C-Class", 2021, "MRC123", 30000, 80, "Elegant luxury sedan requiring scheduled service")),
    SeedRow(7, Demo("Audi", "Q5", 2022, "AUD456", 18000, 75, "Premium SUV under routine maintenance")),
    SeedRow(8, Demo("Volkswagen", "Golf", 2022, "VWG123", 12000, 40, "Compact hatchback with great handling")),
    SeedRow(9, Demo("Hyundai", "Tucson", 2023, "HYN789", 8100, 50, "Modern SUV with latest safety features")),
    SeedRow(10, Demo("Chevrolet", "Malibu", 2022, "CHV456", 22000, 45, "Reliable family sedan with good fuel efficiency"))
  ]

  predicate PlateTaken(vs: map<int, Vehicle>, plate: string) {
    exists k :: k in vs && vs[k].licensePlate == plate
  }

  /** The row is already present, or would conflict and be ignored. */
  predicate Settled(vs: map<int, Vehicle>, row: SeedRow) {
    row.id in vs || PlateTaken(vs, row.vehicle.licensePlate)
  }

  function InsertOrIgnore(vs: map<int, Vehicle>, row: SeedRow): (r: map<int, Vehicle>)
    ensures Settled(vs, row) ==> r == vs
    ensures !Settled(vs, row) ==> r == vs[row.id := row.vehicle]
  {
    if Settled(vs, row) then vs else vs[row.id := row.vehicle]
  }

  /** Insert the rows in order, each with INSERT OR IGNORE. */
  function InsertAllOrIgnore(vs: map<int, Vehicle>, rows: seq<SeedRow>): (r: map<int, Vehicle>)
    ensures vs.Keys <= r.Keys
    ensures forall k :: k in vs ==> r[k] == vs[k]
    decreases |rows|
  {
    if |rows| == 0 then vs else InsertAllOrIgnore(InsertOrIgnore(vs, rows[0]), rows[1..])
  }

  /** `create_table`'s seeding step. */
  function SeedFleet(vs: map<int, Vehicle>): (r: map<int, Vehicle>)
    ensures vs.Keys <= r.Keys
    ensures forall k :: k in vs ==> r[k] == vs[k]
  {
    InsertAllOrIgnore(vs, SeedRows)
  }

  /** Once settled, a row stays settled as rows are added. */
  lemma SettledGrows(vs: map<int, Vehicle>, ws: map<int, Vehicle>, row: SeedRow)
    requires Settled(vs, row)
    requires vs.Keys <= ws.Keys && forall k :: k in vs ==> ws[k] == vs[k]
    ensures Settled(ws, row)
  {
    if row.id !in vs {
      var k :| k in vs && vs[k].licensePlate == row.vehicle.licensePlate;
      assert k in ws && ws[k].licensePlate == row.vehicle.licensePlate;
    }
  }

  /** After one pass every seed row is settled. */
  lemma {:induction false} AllSettledAfter(vs: map<int, Vehicle>, rows: seq<SeedRow>)
    ensures forall i :: 0 <= i < |rows| ==> Settled(InsertAllOrIgnore(vs, rows), rows[i])
    decreases |rows|
  {
    if |rows| > 0 {
      var first := InsertOrIgnore(vs, rows[0]);
      var r := InsertAllOrIgnore(first, rows[1..]);
      AllSettledAfter(first, rows[1..]);
      assert Settled(first, rows[0]) by {
        if !Settled(vs, rows[0]) { assert rows[0].id in first; }
      }
      SettledGrows(first, r, rows[0]);
      forall i | 1 <= i < |rows| ensures Settled(r, rows[i]) {
        assert rows[i] == rows[1..][i - 1];
      }
    }
  }

  /** A pass over rows that are all settled changes nothing. */
  lemma {:induction false} SettledPassIsNoOp(vs: map<int, Vehicle>, rows: seq<SeedRow>)
    requires forall i :: 0 <= i < |rows| ==> Settled(vs, rows[i])
    ensures InsertAllOrIgnore(vs, rows) == vs
    decreases |rows|
  {
    if |rows| > 0 {
      assert Settled(vs, rows[0]);
      forall i | 0 <= i < |rows[1..]| ensures Settled(vs, rows[1..][i]) {
        assert rows[1..][i] == rows[i + 1];
      }
      SettledPassIsNoOp(vs, rows[1..]);
    }
  }

  /** Running `create_table` twice seeds the same fleet as running it once. */
  lemma SeedFleetIdempotent(vs: map<int, Vehicle>)
    ensures SeedFleet(SeedFleet(vs)) == SeedFleet(vs)
  {
    AllSettledAfter(vs, SeedRows);
    SettledPassIsNoOp(SeedFleet(vs), SeedRows);
  }
}
