/**
 * The `maintenance` table and its repository
 * (car_rental_system/repository/maintenance.py). The table declares no
 * CHECK or NOT NULL constraint, so none of its writes can fail.
 */
module MaintenanceStore {
  import opened Base
  import opened Records
  import opened Ordering

  /** `add`: INSERT of all eight columns under the next AUTOINCREMENT id. */
  function Add(ms: map<int, Maintenance>, lastId: int, rec: Maintenance): (r: (map<int, Maintenance>, int))
    ensures r.1 == lastId + 1
    ensures r.0.Keys == ms.Keys + {lastId + 1}
    ensures r.0[lastId + 1] == rec
    ensures forall k :: k in ms && k != lastId + 1 ==> r.0[k] == ms[k]
    ensures (forall k :: k in ms ==> k <= lastId) ==> lastId + 1 !in ms
  {
    (ms[lastId + 1 := rec], lastId + 1)
  }

  /**
   * `update_status(id, status, completion_date=None)`: overwrites exactly
   * the status and the completion date; an unknown id is a no-op.
   */
  function UpdateStatus(ms: map<int, Maintenance>, id: int, status: string, completionDate: Option<int>): (r: map<int, Maintenance>)
    ensures r.Keys == ms.Keys
    ensures forall k :: k in ms && k != id ==> r[k] == ms[k]
    ensures id in ms ==> r[id] == ms[id].(status := status, completionDate := completionDate)
  {
    if id in ms then ms[id := ms[id].(status := status, completionDate := completionDate)] else ms
  }

  /** Starting then completing a record leaves it as completing it directly would. */
  lemma LaterStatusWins(ms: map<int, Maintenance>, id: int, s1: string, d1: Option<int>, s2: string, d2: Option<int>)
    ensures UpdateStatus(UpdateStatus(ms, id, s1, d1), id, s2, d2) == UpdateStatus(ms, id, s2, d2)
  {
    if id in ms {
      var once := UpdateStatus(ms, id, s1, d1);
      assert once[id := once[id].(status := s2, completionDate := d2)] == ms[id := ms[id].(status := s2, completionDate := d2)];
    }
  }

  // ---------------------------------------------------------------------
  // Listing: records joined with their vehicle, latest maintenance date
  // first; records without a date (SQL NULL) sort last under DESC.
  // ---------------------------------------------------------------------

  /** One row of the listing query. */
  datatype MaintenanceDetail = MaintenanceDetail(
    maintenanceId: int,
    make: string,
    model: string,
    licensePlate: string,
    description: string,
    maintenanceDate: Option<int>,
    cost: Option<int>,
    status: string,
    completionDate: Option<int>,
    notes: string)

  /** The inner join: the record's vehicle row exists. */
  predicate Joined(db: Db, id: int) {
    && id in db.maintenance
    && db.maintenance[id].vehicleId.Some?
    && db.maintenance[id].vehicleId.value in db.vehicles
  }

  /** The query's row selection: joined, and the status contains the filter. */
  predicate Listed(db: Db, status: string, id: int) {
    Joined(db, id) && Contains(db.maintenance[id].status, status)
  }

  predicate Dated(db: Db, id: int) {
    id in db.maintenance && db.maintenance[id].maintenanceDate.Some?
  }

  /** The sort key of a record: its date, or 0 where it has none. */
  function DateKey(db: Db, id: int): int {
    if Dated(db, id) then db.maintenance[id].maintenanceDate.value else 0
  }

  function DetailOf(db: Db, id: int): MaintenanceDetail
    requires Joined(db, id)
  {
    var m := db.maintenance[id];
    var v := db.vehicles[m.vehicleId.value];
    MaintenanceDetail(id, v.make, v.model, v.licensePlate, m.description, m.maintenanceDate,
                      m.cost, m.status, m.completionDate, m.notes)
  }

  /** The selected records that have a date, latest first (ties in any order). */
  function DatedIds(db: Db, status: string): (ids: seq<int>)
    ensures forall id :: id in ids <==> Listed(db, status, id) && Dated(db, id)
    ensures forall i, j :: 0 <= i < j < |ids| ==> DateKey(db, ids[i]) >= DateKey(db, ids[j])
    ensures Distinct(ids)
  {
    var all := FilterIds(SortedDesc(db.maintenance.Keys), id => Listed(db, status, id) && Dated(db, id));
    SortByKeyDesc(all, id => DateKey(db, id))
  }

  /** The selected records without a date, which SQL puts after all dated ones. */
  function UndatedIds(db: Db, status: string): (ids: seq<int>)
    ensures forall id :: id in ids <==> Listed(db, status, id) && !Dated(db, id)
    ensures Distinct(ids)
  {
    FilterIds(SortedDesc(db.maintenance.Keys), id => Listed(db, status, id) && !Dated(db, id))
  }

  /** The detail rows for `ids`, position by position. */
  function DetailsOf(db: Db, ids: seq<int>): (rows: seq<MaintenanceDetail>)
    requires forall i :: 0 <= i < |ids| ==> Joined(db, ids[i])
    ensures |rows| == |ids|
    ensures forall i :: 0 <= i < |ids| ==> rows[i] == DetailOf(db, ids[i])
  {
    seq(|ids|, i requires 0 <= i < |ids| => DetailOf(db, ids[i]))
  }

  /** The ids `get(status)` selects, in output order: dated ones latest first, then undated ones. */
  function ListedIds(db: Db, status: string): (ids: seq<int>)
    ensures forall i :: 0 <= i < |ids| ==> Listed(db, status, ids[i])
    ensures forall id :: Listed(db, status, id) ==> id in ids
    ensures forall i, j :: 0 <= i < j < |ids| && Dated(db, ids[j]) ==>
              Dated(db, ids[i]) && DateKey(db, ids[i]) >= DateKey(db, ids[j])
    ensures Distinct(ids)
  {
    var dated := DatedIds(db, status);
    var undated := UndatedIds(db, status);
    DatedThenUndated(db, status, dated, undated);
    dated + undated
  }

  lemma DatedThenUndated(db: Db, status: string, dated: seq<int>, undated: seq<int>)
    requires forall id :: id in dated <==> Listed(db, status, id) && Dated(db, id)
    requires forall i, j :: 0 <= i < j < |dated| ==> DateKey(db, dated[i]) >= DateKey(db, dated[j])
    requires forall id :: id in undated <==> Listed(db, status, id) && !Dated(db, id)
    requires Distinct(dated) && Distinct(undated)
    ensures Distinct(dated + undated)
    ensures forall i :: 0 <= i < |dated + undated| ==> Listed(db, status, (dated + undated)[i])
    ensures forall id :: Listed(db, status, id) ==> id in dated + undated
    ensures forall i, j :: 0 <= i < j < |dated + undated| && Dated(db, (dated + undated)[j]) ==>
              Dated(db, (dated + undated)[i]) && DateKey(db, (dated + undated)[i]) >= DateKey(db, (dated + undated)[j])
  {
    var ids := dated + undated;
    forall i, j | 0 <= i < j < |ids| ensures ids[i] != ids[j] {
      if j >= |dated| {
        assert ids[j] == undated[j - |dated|] && ids[j] in undated;
        if i < |dated| { assert ids[i] in dated; } else { assert ids[i] == undated[i - |dated|]; }
      }
    }
    forall i | 0 <= i < |ids| ensures Listed(db, status, ids[i]) {
      if i < |dated| { assert ids[i] in dated; } else { assert ids[i] == undated[i - |dated|]; }
    }
    forall i, j | 0 <= i < j < |ids| && Dated(db, ids[j])
      ensures Dated(db, ids[i]) && DateKey(db, ids[i]) >= DateKey(db, ids[j])
    {
      if j < |dated| {
        assert ids[i] == dated[i] && ids[j] == dated[j] && ids[i] in dated;
      }
    }
  }

  /**
   * `get(status)`: the selected records joined with their vehicle. A row
   * with a date is preceded only by rows with a later-or-equal date, so
   * rows without a date come last.
   */
  function Get(db: Db, status: string): (rows: seq<MaintenanceDetail>)
    ensures forall i :: 0 <= i < |rows| ==> Listed(db, status, rows[i].maintenanceId)
                                            && rows[i] == DetailOf(db, rows[i].maintenanceId)
    ensures forall i, j :: 0 <= i < j < |rows| && rows[j].maintenanceDate.Some? ==>
              rows[i].maintenanceDate.Some? && rows[i].maintenanceDate.value >= rows[j].maintenanceDate.value
    ensures forall id :: Listed(db, status, id) ==> exists i :: 0 <= i < |rows| && rows[i].maintenanceId == id
    ensures forall i, j :: 0 <= i < j < |rows| ==> rows[i].maintenanceId != rows[j].maintenanceId
  {
    var ids := ListedIds(db, status);
    var rows := DetailsOf(db, ids);
    RowsFollowIds(db, status, ids, rows);
    rows
  }

  lemma RowsFollowIds(db: Db, status: string, ids: seq<int>, rows: seq<MaintenanceDetail>)
    requires forall i :: 0 <= i < |ids| ==> Listed(db, status, ids[i])
    requires forall id :: Listed(db, status, id) ==> id in ids
    requires forall i, j :: 0 <= i < j < |ids| && Dated(db, ids[j]) ==>
               Dated(db, ids[i]) && DateKey(db, ids[i]) >= DateKey(db, ids[j])
    requires |rows| == |ids|
    requires forall i :: 0 <= i < |ids| ==> Joined(db, ids[i]) && rows[i] == DetailOf(db, ids[i])
    ensures forall i :: 0 <= i < |rows| ==> Listed(db, status, rows[i].maintenanceId)
                                            && rows[i] == DetailOf(db, rows[i].maintenanceId)
    ensures forall i, j :: 0 <= i < j < |rows| && rows[j].maintenanceDate.Some? ==>
              rows[i].maintenanceDate.Some? && rows[i].maintenanceDate.value >= rows[j].maintenanceDate.value
    ensures forall id :: Listed(db, status, id) ==> exists i :: 0 <= i < |rows| && rows[i].maintenanceId == id
    ensures Distinct(ids) ==> forall i, j :: 0 <= i < j < |rows| ==> rows[i].maintenanceId != rows[j].maintenanceId
  {
    forall i | 0 <= i < |rows|
      ensures rows[i].maintenanceId == ids[i]
      ensures rows[i].maintenanceDate.Some? <==> Dated(db, ids[i])
      ensures rows[i].maintenanceDate.Some? ==> rows[i].maintenanceDate.value == DateKey(db, ids[i])
    {
      assert rows[i] == DetailOf(db, ids[i]);
    }
    forall id | Listed(db, status, id) ensures exists i :: 0 <= i < |rows| && rows[i].maintenanceId == id {
      var i :| 0 <= i < |ids| && ids[i] == id;
      assert rows[i].maintenanceId == id;
    }
  }
}
