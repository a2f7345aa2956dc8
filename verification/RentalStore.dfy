/**
 * The `rentals` table and its repositories: app/repository/rentals.py and
 * the older repository/rentals.py, which share `add`, `complete_rental`
 * and `get_by_id` and differ in the default status and in listing.
 */
module RentalStore {
  import opened Base
  import opened Records
  import opened Ordering

  /** The row passes the table's NOT NULL and CHECK constraints. */
  predicate Insertable(r: Rental) {
    r.startDate.Some? && r.expectedReturnDate.Some? && IsRentalStatus(r.rentalStatus)
  }

  /**
   * The row the INSERT stores for `r`: the two columns it does not list,
   * `actual_return_date` and `return_mileage`, take their default NULL.
   */
  function Stored(r: Rental): (row: Rental)
    ensures row.actualReturnDate.None? && row.returnMileage.None?
    ensures row.(actualReturnDate := r.actualReturnDate, returnMileage := r.returnMileage) == r
  {
    r.(actualReturnDate := None, returnMileage := None)
  }

  /**
   * `add_rental` / `add`: INSERT of the eight listed columns under the next
   * AUTOINCREMENT id; the new id and the new counter are returned.
   */
  function AddRental(rs: map<int, Rental>, lastId: int, r: Rental): (res: Result<(map<int, Rental>, int)>)
    ensures res.Err? <==> !Insertable(r)
    ensures res.Ok? ==> res.value.1 == lastId + 1
    ensures res.Ok? ==> res.value.0.Keys == rs.Keys + {lastId + 1}
    ensures res.Ok? ==> forall k :: k in rs && k != lastId + 1 ==> res.value.0[k] == rs[k]
    ensures res.Ok? ==> res.value.0 == rs[lastId + 1 := Stored(r)]
    ensures res.Ok? ==> var row := res.value.0[lastId + 1];
              && row.vehicleId == r.vehicleId && row.customerId == r.customerId && row.staffId == r.staffId
              && row.startDate == r.startDate && row.expectedReturnDate == r.expectedReturnDate
              && row.initialMileage == r.initialMileage && row.rentalStatus == r.rentalStatus
              && row.totalCost == r.totalCost
              && row.actualReturnDate.None? && row.returnMileage.None?
    ensures (forall k :: k in rs ==> k <= lastId) ==> lastId + 1 !in rs
  {
    if !r.startDate.Some? || !r.expectedReturnDate.Some? then Err(NotNullViolation)
    else if !IsRentalStatus(r.rentalStatus) then Err(CheckViolation)
    else
      Ok((rs[lastId + 1 := Stored(r)], lastId + 1))
  }

  /** `update_status`: rewrite one rental's status, subject to the CHECK constraint. */
  function UpdateStatus(rs: map<int, Rental>, id: int, status: string): (r: Result<map<int, Rental>>)
    ensures r.Err? <==> id in rs && !IsRentalStatus(status)
    ensures r.Err? ==> r.fault == CheckViolation
    ensures r.Ok? ==> r.value.Keys == rs.Keys
    ensures r.Ok? ==> forall k :: k in rs && k != id ==> r.value[k] == rs[k]
    ensures r.Ok? && id in rs ==> r.value[id] == rs[id].(rentalStatus := status)
  {
    if id !in rs then Ok(rs)
    else if !IsRentalStatus(status) then Err(CheckViolation)
    else Ok(rs[id := rs[id].(rentalStatus := status)])
  }

  /**
   * `complete_rental`: return mileage, actual return date and status
   * "completed"; every other field and every other row unchanged.
   */
  function CompleteRental(rs: map<int, Rental>, id: int, returnMileage: int, returnDate: int): (r: map<int, Rental>)
    ensures r.Keys == rs.Keys
    ensures forall k :: k in rs && k != id ==> r[k] == rs[k]
    ensures id in rs ==> r[id] == rs[id].(returnMileage := Some(returnMileage),
                                          actualReturnDate := Some(returnDate),
                                          rentalStatus := Completed)
  {
    if id in rs then
      rs[id := rs[id].(returnMileage := Some(returnMileage), actualReturnDate := Some(returnDate), rentalStatus := Completed)]
    else rs
  }

  /** The older `cancel_rental`: status "cancelled", nothing else, no check. */
  function CancelRental(rs: map<int, Rental>, id: int): (r: map<int, Rental>)
    ensures r.Keys == rs.Keys
    ensures forall k :: k in rs && k != id ==> r[k] == rs[k]
    ensures id in rs ==> r[id] == rs[id].(rentalStatus := Cancelled)
  {
    if id in rs then rs[id := rs[id].(rentalStatus := Cancelled)] else rs
  }

  // ---------------------------------------------------------------------
  // Listings: rentals joined with vehicles and customers, newest id first.
  // ---------------------------------------------------------------------

  /** One row of the listing query. */
  datatype RentalDetail = RentalDetail(
    rentalId: int,
    make: string,
    model: string,
    customerName: string,
    startDate: Option<int>,
    expectedReturnDate: Option<int>,
    actualReturnDate: Option<int>,
    initialMileage: Option<int>,
    returnMileage: Option<int>,
    status: string,
    totalCost: Option<int>)

  /** The two inner joins: the rental's vehicle and customer rows exist. */
  predicate Joined(db: Db, customers: map<int, string>, id: int) {
    && id in db.rentals
    && db.rentals[id].vehicleId.Some? && db.rentals[id].vehicleId.value in db.vehicles
    && db.rentals[id].customerId.Some? && db.rentals[id].customerId.value in customers
  }

  /**
   * The query's row selection: the joins hold, the status contains the
   * filter, and the customer is `customerId` unless that is 0.
   */
  predicate Listed(db: Db, customers: map<int, string>, status: string, customerId: int, id: int) {
    && Joined(db, customers, id)
    && Contains(db.rentals[id].rentalStatus, status)
    && (customerId != 0 ==> db.rentals[id].customerId.value == customerId)
  }

  /** The selected columns for a joined rental. */
  function DetailOf(db: Db, customers: map<int, string>, id: int): RentalDetail
    requires Joined(db, customers, id)
  {
    var r := db.rentals[id];
    var v := db.vehicles[r.vehicleId.value];
    RentalDetail(id, v.make, v.model, customers[r.customerId.value], r.startDate, r.expectedReturnDate,
                 r.actualReturnDate, r.initialMileage, r.returnMileage, r.rentalStatus, r.totalCost)
  }

  /** The ids the query selects, largest first. */
  function ListedIds(db: Db, customers: map<int, string>, status: string, customerId: int): (ids: seq<int>)
    ensures forall id :: id in ids <==> Listed(db, customers, status, customerId, id)
    ensures StrictlyDecreasing(ids)
  {
    FilterIds(SortedDesc(db.rentals.Keys), id => Listed(db, customers, status, customerId, id))
  }

  /** The detail rows for `ids`, position by position. */
  function DetailsOf(db: Db, customers: map<int, string>, ids: seq<int>): (rows: seq<RentalDetail>)
    requires forall i :: 0 <= i < |ids| ==> Joined(db, customers, ids[i])
    ensures |rows| == |ids|
    ensures forall i :: 0 <= i < |ids| ==> rows[i].rentalId == ids[i] && rows[i] == DetailOf(db, customers, ids[i])
  {
    seq(|ids|, i requires 0 <= i < |ids| => DetailOf(db, customers, ids[i]))
  }

  /** `get_rental_details(status, customer_id)`. */
  function GetRentalDetails(db: Db, customers: map<int, string>, status: string, customerId: int): (rows: seq<RentalDetail>)
    ensures forall i :: 0 <= i < |rows| ==> Listed(db, customers, status, customerId, rows[i].rentalId)
                                            && rows[i] == DetailOf(db, customers, rows[i].rentalId)
    ensures forall id :: Listed(db, customers, status, customerId, id) ==> exists i :: 0 <= i < |rows| && rows[i].rentalId == id
    ensures forall i, j :: 0 <= i < j < |rows| ==> rows[i].rentalId > rows[j].rentalId
  {
    var ids := ListedIds(db, customers, status, customerId);
    var rows := DetailsOf(db, customers, ids);
    EveryListedIdHasRow(ids, rows);
    rows
  }

  lemma EveryListedIdHasRow(ids: seq<int>, rows: seq<RentalDetail>)
    requires |rows| == |ids|
    requires forall i :: 0 <= i < |ids| ==> rows[i].rentalId == ids[i]
    ensures forall id :: id in ids ==> exists i :: 0 <= i < |rows| && rows[i].rentalId == id
  {
    forall id | id in ids ensures exists i :: 0 <= i < |rows| && rows[i].rentalId == id {
      var i :| 0 <= i < |ids| && ids[i] == id;
      assert rows[i].rentalId == id;
    }
  }

  /** The older repository's `get(status)`: the same query without a customer restriction. */
  function GetLegacy(db: Db, customers: map<int, string>, status: string): (rows: seq<RentalDetail>)
    ensures forall i :: 0 <= i < |rows| ==> Listed(db, customers, status, 0, rows[i].rentalId)
    ensures forall id :: Listed(db, customers, status, 0, id) ==> exists i :: 0 <= i < |rows| && rows[i].rentalId == id
    ensures forall i, j :: 0 <= i < j < |rows| ==> rows[i].rentalId > rows[j].rentalId
  {
    GetRentalDetails(db, customers, status, 0)
  }

  /** A customer's history holds only that customer's rentals. */
  lemma HistoryIsTheCustomers(db: Db, customers: map<int, string>, customerId: int)
    requires customerId != 0
    ensures forall row :: row in GetRentalDetails(db, customers, "", customerId) ==>
              db.rentals[row.rentalId].customerId == Some(customerId)
  {
  }
}
