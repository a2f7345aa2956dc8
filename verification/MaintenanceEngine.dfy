/**
 * The maintenance commands of car_rental_system/command/maintenance.py as
 * transitions `Db × inputs → Step`. A record moves scheduled → ongoing →
 * completed while its vehicle moves available → maintenance → available.
 *
 * The acting staff member is the ambient `current_staff`, here a `Lookup`;
 * the estimated cost is in cents; `now` is the clock reading.
 */
module MaintenanceEngine {
  import opened Base
  import opened Records
  import opened Outcomes
  import VehicleStore
  import MaintenanceStore

  /** The record `add_maintenance` builds. */
  function NewRecordFor(vid: int, staffId: Option<int>, description: string, cost: nat, notes: string, now: int): (m: Maintenance)
    ensures m.status == Scheduled && m.completionDate.None?
    ensures m.vehicleId == Some(vid) && m.staffId == staffId && m.maintenanceDate == Some(now)
    ensures m.cost == Some(cost) && m.description == description && m.notes == notes
  {
    NewMaintenance.(vehicleId := Some(vid), staffId := staffId, description := description,
                    maintenanceDate := Some(now), cost := Some(cost), notes := notes)
  }

  /**
   * `add_maintenance`: a missing or non-available vehicle is refused; then
   * the staff id is read from `current_staff` (raising when there is none);
   * the vehicle becomes "maintenance" and a "scheduled" record is inserted.
   */
  function AddMaintenance(db: Db, currentStaff: Lookup, vid: nat, description: string, cost: nat,
                          notes: string, now: int): (s: Step)
    ensures vid !in db.vehicles ==> s == Step(db, Refused(VehicleNotFound))
    ensures vid in db.vehicles && db.vehicles[vid].status != Available ==> s == Step(db, Refused(VehicleUnavailable))
    ensures s.outcome == Done <==> vid in db.vehicles && db.vehicles[vid].status == Available && currentStaff != NoRecord
    ensures s.outcome != Done ==> s.db == db
    ensures s.outcome == Done ==>
              && s.db.vehicles == db.vehicles[vid := db.vehicles[vid].(status := InMaintenance)]
              && s.db.maintenanceSeq == db.maintenanceSeq + 1
              && s.db.maintenance.Keys == db.maintenance.Keys + {db.maintenanceSeq + 1}
              && (forall k :: k in db.maintenance && k != db.maintenanceSeq + 1 ==> s.db.maintenance[k] == db.maintenance[k])
              && s.db.maintenance[db.maintenanceSeq + 1].status == Scheduled
              && s.db.maintenance[db.maintenanceSeq + 1].vehicleId == Some(vid)
              && s.db.maintenance[db.maintenanceSeq + 1].cost == Some(cost)
              && s.db.rentals == db.rentals && s.db.rentalSeq == db.rentalSeq
    ensures s.outcome == Done && SeqBounds(db) ==>
              && |s.db.maintenance| == |db.maintenance| + 1
              && (forall k :: k in db.maintenance ==> s.db.maintenance[k] == db.maintenance[k])
              && SeqBounds(s.db)
  {
    if vid !in db.vehicles then Step(db, Refused(VehicleNotFound))
    else if db.vehicles[vid].status != Available then Step(db, Refused(VehicleUnavailable))
    else if currentStaff == NoRecord then Step(db, Crashed(NoneAttribute))
    else
      var staffId := if currentStaff.Found? then Some(currentStaff.id) else None;
      var vs := VehicleStore.UpdateStatus(db.vehicles, vid, InMaintenance).value;
      var (ms, next) := MaintenanceStore.Add(db.maintenance, db.maintenanceSeq,
                                              NewRecordFor(vid, staffId, description, cost, notes, now));
      Step(db.(vehicles := vs, maintenance := ms, maintenanceSeq := next), Done)
  }

  /**
   * `start_maintenance`: the record becomes "ongoing" and its completion
   * date is cleared, whatever its status was; the vehicle is not touched.
   */
  function StartMaintenance(db: Db, id: nat): (s: Step)
    ensures s.outcome == Done
    ensures s.db == db.(maintenance := MaintenanceStore.UpdateStatus(db.maintenance, id, Ongoing, None))
    ensures id in db.maintenance ==> s.db.maintenance[id].status == Ongoing && s.db.maintenance[id].completionDate.None?
    ensures s.db.vehicles == db.vehicles && s.db.rentals == db.rentals
  {
    Step(db.(maintenance := MaintenanceStore.UpdateStatus(db.maintenance, id, Ongoing, None)), Done)
  }

  /**
   * `complete_maintenance` as written: the record is marked "completed"
   * first; then a missing record or a falsy vehicle id is reported; else
   * the vehicle becomes "available", whatever its current status.
   */
  function CompleteMaintenanceAsWritten(db: Db, id: nat, now: int): (s: Step)
    ensures s.db.maintenance == MaintenanceStore.UpdateStatus(db.maintenance, id, Completed, Some(now))
    ensures s.db.rentals == db.rentals && s.db.rentalSeq == db.rentalSeq && s.db.maintenanceSeq == db.maintenanceSeq
    ensures id !in db.maintenance ==> s == Step(db, Refused(MaintenanceNotFound))
    ensures id in db.maintenance && !TruthyInt(db.maintenance[id].vehicleId) ==>
              s.outcome == Refused(VehicleIdMissing) && s.db.vehicles == db.vehicles
    ensures id in db.maintenance && TruthyInt(db.maintenance[id].vehicleId) ==>
              s.outcome == Done
              && s.db.vehicles == VehicleStore.UpdateStatus(db.vehicles, db.maintenance[id].vehicleId.value, Available).value
  {
    var ms := MaintenanceStore.UpdateStatus(db.maintenance, id, Completed, Some(now));
    var written := db.(maintenance := ms);
    match RowById(ms, id)
    case None => Step(written, Refused(MaintenanceNotFound))
    case Some(m) =>
      if !TruthyInt(m.vehicleId) then Step(written, Refused(VehicleIdMissing))
      else Step(written.(vehicles := VehicleStore.UpdateStatus(db.vehicles, m.vehicleId.value, Available).value), Done)
  }

  /**
   * `complete_maintenance` that frees the vehicle only when it is in
   * maintenance; a vehicle rented out meanwhile keeps its status.
   */
  function CompleteMaintenance(db: Db, id: nat, now: int): (s: Step)
    ensures s.db.maintenance == MaintenanceStore.UpdateStatus(db.maintenance, id, Completed, Some(now))
    ensures s.db.rentals == db.rentals && s.db.rentalSeq == db.rentalSeq && s.db.maintenanceSeq == db.maintenanceSeq
    ensures s.outcome == CompleteMaintenanceAsWritten(db, id, now).outcome
    ensures forall v :: v in db.vehicles && db.vehicles[v].status != InMaintenance ==> v in s.db.vehicles && s.db.vehicles[v] == db.vehicles[v]
    ensures s.db.vehicles.Keys == db.vehicles.Keys
    ensures id in db.maintenance && TruthyInt(db.maintenance[id].vehicleId) ==>
              var v := db.maintenance[id].vehicleId.value;
              v in db.vehicles && db.vehicles[v].status == InMaintenance ==> s.db.vehicles == db.vehicles[v := db.vehicles[v].(status := Available)]
    ensures !(id in db.maintenance && TruthyInt(db.maintenance[id].vehicleId)) ==> s.db.vehicles == db.vehicles
  {
    var asWritten := CompleteMaintenanceAsWritten(db, id, now);
    var keep := id in db.maintenance && TruthyInt(db.maintenance[id].vehicleId)
                && var v := db.maintenance[id].vehicleId.value;
                   v in db.vehicles && db.vehicles[v].status != InMaintenance;
    if keep then asWritten.(db := asWritten.db.(vehicles := db.vehicles)) else asWritten
  }

  /** `delete_maintenance`: the record disappears; the vehicle keeps its status. */
  function DeleteMaintenance(db: Db, id: nat): (s: Step)
    ensures s.outcome == Done
    ensures s.db == db.(maintenance := DeleteRow(db.maintenance, id))
    ensures id !in s.db.maintenance && s.db.vehicles == db.vehicles
  {
    Step(db.(maintenance := DeleteRow(db.maintenance, id)), Done)
  }

  /** The answers the maintenance prompts would collect. */
  datatype MaintenanceInput = MaintenanceInput(
    vehicleId: nat,
    maintenanceId: nat,
    description: string,
    cost: nat,
    notes: string,
    now: int)

  const MaintenanceCommands: set<string> := {"list", "ongoing", "add", "start", "complete", "del"}

  /**
   * `handle_command` as written: help for fewer than two words, a message
   * for an unknown subcommand, and otherwise the named handler as written.
   */
  function HandleMaintenanceCommandAsWritten(db: Db, currentStaff: Lookup, parts: seq<string>,
                                             input: MaintenanceInput): (s: Step)
    ensures |parts| < 2 ==> s == Step(db, Help)
    ensures |parts| >= 2 ==>
              && (parts[1] == "list" ==> s == Step(db, MaintenanceRows(MaintenanceStore.Get(db, ""))))
              && (parts[1] == "ongoing" ==> s == Step(db, MaintenanceRows(MaintenanceStore.Get(db, Ongoing))))
              && (parts[1] == "add" ==>
                    s == AddMaintenance(db, currentStaff, input.vehicleId, input.description, input.cost, input.notes, input.now))
              && (parts[1] == "start" ==> s == StartMaintenance(db, input.maintenanceId))
              && (parts[1] == "complete" ==> s == CompleteMaintenanceAsWritten(db, input.maintenanceId, input.now))
              && (parts[1] == "del" ==> s == DeleteMaintenance(db, input.maintenanceId))
              && (parts[1] !in MaintenanceCommands ==> s == Step(db, Unknown(parts[1])))
    ensures s.db.rentals == db.rentals && s.db.rentalSeq == db.rentalSeq
  {
    if |parts| < 2 then Step(db, Help)
    else
      var sub := parts[1];
      if sub == "list" then Step(db, MaintenanceRows(MaintenanceStore.Get(db, "")))
      else if sub == "ongoing" then Step(db, MaintenanceRows(MaintenanceStore.Get(db, Ongoing)))
      else if sub == "add" then
        AddMaintenance(db, currentStaff, input.vehicleId, input.description, input.cost, input.notes, input.now)
      else if sub == "start" then StartMaintenance(db, input.maintenanceId)
      else if sub == "complete" then CompleteMaintenanceAsWritten(db, input.maintenanceId, input.now)
      else if sub == "del" then DeleteMaintenance(db, input.maintenanceId)
      else Step(db, Unknown(sub))
  }

  /** The same table with the corrected completion: every other command behaves as written. */
  function HandleMaintenanceCommand(db: Db, currentStaff: Lookup, parts: seq<string>, input: MaintenanceInput): (s: Step)
    ensures |parts| >= 2 && parts[1] == "complete" ==> s == CompleteMaintenance(db, input.maintenanceId, input.now)
    ensures !(|parts| >= 2 && parts[1] == "complete") ==>
              s == HandleMaintenanceCommandAsWritten(db, currentStaff, parts, input)
    ensures s.db.rentals == db.rentals && s.db.rentalSeq == db.rentalSeq
  {
    if |parts| >= 2 && parts[1] == "complete" then CompleteMaintenance(db, input.maintenanceId, input.now)
    else HandleMaintenanceCommandAsWritten(db, currentStaff, parts, input)
  }

  /**
   * The whole lifecycle on an available vehicle: add, start and complete
   * leave the vehicle "available" again and the new record "completed".
   */
  lemma {:induction false} LifecycleRestoresVehicle(db: Db, staff: Lookup, vid: nat, description: string,
                                                    cost: nat, notes: string, t1: int, t2: int)
    requires vid in db.vehicles && db.vehicles[vid].status == Available && staff != NoRecord
    requires vid > 0 && db.maintenanceSeq >= 0
    ensures var added := AddMaintenance(db, staff, vid, description, cost, notes, t1).db;
            var id := db.maintenanceSeq + 1;
            var started := StartMaintenance(added, id).db;
            var done := CompleteMaintenance(started, id, t2);
            && done.outcome == Done
            && done.db.vehicles == db.vehicles
            && done.db.maintenance[id].status == Completed
            && done.db.maintenance[id].completionDate == Some(t2)
  {
    var added := AddMaintenance(db, staff, vid, description, cost, notes, t1).db;
    var id := db.maintenanceSeq + 1;
    var started := StartMaintenance(added, id).db;
    assert started.maintenance[id].vehicleId == Some(vid);
    assert started.vehicles[vid].status == InMaintenance;
    var done := CompleteMaintenance(started, id, t2);
    assert done.db.vehicles == started.vehicles[vid := started.vehicles[vid].(status := Available)];
    assert db.vehicles[vid].(status := InMaintenance).(status := Available) == db.vehicles[vid];
    assert db.vehicles[vid := db.vehicles[vid]] == db.vehicles;
  }
}
