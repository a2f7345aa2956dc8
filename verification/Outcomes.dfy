/**
 * What a command handler leaves behind: the database after its writes,
 * and what the user was told.
 */
module Outcomes {
  import opened Base
  import opened Records
  import RentalStore
  import MaintenanceStore

  /** The message a handler prints when it returns early. */
  datatype Refusal =
    | StaffNotFound         // "Can not find your information"
    | StaffIdMissing        // the staff row has no id
    | CustomerNotFound      // "Can not find your infomation"
    | CustomerIdMissing     // the customer row has no id
    | VehicleNotFound
    | VehicleUnavailable    // "Vehicle is not available for rent"
    | MileageUnset          // the vehicle's mileage is None
    | RateUnset             // "Vehicle daily rate is not set"
    | RentalNotFound
    | StatusChanged         // "This rental status has been changed"
    | MileageRegression     // return mileage below initial mileage
    | VehicleIdMissing      // the record's vehicle_id is falsy
    | MaintenanceNotFound

  datatype Outcome =
    | Done                                        // the success message
    | Refused(why: Refusal)                       // an early return
    | Crashed(fault: Fault)                       // an exception escapes the handler
    | RentalRows(rentals: seq<RentalStore.RentalDetail>)
    | MaintenanceRows(records: seq<MaintenanceStore.MaintenanceDetail>)
    | Help                                        // fewer than two words: the help text
    | Unknown(subcommand: string)                 // "unknown subcommand: ..."

  /**
   * A row looked up for the acting user (`get_by_user_id`): no row, a row
   * whose id is None, or a row with its id.
   */
  datatype Lookup = NoRecord | RecordWithoutId | Found(id: int)

  /** The state after one command, and its outcome. */
  datatype Step = Step(db: Db, outcome: Outcome)
}
