# Car rental system: rental and maintenance lifecycles in Dafny

This project models the core of a fleet-rental command-line application.
The core is the rental lifecycle and the maintenance lifecycle. Both are
coupled to vehicle availability through three tables: `vehicles`, `rentals`
and `maintenance`. The input validators that feed the command handlers are
part of the model too.

A rental moves through these statuses:

- `apply`, created by a customer's booking;
- `active`, created by a staff booking or by an approved audit;
- `reject`, `completed` or `cancelled`.

While a rental is `apply` or `active` its vehicle is `rented`. A maintenance
record moves `scheduled → ongoing → completed`, and its vehicle moves
`available → maintenance → available`.

Layout, one module per file:

- `Base`: Python values the code relies on.
  - `None`, truthiness and `a or b`.
  - SQL `LIKE '%p%'`, modelled as a substring test.
  - The errors a write or an expression can raise.
- `Validation`: the validators and prompt loops of the three code
  generations (`car_rental_system/util`, `app/util`, and the top-level
  `validation.py`). Also the cases of the validator tests, stated as facts
  about the model.
- `Records`: the table rows and the dataclass defaults. Also the status
  sets admitted by the tables' CHECK constraints.
- `Ordering`: the sorts and filters behind `ORDER BY … DESC`.
- `VehicleStore`, `RentalStore`, `MaintenanceStore`: the repositories as
  functions on maps keyed by row id.
  - A write that breaks a constraint returns an error.
  - An UPDATE of an absent id changes nothing.
- `Outcomes`: what a handler leaves behind. A `Step` pairs the database after
  its writes with what the user was told.
  - `Done`: the handler finished.
  - `Refused`: an early return with a message.
  - `Crashed`: an exception escaped.
  - A listing.
- `RentalEngine`: the rental commands of `car_rental_system/command/rentals.py`
  and their role-based dispatcher.
- `LegacyRentals`: the older rental commands of `command/rentals.py`.
- `MaintenanceEngine`: the maintenance commands of
  `car_rental_system/command/maintenance.py`.
- `Consistency`: the invariant that ties rentals to vehicle statuses. A
  vehicle is `rented` exactly when one open rental holds it, and an open
  rental's initial mileage is its vehicle's current mileage. Every corrected
  transition preserves it; each dispatcher as written preserves it except on
  named inputs.
- `Findings`: the handlers as written, shown breaking that invariant.
- `Scenarios`: worked runs on the first demonstration vehicle, a Toyota
  Camry at 15000 miles and 45.00 a day.

Representation choices:

- Money is integer cents.
- Timestamps are integer seconds. A rental of `days` days ends
  `days * 86400` seconds after it starts.
- The clock reading `now` is a parameter.
- Numeric answers reach the handlers as natural numbers, already accepted
  by `validate_digit`.
- The acting staff member or customer is a `Lookup`:
  - no row (`None`);
  - a row whose id is `None`;
  - a found id.
- Each database write commits on its own. A handler whose second write
  raises keeps its first write.

Facts about the code that the model keeps:

- `validate_digit` accepts "0", so a 0-day rental is booked at no cost and
  ends when it starts (`Scenarios.ZeroDayRental`).
- Only an `apply` rental can be cancelled by the newer commands.
- A return date out of `datetime`'s range raises OverflowError before any
  write.
- No handler runs in a transaction. A failing write leaves the earlier writes
  in place, as `RentalEngine.PlaceRental` states.

Each newer dispatcher exists twice:

- as written: `RentalEngine.HandleRentalCommandAsWritten` and
  `MaintenanceEngine.HandleMaintenanceCommandAsWritten` run the handlers as
  the code has them;
- corrected: `RentalEngine.HandleRentalCommand` and
  `MaintenanceEngine.HandleMaintenanceCommand` run the corrected handlers
  listed under Findings and are otherwise the same.

The invariant holds for every corrected command. The dispatchers as written
keep it except on the inputs the Findings exhibit. The older dispatcher
(`LegacyRentals.LegacyHandleCommand`) is modelled as written only.

## Model

| member | source | states |
|---|---|---|
| Base.OrInt | app/repository/vehicles.py:116-119 | `new or current` on an optional integer keeps a truthy new value; it falls back to the current value when the new one is None or 0 |
| Base.OrStr | app/repository/vehicles.py:114-121 | `new or current` on a string keeps a non-empty new value and falls back to the current one for "" |
| Base.Contains | app/repository/vehicles.py:61-67 | the `LIKE '%p%'` filter holds exactly when `p` occurs somewhere in the column value |
| Base.RowById | app/repository/rentals.py:137-147 | `get_by_id`, shared by the vehicle, rental and maintenance repositories: None exactly when no row has the id, else that row |
| Base.DeleteRow | car_rental_system/repository/maintenance.py:87-90 | deleting by id removes exactly that row and leaves every other row as it was; the vehicles repository deletes the same way |
| Base.EmptyFilterMatchesAll | app/repository/rentals.py:71-84 | the default empty status filter admits every status |
| Validation.ValidateDigit | car_rental_system/util/validation.py:9-13 | accepts exactly the non-empty strings made only of digits; "" is refused |
| Validation.CountOneIff | car_rental_system/util/validation.py:18 | `count("@") == 1` holds exactly when '@' occurs at one single index |
| Validation.ValidateEmail | car_rental_system/util/validation.py:16-20 | accepts exactly the strings with one '@' and at least one '.' |
| Validation.ValidatePhone | car_rental_system/util/validation.py:23-27 | accepts exactly ten-character all-digit strings |
| Validation.ValidatePhoneAnyLength | app/util/validation.py:23-27 | accepts any non-empty digit string; on ten characters it agrees with the ten-digit validator |
| Validation.ValidatePhoneOrNone | validation.py:17-20 | True exactly on ten digits; otherwise None, and never False |
| Validation.ValidatePrice | car_rental_system/util/validation.py:41-51 | on ASCII input, accepts exactly what the regex admits: digits, a dot, two digits, optionally followed by one newline, which Python's `$` allows |
| Validation.ParseInt | car_rental_system/util/validation.py:57 | `int(s)` succeeds exactly on one or more digits with an optional leading '+' or '-', and every other string raises; the value is the decimal value, negated after '-' |
| Validation.DigitsValueOfNatToString | tests/test_validation.py:58-63 | reading back the decimal rendering of `n` gives `n` |
| Validation.ParseIntRoundTrip | tests/test_validation.py:60 | `int(str(n)) == n` for every natural `n` |
| Validation.ValidateYear | car_rental_system/util/validation.py:54-68 | on ASCII digits with an optional sign and no whitespace or `_`, accepts exactly the strings that parse to a year from 1900 to the year after the current one |
| Validation.CurrentYearAccepted | tests/test_validation.py:60 | the current year, rendered, is accepted for every current year from 1900 on |
| Validation.YearAfterNextRefused | tests/test_validation.py:63 | two years ahead is refused for every current year |
| Validation.FirstAccepted | car_rental_system/util/validation.py:32-38 | the prompt loop returns the first accepted answer; it runs out exactly when no answer is accepted |
| Validation.GetValidatedInput | car_rental_system/util/validation.py:30-38 | returns the first answer that is accepted, where "" is accepted by an optional prompt and otherwise the validator decides; an optional prompt answered "" returns "" at once; with a validator and not optional the result passes it |
| Validation.GetValidatedInputRequired | app/util/validation.py:30-43 | returns the first answer that is accepted, where "" is accepted only by an optional prompt and a non-empty answer must pass the validator; so a required prompt never returns "" and an optional prompt returns "" on an empty first answer; None iff no answer is accepted |
| Validation.GetValidatedInputAny | validation.py:23-28 | returns the first answer that passes the validator, or the first answer when there is none; None iff no answer passes |
| Validation.DigitExamples | tests/test_validation.py:12-24 | the digit test table: "1" accepted; "-1", "abc", "12.3", "" and "123abc" refused |
| Validation.EmailAccepted | tests/test_validation.py:27-38 | "test@example.com" is accepted |
| Validation.EmailRefused | tests/test_validation.py:27-38 | no '@', two '@', empty, and no '.' are each refused |
| Validation.PhoneExamples | tests/test_validation.py:41-52 | the phone test table; the lengths 9 and 11 that the length-free validator accepts |
| Validation.PriceExamples | tests/test_validation.py:68-81 | the price test table, plus a trailing newline being accepted |
| Validation.YearExamples | tests/test_validation.py:55-65 | "1950" accepted; "1899", "abc" and "" refused |
| Records.DefaultsAgree | app/repository/rentals.py:19-50 | the dataclass default statuses are admitted by the CHECK constraints; the older default is "active"; "cancel" is not an admitted rental status |
| Ordering.SortedDesc | app/repository/rentals.py:83 | `ORDER BY id DESC`: every id exactly once, strictly decreasing |
| Ordering.FilterIds | app/repository/rentals.py:71-74 | a WHERE filter keeps exactly the admitted ids; a strictly decreasing input stays strictly decreasing, which with the membership clause fixes the output |
| Ordering.SortByKeyDesc | car_rental_system/repository/maintenance.py:36 | `ORDER BY date DESC` is a permutation of its input with non-increasing keys |
| VehicleStore.UpdateStatus | app/repository/vehicles.py:131-134 | rewrites only that row's status; it fails exactly when the row exists and the status is outside the CHECK set |
| VehicleStore.UpdateStatusIdempotent | app/repository/vehicles.py:131-134 | writing the same status twice equals writing it once |
| VehicleStore.UpdateAfterReturn | app/repository/vehicles.py:149-157 | that row gets the return mileage and "available"; every other field and row is unchanged |
| VehicleStore.Merge | app/repository/vehicles.py:111-124 | each field of the written row is `new or current` |
| VehicleStore.UpdateVehicle | app/repository/vehicles.py:89-124 | a missing id raises; otherwise the update fails exactly when the merged row breaks the status CHECK or the plate UNIQUE constraint, and on success only that row becomes the merged row |
| VehicleStore.EmptyPatchKeepsRow | app/repository/vehicles.py:111-124 | on a valid table, an update with every field empty writes the row back unchanged |
| VehicleStore.MergeIdempotent | app/repository/vehicles.py:111-124 | applying the same edit twice equals applying it once |
| VehicleStore.ZeroMileageKept | app/repository/vehicles.py:118 | an edit setting mileage to 0 is ignored, because 0 is falsy |
| VehicleStore.GetVehicles | app/repository/vehicles.py:56-67 | lists exactly the rows whose make contains the search text, compared case-sensitively, and, for a non-empty status, have that status |
| VehicleStore.SearchByBrand | repository/vehicles.py:26-33 | lists exactly the rows whose make (the older "brand") contains the search text, compared case-sensitively |
| VehicleStore.UnfilteredListsAll | app/repository/vehicles.py:56-67 | with both filters empty every vehicle is listed |
| VehicleStore.InsertOrIgnore | app/repository/vehicles.py:42-54 | a seed row is skipped when its id or its plate is taken, and inserted otherwise |
| VehicleStore.InsertAllOrIgnore | app/repository/vehicles.py:42-54 | seeding never removes or alters an existing row |
| VehicleStore.AllSettledAfter | app/repository/vehicles.py:42-54 | after one seeding pass every seed row is present or blocked |
| VehicleStore.SettledPassIsNoOp | app/repository/vehicles.py:42-54 | a pass over rows that are all present or blocked changes nothing |
| VehicleStore.SeedFleet | app/repository/vehicles.py:26-54 | table creation keeps every existing row |
| VehicleStore.SeedFleetIdempotent | app/repository/vehicles.py:26-54 | creating the table twice seeds the same fleet as creating it once |
| RentalStore.Stored | app/repository/rentals.py:86-107 | the stored row has no return date and no return mileage, and agrees with the given row on everything else |
| RentalStore.AddRental | app/repository/rentals.py:86-107 | the insert fails exactly when a NOT NULL date is missing or the status breaks the CHECK; otherwise the only new row is under the next id, and a counter above every id makes it fresh |
| RentalStore.UpdateStatus | app/repository/rentals.py:122-135 | rewrites only that rental's status; it fails exactly when the row exists and the status is outside the CHECK set |
| RentalStore.CompleteRental | app/repository/rentals.py:109-120 | that rental gets the return mileage, the return date and "completed"; nothing else changes |
| RentalStore.CancelRental | repository/rentals.py:80-87 | that rental becomes "cancelled" whatever its status; nothing else changes |
| RentalStore.ListedIds | app/repository/rentals.py:60-84 | the selected ids are exactly those that pass both joins, the status filter and the customer filter, newest first |
| RentalStore.DetailsOf | app/repository/rentals.py:64-70 | each output row is the joined vehicle make and model and customer name of its rental |
| RentalStore.GetRentalDetails | app/repository/rentals.py:60-84 | every listed row passes the joins and filters and shows its rental's columns; every such rental is listed; ids strictly decrease |
| RentalStore.GetLegacy | repository/rentals.py:30-42 | the older listing: the same selection with no customer filter, newest first |
| RentalStore.HistoryIsTheCustomers | car_rental_system/command/rentals.py:244-246 | a customer's history holds only that customer's rentals |
| MaintenanceStore.Add | car_rental_system/repository/maintenance.py:40-61 | the record is stored under the next id and nothing else changes |
| MaintenanceStore.UpdateStatus | car_rental_system/repository/maintenance.py:63-76 | that record gets the status and the completion date; when none is given the date is cleared |
| MaintenanceStore.LaterStatusWins | car_rental_system/repository/maintenance.py:63-76 | two status writes equal the second alone; starting a record then completing it equals completing it |
| MaintenanceStore.DatedIds | car_rental_system/repository/maintenance.py:27-38 | the selected dated records, each once, latest first |
| MaintenanceStore.UndatedIds | car_rental_system/repository/maintenance.py:27-38 | the selected undated records, each once |
| MaintenanceStore.DetailsOf | car_rental_system/repository/maintenance.py:29-34 | each output row shows its record joined with its vehicle |
| MaintenanceStore.ListedIds | car_rental_system/repository/maintenance.py:27-38 | exactly the joined records whose status contains the filter, each once; a dated record is preceded only by dated records that are no earlier |
| MaintenanceStore.DatedThenUndated | car_rental_system/repository/maintenance.py:36 | dated records latest first, followed by the undated ones, satisfies the query's order, with NULL dates last |
| MaintenanceStore.Get | car_rental_system/repository/maintenance.py:27-38 | every listed row passes the join and the status filter and every such record is listed exactly once; dates do not increase down the list, and undated rows come last |
| RentalEngine.VehicleRefusal | car_rental_system/command/rentals.py:121-140 | no refusal exactly when the vehicle exists, is available, and has a mileage and a daily rate; a missing or unavailable vehicle gets its own message |
| RentalEngine.NewRentalFor | car_rental_system/command/rentals.py:107-143 | the new rental copies the vehicle's mileage, costs rate × days, and ends `days` days after `now` |
| RentalEngine.PlaceRental | car_rental_system/command/rentals.py:116-148 | an out-of-range return date raises and a failed vehicle guard refuses, both with no write; otherwise the vehicle becomes "rented" and the rental is stored under the next id, which under a counter above every id is exactly one new row; a status the CHECK refuses raises after the vehicle write, which stays |
| RentalEngine.AddRental | car_rental_system/command/rentals.py:85-149 | a staff booking succeeds exactly when the staff row and id exist, the return date is in range and the vehicle is rentable; it then adds an "active" rental carrying the staff id, the cost and the end date, the vehicle becomes "rented", and every other rental and the maintenance table are unchanged; an out-of-range date raises with no write |
| RentalEngine.BookRental | car_rental_system/command/rentals.py:249-308 | a customer booking succeeds exactly when the customer row and id exist, the return date is in range and the vehicle is rentable; it then adds an "apply" rental with no staff id, and every other rental and the maintenance table are unchanged; an out-of-range date raises with no write |
| RentalEngine.ChoiceStatus | car_rental_system/command/rentals.py:324-328 | both audit answers are admitted rental statuses |
| RentalEngine.AuditRental | car_rental_system/command/rentals.py:310-336 | only an "apply" rental can be audited; a decline frees the vehicle and an approval leaves it "rented" |
| RentalEngine.CancelWith | car_rental_system/command/rentals.py:183-204 | only an "apply" rental is cancelled; a status the CHECK refuses raises before any write; success frees the vehicle when its id is truthy |
| RentalEngine.CancelRentalAsWritten | car_rental_system/command/rentals.py:183-204 | cancelling as written never succeeds and never changes the database; it raises exactly on an "apply" rental |
| RentalEngine.CancelRental | car_rental_system/command/rentals.py:183-204 | corrected cancel: succeeds exactly on an "apply" rental, marks it "cancelled" and frees its vehicle |
| RentalEngine.CompleteRentalAsWritten | car_rental_system/command/rentals.py:151-181 | succeeds exactly when the rental exists, its initial mileage is set and not above the return mileage, and its vehicle id is truthy, whatever its status; a lower return mileage is refused with no write |
| RentalEngine.CompleteRental | car_rental_system/command/rentals.py:151-181 | corrected completion: a rental that is not "active" is refused with no write; an active one behaves as written |
| RentalEngine.ListRentalHistory | car_rental_system/command/rentals.py:236-247 | the acting customer's rentals, or a refusal when the customer row or id is missing; never writes |
| RentalEngine.HandleRentalCommandAsWritten | car_rental_system/command/rentals.py:40-75 | help for fewer than two words; for role "customer" list, book and cancel run the customer handlers, for any other role the six staff subcommands run their handlers as written; a subcommand outside the role's table is reported unknown, with no write |
| RentalEngine.HandleRentalCommand | car_rental_system/command/rentals.py:40-75 | corrected: cancel and complete run the corrected handlers; every other command is exactly the dispatcher as written |
| RentalEngine.CustomerGating | car_rental_system/command/rentals.py:49-53 | a customer command, as written, never changes an existing rental; every rental it adds is an "apply" row without staff |
| RentalEngine.BookThenCancelRestoresVehicle | car_rental_system/command/rentals.py:183-204 | after a booking, the corrected cancel gives every vehicle back exactly as before; the cancel as written raises and leaves the application "apply" and the vehicle "rented" |
| RentalEngine.AddThenCompleteReturnsVehicle | car_rental_system/command/rentals.py:151-181 | renting then completing, as written or corrected, leaves the vehicle as before except for its mileage, which is the return mileage |
| LegacyRentals.LegacyAddRental | command/rentals.py:55-92 | with no current staff it raises before any check; an out-of-range return date raises; a missing or unavailable vehicle is refused; a None daily rate raises; otherwise an "active" rental copies the mileage, possibly None, and nothing else changes |
| LegacyRentals.LegacyCancelRental | command/rentals.py:121-128 | the older cancel always reports success, marks an existing rental "cancelled" and never touches a vehicle |
| LegacyRentals.LegacyCancelRentalCorrected | command/rentals.py:121-128 | corrected older cancel: the same rental write, and a still-open rental's vehicle becomes "available" |
| LegacyRentals.LegacyCompleteRental | command/rentals.py:94-119 | a missing rental is refused; a None initial mileage raises; a lower return mileage is refused with no write; success exactly when the mileage is set and not above the return mileage and the vehicle id is truthy, whatever the status; success completes that rental only and gives its vehicle the return mileage and "available" |
| LegacyRentals.LegacyAddAgreesWithAddRental | command/rentals.py:55-92 | for a found staff member the older booking equals the newer staff booking unless the vehicle lacks a mileage or a rate; an available vehicle with no mileage is booked by the older one with a None initial mileage and refused by the newer one |
| LegacyRentals.LegacyHandleCommand | command/rentals.py:34-45 | help for fewer than two words; "list" and "active" give the older listing, all or active only, with no write; "add", "complete" and "cancel" run the older handlers as written; an unknown subcommand is reported |
| MaintenanceEngine.NewRecordFor | car_rental_system/command/maintenance.py:60-83 | the new record is "scheduled", dated `now`, and has no completion date |
| MaintenanceEngine.AddMaintenance | car_rental_system/command/maintenance.py:57-89 | succeeds exactly when the vehicle exists, is available and there is a current staff member; the vehicle becomes "maintenance" and a "scheduled" record goes under the next id, which under a counter above every id is exactly one new record, every other record unchanged |
| MaintenanceEngine.StartMaintenance | car_rental_system/command/maintenance.py:115-123 | the record becomes "ongoing" with its completion date cleared, whatever its status; vehicles are untouched |
| MaintenanceEngine.CompleteMaintenanceAsWritten | car_rental_system/command/maintenance.py:91-113 | the record is marked completed first; a missing record or a falsy vehicle id is reported; otherwise the vehicle becomes "available" whatever its status |
| MaintenanceEngine.CompleteMaintenance | car_rental_system/command/maintenance.py:91-113 | corrected completion: same messages and record write; only a vehicle in "maintenance" is freed, and every other vehicle is unchanged |
| MaintenanceEngine.DeleteMaintenance | car_rental_system/command/maintenance.py:125-133 | the record disappears; the vehicle keeps its status |
| MaintenanceEngine.HandleMaintenanceCommandAsWritten | car_rental_system/command/maintenance.py:28-47 | help for fewer than two words; each of the six subcommands runs its handler as written; an unknown subcommand is reported; no maintenance command changes a rental |
| MaintenanceEngine.HandleMaintenanceCommand | car_rental_system/command/maintenance.py:28-47 | corrected: complete runs the corrected handler; every other command is exactly the dispatcher as written |
| MaintenanceEngine.LifecycleRestoresVehicle | car_rental_system/command/maintenance.py:57-113 | add, start and complete on an available vehicle leave every vehicle as before and the record "completed" at the completion time |
| Consistency.FreshStoreConsistent | app/repository/vehicles.py:42-54 | a store with no rentals and no rented vehicles satisfies the invariant |
| Consistency.OpenVehicleIdTruthy | car_rental_system/command/rentals.py:201 | under the invariant an open rental's vehicle id is truthy and names a vehicle |
| Consistency.PlaceRentalPreserves | car_rental_system/command/rentals.py:121-148 | placing an "apply" or "active" rental preserves the invariant |
| Consistency.AddRentalPreserves | car_rental_system/command/rentals.py:85-149 | a staff booking preserves the invariant: no vehicle is rented twice |
| Consistency.BookRentalPreserves | car_rental_system/command/rentals.py:249-308 | a customer booking preserves the invariant |
| Consistency.AuditRentalPreserves | car_rental_system/command/rentals.py:310-336 | an audit, approving or declining, preserves the invariant |
| Consistency.CancelRentalPreserves | car_rental_system/command/rentals.py:183-204 | corrected cancellation preserves the invariant |
| Consistency.CompleteRentalPreserves | car_rental_system/command/rentals.py:151-181 | corrected completion preserves the invariant |
| Consistency.CompleteRentalMileageMonotone | car_rental_system/command/rentals.py:166-180 | a successful completion of an open rental, as written, never winds the odometer back; the corrected completion completes only open rentals, so never does |
| Consistency.CompleteRentalAsWrittenPreserves | car_rental_system/command/rentals.py:151-181 | the completion as written preserves the invariant unless the rental is closed and another open rental holds its vehicle |
| Consistency.CompleteMaintenanceAsWrittenPreserves | car_rental_system/command/maintenance.py:91-113 | the maintenance completion as written preserves the invariant unless the record's vehicle is rented |
| Consistency.AddMaintenancePreserves | car_rental_system/command/maintenance.py:57-89 | scheduling maintenance preserves the invariant |
| Consistency.CompleteMaintenancePreserves | car_rental_system/command/maintenance.py:91-113 | corrected maintenance completion preserves the invariant |
| Consistency.HandleRentalCommandAsWrittenPreserves | car_rental_system/command/rentals.py:40-75 | every rental command as written, for every role, preserves the invariant, except a staff completion of a closed rental whose vehicle another open rental holds |
| Consistency.HandleRentalCommandPreserves | car_rental_system/command/rentals.py:40-75 | corrected: every rental command, for every role, preserves the invariant |
| Consistency.HandleMaintenanceCommandAsWrittenPreserves | car_rental_system/command/maintenance.py:28-47 | every maintenance command as written preserves the invariant, except a completion whose vehicle is rented |
| Consistency.HandleMaintenanceCommandPreserves | car_rental_system/command/maintenance.py:28-47 | corrected: every maintenance command preserves the invariant |
| Consistency.LegacyAddRentalPreserves | command/rentals.py:55-92 | the older booking preserves the invariant whenever the vehicle has a mileage to copy |
| Consistency.LegacyCancelCorrectedPreserves | command/rentals.py:121-128 | corrected: the older cancel that frees the vehicle preserves the invariant |
| Consistency.LegacyHandleCommandPreserves | command/rentals.py:34-45 | the older dispatcher preserves the invariant except on a booking that copies a None mileage, a cancel of an open rental, and a completion of a closed rental whose vehicle is held |
| Findings.CompletingClosedRentalFreesRentedVehicle | car_rental_system/command/rentals.py:162-180 | completing a closed rental as written succeeds and frees a vehicle that another open rental holds, breaking the invariant; the corrected handler refuses |
| Findings.CompletingClosedRentalCanLowerMileage | car_rental_system/command/rentals.py:166-179 | that same re-completion can lower the vehicle's mileage |
| Findings.CancelAsWrittenStrandsApplication | car_rental_system/command/rentals.py:198 | cancelling as written raises and leaves the application open with its vehicle rented; the corrected cancel frees it and keeps the invariant |
| Findings.LegacyCancelStrandsVehicle | command/rentals.py:121-128 | the older cancel of an open rental leaves the vehicle "rented" with no rental holding it, breaking the invariant; the corrected older cancel frees it and keeps the invariant |
| Findings.CompletingMaintenanceFreesRentedVehicle | car_rental_system/command/maintenance.py:108-111 | completing maintenance as written frees a vehicle that an open rental holds; the corrected handler leaves it rented and keeps the invariant |
| Scenarios.FleetConsistent | app/repository/vehicles.py:43 | the one-Camry fleet satisfies the invariant |
| Scenarios.StaffBooking | car_rental_system/command/rentals.py:136-148 | two days on the Camry: "active", initial mileage 15000, cost 90.00, vehicle rented |
| Scenarios.ThreeDayCost | car_rental_system/command/rentals.py:142 | three days at 45.00 cost 135.00 |
| Scenarios.ZeroDayRental | car_rental_system/command/rentals.py:111-118 | a 0-day rental is accepted at no cost and ends when it starts |
| Scenarios.DoubleBookingRefused | car_rental_system/command/rentals.py:286-289 | a rented vehicle cannot be booked again, and nothing is written |
| Scenarios.BookThenReject | car_rental_system/command/rentals.py:330-334 | a booked then declined application is "reject" and the Camry is back as it was |
| Scenarios.Completion | car_rental_system/command/rentals.py:166-180 | return at 15200 completes and updates the vehicle; 14900 is refused with no write |
| Scenarios.RecompletionFromFleet | car_rental_system/command/rentals.py:162-180 | a run from the fleet ends with the vehicle "available" at a lower mileage while a second rental holds it |
| Scenarios.MaintenanceRecompletionFromFleet | car_rental_system/command/maintenance.py:100-111 | a run from the fleet ends with a rented vehicle freed by a stale maintenance completion |

## Left out

- Terminal I/O: `rich` rendering, the help texts and `Prompt.ask`. An answer sequence stands in for the prompts, and `command.split()` for the parsed words.
- The clock: `datetime.now()` and `date.today()` are parameters.
- Floating point: daily rates, costs and estimated costs are integer cents. `float(...)` of a validated price is not modelled.
- `created_at` and other database defaults that no handler reads.
- `add_vehicle` and the other vehicle, customer, staff, user and profile commands: they are outside the lifecycle core.
- The staff and customer `get_by_user_id` lookups are not part of this model. Their results are the `Lookup` inputs.
- The AUTOINCREMENT counter is a plain counter; SQLite's reuse rules after deletes are not modelled.
- The vehicle table's NOT NULL constraints are not re-checked on update.
- The maintenance table's schema is not part of this model. No CHECK constraint is assumed on its status.
- The maintenance listing selects `v.brand` while the newer vehicles table calls the column `make`. That mismatch makes the query fail against that schema; the model joins by id and shows the vehicle's make.
- `car_rental_system/command/rentals.py` calls `get_validated_input` with the `app/util` signature `(prompt, error, validator)`. The error string would land in the validator slot and raise at the first prompt. The handlers are modelled on already-validated numbers.
- `car_rental_system/main.py:34` builds `RentalCommand()` without the `current_user` argument that `car_rental_system/command/rentals.py:34` requires, so that entry point raises TypeError before any rental command runs. It also calls `handle_command` on the rental command, which defines `handle`. The dispatcher is modelled as `handle`, given the session's role.
- `command/rentals.py` indexes the vehicle as a tuple, against a vehicle store whose `get_by_id` is not part of this model. It is modelled against the same vehicle store as the newer commands.
- Base.Contains: `LIKE` is modelled as a case-sensitive literal substring test. SQLite's ASCII case folding and `%`/`_` inside the search text are not modelled.
- Validation.ValidateDigit: `str.isdigit` is modelled on ASCII digits only; other Unicode digits are not.
- Validation.ValidatePhone: `str.isdigit` is modelled on ASCII digits only, so ten non-ASCII digits are refused here and accepted by the code.
- Validation.ValidatePhoneAnyLength: the same ASCII-only reading of `str.isdigit`.
- Validation.ValidatePhoneOrNone: the same ASCII-only reading of `str.isdigit`.
- Validation.ValidatePrice: the regex's `\d` and `Decimal` accept any Unicode decimal digit; the model accepts ASCII digits only.
- Validation.ParseInt: only an optional sign and ASCII digits; `int()`'s surrounding whitespace and `_` separators are not modelled.
- Validation.ValidateYear: inherits the gaps of `Validation.ParseInt`, so " 1950 ", "1_950" and years in non-ASCII digits, which the code accepts, are refused.
- VehicleStore.GetVehicles: inherits the gap of `Base.Contains`; SQLite's `LIKE` ignores ASCII case, so the code lists the seeded Toyota for "toyota" and the model does not.
- VehicleStore.SearchByBrand: the same case-sensitive reading of `LIKE` as `VehicleStore.GetVehicles`.
- RentalEngine.HandleRentalCommand: the corrected dispatcher, not the code as written; the code as written is `RentalEngine.HandleRentalCommandAsWritten`.
- Consistency.HandleRentalCommandPreserves: holds for the corrected dispatcher only; for the code as written see `Consistency.HandleRentalCommandAsWrittenPreserves` and its exception.
- MaintenanceEngine.HandleMaintenanceCommand: the corrected dispatcher, not the code as written; the code as written is `MaintenanceEngine.HandleMaintenanceCommandAsWritten`.
- Consistency.HandleMaintenanceCommandPreserves: holds for the corrected dispatcher only; for the code as written see `Consistency.HandleMaintenanceCommandAsWrittenPreserves` and its exception.
- RentalEngine.BookThenCancelRestoresVehicle: the restoring half holds for the corrected cancel only; as written the cancel raises.
- Consistency.CompleteRentalMileageMonotone: as written it holds only for open rentals; a closed rental's re-completion can lower the mileage (`Findings.CompletingClosedRentalCanLowerMileage`).
- LegacyRentals.LegacyHandleCommand: modelled as written only; the corrected older cancel is not wired into a dispatcher.
- The OverflowError of a return date is modelled in whole seconds since 1970-01-01; a clock reading before year 1 cannot occur and is not modelled.
- MaintenanceStore.Get: the order among records with the same date is left open, as the query leaves it.
- VehicleStore.GetVehicles: the rows are returned as a map keyed by id, because the query has no ORDER BY.

## Findings

| source | as written | input that shows it | evidently intended | confidence | as-written member | corrected member |
|---|---|---|---|---|---|---|
| car_rental_system/command/rentals.py:198 | cancel writes status "cancel", which the rentals CHECK constraint (app/repository/rentals.py:42-50) refuses, so the handler raises, the application stays "apply" and its vehicle stays "rented"; the rentals schema of car_rental_system is not part of this model, so the app schema is assumed | any rental whose status is "apply", for example one just booked by a customer | write "cancelled" and free the vehicle | medium, not executed | RentalEngine.CancelRentalAsWritten, Findings.CancelAsWrittenStrandsApplication | RentalEngine.CancelRental, Consistency.CancelRentalPreserves |
| car_rental_system/command/rentals.py:162-180 | complete does not check the rental's status, so a completed rental can be completed again | rent vehicle 1 (rental 1), complete at 15200, rent it again (rental 2), complete rental 1 at 15100: vehicle 1 becomes "available" at 15100 while rental 2 is active | only an "active" rental can be completed | high, not executed | RentalEngine.CompleteRentalAsWritten, Findings.CompletingClosedRentalFreesRentedVehicle, Scenarios.RecompletionFromFleet | RentalEngine.CompleteRental, Consistency.CompleteRentalPreserves, Consistency.CompleteRentalMileageMonotone |
| car_rental_system/command/maintenance.py:97-111 | complete frees the vehicle whatever its current status | add and complete maintenance record 1 on vehicle 1, rent vehicle 1, complete record 1 again: the rented vehicle becomes "available" | free only a vehicle that is in "maintenance" | medium, not executed | MaintenanceEngine.CompleteMaintenanceAsWritten, Findings.CompletingMaintenanceFreesRentedVehicle, Scenarios.MaintenanceRecompletionFromFleet | MaintenanceEngine.CompleteMaintenance, Consistency.CompleteMaintenancePreserves |
| command/rentals.py:121-128 | the older cancel marks the rental "cancelled" without checking it and never touches the vehicle | a staff booking of vehicle 1 (rental 1, "active"), then cancel rental 1: vehicle 1 stays "rented" with no open rental | a cancelled open rental frees its vehicle, as the newer cancel does | medium, not executed | LegacyRentals.LegacyCancelRental, Findings.LegacyCancelStrandsVehicle | LegacyRentals.LegacyCancelRentalCorrected, Consistency.LegacyCancelCorrectedPreserves |
