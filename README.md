# Hospital registration: a verified model of the booking core

This project models the core of a hospital outpatient-registration service in
Dafny and proves properties of that model. The service is written in Java: Spring
services over MyBatis mappers.

- **Schedule.** A schedule is one doctor's quota for one date and one half-day
  period ("AM" or "PM"). Patients book registrations against schedules.
- **Booking.** Booking takes one unit of remaining quota with a guarded decrement.
  It then inserts a registration carrying a queue number and a booking reference
  (`GH` + `yyyyMMdd` + a six-digit sequence). Both numbers are computed as
  max + 1 and retried on a unique-key collision.
- **Cancel and finish.** Cancelling moves a BOOKED registration to CANCELLED and
  gives the unit back. It is allowed until one hour before the period starts.
  Finishing moves BOOKED to FINISHED and keeps the unit.
- **Administration.** Administrators add schedules, edit their capacity and
  soft-delete them. Adding a deleted schedule's doctor, date and period reopens
  that row.
- **Paging and validation.** Both paged listings clamp their page parameters.
  The patient sign-up and profile forms are checked by Bean Validation
  constraints.

Modules, one per file:

| file | module | models |
|---|---|---|
| `wrappers.dfy` | `Wrappers` | nullable values, `Result` replies |
| `calendar.dfy` | `Calendar` | `LocalDate`/`LocalDateTime` comparison, the cancellation deadline |
| `identifiers.dfy` | `RegNo` | `String.format("GH%s%06d")`, MySQL `CAST(SUBSTRING(reg_no, 11) AS UNSIGNED)` |
| `entities.dfy` | `Entities` | the `schedule` and `registration` rows |
| `schedule_mapper.dfy` | `ScheduleMapper` | the schedule mapper's selects and updates, as functions of the table |
| `registration_mapper.dfy` | `RegistrationMapper` | the registration mapper's selects and conditional update, and the table's unique indexes |
| `store.dfy` | `Database` | class `Store`: the two tables; one method per writing mapper statement |
| `booking.dfy` | `Booking` | `RegistrationServiceImpl.create`, `cancel`, `finish`, `generateRegNo` |
| `schedule_admin.dfy` | `ScheduleAdmin` | `ScheduleServiceImpl.add`, `update`, `delete` |
| `paging.dfy` | `Paging` | the page clamp and `LIMIT` offset of both `listPageWithFilter` methods |
| `patient_rules.dfy` | `PatientRules` | the validation constraints of `Patient` and their groups |

The database is a class whose fields the mapper methods reassign:
- `schedules` is a map from `schedule_id` to row;
- `registrations` is a sequence in insertion order;
- each auto-increment key has a next value.

`Store.Valid()` holds the unique indexes the service relies on:
- (doctor, date, period) for schedules;
- `uk_schedule_queue`, `reg_no` and `uk_patient_schedule_active` for registrations;
- fresh auto-increment keys;
- every registration names an existing schedule.

Every service method keeps `Valid()`.

**Conservation.** For every schedule, the remaining quota plus its BOOKED and
FINISHED registrations is a fixed sum (`Database.Balance`).
- `create`, `cancel` and `finish` keep every balance, on every path.
- A capacity edit, or a reopening, sets the balance to the new total.

**Concurrency.** The model has no threads. It runs the competing requests
themselves, at the points where they can commit in the middle of a request:
- Before `create` takes its unit of quota, and again before each insert attempt,
  other bookings may run (an `Interleaving`, a list of rival bookings).
- Between the status check and the conditional update of `cancel` or `finish`,
  another cancel or finish of the same registration may run (a `Race`).

The contracts state what each request still guarantees under those
interleavings:
- A failed reservation is reported as "taken".
- A request that fails after its checks leaves only rows the rivals wrote, and
  a booking adds its own row last.
- A last collision gives the unit back.
- A second cancel never gives a unit back twice.

Alone, a request that passes its checks succeeds with exactly one row and one
unit.

Clocks are parameters: `today` for `create` and `now` for `cancel`.

**As written.** The model follows the code as written:
- any period other than "AM" starts at 14:00;
- `increaseQuota` has no upper bound;
- occupancy counts BOOKED and FINISHED rows;
- an error reply after a quota change is not rolled back: the methods return
  rather than throw.

## Model

| member | source | states |
|---|---|---|
| Calendar.CancelWindow | src/main/java/com/hospital/registration/service/impl/RegistrationServiceImpl.java:127-134 | cancelling is allowed exactly on an earlier day, or on the visit day up to and including one hour before the period starts (07:00 for "AM", 13:00 otherwise) |
| Calendar.DeadlineIsInclusive | src/main/java/com/hospital/registration/service/impl/RegistrationServiceImpl.java:132 | `isAfter` is strict: the deadline instant itself is allowed and one nanosecond later is not |
| RegNo.NextSeq | src/main/java/com/hospital/registration/service/impl/RegistrationServiceImpl.java:221 | the sequence is at least 1 and exceeds the day's maximum when there is one |
| RegNo.PadLength | src/main/java/com/hospital/registration/service/impl/RegistrationServiceImpl.java:222 | `%06d` yields at least six characters, exactly six iff the number is below 10^6 |
| RegNo.SeqRoundTrip | src/main/java/com/hospital/registration/mapper/RegistrationMapper.java:33-35 | reading `CAST(SUBSTRING(regNo, 11) AS UNSIGNED)` back from a formatted reference gives the number that was formatted, for every number |
| RegNo.FormatShape | src/main/java/com/hospital/registration/service/impl/RegistrationServiceImpl.java:222 | a reference starts with "GH" and the 8-character date and is at least 16 characters |
| RegNo.FormatInjective | src/main/java/com/hospital/registration/service/impl/RegistrationServiceImpl.java:222 | two references of a day are equal iff their sequences are |
| RegNo.DecimalValue | src/main/java/com/hospital/registration/service/impl/RegistrationServiceImpl.java:222 | the digits printed for a number spell that number |
| ScheduleMapper.DeletedMatchUnique | src/main/java/com/hospital/registration/mapper/ScheduleMapper.java:69-73 | the restore lookup finds only deleted rows with the doctor, date and period, and under the unique key at most one |
| ScheduleMapper.DecrementEffect | src/main/java/com/hospital/registration/mapper/ScheduleMapper.java:57-59 | the decrement affects one row iff the row exists with remaining > 0 (status not consulted), then takes exactly 1 from that row's remaining and changes nothing else; otherwise affects 0 and changes nothing |
| ScheduleMapper.IncrementEffect | src/main/java/com/hospital/registration/mapper/ScheduleMapper.java:61-63 | the increment adds 1 to an existing row's remaining with no cap at the total and changes nothing else |
| ScheduleMapper.IncrementUndoesDecrement | src/main/java/com/hospital/registration/mapper/ScheduleMapper.java:57-63 | a successful decrement followed by an increment of the same row restores the table exactly |
| ScheduleMapper.SoftDeleteEffect | src/main/java/com/hospital/registration/mapper/ScheduleMapper.java:65-66 | the delete sets the row's status to 0 and changes no other column and no other row |
| ScheduleMapper.RestoreEffect | src/main/java/com/hospital/registration/mapper/ScheduleMapper.java:76-79 | the restore writes status 1, total, remaining and fee of the row, keeps its doctor, date and period, and leaves other rows alone |
| RegistrationMapper.SelectById | src/main/java/com/hospital/registration/mapper/RegistrationMapper.java:20-26 | the lookup finds a row with the given id, or there is none |
| RegistrationMapper.SelectByPatientAndSchedule | src/main/java/com/hospital/registration/mapper/RegistrationMapper.java:28-31 | the lookup finds a BOOKED row of the patient and schedule, or no such row exists; cancelled and finished rows are never found |
| RegistrationMapper.SelectMaxQueueNo | src/main/java/com/hospital/registration/mapper/RegistrationMapper.java:62-64 | the maximum queue number over all rows of the schedule whatever their status, attained by one of them; none iff the schedule has no rows |
| RegistrationMapper.MaxSeqByDateIsMax | src/main/java/com/hospital/registration/mapper/RegistrationMapper.java:33-35 | the day's maximum is absent iff no reference has the day's prefix, bounds every such reference's suffix and is attained by one |
| RegistrationMapper.StatusUpdateEffect | src/main/java/com/hospital/registration/mapper/RegistrationMapper.java:44-48 | the conditional update affects 1 iff the row exists with the old status, then sets exactly that row's status; otherwise affects 0 and changes nothing |
| RegistrationMapper.StatusUpdateRepeat | src/main/java/com/hospital/registration/mapper/RegistrationMapper.java:44-48 | repeating an update that succeeded affects 0 rows and changes nothing |
| RegistrationMapper.SelectByIdStable | src/main/java/com/hospital/registration/mapper/RegistrationMapper.java:45 | status changes never move or remove a row, so every lookup by id is unchanged |
| RegistrationMapper.ActiveBookingUnique | src/main/java/com/hospital/registration/service/impl/RegistrationServiceImpl.java:98-101 | under `uk_patient_schedule_active` no two rows are BOOKED for the same patient and schedule |
| RegistrationMapper.NextQueueNoFresh | src/main/java/com/hospital/registration/service/impl/RegistrationServiceImpl.java:62-64 | max + 1 exceeds every queue number of the schedule, cancelled rows included, so it collides with none |
| RegistrationMapper.AppendKeepsIndexes | src/main/java/com/hospital/registration/mapper/RegistrationMapper.java:37-42 | a row the unique indexes accept keeps them holding |
| RegistrationMapper.OccupiedUpdate | src/main/java/com/hospital/registration/service/impl/ScheduleServiceImpl.java:119-120 | changing one row moves each schedule's BOOKED + FINISHED count by exactly that row's contribution |
| Database.Store.DecreaseQuota | src/main/java/com/hospital/registration/mapper/ScheduleMapper.java:57-59 | the new table and affected count are those of the guarded decrement; registrations and keys unchanged |
| Database.Store.IncreaseQuota | src/main/java/com/hospital/registration/mapper/ScheduleMapper.java:61-63 | the new table and affected count are those of the unguarded increment |
| Database.Store.DeleteById | src/main/java/com/hospital/registration/mapper/ScheduleMapper.java:65-66 | the new table is the soft delete of the row |
| Database.Store.RestoreById | src/main/java/com/hospital/registration/mapper/ScheduleMapper.java:76-79 | the new table is the restore of the row with the given total, remaining and fee |
| Database.Store.InsertSchedule | src/main/java/com/hospital/registration/mapper/ScheduleMapper.java:47-50 | a row whose (doctor, date, period) is taken is rejected with nothing changed; otherwise it goes in under the next fresh key |
| Database.Store.UpdateSchedule | src/main/java/com/hospital/registration/mapper/ScheduleMapper.java:52-55 | every column of an existing row is overwritten unless another row holds the new (doctor, date, period); a missing row affects 0 |
| Database.Store.InsertRegistration | src/main/java/com/hospital/registration/mapper/RegistrationMapper.java:37-42 | a row colliding with a unique index is rejected with the index named and nothing changed; otherwise it is appended with exactly its columns and a fresh `reg_id` |
| Database.Store.UpdateStatusWithCondition | src/main/java/com/hospital/registration/mapper/RegistrationMapper.java:45-48 | the new table and affected count are those of the conditional status update |
| Booking.GenerateRegNoShape | src/main/java/com/hospital/registration/service/impl/RegistrationServiceImpl.java:218-223 | the reference has the day's prefix; its read-back sequence is 1 on a new day and otherwise above every sequence of the day; length 16 iff the sequence is below 10^6 |
| Booking.GenerateRegNoFresh | src/main/java/com/hospital/registration/service/impl/RegistrationServiceImpl.java:218-223 | a reference generated against a table is not in that table |
| Booking.CreateGuardPasses | src/main/java/com/hospital/registration/service/impl/RegistrationServiceImpl.java:36-51 | the checks pass iff the schedule exists, has quota, is open and the patient holds no BOOKED registration for it |
| Booking.ListedIsBookable | src/main/java/com/hospital/registration/mapper/ScheduleMapper.java:31-38 | a schedule the patient-facing list offers passes the checks of `create`, except at most the patient's own existing booking, and passes them all iff the patient holds no BOOKED registration for it |
| Booking.Create | src/main/java/com/hospital/registration/service/impl/RegistrationServiceImpl.java:34-112 | a failed check returns its error and writes nothing; a booking is the new last row, built from the schedule, numbered max + 1 on the table it went into, and every row before it that is new is a rival's BOOKED row; a failure after the checks leaves only rival rows (before the reservation only, for a missed reservation); alone, a request passing the checks always books with exactly one row and one unit; every balance is kept on every path; the insert attempts behind the reply are recorded, and a booking comes after fewer than three collisions, none with an active booking, SystemBusy only after three queue-number or reference collisions, a duplicate only at the first active-booking collision within three attempts, and every other reply before any attempt |
| Booking.Book | src/main/java/com/hospital/registration/service/impl/RegistrationServiceImpl.java:53-111 | once the checks pass: the reply is a booking, a missed reservation, SystemBusy or a duplicate the table shows; the request's own row is in the table only after a booking, as the last row; every balance is kept; the insert attempts behind the reply are recorded, and a booking comes after fewer than three collisions, none with an active booking, SystemBusy only after three queue-number or reference collisions, a duplicate only at the first active-booking collision within three attempts, and every other reply before any attempt |
| Booking.Reserve | src/main/java/com/hospital/registration/service/impl/RegistrationServiceImpl.java:53-57 | rival bookings commit, then the decrement either takes exactly one unit of this schedule's balance or misses with the quota at 0 and every balance kept; alone and with quota left it takes the unit and writes nothing else |
| Booking.InsertWithRetry | src/main/java/com/hospital/registration/service/impl/RegistrationServiceImpl.java:79-104 | SystemBusy only after three queue-number or reference collisions, DuplicateBooking only at the first active-booking collision, a booking after fewer than three renumbered collisions; with no rival between the attempts, a patient who already holds an active booking of the schedule gets DuplicateBooking after one attempt, with the unit given back and no row written; the unit taken before the loop is held by the new row or given back, exactly once; failures are only SystemBusy or a duplicate the table shows, and leave only rows the rivals wrote; a success adds the request's row last |
| Booking.InsertLoop | src/main/java/com/hospital/registration/service/impl/RegistrationServiceImpl.java:80-104 | at most three attempts, which stop at the first insert that goes in, the first active-booking collision, or the third renumbered collision, and a failure answers with the last collision; with no rival, one attempt that books exactly when the patient holds no active booking of the schedule and otherwise collides as a duplicate and writes nothing; a success holds one unit more on the row's schedule and adds the row last, numbered against the table it went into; a failure leaves only rival rows and every balance kept |
| Booking.Attempt | src/main/java/com/hospital/registration/service/impl/RegistrationServiceImpl.java:82-85 | one attempt appends exactly the numbered row or writes nothing of its own; with no rival it succeeds exactly when the patient holds no active booking, and otherwise collides as a duplicate and writes nothing |
| Booking.Retry | src/main/java/com/hospital/registration/service/impl/RegistrationServiceImpl.java:82-93 | an attempt that goes in leaves the row last, numbered max + 1 on the table it went into, with one unit more held on its schedule; a collision keeps every balance, leaves only rival rows and renumbers the row max + 1 against the table as it is now; with no rival, it books exactly when the patient holds no active booking |
| Booking.InsertNumbered | src/main/java/com/hospital/registration/service/impl/RegistrationServiceImpl.java:83 | a row numbered against the current table collides with neither the queue nor the reference index, so it goes in exactly when the patient holds no active booking of the schedule and otherwise collides as a duplicate |
| Booking.CancelStep | src/main/java/com/hospital/registration/service/impl/RegistrationServiceImpl.java:137-143 | the flip to CANCELLED plus the increment keeps every balance and returns exactly one unit to the row's schedule |
| Booking.FinishStep | src/main/java/com/hospital/registration/service/impl/RegistrationServiceImpl.java:206-209 | the flip to FINISHED keeps every balance and every quota |
| Booking.Cancel | src/main/java/com/hospital/registration/service/impl/RegistrationServiceImpl.java:114-146 | a missing, non-BOOKED or too-late registration is rejected with nothing changed; quota comes back iff the conditional update flipped the row, only to its schedule; a second cancel gets nothing; alone, a cancellable booking is cancelled and gets its unit back |
| Booking.Finish | src/main/java/com/hospital/registration/service/impl/RegistrationServiceImpl.java:193-212 | only BOOKED becomes FINISHED; other statuses are rejected with nothing changed; quota is never touched by finish itself |
| ScheduleAdmin.UnreferencedUnoccupied | src/main/java/com/hospital/registration/service/impl/ScheduleServiceImpl.java:80 | a schedule no registration names has no occupied units |
| ScheduleAdmin.Add | src/main/java/com/hospital/registration/service/impl/ScheduleServiceImpl.java:67-109 | a deleted row with the key is reopened under its own id (a null total or a total below the occupied count rejected with nothing written), leaving 0 <= remaining <= total and balance = total; otherwise a new open row goes in under a fresh id, or a taken key is rejected with nothing written |
| ScheduleAdmin.Update | src/main/java/com/hospital/registration/service/impl/ScheduleServiceImpl.java:111-138 | a missing schedule or a total below the occupied count is rejected with nothing written; otherwise the row is overwritten with remaining = total − occupied, unless the key is taken; after success the balance equals the total |
| ScheduleAdmin.Delete | src/main/java/com/hospital/registration/service/impl/ScheduleServiceImpl.java:140-149 | a missing schedule is rejected; otherwise only its status becomes 0 and all registrations stay |
| ScheduleAdmin.DeleteThenAddReopens | src/main/java/com/hospital/registration/mapper/ScheduleMapper.java:65-73 | a deleted schedule leaves every available list, keeps its balance, and is the single row a later add with its key reopens |
| ScheduleAdmin.ReopenedIsAvailable | src/main/java/com/hospital/registration/service/impl/ScheduleServiceImpl.java:83-91 | a reopened schedule is listed as available iff the new total exceeds the occupied count |
| Paging.Wrap32 | src/main/java/com/hospital/registration/service/impl/ScheduleServiceImpl.java:46 | Java `int` multiplication: the result is in the 32-bit range and congruent to the exact product |
| Paging.WrapFixesInt32 | src/main/java/com/hospital/registration/service/impl/ScheduleServiceImpl.java:46 | wrapping changes a value iff it is outside the 32-bit range |
| Paging.ClampedPage | src/main/java/com/hospital/registration/service/impl/ScheduleServiceImpl.java:42 | the page is at least 1 and a valid page is kept |
| Paging.ClampedSize | src/main/java/com/hospital/registration/service/impl/ScheduleServiceImpl.java:43-44 | the size is within 1..100, a size in range is kept, one above 100 becomes 100 |
| Paging.ClampIdempotent | src/main/java/com/hospital/registration/service/impl/ScheduleServiceImpl.java:42-44 | clamping clamped values changes nothing |
| Paging.PageWindow | src/main/java/com/hospital/registration/service/impl/ScheduleServiceImpl.java:42-46 | the clamp as written (also `RegistrationServiceImpl.java` lines 172-176): page below 1 becomes 1, size below 1 becomes 10, and the offset is the 32-bit product, equal to the true offset only while that fits |
| Paging.NegativeOffset | src/main/java/com/hospital/registration/service/impl/ScheduleServiceImpl.java:46 | page 21474838 of 100 rows yields offset −2147483596 |
| Paging.PageWindowWide | src/main/java/com/hospital/registration/service/impl/ScheduleServiceImpl.java:46 | with 64-bit arithmetic the offset is the exact (page − 1) × size and never negative |
| PatientRules.Violations | src/main/java/com/hospital/registration/entity/Patient.java:14-39 | the fields a form fails in a group; the ID card and password are never checked on update; a missing age never fails |
| PatientRules.NameCharacterization | src/main/java/com/hospital/registration/entity/Patient.java:14-17 | a name is accepted iff present with 2 to 20 characters, all in U+4E00..U+9FA5 |
| PatientRules.Utf16LengthOfBmp | src/main/java/com/hospital/registration/entity/Patient.java:15 | `@Size` counts UTF-16 units, which equal characters for text inside the BMP |
| PatientRules.IdCardCharacterization | src/main/java/com/hospital/registration/entity/Patient.java:20-21 | the ID pattern holds iff 18 characters: 17 digits with a non-zero first, a year 1800–2099, a month 1–12, a day 1–31 in any month, then a digit, X or x |
| PatientRules.IdCardValidity | src/main/java/com/hospital/registration/entity/Patient.java:19-22 | on sign-up an ID card is accepted iff present and matching, so `@NotBlank` only adds the rejection of a null |
| PatientRules.MonthGroupValue | src/main/java/com/hospital/registration/entity/Patient.java:20 | the month group accepts exactly the two-digit values 1 to 12 |
| PatientRules.DayGroupValue | src/main/java/com/hospital/registration/entity/Patient.java:20 | the day group accepts exactly the two-digit values 1 to 31 |
| PatientRules.YearValue | src/main/java/com/hospital/registration/entity/Patient.java:20 | the century group followed by two digits accepts exactly the years 1800 to 2099 |
| PatientRules.PhoneCharacterization | src/main/java/com/hospital/registration/entity/Patient.java:25 | the phone pattern holds iff 11 digits spelling a number from 13000000000 to 19999999999 |
| PatientRules.PhoneValidity | src/main/java/com/hospital/registration/entity/Patient.java:24-26 | a phone is accepted iff present and matching |
| PatientRules.PasswordCharacterization | src/main/java/com/hospital/registration/entity/Patient.java:37-39 | a password is accepted iff present, not all blank, with 6 to 20 UTF-16 units |
| PatientRules.GroupsNest | src/main/java/com/hospital/registration/entity/Patient.java:14-39 | sign-up checks everything an update checks, plus exactly the ID card and password, which an update ignores whatever they hold |

## Left out

- Controllers, Spring wiring, the MyBatis and HTTP plumbing and the whole front end: these are I/O.
- Department, doctor, patient and admin services and their mappers: they are plain lookups and inserts. The department page clamp is the same clamp as `Paging.PageWindow`.
- The listing queries (`selectAll`, `selectWithFilter`, `selectPageWithFilter`, `countWithFilter`, `selectByDoctorAndDateRange`, `selectByPatientId`, the status counts) and their display fields (`doctorName`, `deptName`, `title`): they are read-only reports.
- Statistics and `sumFee`: floating point. The fee is a copied value with no arithmetic.
- Real threads and database isolation. Concurrency appears only as rival requests of the model's own operations at fixed points (see above). Administrative edits running concurrently with a booking are not modelled.
- `@Transactional` rollback on exceptions: every error path returns normally, so none applies. A failure of the compensating `increaseQuota` itself cannot happen in the model.
- Booking.Create: the unique-key violation is given as a structured conflict kind (queue number, reference, active duplicate); the message-text matching is not modelled. Spring's `DuplicateKeyException` message usually repeats the failing SQL, which names the `reg_no` column, so as written `msg.contains("reg_no")` may send every duplicate, the active-booking one included, down the retry path; the model keeps the three kinds apart. When a row collides with several indexes, it is reported as the first of queue, reference, active booking: that order is an assumption, because the schema is not part of this model.
- Booking.Create: after the checks, a failure promises that every row it leaves beyond the original table is a BOOKED row for one of the rivals' (patient, schedule) pairs and that every balance is kept. It does not promise that the table is exactly what the rivals alone would leave: the rivals are calls of the same method, and no function computes their effect.
- Booking.Create: when rivals run before the reservation, a duplicate is promised only as the first active-booking collision of the recorded attempts. That it follows from an active booking at once is promised for the insert loop when no rival runs between its attempts; no function computes what the rivals before the reservation leave.
- Booking.Create: one `today` is used for all attempts. A request whose retries span midnight is not modelled.
- Booking.Cancel: the rival of a `Race` is a single cancel or finish of the same registration, with no nested race.
- Database.Store.InsertRegistration: requires the row's schedule to exist, as at its only caller, which has just read that schedule. A dangling `schedule_id` is not modelled.
- ScheduleAdmin.Add: in the insert branch, a null total is assumed to be rejected by a NOT NULL column, with nothing written; the schema is not part of this model.
- ScheduleAdmin.Update: a null total is likewise modelled as rejected by the table. The pass-through of the client's remaining quota on that path is not modelled. The status column is written from the form as given.
- Null values in the other submitted schedule columns (doctor, date, period, fee, status) are not modelled.
- The bean-validation annotations on `Schedule` are not modelled, because the controllers do not apply them.
- Java `int` overflow of ids, queue numbers and sequences (more than 2^31 rows) is not modelled: those are unbounded integers. The page offset is modelled 32-bit, see Findings.
- RegistrationMapper.OfDay: `reg_no LIKE CONCAT(prefix, '%')` is modelled as an exact, case-sensitive prefix test, while MySQL's default collation compares without regard to case. The two agree on every reference the service writes, which is "GH" followed by digits.
- Unpaired UTF-16 surrogates cannot occur in a Dafny string, so `@Size` on such text is not modelled.
- The unconstrained patient fields (gender, address, medical history) are not modelled.

## Findings

| source | as written | input that shows it | evidently intended | confidence | as-written member | corrected member |
|---|---|---|---|---|---|---|
| src/main/java/com/hospital/registration/service/impl/ScheduleServiceImpl.java:46 | `int offset = (page - 1) * pageSize` overflows 32-bit `int` once the product passes 2^31 − 1 (the same line appears in `RegistrationServiceImpl.java` at line 176) | page = 21474838, pageSize = 100 gives offset −2147483596, which is not a valid `LIMIT` offset | an offset equal to (page − 1) × pageSize and never negative | medium, not executed | Paging.PageWindow, Paging.NegativeOffset | Paging.PageWindowWide |
