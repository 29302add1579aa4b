/** The administrator's side of the schedule table: adding a schedule (which
    reopens a soft-deleted one with the same doctor, date and period instead of
    inserting a second row), editing one (which recomputes the remaining quota from
    the registrations that hold a unit of it), and soft-deleting one. */
module ScheduleAdmin {
  import opened Wrappers
  import opened Calendar
  import opened Entities
  import opened ScheduleMapper
  import opened RegistrationMapper
  import opened Database

  /** The schedule an administrator submits. Total and remaining quota may be left
      empty; the key is only read by `update`. */
  datatype ScheduleForm = ScheduleForm(
    scheduleId: int,
    doctorId: int,
    workDate: Date,
    timeSlot: string,
    totalQuota: Option<int>,
    remainingQuota: Option<int>,
    fee: Fee,
    status: int)

  datatype AdminError =
    | ScheduleMissing            // "排班不存在"
    | TotalMissing               // the restore branch's own null check
    | TotalBelowOccupied(occupied: nat)
    | SlotOccupied               // the unique key on (doctor, date, period)
    | ColumnMissing              // an empty total reaches the table's NOT NULL column

  /** The soft-deleted rows that share the form's (doctor, date, period). */
  function DeletedMatch(schedules: map<int, Schedule>, form: ScheduleForm): set<int>
  {
    SelectDeletedByDoctorDateSlot(schedules, form.doctorId, form.workDate, form.timeSlot)
  }

  /** The row the insert branch of `add` writes: open, and with the remaining
      quota defaulting to the total. */
  function NewRow(form: ScheduleForm): (row: Schedule)
    requires form.totalQuota.Some?
    ensures row.status == Open && row.totalQuota == form.totalQuota.value
    ensures form.remainingQuota.None? ==> row.remainingQuota == row.totalQuota
    ensures form.remainingQuota.Some? ==> row.remainingQuota == form.remainingQuota.value
    ensures row.doctorId == form.doctorId && row.workDate == form.workDate
            && row.timeSlot == form.timeSlot && row.fee == form.fee
  {
    var total := form.totalQuota.value;
    Schedule(form.doctorId, form.workDate, form.timeSlot, total,
             if form.remainingQuota.None? then total else form.remainingQuota.value,
             form.fee, Open)
  }

  /** The row `update` writes once the total is known: the remaining quota is the
      total less the units registrations hold. */
  function EditedRow(form: ScheduleForm, occupied: nat): (row: Schedule)
    requires form.totalQuota.Some?
    ensures row.totalQuota == form.totalQuota.value
    ensures row.remainingQuota + occupied == row.totalQuota
    ensures row.doctorId == form.doctorId && row.workDate == form.workDate
            && row.timeSlot == form.timeSlot && row.fee == form.fee && row.status == form.status
  {
    var total := form.totalQuota.value;
    Schedule(form.doctorId, form.workDate, form.timeSlot, total, total - occupied, form.fee, form.status)
  }

  /** A schedule no registration names holds no units. */
  lemma {:induction false} UnreferencedUnoccupied(regs: seq<Registration>, scheduleId: int)
    requires forall k :: 0 <= k < |regs| ==> regs[k].scheduleId != scheduleId
    ensures CountOccupied(regs, scheduleId) == 0
  {
    if regs != [] {
      UnreferencedUnoccupied(regs[..|regs| - 1], scheduleId);
    }
  }

  /** `add`. */
  method Add(db: Store, form: ScheduleForm) returns (res: Result<int, AdminError>)
    requires db.Valid()
    modifies db
    ensures db.Valid()
    ensures db.registrations == old(db.registrations) && db.nextRegId == old(db.nextRegId)
    // a soft-deleted row with the same key is reopened, never duplicated
    ensures DeletedMatch(old(db.schedules), form) != {} && form.totalQuota.None? ==>
      res == Failure(TotalMissing) && unchanged(db)
    ensures forall id :: id in DeletedMatch(old(db.schedules), form) && form.totalQuota.Some? ==>
      var total := form.totalQuota.value;
      var occupied := CountOccupied(old(db.registrations), id);
      (total < occupied ==> res == Failure(TotalBelowOccupied(occupied)) && unchanged(db))
      && (total >= occupied ==>
            res == Success(id) && db.nextScheduleId == old(db.nextScheduleId)
            && db.schedules == Restored(old(db.schedules), id, total, total - occupied, form.fee).0)
    // otherwise a new row is inserted
    ensures DeletedMatch(old(db.schedules), form) == {} && form.totalQuota.None? ==>
      res == Failure(ColumnMissing) && unchanged(db)
    ensures DeletedMatch(old(db.schedules), form) == {} && form.totalQuota.Some? ==>
      (SlotTaken(old(db.schedules), None, NewRow(form)) ==> res == Failure(SlotOccupied) && unchanged(db))
      && (!SlotTaken(old(db.schedules), None, NewRow(form)) ==>
            res == Success(old(db.nextScheduleId)) && old(db.nextScheduleId) !in old(db.schedules)
            && db.schedules == old(db.schedules)[old(db.nextScheduleId) := NewRow(form)])
    // what a reply of success leaves behind
    ensures res.Success? ==>
      var id := res.value;
      id in db.schedules && db.schedules[id].status == Open
      && db.schedules[id].doctorId == form.doctorId && db.schedules[id].workDate == form.workDate
      && db.schedules[id].timeSlot == form.timeSlot
      && (DeletedMatch(old(db.schedules), form) != {} ==>
            0 <= db.schedules[id].remainingQuota <= db.schedules[id].totalQuota
            && Balance(db.schedules, db.registrations, id) == db.schedules[id].totalQuota)
      && (DeletedMatch(old(db.schedules), form) == {} ==>
            Balance(db.schedules, db.registrations, id) == db.schedules[id].remainingQuota)
  {
    var found := DeletedMatch(db.schedules, form);
    DeletedMatchUnique(db.schedules, form.doctorId, form.workDate, form.timeSlot);
    if exists id :: id in found {
      var id :| id in found;
      if form.totalQuota.None? {
        return Failure(TotalMissing);
      }
      var occupied := CountOccupied(db.registrations, id);
      var total := form.totalQuota.value;
      if total < occupied {
        return Failure(TotalBelowOccupied(occupied));
      }
      var remaining := total - occupied;
      RestoreEffect(db.schedules, id, total, remaining, form.fee);
      var _ := db.RestoreById(id, total, remaining, form.fee);
      return Success(id);
    }

    if form.totalQuota.None? {
      return Failure(ColumnMissing);
    }
    var inserted := db.InsertSchedule(NewRow(form));
    if inserted.None? {
      return Failure(SlotOccupied);
    }
    var id := inserted.value;
    forall k | 0 <= k < |db.registrations| ensures db.registrations[k].scheduleId != id {
      assert LinkedAt(old(db.schedules), db.registrations, k);
    }
    UnreferencedUnoccupied(db.registrations, id);
    res := Success(id);
  }

  /** `update`, on a form that names the schedule by its key. */
  method Update(db: Store, form: ScheduleForm) returns (res: Result<Schedule, AdminError>)
    requires db.Valid()
    modifies db
    ensures db.Valid()
    ensures db.registrations == old(db.registrations)
    ensures db.nextScheduleId == old(db.nextScheduleId) && db.nextRegId == old(db.nextRegId)
    ensures form.scheduleId !in old(db.schedules) ==> res == Failure(ScheduleMissing) && unchanged(db)
    ensures form.scheduleId in old(db.schedules) && form.totalQuota.None? ==>
      res == Failure(ColumnMissing) && unchanged(db)
    ensures form.scheduleId in old(db.schedules) && form.totalQuota.Some? ==>
      var occupied := CountOccupied(old(db.registrations), form.scheduleId);
      var row := EditedRow(form, occupied);
      (form.totalQuota.value < occupied ==> res == Failure(TotalBelowOccupied(occupied)) && unchanged(db))
      && (form.totalQuota.value >= occupied && SlotTaken(old(db.schedules), Some(form.scheduleId), row) ==>
            res == Failure(SlotOccupied) && unchanged(db))
      && (form.totalQuota.value >= occupied && !SlotTaken(old(db.schedules), Some(form.scheduleId), row) ==>
            res == Success(row) && db.schedules == old(db.schedules)[form.scheduleId := row])
    // a capacity edit leaves exactly the total's worth of units on the schedule
    ensures res.Success? ==>
      0 <= res.value.remainingQuota <= res.value.totalQuota
      && Balance(db.schedules, db.registrations, form.scheduleId) == res.value.totalQuota
  {
    if form.scheduleId !in db.schedules {
      return Failure(ScheduleMissing);
    }
    var occupied := CountOccupied(db.registrations, form.scheduleId);
    if form.totalQuota.Some? && form.totalQuota.value < occupied {
      return Failure(TotalBelowOccupied(occupied));
    }
    if form.totalQuota.None? {
      return Failure(ColumnMissing);
    }
    var row := EditedRow(form, occupied);
    var affected := db.UpdateSchedule(form.scheduleId, row);
    if affected.None? {
      return Failure(SlotOccupied);
    }
    res := Success(row);
  }

  /** `delete`: a soft delete. */
  method Delete(db: Store, scheduleId: int) returns (res: Outcome<AdminError>)
    requires db.Valid()
    modifies db
    ensures db.Valid()
    ensures db.registrations == old(db.registrations)
    ensures db.nextScheduleId == old(db.nextScheduleId) && db.nextRegId == old(db.nextRegId)
    ensures scheduleId !in old(db.schedules) ==> res == Fail(ScheduleMissing) && unchanged(db)
    ensures scheduleId in old(db.schedules) ==>
      res == Pass && db.schedules == SoftDeleted(old(db.schedules), scheduleId).0
  {
    if scheduleId !in db.schedules {
      return Fail(ScheduleMissing);
    }
    var _ := db.DeleteById(scheduleId);
    res := Pass;
  }

  /** A deleted schedule leaves the patient-facing list, keeps its balance, and is
      the one row a later `add` with its doctor, date and period reopens. */
  lemma DeleteThenAddReopens(schedules: map<int, Schedule>, regs: seq<Registration>,
                             doctorDept: map<int, int>, id: int, form: ScheduleForm)
    requires SlotsUnique(schedules) && id in schedules
    requires SameSlot(schedules[id], Schedule(form.doctorId, form.workDate, form.timeSlot, 0, 0, form.fee, 0))
    ensures var after := SoftDeleted(schedules, id).0;
      DeletedMatch(after, form) == {id}
      && (forall deptId, workDate :: id !in SelectAvailable(after, doctorDept, deptId, workDate))
      && Balance(after, regs, id) == Balance(schedules, regs, id)
  {
    var after := SoftDeleted(schedules, id).0;
    forall other | other in after && other != id ensures other !in DeletedMatch(after, form) {
      assert SlotsDiffer(schedules, id, other);
    }
  }

  /** Reopening a deleted schedule with a total no smaller than what its
      registrations hold puts the schedule back on the patient-facing list exactly
      when some quota is left over. */
  lemma ReopenedIsAvailable(schedules: map<int, Schedule>, regs: seq<Registration>,
                            doctorDept: map<int, int>, id: int, total: int, fee: Fee, deptId: int)
    requires id in schedules && total >= CountOccupied(regs, id)
    requires DeptOf(doctorDept, schedules[id].doctorId) == Some(deptId)
    ensures var after := Restored(schedules, id, total, total - CountOccupied(regs, id), fee).0;
      id in SelectAvailable(after, doctorDept, deptId, schedules[id].workDate)
      <==> total > CountOccupied(regs, id)
  {
  }
}
