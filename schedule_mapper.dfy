/** The `@Select` queries of the schedule mapper, as functions of the schedule
    table, and the table's unique key on (doctor, date, period). */
module ScheduleMapper {
  import opened Wrappers
  import opened Calendar
  import opened Entities

  /** The department of a doctor, as the `LEFT JOIN doctor` supplies it. */
  function DeptOf(doctorDept: map<int, int>, doctorId: int): Option<int>
  {
    if doctorId in doctorDept then Some(doctorDept[doctorId]) else None
  }

  /** Two schedules occupy the same key of the unique index on
      (doctor_id, work_date, time_slot). */
  predicate SameSlot(a: Schedule, b: Schedule)
  {
    a.doctorId == b.doctorId && a.workDate == b.workDate && a.timeSlot == b.timeSlot
  }

  /** The unique index holds: no two rows, deleted or not, share a slot key. */
  ghost predicate SlotsUnique(schedules: map<int, Schedule>)
  {
    forall a, b :: a in schedules && b in schedules && a != b ==> SlotsDiffer(schedules, a, b)
  }

  /** Rows `a` and `b` hold different slot keys. */
  predicate SlotsDiffer(schedules: map<int, Schedule>, a: int, b: int)
    requires a in schedules && b in schedules
  {
    !SameSlot(schedules[a], schedules[b])
  }

  /** Some row other than `except` already holds the slot key of `s`: what makes an
      insert or an update fail with a duplicate key. */
  predicate SlotTaken(schedules: map<int, Schedule>, except: Option<int>, s: Schedule)
  {
    exists id :: id in schedules && Some(id) != except && SameSlot(schedules[id], s)
  }

  /** `selectAvailable`: the open schedules of the department on the date that
      still have quota left. */
  function SelectAvailable(schedules: map<int, Schedule>, doctorDept: map<int, int>,
                           deptId: int, workDate: Date): set<int>
  {
    set id | id in schedules
      && DeptOf(doctorDept, schedules[id].doctorId) == Some(deptId)
      && schedules[id].workDate == workDate
      && schedules[id].remainingQuota > 0
      && schedules[id].status == Open
  }

  /** `selectDeletedByDoctorDateSlot`: the soft-deleted rows with the given slot key. */
  function SelectDeletedByDoctorDateSlot(schedules: map<int, Schedule>, doctorId: int,
                                         workDate: Date, timeSlot: string): set<int>
  {
    set id | id in schedules
      && schedules[id].doctorId == doctorId
      && schedules[id].workDate == workDate
      && schedules[id].timeSlot == timeSlot
      && schedules[id].status == Deleted
  }

  /** Under the unique index the restore lookup finds at most one row, so the
      single-row select never sees two; what it finds is deleted and has the key. */
  lemma DeletedMatchUnique(schedules: map<int, Schedule>, doctorId: int, workDate: Date, timeSlot: string)
    requires SlotsUnique(schedules)
    ensures forall a, b ::
      a in SelectDeletedByDoctorDateSlot(schedules, doctorId, workDate, timeSlot) && b in schedules && b != a
      ==> b !in SelectDeletedByDoctorDateSlot(schedules, doctorId, workDate, timeSlot)
    ensures forall id :: id in SelectDeletedByDoctorDateSlot(schedules, doctorId, workDate, timeSlot) ==>
      id in schedules && schedules[id].status == Deleted && schedules[id].doctorId == doctorId
      && schedules[id].workDate == workDate && schedules[id].timeSlot == timeSlot
  {
    var found := SelectDeletedByDoctorDateSlot(schedules, doctorId, workDate, timeSlot);
    forall a, b | a in found && b in schedules && b != a ensures b !in found {
      assert SlotsDiffer(schedules, a, b);
    }
  }

  // ---------------------------------------------------------------------------
  // The `@Update` statements, as the new table and the affected-row count

  /** `decreaseQuota`: `remaining_quota - 1` on the row, guarded by `remaining_quota > 0`. */
  function Decremented(schedules: map<int, Schedule>, id: int): (map<int, Schedule>, int)
  {
    if id in schedules && schedules[id].remainingQuota > 0 then
      (schedules[id := schedules[id].(remainingQuota := schedules[id].remainingQuota - 1)], 1)
    else (schedules, 0)
  }

  /** `increaseQuota`: `remaining_quota + 1` on the row, with no guard. */
  function Incremented(schedules: map<int, Schedule>, id: int): (map<int, Schedule>, int)
  {
    if id in schedules then
      (schedules[id := schedules[id].(remainingQuota := schedules[id].remainingQuota + 1)], 1)
    else (schedules, 0)
  }

  /** `deleteById`: `status = 0` on the row. */
  function SoftDeleted(schedules: map<int, Schedule>, id: int): (map<int, Schedule>, int)
  {
    if id in schedules then (schedules[id := schedules[id].(status := Deleted)], 1)
    else (schedules, 0)
  }

  /** `restoreById`: `status = 1` and the given total, remaining and fee on the row. */
  function Restored(schedules: map<int, Schedule>, id: int, totalQuota: int, remainingQuota: int, fee: Fee)
    : (map<int, Schedule>, int)
  {
    if id in schedules then
      (schedules[id := schedules[id].(status := Open, totalQuota := totalQuota,
                                      remainingQuota := remainingQuota, fee := fee)], 1)
    else (schedules, 0)
  }

  /** The decrement hits exactly when the row exists and has quota left, whatever
      its status; it then takes one from that row's remaining quota and leaves every
      other column and every other row alone; otherwise nothing changes. */
  lemma DecrementEffect(schedules: map<int, Schedule>, id: int)
    ensures var (after, affected) := Decremented(schedules, id);
      (affected == 1 <==> id in schedules && schedules[id].remainingQuota > 0)
      && (affected == 1 || affected == 0)
      && (affected == 1 ==>
            after.Keys == schedules.Keys
            && after[id].remainingQuota == schedules[id].remainingQuota - 1
            && after[id].(remainingQuota := schedules[id].remainingQuota) == schedules[id]
            && forall other :: other in schedules && other != id ==> after[other] == schedules[other])
      && (affected == 0 ==> after == schedules)
  {
  }

  /** The increment adds one whenever the row exists, even at or above the total:
      it is not capped. */
  lemma IncrementEffect(schedules: map<int, Schedule>, id: int)
    ensures var (after, affected) := Incremented(schedules, id);
      (affected == 1 <==> id in schedules)
      && (affected == 1 ==>
            after.Keys == schedules.Keys
            && after[id] == schedules[id].(remainingQuota := schedules[id].remainingQuota + 1)
            && forall other :: other in schedules && other != id ==> after[other] == schedules[other])
      && (affected == 0 ==> after == schedules)
  {
  }

  /** A decrement that hit, followed by an increment of the same row, gives back
      the table as it was. */
  lemma IncrementUndoesDecrement(schedules: map<int, Schedule>, id: int)
    requires Decremented(schedules, id).1 == 1
    ensures Incremented(Decremented(schedules, id).0, id).0 == schedules
  {
    var s := schedules[id];
    assert s.(remainingQuota := s.remainingQuota - 1).(remainingQuota := s.remainingQuota) == s;
  }

  /** The soft delete sets only the status of the one row to 0; the row stays. */
  lemma SoftDeleteEffect(schedules: map<int, Schedule>, id: int)
    requires id in schedules
    ensures var (after, affected) := SoftDeleted(schedules, id);
      affected == 1 && after.Keys == schedules.Keys
      && after[id].status == Deleted
      && after[id].(status := schedules[id].status) == schedules[id]
      && forall other :: other in schedules && other != id ==> after[other] == schedules[other]
  {
  }

  /** The restore writes exactly status, total, remaining and fee of the one row;
      doctor, date and period are kept. */
  lemma RestoreEffect(schedules: map<int, Schedule>, id: int, totalQuota: int, remainingQuota: int, fee: Fee)
    requires id in schedules
    ensures var (after, affected) := Restored(schedules, id, totalQuota, remainingQuota, fee);
      affected == 1 && after.Keys == schedules.Keys
      && after[id].status == Open && after[id].totalQuota == totalQuota
      && after[id].remainingQuota == remainingQuota && after[id].fee == fee
      && SameSlot(after[id], schedules[id])
      && forall other :: other in schedules && other != id ==> after[other] == schedules[other]
  {
  }
}
