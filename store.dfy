/** The database both services work on: the `schedule` table keyed by
    `schedule_id`, the `registration` table in insertion order, and the doctors'
    departments the schedule queries join in. Each mapper statement that writes
    is a method here; its postcondition says exactly what it writes. */
module Database {
  import opened Wrappers
  import opened Calendar
  import opened Entities
  import opened ScheduleMapper
  import opened RegistrationMapper

  /** Remaining quota plus the rows that hold a unit of it. Booking moves a unit
      from the first term to the second, cancelling moves it back, finishing keeps
      it in the second: none of them changes the sum. */
  function Balance(schedules: map<int, Schedule>, regs: seq<Registration>, scheduleId: int): int
    requires scheduleId in schedules
  {
    schedules[scheduleId].remainingQuota + CountOccupied(regs, scheduleId)
  }

  /** `after` differs from `before` in nothing but remaining quotas. */
  predicate OnlyQuotaChanged(before: map<int, Schedule>, after: map<int, Schedule>)
  {
    before.Keys == after.Keys
    && forall id :: id in before ==> after[id] == before[id].(remainingQuota := after[id].remainingQuota)
  }

  /** `after` is `before` with rows appended. */
  predicate Extends(before: seq<Registration>, after: seq<Registration>)
  {
    |before| <= |after| && after[..|before|] == before
  }

  /** Every schedule keeps its balance. */
  predicate BalancesKept(s0: map<int, Schedule>, r0: seq<Registration>, s1: map<int, Schedule>, r1: seq<Registration>)
  {
    s0.Keys == s1.Keys
    && forall id :: id in s0 ==> Balance(s1, r1, id) == Balance(s0, r0, id)
  }

  /** Changing only quotas, statuses, totals or fees keeps the slot index. */
  lemma SlotsKept(before: map<int, Schedule>, after: map<int, Schedule>)
    requires SlotsUnique(before)
    requires before.Keys == after.Keys
    requires forall id :: id in before ==> SameSlot(after[id], before[id])
    ensures SlotsUnique(after)
  {
    forall a, b | a in after && b in after && a != b ensures SlotsDiffer(after, a, b) {
      assert SlotsDiffer(before, a, b);
    }
  }

  lemma ExtendsTrans(a: seq<Registration>, b: seq<Registration>, c: seq<Registration>)
    requires Extends(a, b) && Extends(b, c)
    ensures Extends(a, c)
  {
    assert c[..|a|] == c[..|b|][..|a|];
  }

  lemma AppendExtends(a: seq<Registration>, b: seq<Registration>, r: Registration)
    requires Extends(a, b)
    ensures Extends(a, b + [r])
  {
    assert (b + [r])[..|a|] == b[..|a|];
  }

  lemma QuotaChangeTrans(a: map<int, Schedule>, b: map<int, Schedule>, c: map<int, Schedule>)
    requires OnlyQuotaChanged(a, b) && OnlyQuotaChanged(b, c)
    ensures OnlyQuotaChanged(a, c)
  {
  }

  lemma BalancesTrans(s0: map<int, Schedule>, r0: seq<Registration>, s1: map<int, Schedule>, r1: seq<Registration>,
                      s2: map<int, Schedule>, r2: seq<Registration>)
    requires BalancesKept(s0, r0, s1, r1) && BalancesKept(s1, r1, s2, r2)
    ensures BalancesKept(s0, r0, s2, r2)
  {
  }

  /** Appending a row adds one to the balance of the schedule it occupies. */
  lemma AppendBalance(s0: map<int, Schedule>, r0: seq<Registration>, s: map<int, Schedule>, r: seq<Registration>,
                      row: Registration)
    requires BalancesKept(s0, r0, s, r)
    ensures forall id :: id in s0 ==>
      Balance(s, r + [row], id) == Balance(s0, r0, id) + (if Occupies(row, id) then 1 else 0)
  {
    forall id | id in s0
      ensures Balance(s, r + [row], id) == Balance(s0, r0, id) + (if Occupies(row, id) then 1 else 0)
    {
      OccupiedAppend(r, row, id);
    }
  }

  /** Giving a unit back to a schedule adds one to its balance and only to its. */
  lemma IncrementBalance(s0: map<int, Schedule>, r0: seq<Registration>, s: map<int, Schedule>, r: seq<Registration>,
                         scheduleId: int)
    requires OnlyQuotaChanged(s0, s) && BalancesKept(s0, r0, s, r) && scheduleId in s
    ensures OnlyQuotaChanged(s0, Incremented(s, scheduleId).0)
    ensures forall id :: id in s0 ==>
      Balance(Incremented(s, scheduleId).0, r, id) == Balance(s0, r0, id) + (if id == scheduleId then 1 else 0)
  {
  }

  /** Row `k` names a schedule of the table. */
  predicate LinkedAt(schedules: map<int, Schedule>, regs: seq<Registration>, k: int)
    requires 0 <= k < |regs|
  {
    regs[k].scheduleId in schedules
  }

  /** Every registration names a schedule of the table. */
  ghost predicate Linked(schedules: map<int, Schedule>, regs: seq<Registration>)
  {
    forall k :: 0 <= k < |regs| ==> LinkedAt(schedules, regs, k)
  }

  lemma AppendKeepsLinks(schedules: map<int, Schedule>, regs: seq<Registration>, r: Registration)
    requires Linked(schedules, regs) && r.scheduleId in schedules
    ensures Linked(schedules, regs + [r])
  {
    var t := regs + [r];
    forall k | 0 <= k < |t| ensures LinkedAt(schedules, t, k) {
      if k < |regs| {
        assert LinkedAt(schedules, regs, k);
      }
    }
  }

  lemma UpdateKeepsLinks(schedules: map<int, Schedule>, regs: seq<Registration>, i: nat, r: Registration)
    requires Linked(schedules, regs) && i < |regs| && r.scheduleId == regs[i].scheduleId
    ensures Linked(schedules, regs[i := r])
  {
    var t := regs[i := r];
    forall k | 0 <= k < |regs| ensures LinkedAt(schedules, t, k) {
      assert LinkedAt(schedules, regs, k);
    }
  }

  /** Links survive any change of the schedule table that keeps its keys. */
  lemma SameKeysKeepLinks(s0: map<int, Schedule>, s1: map<int, Schedule>, regs: seq<Registration>)
    requires Linked(s0, regs) && s0.Keys <= s1.Keys
    ensures Linked(s1, regs)
  {
    forall k | 0 <= k < |regs| ensures LinkedAt(s1, regs, k) {
      assert LinkedAt(s0, regs, k);
    }
  }

  /** Taking a unit from a schedule takes one from its balance and only from its. */
  lemma DecrementBalance(s0: map<int, Schedule>, r0: seq<Registration>, s: map<int, Schedule>, r: seq<Registration>,
                         scheduleId: int)
    requires OnlyQuotaChanged(s0, s) && BalancesKept(s0, r0, s, r) && Decremented(s, scheduleId).1 == 1
    ensures OnlyQuotaChanged(s0, Decremented(s, scheduleId).0)
    ensures forall id :: id in s0 ==>
      Balance(Decremented(s, scheduleId).0, r, id) == Balance(s0, r0, id) - (if id == scheduleId then 1 else 0)
  {
  }

  /** A unit taken from a schedule and then given back or held by a new row
      leaves every balance as it was. */
  lemma BalanceRestored(s0: map<int, Schedule>, r0: seq<Registration>, s1: map<int, Schedule>, r1: seq<Registration>,
                        s2: map<int, Schedule>, r2: seq<Registration>, scheduleId: int)
    requires s0.Keys == s1.Keys == s2.Keys
    requires forall id :: id in s0 ==> Balance(s1, r1, id) == Balance(s0, r0, id) - (if id == scheduleId then 1 else 0)
    requires forall id :: id in s1 ==> Balance(s2, r2, id) == Balance(s1, r1, id) + (if id == scheduleId then 1 else 0)
    ensures BalancesKept(s0, r0, s2, r2)
  {
  }

  class Store {
    var schedules: map<int, Schedule>
    var registrations: seq<Registration>
    /** The next value of each auto-increment key. */
    var nextScheduleId: int
    var nextRegId: int
    /** `doctor.dept_id`, which the core reads and never writes. */
    const doctorDept: map<int, int>

    /** The unique indexes hold, auto-increment keys are fresh, and every
        registration names a schedule (schedules are only ever soft-deleted). */
    ghost predicate Valid()
      reads this
    {
      SlotsUnique(schedules)
      && (forall id :: id in schedules ==> id < nextScheduleId)
      && IndexesHold(registrations)
      && IdsFresh(registrations, nextRegId)
      && Linked(schedules, registrations)
    }

    /** An empty database. */
    constructor (doctorDept: map<int, int>)
      ensures Valid()
      ensures schedules == map[] && registrations == [] && this.doctorDept == doctorDept
    {
      schedules := map[];
      registrations := [];
      nextScheduleId := 1;
      nextRegId := 1;
      this.doctorDept := doctorDept;
    }

    /** `scheduleMapper.decreaseQuota`. */
    method DecreaseQuota(id: int) returns (affected: int)
      requires Valid()
      modifies this
      ensures Valid()
      ensures (schedules, affected) == Decremented(old(schedules), id)
      ensures registrations == old(registrations)
      ensures nextScheduleId == old(nextScheduleId) && nextRegId == old(nextRegId)
    {
      SlotsKept(schedules, Decremented(schedules, id).0);
      SameKeysKeepLinks(schedules, Decremented(schedules, id).0, registrations);
      schedules, affected := Decremented(schedules, id).0, Decremented(schedules, id).1;
    }

    /** `scheduleMapper.increaseQuota`. */
    method IncreaseQuota(id: int) returns (affected: int)
      requires Valid()
      modifies this
      ensures Valid()
      ensures (schedules, affected) == Incremented(old(schedules), id)
      ensures registrations == old(registrations)
      ensures nextScheduleId == old(nextScheduleId) && nextRegId == old(nextRegId)
    {
      SlotsKept(schedules, Incremented(schedules, id).0);
      SameKeysKeepLinks(schedules, Incremented(schedules, id).0, registrations);
      schedules, affected := Incremented(schedules, id).0, Incremented(schedules, id).1;
    }

    /** `scheduleMapper.deleteById`. */
    method DeleteById(id: int) returns (affected: int)
      requires Valid()
      modifies this
      ensures Valid()
      ensures (schedules, affected) == SoftDeleted(old(schedules), id)
      ensures registrations == old(registrations)
      ensures nextScheduleId == old(nextScheduleId) && nextRegId == old(nextRegId)
    {
      SlotsKept(schedules, SoftDeleted(schedules, id).0);
      SameKeysKeepLinks(schedules, SoftDeleted(schedules, id).0, registrations);
      schedules, affected := SoftDeleted(schedules, id).0, SoftDeleted(schedules, id).1;
    }

    /** `scheduleMapper.restoreById`. */
    method RestoreById(id: int, totalQuota: int, remainingQuota: int, fee: Fee) returns (affected: int)
      requires Valid()
      modifies this
      ensures Valid()
      ensures (schedules, affected) == Restored(old(schedules), id, totalQuota, remainingQuota, fee)
      ensures registrations == old(registrations)
      ensures nextScheduleId == old(nextScheduleId) && nextRegId == old(nextRegId)
    {
      var r := Restored(schedules, id, totalQuota, remainingQuota, fee);
      SlotsKept(schedules, r.0);
      SameKeysKeepLinks(schedules, r.0, registrations);
      schedules, affected := r.0, r.1;
    }

    /** `scheduleMapper.insert`: the row goes in under a fresh `schedule_id`, or the
        unique key on (doctor, date, period) rejects it and nothing changes. */
    method InsertSchedule(s: Schedule) returns (id: Option<int>)
      requires Valid()
      modifies this
      ensures Valid()
      ensures registrations == old(registrations) && nextRegId == old(nextRegId)
      ensures SlotTaken(old(schedules), None, s) ==> id.None? && unchanged(this)
      ensures !SlotTaken(old(schedules), None, s) ==>
        id == Some(old(nextScheduleId)) && old(nextScheduleId) !in old(schedules)
        && schedules == old(schedules)[old(nextScheduleId) := s]
        && nextScheduleId == old(nextScheduleId) + 1
    {
      if SlotTaken(schedules, None, s) {
        id := None;
      } else {
        var newId := nextScheduleId;
        var after := schedules[newId := s];
        forall a, b | a in after && b in after && a != b ensures SlotsDiffer(after, a, b) {
          if a != newId && b != newId {
            assert SlotsDiffer(schedules, a, b);
          } else if a == newId {
            assert Some(b) != None && b in schedules;
          } else {
            assert Some(a) != None && a in schedules;
          }
        }
        SameKeysKeepLinks(schedules, after, registrations);
        schedules := after;
        nextScheduleId := newId + 1;
        id := Some(newId);
      }
    }

    /** `scheduleMapper.update`: every column of an existing row is overwritten,
        unless another row already holds the new (doctor, date, period). A missing
        row affects nothing. */
    method UpdateSchedule(id: int, s: Schedule) returns (affected: Option<int>)
      requires Valid()
      modifies this
      ensures Valid()
      ensures registrations == old(registrations)
      ensures nextScheduleId == old(nextScheduleId) && nextRegId == old(nextRegId)
      ensures id !in old(schedules) ==> affected == Some(0) && unchanged(this)
      ensures id in old(schedules) && SlotTaken(old(schedules), Some(id), s) ==>
        affected.None? && unchanged(this)
      ensures id in old(schedules) && !SlotTaken(old(schedules), Some(id), s) ==>
        affected == Some(1) && schedules == old(schedules)[id := s]
    {
      if id !in schedules {
        affected := Some(0);
      } else if SlotTaken(schedules, Some(id), s) {
        affected := None;
      } else {
        var after := schedules[id := s];
        forall a, b | a in after && b in after && a != b ensures SlotsDiffer(after, a, b) {
          if a != id && b != id {
            assert SlotsDiffer(schedules, a, b);
          } else if a == id {
            assert Some(b) != Some(id) && b in schedules;
          } else {
            assert Some(a) != Some(id) && a in schedules;
          }
        }
        SameKeysKeepLinks(schedules, after, registrations);
        schedules := after;
        affected := Some(1);
      }
    }

    /** `registrationMapper.insert`: the row goes in with a newId `reg_id` and
        otherwise exactly the given columns, behind every existing row; or a unique
        index rejects it, says which, and nothing changes. */
    method InsertRegistration(r: Registration) returns (res: Result<int, ConflictKind>)
      requires Valid() && r.scheduleId in schedules
      modifies this
      ensures Valid()
      ensures schedules == old(schedules) && nextScheduleId == old(nextScheduleId)
      ensures InsertConflict(old(registrations), r).Some? ==>
        res == Failure(InsertConflict(old(registrations), r).value)
        && registrations == old(registrations) && nextRegId == old(nextRegId)
      ensures InsertConflict(old(registrations), r).None? ==>
        res == Success(old(nextRegId))
        && registrations == old(registrations) + [r.(regId := old(nextRegId))]
        && nextRegId == old(nextRegId) + 1
    {
      var conflict := InsertConflict(registrations, r);
      if conflict.Some? {
        res := Failure(conflict.value);
      } else {
        var row := r.(regId := nextRegId);
        assert InsertConflict(registrations, row) == conflict;
        AppendKeepsIndexes(registrations, row);
        AppendKeepsIds(registrations, row, nextRegId);
        AppendKeepsLinks(schedules, registrations, row);
        registrations := registrations + [row];
        res := Success(nextRegId);
        nextRegId := nextRegId + 1;
      }
    }

    /** `registrationMapper.updateStatusWithCondition`. The engine only ever moves
        a row out of BOOKED, which is what keeps the active-booking index. */
    method UpdateStatusWithCondition(regId: int, oldStatus: Status, newStatus: Status) returns (affected: int)
      requires Valid() && newStatus != Booked
      modifies this
      ensures Valid()
      ensures (registrations, affected) == StatusUpdated(old(registrations), regId, oldStatus, newStatus)
      ensures schedules == old(schedules)
      ensures nextScheduleId == old(nextScheduleId) && nextRegId == old(nextRegId)
    {
      var u := StatusUpdated(registrations, regId, oldStatus, newStatus);
      var found := SelectById(registrations, regId);
      if found.Some? && registrations[found.value].status == oldStatus {
        StatusChangeKeepsIndexes(registrations, nextRegId, found.value, newStatus);
        UpdateKeepsLinks(schedules, registrations, found.value, registrations[found.value].(status := newStatus));
      }
      registrations, affected := u.0, u.1;
    }
  }
}
