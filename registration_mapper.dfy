/** The `@Select` queries of the registration mapper as functions of the
    registration table (a sequence in insertion order), the occupancy count both
    services use, and the three unique indexes the table carries. */
module RegistrationMapper {
  import opened Wrappers
  import opened Calendar
  import opened RegNo
  import opened Entities

  /** Which unique index an insert ran into. */
  datatype ConflictKind = QueueNoConflict | RegNoConflict | ActiveDuplicate

  // ---------------------------------------------------------------------------
  // Single-row lookups

  /** `selectById`: the position of the row with the given id. */
  function SelectById(regs: seq<Registration>, regId: int): (i: Option<nat>)
    ensures i.Some? ==> i.value < |regs| && regs[i.value].regId == regId
    ensures i.None? ==> forall k :: 0 <= k < |regs| ==> regs[k].regId != regId
  {
    if regs == [] then None
    else if regs[0].regId == regId then Some(0)
    else match SelectById(regs[1..], regId)
      case None => None
      case Some(k) => Some(k + 1)
  }

  /** A row the unique index `uk_patient_schedule_active` covers. */
  predicate ActiveFor(r: Registration, patientId: int, scheduleId: int)
  {
    r.status == Booked && r.patientId == patientId && r.scheduleId == scheduleId
  }

  /** `selectByPatientAndSchedule`: the patient's BOOKED registration for the
      schedule; cancelled and finished ones are not found. */
  function SelectByPatientAndSchedule(regs: seq<Registration>, patientId: int, scheduleId: int): (i: Option<nat>)
    ensures i.Some? ==> i.value < |regs| && ActiveFor(regs[i.value], patientId, scheduleId)
    ensures i.None? ==> forall k :: 0 <= k < |regs| ==> !ActiveFor(regs[k], patientId, scheduleId)
  {
    if regs == [] then None
    else if ActiveFor(regs[0], patientId, scheduleId) then Some(0)
    else match SelectByPatientAndSchedule(regs[1..], patientId, scheduleId)
      case None => None
      case Some(k) => Some(k + 1)
  }

  // ---------------------------------------------------------------------------
  // The two MAX queries the identifiers are derived from

  /** `selectMaxQueueNo`: `MAX(queue_no)` over every row of the schedule, whatever
      its status; `None` (SQL NULL) when the schedule has no row. */
  function SelectMaxQueueNo(regs: seq<Registration>, scheduleId: int): (m: Option<int>)
    ensures m.None? <==> forall k :: 0 <= k < |regs| ==> regs[k].scheduleId != scheduleId
    ensures m.Some? ==> forall k :: 0 <= k < |regs| && regs[k].scheduleId == scheduleId ==> regs[k].queueNo <= m.value
    ensures m.Some? ==> exists k :: 0 <= k < |regs| && regs[k].scheduleId == scheduleId && regs[k].queueNo == m.value
  {
    if regs == [] then None
    else
      var last := regs[|regs| - 1];
      var rest := SelectMaxQueueNo(regs[..|regs| - 1], scheduleId);
      if last.scheduleId != scheduleId then rest
      else match rest
        case None => Some(last.queueNo)
        case Some(v) => Some(if v < last.queueNo then last.queueNo else v)
  }

  /** `reg_no LIKE CONCAT('GH', dateStr, '%')`. */
  predicate OfDay(regNo: string, dateStr: string)
  {
    DayPrefix(dateStr) <= regNo
  }

  /** `selectMaxSeqByDate`: the largest number read from position 11 of the day's
      references; `None` when the day has none. */
  function SelectMaxSeqByDate(regs: seq<Registration>, dateStr: string): Option<nat>
  {
    if regs == [] then None
    else
      var last := regs[|regs| - 1];
      var rest := SelectMaxSeqByDate(regs[..|regs| - 1], dateStr);
      if !OfDay(last.regNo, dateStr) then rest
      else
        var v := SuffixValue(last.regNo);
        match rest
        case None => Some(v)
        case Some(w) => Some(if w < v then v else w)
  }

  /** `selectMaxSeqByDate` is the maximum: `None` exactly when the day has no
      reference, otherwise a number some reference of the day carries and no
      reference of the day exceeds. */
  lemma MaxSeqByDateIsMax(regs: seq<Registration>, dateStr: string)
    ensures SelectMaxSeqByDate(regs, dateStr).None? <==> forall k :: 0 <= k < |regs| ==> !OfDay(regs[k].regNo, dateStr)
    ensures SelectMaxSeqByDate(regs, dateStr).Some? ==>
      forall k :: 0 <= k < |regs| && OfDay(regs[k].regNo, dateStr) ==>
        SuffixValue(regs[k].regNo) <= SelectMaxSeqByDate(regs, dateStr).value
    ensures SelectMaxSeqByDate(regs, dateStr).Some? ==>
      exists k :: 0 <= k < |regs| && OfDay(regs[k].regNo, dateStr) &&
        SuffixValue(regs[k].regNo) == SelectMaxSeqByDate(regs, dateStr).value
  {
    MaxSeqByDateBound(regs, dateStr);
    MaxSeqByDateAttained(regs, dateStr);
  }

  lemma {:induction false} MaxSeqByDateBound(regs: seq<Registration>, dateStr: string)
    ensures SelectMaxSeqByDate(regs, dateStr).None? <==> forall k :: 0 <= k < |regs| ==> !OfDay(regs[k].regNo, dateStr)
    ensures SelectMaxSeqByDate(regs, dateStr).Some? ==>
      forall k :: 0 <= k < |regs| && OfDay(regs[k].regNo, dateStr) ==>
        SuffixValue(regs[k].regNo) <= SelectMaxSeqByDate(regs, dateStr).value
    decreases |regs|
  {
    if regs != [] {
      var n := |regs| - 1;
      var front := regs[..n];
      MaxSeqByDateBound(front, dateStr);
      var m := SelectMaxSeqByDate(regs, dateStr);
      var r := SelectMaxSeqByDate(front, dateStr);
      if OfDay(regs[n].regNo, dateStr) {
        assert m.Some? && SuffixValue(regs[n].regNo) <= m.value && (r.Some? ==> r.value <= m.value);
      } else {
        assert m == r;
      }
      forall k | 0 <= k < n
        ensures regs[k] == front[k]
      {
      }
    }
  }

  lemma {:induction false} MaxSeqByDateAttained(regs: seq<Registration>, dateStr: string)
    ensures SelectMaxSeqByDate(regs, dateStr).Some? ==>
      exists k :: 0 <= k < |regs| && OfDay(regs[k].regNo, dateStr) &&
        SuffixValue(regs[k].regNo) == SelectMaxSeqByDate(regs, dateStr).value
    decreases |regs|
  {
    if regs != [] {
      var n := |regs| - 1;
      var front := regs[..n];
      MaxSeqByDateAttained(front, dateStr);
      var m := SelectMaxSeqByDate(regs, dateStr);
      var r := SelectMaxSeqByDate(front, dateStr);
      if OfDay(regs[n].regNo, dateStr) {
        var v := SuffixValue(regs[n].regNo);
        assert m == Some(if r.Some? && v <= r.value then r.value else v);
        if r.Some? && v <= r.value {
          var k :| 0 <= k < n && OfDay(front[k].regNo, dateStr) && SuffixValue(front[k].regNo) == r.value;
          assert regs[k] == front[k];
        } else {
          assert SuffixValue(regs[n].regNo) == m.value;
        }
      } else {
        assert m == r;
        if r.Some? {
          var k :| 0 <= k < n && OfDay(front[k].regNo, dateStr) && SuffixValue(front[k].regNo) == r.value;
          assert regs[k] == front[k];
        }
      }
    }
  }

  /** The queue number `create` gives the next booking of a schedule. */
  function NextQueueNo(regs: seq<Registration>, scheduleId: int): int
  {
    match SelectMaxQueueNo(regs, scheduleId)
    case None => 1
    case Some(m) => m + 1
  }

  // ---------------------------------------------------------------------------
  // The conditional status update

  /** `updateStatusWithCondition`: `SET status = newStatus WHERE reg_id = ? AND
      status = oldStatus`, as the new table and the affected-row count. */
  function StatusUpdated(regs: seq<Registration>, regId: int, oldStatus: Status, newStatus: Status)
    : (seq<Registration>, int)
  {
    match SelectById(regs, regId)
    case None => (regs, 0)
    case Some(i) =>
      if regs[i].status == oldStatus then (regs[i := regs[i].(status := newStatus)], 1)
      else (regs, 0)
  }

  /** The update hits exactly when the row exists with the expected status; it then
      changes that row's status and nothing else; otherwise nothing changes. */
  lemma StatusUpdateEffect(regs: seq<Registration>, nextRegId: int, regId: int, oldStatus: Status, newStatus: Status)
    requires IdsFresh(regs, nextRegId)
    ensures var (after, affected) := StatusUpdated(regs, regId, oldStatus, newStatus);
      (affected == 1 <==> exists k :: 0 <= k < |regs| && regs[k].regId == regId && regs[k].status == oldStatus)
      && (affected == 1 || affected == 0)
      && |after| == |regs|
      && (forall k :: 0 <= k < |regs| ==>
            after[k] == if affected == 1 && regs[k].regId == regId then regs[k].(status := newStatus) else regs[k])
  {
    match SelectById(regs, regId)
    case None =>
    case Some(i) =>
      forall k | 0 <= k < |regs| && regs[k].regId == regId ensures k == i {
        if k != i {
          IdsDistinct(regs, nextRegId, i, k);
        }
      }
  }

  /** Repeating the same update straight away affects no row and changes nothing:
      a second cancel of a booking finds it no longer BOOKED. */
  lemma StatusUpdateRepeat(regs: seq<Registration>, regId: int, oldStatus: Status, newStatus: Status)
    requires oldStatus != newStatus
    ensures var after := StatusUpdated(regs, regId, oldStatus, newStatus).0;
      StatusUpdated(after, regId, oldStatus, newStatus) == (after, 0)
  {
    var after := StatusUpdated(regs, regId, oldStatus, newStatus).0;
    match SelectById(regs, regId)
    case None =>
    case Some(i) =>
      SelectByIdOfUpdate(regs, i, regs[i].(status := newStatus));
      assert SelectById(after, regId) == Some(i);
  }

  /** Changing a row without touching its id leaves every id lookup where it was. */
  lemma {:induction false} SelectByIdOfUpdate(regs: seq<Registration>, i: nat, r: Registration)
    requires i < |regs| && r.regId == regs[i].regId
    ensures forall regId :: SelectById(regs[i := r], regId) == SelectById(regs, regId)
    decreases |regs|
  {
    forall regId ensures SelectById(regs[i := r], regId) == SelectById(regs, regId) {
      if i > 0 {
        assert regs[i := r][1..] == regs[1..][i - 1 := r];
        SelectByIdOfUpdate(regs[1..], i - 1, r);
      }
    }
  }

  /** `after` differs from `before` at most in the status of the row with id `regId`. */
  predicate StatusOnlyChanged(before: seq<Registration>, after: seq<Registration>, regId: int)
  {
    |after| == |before|
    && forall k :: 0 <= k < |before| ==>
         after[k] == if before[k].regId == regId then before[k].(status := after[k].status) else before[k]
  }

  lemma StatusOnlyChangedTrans(a: seq<Registration>, b: seq<Registration>, c: seq<Registration>, regId: int)
    requires StatusOnlyChanged(a, b, regId) && StatusOnlyChanged(b, c, regId)
    ensures StatusOnlyChanged(a, c, regId)
  {
  }

  /** Status changes leave every id lookup where it was. */
  lemma {:induction false} SelectByIdStable(before: seq<Registration>, after: seq<Registration>, changed: int, regId: int)
    requires StatusOnlyChanged(before, after, changed)
    ensures SelectById(after, regId) == SelectById(before, regId)
    decreases |before|
  {
    if before != [] {
      assert after[0].regId == before[0].regId;
      SelectByIdStable(before[1..], after[1..], changed, regId);
    }
  }

  // ---------------------------------------------------------------------------
  // Occupancy

  /** A row that holds a unit of the schedule's quota: BOOKED or FINISHED. */
  predicate Occupies(r: Registration, scheduleId: int)
  {
    r.scheduleId == scheduleId && r.status != Cancelled
  }

  /** `countOccupiedBySchedule`: how many BOOKED and FINISHED rows the schedule has. */
  function CountOccupied(regs: seq<Registration>, scheduleId: int): nat
  {
    if regs == [] then 0
    else CountOccupied(regs[..|regs| - 1], scheduleId) + (if Occupies(regs[|regs| - 1], scheduleId) then 1 else 0)
  }

  // ---------------------------------------------------------------------------
  // The unique indexes and what an insert runs into

  predicate QueueTaken(regs: seq<Registration>, scheduleId: int, queueNo: int)
  {
    exists k :: 0 <= k < |regs| && regs[k].scheduleId == scheduleId && regs[k].queueNo == queueNo
  }

  predicate RegNoTaken(regs: seq<Registration>, regNo: string)
  {
    exists k :: 0 <= k < |regs| && regs[k].regNo == regNo
  }

  predicate HasActive(regs: seq<Registration>, patientId: int, scheduleId: int)
  {
    exists k :: 0 <= k < |regs| && ActiveFor(regs[k], patientId, scheduleId)
  }

  /** The index an insert of `r` violates, checked in the order uk_schedule_queue,
      reg_no, uk_patient_schedule_active; `None` when the row can go in. */
  function InsertConflict(regs: seq<Registration>, r: Registration): Option<ConflictKind>
  {
    if QueueTaken(regs, r.scheduleId, r.queueNo) then Some(QueueNoConflict)
    else if RegNoTaken(regs, r.regNo) then Some(RegNoConflict)
    else if r.status == Booked && HasActive(regs, r.patientId, r.scheduleId) then Some(ActiveDuplicate)
    else None
  }

  /** Rows `i` before `j` were given increasing auto-increment ids. */
  predicate IdsOrdered(regs: seq<Registration>, i: int, j: int)
    requires 0 <= i < j < |regs|
  {
    regs[i].regId < regs[j].regId
  }

  /** Row `k` has an id below the next one to hand out. */
  predicate IdBelow(regs: seq<Registration>, k: int, nextRegId: int)
    requires 0 <= k < |regs|
  {
    regs[k].regId < nextRegId
  }

  /** Ids grow with insertion order and stay below the next id to hand out. */
  ghost predicate IdsFresh(regs: seq<Registration>, nextRegId: int)
  {
    (forall i, j :: 0 <= i < j < |regs| ==> IdsOrdered(regs, i, j))
    && (forall k :: 0 <= k < |regs| ==> IdBelow(regs, k, nextRegId))
  }

  /** Rows `i` and `j` (`i` first) differ in each unique index: the queue number
      within the schedule, the reference, and, when both are BOOKED, the pair of
      patient and schedule. */
  predicate KeysDiffer(regs: seq<Registration>, i: int, j: int)
    requires 0 <= i < j < |regs|
  {
    !(regs[i].scheduleId == regs[j].scheduleId && regs[i].queueNo == regs[j].queueNo)
    && regs[i].regNo != regs[j].regNo
    && !(ActiveFor(regs[i], regs[j].patientId, regs[j].scheduleId) && regs[j].status == Booked)
  }

  /** The three unique indexes hold. */
  ghost predicate IndexesHold(regs: seq<Registration>)
  {
    forall i, j :: 0 <= i < j < |regs| ==> KeysDiffer(regs, i, j)
  }

  // ---------------------------------------------------------------------------
  // Lemmas

  /** Distinct rows have distinct ids. */
  lemma IdsDistinct(regs: seq<Registration>, nextRegId: int, i: int, j: int)
    requires IdsFresh(regs, nextRegId) && 0 <= i < |regs| && 0 <= j < |regs| && i != j
    ensures regs[i].regId != regs[j].regId
  {
    if i < j {
      assert IdsOrdered(regs, i, j);
    } else {
      assert IdsOrdered(regs, j, i);
    }
  }

  /** An insert the indexes let through keeps them holding. */
  lemma AppendKeepsIndexes(regs: seq<Registration>, r: Registration)
    requires IndexesHold(regs) && InsertConflict(regs, r).None?
    ensures IndexesHold(regs + [r])
  {
    var t := regs + [r];
    forall i, j | 0 <= i < j < |t| ensures KeysDiffer(t, i, j) {
      if j == |regs| {
        assert t[i] == regs[i] && t[j] == r;
        assert !ActiveFor(regs[i], r.patientId, r.scheduleId) || r.status != Booked;
      } else {
        assert t[i] == regs[i] && t[j] == regs[j];
        assert KeysDiffer(regs, i, j);
      }
    }
  }

  /** An appended row with the next id keeps the ids fresh. */
  lemma AppendKeepsIds(regs: seq<Registration>, r: Registration, nextRegId: int)
    requires IdsFresh(regs, nextRegId) && r.regId == nextRegId
    ensures IdsFresh(regs + [r], nextRegId + 1)
  {
    var t := regs + [r];
    forall i, j | 0 <= i < j < |t| ensures IdsOrdered(t, i, j) {
      assert IdBelow(regs, i, nextRegId);
      if j < |regs| {
        assert IdsOrdered(regs, i, j);
      }
    }
    var next := nextRegId + 1;
    forall k | 0 <= k < |t| ensures IdBelow(t, k, next) {
      if k < |regs| {
        assert IdBelow(regs, k, nextRegId);
      }
    }
  }

  /** Changing only the status of one row keeps the ids, keeps the queue and
      reference indexes, and keeps the active index when the new status is not
      BOOKED. */
  lemma StatusChangeKeepsIndexes(regs: seq<Registration>, nextRegId: int, i: nat, s: Status)
    requires IndexesHold(regs) && IdsFresh(regs, nextRegId) && i < |regs| && s != Booked
    ensures IndexesHold(regs[i := regs[i].(status := s)])
    ensures IdsFresh(regs[i := regs[i].(status := s)], nextRegId)
  {
    var t := regs[i := regs[i].(status := s)];
    forall a, b | 0 <= a < b < |t| ensures KeysDiffer(t, a, b) && IdsOrdered(t, a, b) {
      assert KeysDiffer(regs, a, b) && IdsOrdered(regs, a, b);
    }
    forall k | 0 <= k < |t| ensures IdBelow(t, k, nextRegId) {
      assert IdBelow(regs, k, nextRegId);
    }
  }

  /** Under the active index a patient holds at most one BOOKED row per schedule,
      so the single-row select never sees two. */
  lemma ActiveBookingUnique(regs: seq<Registration>, patientId: int, scheduleId: int, i: nat, j: nat)
    requires IndexesHold(regs)
    requires i < j < |regs|
    ensures !(ActiveFor(regs[i], patientId, scheduleId) && ActiveFor(regs[j], patientId, scheduleId))
  {
    assert KeysDiffer(regs, i, j);
  }

  /** `max + 1` is above every queue number the schedule has handed out,
      cancelled rows included, so the next queue number never collides. */
  lemma NextQueueNoFresh(regs: seq<Registration>, scheduleId: int)
    ensures forall k :: 0 <= k < |regs| && regs[k].scheduleId == scheduleId ==>
      regs[k].queueNo < NextQueueNo(regs, scheduleId)
    ensures !QueueTaken(regs, scheduleId, NextQueueNo(regs, scheduleId))
  {
    var m := SelectMaxQueueNo(regs, scheduleId);
    if m.Some? {
    }
  }

  /** Appending a row adds one to the schedule's occupancy exactly when the row
      occupies it. */
  lemma OccupiedAppend(regs: seq<Registration>, r: Registration, scheduleId: int)
    ensures CountOccupied(regs + [r], scheduleId) ==
      CountOccupied(regs, scheduleId) + (if Occupies(r, scheduleId) then 1 else 0)
  {
    assert (regs + [r])[..|regs|] == regs;
  }

  /** Replacing one row changes the occupancy by what the old and the new row contribute. */
  lemma {:induction false} OccupiedUpdate(regs: seq<Registration>, i: nat, r: Registration, scheduleId: int)
    requires i < |regs|
    ensures CountOccupied(regs[i := r], scheduleId) ==
      CountOccupied(regs, scheduleId)
      - (if Occupies(regs[i], scheduleId) then 1 else 0)
      + (if Occupies(r, scheduleId) then 1 else 0)
    decreases |regs|
  {
    var t := regs[i := r];
    var n := |regs| - 1;
    if i < n {
      assert t[..n] == regs[..n][i := r];
      OccupiedUpdate(regs[..n], i, r, scheduleId);
    } else {
      assert t[..n] == regs[..n];
    }
  }
}
