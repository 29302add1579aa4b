/** The booking engine: `create`, `cancel` and `finish` of the registration
    service and the booking reference it generates, over the database of
    module Database.

    Concurrency is modelled by the requests that can commit while one request is
    between two of its statements. They are other calls of the same engine, run
    at exactly those points: rival bookings before the quota is taken and before
    each insert attempt (an `Interleaving`), a rival cancel or finish of the same
    registration between the status check and the conditional update (a `Race`). */
module Booking {
  import opened Wrappers
  import opened Calendar
  import opened RegNo
  import opened Entities
  import opened ScheduleMapper
  import opened RegistrationMapper
  import opened Database

  // ---------------------------------------------------------------------------
  // The booking reference

  /** `generateRegNo`: "GH", today as yyyyMMdd, then one past the day's largest
      sequence (1 on a day without bookings) padded to six digits. */
  function GenerateRegNo(regs: seq<Registration>, today: Date): string
    requires ValidDate(today)
  {
    var dateStr := FormatDate(today);
    Format(dateStr, NextSeq(SelectMaxSeqByDate(regs, dateStr)))
  }

  /** The reference carries the day's prefix in its first ten characters, and the
      number the day's maximum query reads back from it is the new sequence: 1 on
      a new day, otherwise above every sequence the day has used. It is sixteen
      characters long exactly while the sequence has at most six digits. */
  lemma GenerateRegNoShape(regs: seq<Registration>, today: Date)
    requires ValidDate(today)
    ensures var dateStr := FormatDate(today);
      var regNo := GenerateRegNo(regs, today);
      var n := SuffixValue(regNo);
      |regNo| >= 16 && regNo[..10] == "GH" + dateStr && OfDay(regNo, dateStr)
      && n == NextSeq(SelectMaxSeqByDate(regs, dateStr)) && n >= 1
      && (SelectMaxSeqByDate(regs, dateStr).None? ==> n == 1)
      && (forall k :: 0 <= k < |regs| && OfDay(regs[k].regNo, dateStr) ==> SuffixValue(regs[k].regNo) < n)
      && (|regNo| == 16 <==> n < 1000000)
  {
    var dateStr := FormatDate(today);
    var n := NextSeq(SelectMaxSeqByDate(regs, dateStr));
    DateLength(today);
    FormatShape(dateStr, n);
    SeqRoundTrip(dateStr, n);
    MaxSeqByDateIsMax(regs, dateStr);
  }

  /** The generated reference is not in the table yet: references of the day all
      read back a smaller sequence, and every other reference lacks the prefix. */
  lemma GenerateRegNoFresh(regs: seq<Registration>, today: Date)
    requires ValidDate(today)
    ensures !RegNoTaken(regs, GenerateRegNo(regs, today))
  {
    var dateStr := FormatDate(today);
    var regNo := GenerateRegNo(regs, today);
    GenerateRegNoShape(regs, today);
    forall k | 0 <= k < |regs| ensures regs[k].regNo != regNo {
      if OfDay(regs[k].regNo, dateStr) {
        assert SuffixValue(regs[k].regNo) < SuffixValue(regNo);
      } else {
        assert OfDay(regNo, dateStr);
      }
    }
  }

  // ---------------------------------------------------------------------------
  // create

  /** The error results of `create`, in the order the method can return them. */
  datatype CreateError =
    | ScheduleNotFound
    | ScheduleFull
    | ScheduleStopped
    | AlreadyBooked
    | QuotaTaken
    | SystemBusy
    | DuplicateBooking

  /** `maxRetry`: how many insert attempts `create` makes. */
  const MaxRetry: nat := 3

  /** What the insert attempts of one `create` ran into, first to last, says how it
      ends: a booking after fewer than three collisions, none of them with an
      active booking; "system busy" after three queue-number or reference
      collisions; a duplicate at the first active-booking collision, within three
      attempts; any other answer before any attempt was made. */
  predicate RetryRecord(res: Result<Registration, CreateError>, collisions: seq<ConflictKind>)
  {
    && (res.Success? ==> |collisions| < 3 && Renumbered(collisions, |collisions|))
    && (res == Failure(SystemBusy) ==> |collisions| == 3 && Renumbered(collisions, 3))
    && (res == Failure(DuplicateBooking) ==>
          1 <= |collisions| <= 3 && collisions[|collisions| - 1] == ActiveDuplicate
          && Renumbered(collisions, |collisions| - 1))
    && (res.Failure? && res.error != SystemBusy && res.error != DuplicateBooking ==> collisions == [])
  }

  /** The first `n` collisions were on the queue number or the reference, each of
      which renumbers the row and tries again. */
  predicate Renumbered(collisions: seq<ConflictKind>, n: nat)
    requires n <= |collisions|
  {
    forall k :: 0 <= k < n ==> collisions[k] != ActiveDuplicate
  }

  lemma RenumberedAppend(collisions: seq<ConflictKind>, c: ConflictKind)
    requires Renumbered(collisions, |collisions|)
    ensures Renumbered(collisions + [c], |collisions|)
    ensures c != ActiveDuplicate ==> Renumbered(collisions + [c], |collisions| + 1)
  {
    assert forall k :: 0 <= k < |collisions| ==> (collisions + [c])[k] == collisions[k];
  }

  /** The checks `create` makes before it writes anything, in its order; `None`
      when all pass. */
  function CreateGuard(schedules: map<int, Schedule>, regs: seq<Registration>,
                       patientId: int, scheduleId: int): Option<CreateError>
  {
    if scheduleId !in schedules then Some(ScheduleNotFound)
    else if schedules[scheduleId].remainingQuota <= 0 then Some(ScheduleFull)
    else if schedules[scheduleId].status != Open then Some(ScheduleStopped)
    else if SelectByPatientAndSchedule(regs, patientId, scheduleId).Some? then Some(AlreadyBooked)
    else None
  }

  /** The checks pass exactly for an existing open schedule with quota left, for
      a patient who holds no BOOKED registration for it; a cancelled or finished
      earlier booking does not count against the patient. */
  lemma CreateGuardPasses(schedules: map<int, Schedule>, regs: seq<Registration>, patientId: int, scheduleId: int)
    ensures CreateGuard(schedules, regs, patientId, scheduleId).None? <==>
      scheduleId in schedules && schedules[scheduleId].remainingQuota > 0
      && schedules[scheduleId].status == Open && !HasActive(regs, patientId, scheduleId)
  {
    if SelectByPatientAndSchedule(regs, patientId, scheduleId).Some? {
      assert ActiveFor(regs[SelectByPatientAndSchedule(regs, patientId, scheduleId).value], patientId, scheduleId);
    }
  }

  /** Every schedule the patient-facing list offers for a day passes the checks
      of `create` up to the patient's own booking: booking it fails, if at all,
      only because the patient already holds it. */
  lemma ListedIsBookable(schedules: map<int, Schedule>, doctorDept: map<int, int>, regs: seq<Registration>,
                         deptId: int, workDate: Date, id: int, patientId: int)
    requires id in SelectAvailable(schedules, doctorDept, deptId, workDate)
    ensures var guard := CreateGuard(schedules, regs, patientId, id);
      guard.None? || guard == Some(AlreadyBooked)
    ensures CreateGuard(schedules, regs, patientId, id).None? <==> !HasActive(regs, patientId, id)
  {
    CreateGuardPasses(schedules, regs, patientId, id);
  }

  /** A booking another patient (or the same one) makes in between. */
  datatype Rival = Rival(patientId: int, scheduleId: int)

  /** The rival bookings that commit after the checks and before the quota is
      taken, and those that commit before each insert attempt. */
  datatype Interleaving = Interleaving(beforeReserve: seq<Rival>, beforeInsert: seq<seq<Rival>>)

  /** No request runs in between. */
  const Alone: Interleaving := Interleaving([], [])

  predicate QuietBatches(batches: seq<seq<Rival>>)
  {
    forall i :: 0 <= i < |batches| ==> batches[i] == []
  }

  predicate Quiet(il: Interleaving)
  {
    il.beforeReserve == [] && QuietBatches(il.beforeInsert)
  }

  function BatchesRank(batches: seq<seq<Rival>>): nat
  {
    if QuietBatches(batches) then 0 else 1
  }

  function Rank(il: Interleaving): nat
  {
    if Quiet(il) then 0 else 1
  }

  /** Every rival booking of the batches, in order. */
  function AllBatches(batches: seq<seq<Rival>>): seq<Rival>
  {
    if batches == [] then [] else batches[0] + AllBatches(batches[1..])
  }

  function AllRivals(il: Interleaving): seq<Rival>
  {
    il.beforeReserve + AllBatches(il.beforeInsert)
  }

  /** A row a rival booking can have written: BOOKED, for one of the rivals'
      patient and schedule. */
  predicate RivalRow(r: Registration, rivals: seq<Rival>)
  {
    r.status == Booked && Rival(r.patientId, r.scheduleId) in rivals
  }

  /** Every row `after` has beyond `before` is one the rivals can have written:
      the request itself added none of them. */
  predicate RivalRows(before: seq<Registration>, after: seq<Registration>, rivals: seq<Rival>)
  {
    |before| <= |after| && forall k :: |before| <= k < |after| ==> RivalRow(after[k], rivals)
  }

  /** The same for every row but the last, which is the request's own. */
  predicate RivalRowsButLast(before: seq<Registration>, after: seq<Registration>, rivals: seq<Rival>)
  {
    |before| < |after| && forall k :: |before| <= k < |after| - 1 ==> RivalRow(after[k], rivals)
  }

  lemma {:induction false} InAllBatches(batches: seq<seq<Rival>>, i: nat, x: Rival)
    requires i < |batches| && x in batches[i]
    ensures x in AllBatches(batches)
  {
    if i > 0 {
      InAllBatches(batches[1..], i - 1, x);
    }
  }

  /** Between two states only quotas changed, rows were appended, every balance
      is kept and each new row is a rival's booking. */
  ghost predicate Settled(s0: map<int, Schedule>, r0: seq<Registration>,
                          s1: map<int, Schedule>, r1: seq<Registration>, rivals: seq<Rival>)
  {
    OnlyQuotaChanged(s0, s1) && Extends(r0, r1) && BalancesKept(s0, r0, s1, r1) && RivalRows(r0, r1, rivals)
  }

  /** An attempt that collided adds only its own rivals' rows to what the
      earlier attempts left. */
  lemma FailedAttempt(s0: map<int, Schedule>, r0: seq<Registration>, s1: map<int, Schedule>, r1: seq<Registration>,
                      s2: map<int, Schedule>, r2: seq<Registration>, batches: seq<seq<Rival>>, i: nat)
    requires Settled(s0, r0, s1, r1, AllBatches(batches))
    requires Settled(s1, r1, s2, r2, BatchAt(batches, i))
    ensures Settled(s0, r0, s2, r2, AllBatches(batches))
  {
    QuotaChangeTrans(s0, s1, s2);
    ExtendsTrans(r0, r1, r2);
    BalancesTrans(s0, r0, s1, r1, s2, r2);
    BatchRivalRows(r0, r1, r2, batches, i);
  }

  /** Between two states only quotas changed and rows were appended; the unit
      taken for `row`'s schedule is held by `r`, `row` renumbered, which is the
      last row; every other new row is a rival's booking. */
  ghost predicate BookedAfter(s0: map<int, Schedule>, r0: seq<Registration>,
                              s1: map<int, Schedule>, r1: seq<Registration>,
                              row: Registration, r: Registration, today: Date, rivals: seq<Rival>)
  {
    OnlyQuotaChanged(s0, s1) && Extends(r0, r1)
    && (forall id :: id in s0 ==>
          Balance(s1, r1, id) == Balance(s0, r0, id) + (if id == row.scheduleId then 1 else 0))
    && r == row.(regId := r.regId, queueNo := r.queueNo, regNo := r.regNo)
    && NumberedLast(r1, r, today)
    && RivalRowsButLast(r0, r1, rivals)
  }

  /** An attempt that went in ends the loop with its row last, after the rows of
      the rivals of this and the earlier attempts. */
  lemma SucceededAttempt(s0: map<int, Schedule>, r0: seq<Registration>, s1: map<int, Schedule>, r1: seq<Registration>,
                         s2: map<int, Schedule>, r2: seq<Registration>,
                         row: Registration, registration: Registration, regId: int, today: Date, rivals: seq<Rival>)
    requires Settled(s0, r0, s1, r1, rivals) && ValidDate(today)
    requires registration == row.(queueNo := NextQueueNo(r1, row.scheduleId), regNo := GenerateRegNo(r1, today))
    requires OnlyQuotaChanged(s1, s2) && Extends(r1, r2)
    requires forall id :: id in s1 ==>
      Balance(s2, r2, id) == Balance(s1, r1, id) + (if id == row.scheduleId then 1 else 0)
    requires r2 == r1 + [registration.(regId := regId)]
    ensures BookedAfter(s0, r0, s2, r2, row, registration.(regId := regId), today, rivals)
  {
    QuotaChangeTrans(s0, s1, s2);
    ExtendsTrans(r0, r1, r2);
    assert r2[..|r2| - 1] == r1;
    forall k | |r0| <= k < |r2| - 1 ensures RivalRow(r2[k], rivals) {
      assert r2[k] == r1[k];
    }
  }

  /** The rivals before attempt `i`; none past the last batch. */
  function BatchAt(batches: seq<seq<Rival>>, i: nat): seq<Rival>
  {
    if i < |batches| then batches[i] else []
  }

  /** The rows of attempt `i`'s rivals join those of the earlier attempts. */
  lemma BatchRivalRows(r0: seq<Registration>, r1: seq<Registration>, r2: seq<Registration>,
                       batches: seq<seq<Rival>>, i: nat)
    requires RivalRows(r0, r1, AllBatches(batches)) && RivalRows(r1, r2, BatchAt(batches, i))
    requires Extends(r1, r2)
    ensures RivalRows(r0, r2, AllBatches(batches))
  {
    forall x | x in BatchAt(batches, i) ensures x in AllBatches(batches) {
      InAllBatches(batches, i, x);
    }
    RivalRowsWiden(r1, r2, BatchAt(batches, i), AllBatches(batches));
    RivalRowsTrans(r0, r1, r2, AllBatches(batches));
  }

  lemma RivalRowsWiden(before: seq<Registration>, after: seq<Registration>, small: seq<Rival>, big: seq<Rival>)
    requires RivalRows(before, after, small)
    requires forall x :: x in small ==> x in big
    ensures RivalRows(before, after, big)
  {
    forall k | |before| <= k < |after| ensures RivalRow(after[k], big) {
      assert RivalRow(after[k], small);
    }
  }

  lemma RivalRowsTrans(a: seq<Registration>, b: seq<Registration>, c: seq<Registration>, rivals: seq<Rival>)
    requires RivalRows(a, b, rivals) && RivalRows(b, c, rivals) && Extends(b, c)
    ensures RivalRows(a, c, rivals)
  {
    forall k | |a| <= k < |c| ensures RivalRow(c[k], rivals) {
      if k < |b| {
        assert c[k] == c[..|b|][k];
      }
    }
  }

  /** The rows the rivals before the reservation wrote, then those the rivals
      before the inserts wrote. */
  lemma JoinRivalRows(r0: seq<Registration>, r1: seq<Registration>, r2: seq<Registration>, il: Interleaving)
    requires RivalRows(r0, r1, il.beforeReserve) && RivalRows(r1, r2, AllBatches(il.beforeInsert))
    requires Extends(r1, r2)
    ensures RivalRows(r0, r2, AllRivals(il))
  {
    RivalRowsWiden(r0, r1, il.beforeReserve, AllRivals(il));
    RivalRowsWiden(r1, r2, AllBatches(il.beforeInsert), AllRivals(il));
    RivalRowsTrans(r0, r1, r2, AllRivals(il));
  }

  lemma JoinRivalRowsButLast(r0: seq<Registration>, r1: seq<Registration>, r2: seq<Registration>, il: Interleaving)
    requires RivalRows(r0, r1, il.beforeReserve) && RivalRowsButLast(r1, r2, AllBatches(il.beforeInsert))
    requires Extends(r1, r2)
    ensures RivalRowsButLast(r0, r2, AllRivals(il))
  {
    forall k | |r0| <= k < |r2| - 1 ensures RivalRow(r2[k], AllRivals(il)) {
      if k < |r1| {
        assert r2[k] == r2[..|r1|][k];
        assert RivalRow(r1[k], il.beforeReserve);
      } else {
        assert RivalRow(r2[k], AllBatches(il.beforeInsert));
      }
    }
  }

  /** The row `create` builds for the patient and the schedule: BOOKED, with
      doctor, department, date, period and fee copied from the schedule. */
  predicate BuiltFrom(r: Registration, s: Schedule, doctorDept: map<int, int>, patientId: int, scheduleId: int)
  {
    r.status == Booked && r.patientId == patientId && r.scheduleId == scheduleId
    && r.doctorId == s.doctorId && r.deptId == DeptOf(doctorDept, s.doctorId)
    && r.workDate == s.workDate && r.timeSlot == s.timeSlot && r.fee == s.fee
  }

  /** `r` is the last row of the table and its queue number and reference are one
      past the maxima of the table as it stood just before the insert. */
  predicate NumberedLast(regs: seq<Registration>, r: Registration, today: Date)
  {
    ValidDate(today) && |regs| > 0 && regs[|regs| - 1] == r
    && r.queueNo == NextQueueNo(regs[..|regs| - 1], r.scheduleId)
    && r.regNo == GenerateRegNo(regs[..|regs| - 1], today)
  }

  /** `create(patientId, scheduleId)` on the day `today`. */
  method Create(db: Store, patientId: int, scheduleId: int, today: Date, il: Interleaving)
    returns (res: Result<Registration, CreateError>, ghost collisions: seq<ConflictKind>)
    requires db.Valid() && ValidDate(today)
    modifies db
    ensures db.Valid()
    ensures OnlyQuotaChanged(old(db.schedules), db.schedules)
    ensures Extends(old(db.registrations), db.registrations)
    ensures db.nextScheduleId == old(db.nextScheduleId)
    ensures BalancesKept(old(db.schedules), old(db.registrations), db.schedules, db.registrations)
    // a failed check returns its error and writes nothing
    ensures CreateGuard(old(db.schedules), old(db.registrations), patientId, scheduleId).Some? ==>
      res == Failure(CreateGuard(old(db.schedules), old(db.registrations), patientId, scheduleId).value)
      && unchanged(db)
    // a booking is the last row, built from the schedule, numbered max + 1
    ensures res.Success? ==>
      scheduleId in old(db.schedules)
      && BuiltFrom(res.value, old(db.schedules)[scheduleId], db.doctorDept, patientId, scheduleId)
      && NumberedLast(db.registrations, res.value, today)
    // on its own, a request that passes the checks books: one quota unit, one row
    ensures Quiet(il) && CreateGuard(old(db.schedules), old(db.registrations), patientId, scheduleId).None? ==>
      res.Success?
      && db.registrations == old(db.registrations) + [res.value]
      && db.schedules == Decremented(old(db.schedules), scheduleId).0
    ensures res == Failure(QuotaTaken) ==> db.schedules[scheduleId].remainingQuota <= 0
    ensures res == Failure(DuplicateBooking) ==> HasActive(db.registrations, patientId, scheduleId)
    // a request that fails leaves only rows the rivals wrote, and one whose
    // reservation misses leaves only rows the rivals before it wrote; a booking
    // adds its own row last and no other
    ensures res.Failure? ==> RivalRows(old(db.registrations), db.registrations, AllRivals(il))
    ensures res == Failure(QuotaTaken) ==> RivalRows(old(db.registrations), db.registrations, il.beforeReserve)
    ensures res.Success? ==> RivalRowsButLast(old(db.registrations), db.registrations, AllRivals(il))
    // the insert attempts: see `RetryRecord`
    ensures RetryRecord(res, collisions)
    decreases Rank(il), 6
  {
    if scheduleId !in db.schedules {
      return Failure(ScheduleNotFound), [];
    }
    var schedule := db.schedules[scheduleId];
    if schedule.remainingQuota <= 0 {
      return Failure(ScheduleFull), [];
    }
    if schedule.status != Open {
      return Failure(ScheduleStopped), [];
    }
    var existing := SelectByPatientAndSchedule(db.registrations, patientId, scheduleId);
    if existing.Some? {
      return Failure(AlreadyBooked), [];
    }
    res, collisions := Book(db, patientId, scheduleId, today, il);
  }

  /** The writing part of `create`, once its checks have passed: the quota unit
      is reserved, then the row is inserted. */
  method Book(db: Store, patientId: int, scheduleId: int, today: Date, il: Interleaving)
    returns (res: Result<Registration, CreateError>, ghost collisions: seq<ConflictKind>)
    requires db.Valid() && ValidDate(today)
    requires CreateGuard(db.schedules, db.registrations, patientId, scheduleId).None?
    modifies db
    ensures db.Valid()
    ensures OnlyQuotaChanged(old(db.schedules), db.schedules)
    ensures Extends(old(db.registrations), db.registrations)
    ensures db.nextScheduleId == old(db.nextScheduleId)
    ensures BalancesKept(old(db.schedules), old(db.registrations), db.schedules, db.registrations)
    ensures res.Failure? ==> res.error == QuotaTaken || res.error == SystemBusy || res.error == DuplicateBooking
    ensures res.Success? ==>
      BuiltFrom(res.value, old(db.schedules)[scheduleId], db.doctorDept, patientId, scheduleId)
      && NumberedLast(db.registrations, res.value, today)
    ensures Quiet(il) ==>
      res.Success?
      && db.registrations == old(db.registrations) + [res.value]
      && db.schedules == Decremented(old(db.schedules), scheduleId).0
    ensures res == Failure(QuotaTaken) ==> db.schedules[scheduleId].remainingQuota <= 0
    ensures res == Failure(DuplicateBooking) ==> HasActive(db.registrations, patientId, scheduleId)
    ensures res.Failure? ==> RivalRows(old(db.registrations), db.registrations, AllRivals(il))
    ensures res == Failure(QuotaTaken) ==> RivalRows(old(db.registrations), db.registrations, il.beforeReserve)
    ensures res.Success? ==> RivalRowsButLast(old(db.registrations), db.registrations, AllRivals(il))
    ensures RetryRecord(res, collisions)
    decreases Rank(il), 5
  {
    var schedule := db.schedules[scheduleId];
    CreateGuardPasses(db.schedules, db.registrations, patientId, scheduleId);
    var reserved := Reserve(db, scheduleId, today, il.beforeReserve);
    if !reserved {
      return Failure(QuotaTaken), [];
    }
    ghost var s2, r1 := db.schedules, db.registrations;

    var regNo := GenerateRegNo(db.registrations, today);
    var maxQueueNo := SelectMaxQueueNo(db.registrations, scheduleId);
    var queueNo := if maxQueueNo.None? then 1 else maxQueueNo.value + 1;
    var registration := Registration(0, regNo, patientId, scheduleId, schedule.doctorId,
                                     DeptOf(db.doctorDept, schedule.doctorId), schedule.workDate,
                                     schedule.timeSlot, queueNo, schedule.fee, Booked);
    res, collisions := InsertWithRetry(db, registration, today, il.beforeInsert);
    QuotaChangeTrans(old(db.schedules), s2, db.schedules);
    ExtendsTrans(old(db.registrations), r1, db.registrations);
    BalanceRestored(old(db.schedules), old(db.registrations), s2, r1, db.schedules, db.registrations, scheduleId);
    if res.Success? {
      JoinRivalRowsButLast(old(db.registrations), r1, db.registrations, il);
    } else {
      JoinRivalRows(old(db.registrations), r1, db.registrations, il);
    }
  }

  /** The reservation of `create`: the rivals before it commit, then the
      conditional decrement takes one unit of the schedule's quota if any is left. */
  method Reserve(db: Store, scheduleId: int, today: Date, rivals: seq<Rival>) returns (reserved: bool)
    requires db.Valid() && ValidDate(today) && scheduleId in db.schedules
    modifies db
    ensures db.Valid()
    ensures OnlyQuotaChanged(old(db.schedules), db.schedules)
    ensures Extends(old(db.registrations), db.registrations)
    ensures db.nextScheduleId == old(db.nextScheduleId)
    ensures RivalRows(old(db.registrations), db.registrations, rivals)
    ensures !reserved ==>
      BalancesKept(old(db.schedules), old(db.registrations), db.schedules, db.registrations)
      && db.schedules[scheduleId].remainingQuota <= 0
    ensures reserved ==> forall id :: id in old(db.schedules) ==>
      Balance(db.schedules, db.registrations, id) ==
      Balance(old(db.schedules), old(db.registrations), id) - (if id == scheduleId then 1 else 0)
    ensures rivals == [] && old(db.schedules)[scheduleId].remainingQuota > 0 ==>
      reserved && db.registrations == old(db.registrations)
      && db.schedules == Decremented(old(db.schedules), scheduleId).0
    decreases if rivals == [] then 0 else 1, 2
  {
    if |rivals| > 0 {
      RunRivals(db, rivals, today);
    }
    ghost var s1, r1 := db.schedules, db.registrations;
    var affected := db.DecreaseQuota(scheduleId);
    if affected == 0 {
      return false;
    }
    DecrementBalance(old(db.schedules), old(db.registrations), s1, r1, scheduleId);
    reserved := true;
  }

  /** The insert loop of `create`, entered with one unit of the schedule's quota
      taken: at most `MaxRetry` attempts; a queue-number or reference collision
      renumbers and tries again, and the last such collision gives the unit back
      and reports the system busy; an active-booking collision gives the unit back
      and reports a duplicate. */
  method InsertWithRetry(db: Store, row: Registration, today: Date, batches: seq<seq<Rival>>)
    returns (res: Result<Registration, CreateError>, ghost collisions: seq<ConflictKind>)
    requires db.Valid() && ValidDate(today)
    requires row.scheduleId in db.schedules && row.status == Booked
    requires row.queueNo == NextQueueNo(db.registrations, row.scheduleId)
    requires row.regNo == GenerateRegNo(db.registrations, today)
    modifies db
    ensures db.Valid()
    ensures OnlyQuotaChanged(old(db.schedules), db.schedules)
    ensures Extends(old(db.registrations), db.registrations)
    ensures db.nextScheduleId == old(db.nextScheduleId)
    // the unit taken before the loop is either held by the new row or given back
    ensures forall id :: id in old(db.schedules) ==>
      Balance(db.schedules, db.registrations, id) ==
      Balance(old(db.schedules), old(db.registrations), id) + (if id == row.scheduleId then 1 else 0)
    ensures res.Success? ==>
      res.value == row.(regId := res.value.regId, queueNo := res.value.queueNo, regNo := res.value.regNo)
      && NumberedLast(db.registrations, res.value, today)
    ensures res.Failure? ==>
      res.error == SystemBusy
      || (res.error == DuplicateBooking && HasActive(db.registrations, row.patientId, row.scheduleId))
    ensures QuietBatches(batches) && !HasActive(old(db.registrations), row.patientId, row.scheduleId) ==>
      res.Success? && db.registrations == old(db.registrations) + [res.value]
      && db.schedules == old(db.schedules)
    ensures QuietBatches(batches) && HasActive(old(db.registrations), row.patientId, row.scheduleId) ==>
      res == Failure(DuplicateBooking) && collisions == [ActiveDuplicate]
      && db.registrations == old(db.registrations)
      && db.schedules == Incremented(old(db.schedules), row.scheduleId).0
    ensures res.Failure? ==> collisions != []
    ensures RetryRecord(res, collisions)
    // the request's own row is in the table only after a success, and last
    ensures res.Failure? ==> RivalRows(old(db.registrations), db.registrations, AllBatches(batches))
    ensures res.Success? ==> RivalRowsButLast(old(db.registrations), db.registrations, AllBatches(batches))
    decreases BatchesRank(batches), 4
  {
    var outcome;
    outcome, collisions := InsertLoop(db, row, today, batches);
    if outcome.Success? {
      return Success(outcome.value), collisions;
    }
    // the last collision, or an active duplicate: the unit goes back
    IncrementBalance(old(db.schedules), old(db.registrations), db.schedules, db.registrations, row.scheduleId);
    var _ := db.IncreaseQuota(row.scheduleId);
    res := Failure(if outcome.error == ActiveDuplicate then DuplicateBooking else SystemBusy);
  }

  /** The attempts of the insert loop, up to the first that goes in, the first
      active-booking collision, or the last of `MaxRetry` renumbered attempts;
      the quota is not touched. */
  method InsertLoop(db: Store, row: Registration, today: Date, batches: seq<seq<Rival>>)
    returns (res: Result<Registration, ConflictKind>, ghost collisions: seq<ConflictKind>)
    requires db.Valid() && ValidDate(today)
    requires row.scheduleId in db.schedules && row.status == Booked
    requires row.queueNo == NextQueueNo(db.registrations, row.scheduleId)
    requires row.regNo == GenerateRegNo(db.registrations, today)
    modifies db
    ensures db.Valid()
    ensures db.nextScheduleId == old(db.nextScheduleId)
    ensures res.Failure? ==>
      Settled(old(db.schedules), old(db.registrations), db.schedules, db.registrations, AllBatches(batches))
    ensures res == Failure(ActiveDuplicate) ==> HasActive(db.registrations, row.patientId, row.scheduleId)
    ensures res.Success? ==>
      BookedAfter(old(db.schedules), old(db.registrations), db.schedules, db.registrations,
                  row, res.value, today, AllBatches(batches))
    ensures QuietBatches(batches) && !HasActive(old(db.registrations), row.patientId, row.scheduleId) ==>
      res.Success? && db.registrations == old(db.registrations) + [res.value]
      && db.schedules == old(db.schedules)
    ensures QuietBatches(batches) && HasActive(old(db.registrations), row.patientId, row.scheduleId) ==>
      res == Failure(ActiveDuplicate) && collisions == [ActiveDuplicate]
      && db.registrations == old(db.registrations) && db.schedules == old(db.schedules)
    // `collisions` lists what the failed attempts ran into: the loop stops at the
    // first success, at the first active-booking collision, or after three
    // renumbered collisions, and answers with the last collision
    ensures |collisions| <= 3
    ensures res.Success? ==> |collisions| < 3 && Renumbered(collisions, |collisions|)
    ensures res.Failure? ==>
      |collisions| > 0 && res.error == collisions[|collisions| - 1] && Renumbered(collisions, |collisions| - 1)
    ensures res.Failure? && res.error != ActiveDuplicate ==> |collisions| == 3
    decreases BatchesRank(batches), 3
  {
    var registration := row;
    var i := 0;
    res := Failure(QueueNoConflict);
    collisions := [];
    while i < MaxRetry
      invariant 0 <= i <= MaxRetry
      invariant db.Valid()
      invariant db.nextScheduleId == old(db.nextScheduleId)
      invariant Settled(old(db.schedules), old(db.registrations), db.schedules, db.registrations, AllBatches(batches))
      invariant registration == row.(queueNo := NextQueueNo(db.registrations, row.scheduleId),
                                     regNo := GenerateRegNo(db.registrations, today))
      invariant QuietBatches(batches) ==>
        i == 0 && db.registrations == old(db.registrations) && db.schedules == old(db.schedules)
      invariant |collisions| == i && Renumbered(collisions, i)
      invariant res.Failure? && (i > 0 ==> res.error == collisions[i - 1])
    {
      var inserted, next := Retry(db, row, registration, today, batches, i, old(db.schedules), old(db.registrations));
      if inserted.Success? {
        return Success(registration.(regId := inserted.value)), collisions;
      }
      RenumberedAppend(collisions, inserted.error);
      collisions := collisions + [inserted.error];
      if inserted.error == ActiveDuplicate {
        return Failure(ActiveDuplicate), collisions;
      }
      registration := next;
      res := Failure(inserted.error);
      i := i + 1;
    }
  }

  /** Attempt `i` of the insert loop, which started from the state `s0`, `r0`,
      and, after a queue-number or reference collision, the row renumbered against
      the table as it is now. */
  method Retry(db: Store, row: Registration, registration: Registration, today: Date,
               batches: seq<seq<Rival>>, i: nat, ghost s0: map<int, Schedule>, ghost r0: seq<Registration>)
    returns (inserted: Result<int, ConflictKind>, next: Registration)
    requires db.Valid() && ValidDate(today)
    requires row.scheduleId in s0 && row.status == Booked
    requires Settled(s0, r0, db.schedules, db.registrations, AllBatches(batches))
    requires registration == row.(queueNo := NextQueueNo(db.registrations, row.scheduleId),
                                  regNo := GenerateRegNo(db.registrations, today))
    modifies db
    ensures db.Valid() && db.nextScheduleId == old(db.nextScheduleId)
    ensures inserted.Success? ==>
      BookedAfter(s0, r0, db.schedules, db.registrations, row, registration.(regId := inserted.value),
                  today, AllBatches(batches))
    ensures inserted.Failure? ==>
      Settled(s0, r0, db.schedules, db.registrations, AllBatches(batches))
      && next == row.(queueNo := NextQueueNo(db.registrations, row.scheduleId),
                      regNo := GenerateRegNo(db.registrations, today))
    ensures inserted == Failure(ActiveDuplicate) ==> HasActive(db.registrations, row.patientId, row.scheduleId)
    // with no rival before it, the attempt collides exactly when the patient holds an
    // active booking of the schedule
    ensures BatchAt(batches, i) == [] && !HasActive(old(db.registrations), row.patientId, row.scheduleId) ==>
      inserted.Success? && db.registrations == old(db.registrations) + [registration.(regId := inserted.value)]
      && db.schedules == old(db.schedules)
    ensures BatchAt(batches, i) == [] && HasActive(old(db.registrations), row.patientId, row.scheduleId) ==>
      inserted == Failure(ActiveDuplicate)
      && db.registrations == old(db.registrations) && db.schedules == old(db.schedules)
    decreases BatchesRank(batches), 2
  {
    var batch := BatchAt(batches, i);
    ghost var s1, r1 := db.schedules, db.registrations;
    inserted := Attempt(db, registration, today, batch);
    next := registration;
    if inserted.Success? {
      SucceededAttempt(s0, r0, s1, r1, db.schedules, db.registrations,
                       row, registration, inserted.value, today, AllBatches(batches));
      return;
    }
    FailedAttempt(s0, r0, s1, r1, db.schedules, db.registrations, batches, i);
    // a queue-number or reference collision: renumber against the table as it is now
    var maxQueueNo := SelectMaxQueueNo(db.registrations, row.scheduleId);
    var queueNo := if maxQueueNo.None? then 1 else maxQueueNo.value + 1;
    next := registration.(queueNo := queueNo, regNo := GenerateRegNo(db.registrations, today));
  }

  /** One attempt of the loop: the rivals of this attempt commit, then the insert
      runs. A collision writes nothing of this request's own; an insert that goes
      in went in against the very table the row was numbered on. */
  method Attempt(db: Store, registration: Registration, today: Date, batch: seq<Rival>)
    returns (inserted: Result<int, ConflictKind>)
    requires db.Valid() && ValidDate(today)
    requires registration.scheduleId in db.schedules && registration.status == Booked
    requires registration.queueNo == NextQueueNo(db.registrations, registration.scheduleId)
    requires registration.regNo == GenerateRegNo(db.registrations, today)
    modifies db
    ensures db.Valid()
    ensures db.nextScheduleId == old(db.nextScheduleId)
    // a collision keeps every balance and adds only this attempt's rivals' rows
    ensures inserted.Failure? ==>
      Settled(old(db.schedules), old(db.registrations), db.schedules, db.registrations, batch)
    ensures inserted.Success? ==>
      OnlyQuotaChanged(old(db.schedules), db.schedules)
      && Extends(old(db.registrations), db.registrations)
      && (forall id :: id in old(db.schedules) ==>
            Balance(db.schedules, db.registrations, id) ==
            Balance(old(db.schedules), old(db.registrations), id) + (if id == registration.scheduleId then 1 else 0))
      && db.registrations == old(db.registrations) + [registration.(regId := inserted.value)]
    ensures inserted == Failure(ActiveDuplicate) ==>
      HasActive(db.registrations, registration.patientId, registration.scheduleId)
    ensures batch == [] && !HasActive(old(db.registrations), registration.patientId, registration.scheduleId) ==>
      inserted.Success? && db.schedules == old(db.schedules)
    ensures batch == [] && HasActive(old(db.registrations), registration.patientId, registration.scheduleId) ==>
      inserted == Failure(ActiveDuplicate)
      && db.registrations == old(db.registrations) && db.schedules == old(db.schedules)
    decreases if batch == [] then 0 else 1, 1
  {
    ghost var numbered := db.registrations;
    if |batch| > 0 {
      RunRivals(db, batch, today);
    }
    ghost var s1, r1 := db.schedules, db.registrations;
    inserted := InsertNumbered(db, registration, today, numbered);
    if inserted.Success? {
      AppendExtends(numbered, numbered, registration.(regId := inserted.value));
      AppendBalance(old(db.schedules), old(db.registrations), s1, r1, registration.(regId := inserted.value));
    }
  }

  /** The insert of a row numbered against the table `numbered`, which the table
      has since grown from; if some row went in meanwhile, the first of them took
      the very reference the row carries. */
  method InsertNumbered(db: Store, registration: Registration, today: Date, ghost numbered: seq<Registration>)
    returns (inserted: Result<int, ConflictKind>)
    requires db.Valid() && ValidDate(today)
    requires registration.scheduleId in db.schedules && registration.status == Booked
    requires registration.queueNo == NextQueueNo(numbered, registration.scheduleId)
    requires registration.regNo == GenerateRegNo(numbered, today)
    requires Extends(numbered, db.registrations)
    requires db.registrations == numbered
      || (|db.registrations| > |numbered| && db.registrations[|numbered|].regNo == registration.regNo)
    modifies db
    ensures db.Valid()
    ensures db.schedules == old(db.schedules) && db.nextScheduleId == old(db.nextScheduleId)
    ensures inserted.Success? ==>
      old(db.registrations) == numbered
      && db.registrations == numbered + [registration.(regId := inserted.value)]
    ensures inserted.Failure? ==> db.registrations == old(db.registrations)
    ensures inserted == Failure(ActiveDuplicate) ==>
      HasActive(db.registrations, registration.patientId, registration.scheduleId)
    ensures old(db.registrations) == numbered && !HasActive(numbered, registration.patientId, registration.scheduleId) ==>
      inserted.Success?
    ensures old(db.registrations) == numbered && HasActive(numbered, registration.patientId, registration.scheduleId) ==>
      inserted == Failure(ActiveDuplicate)
  {
    if db.registrations != numbered {
      assert RegNoTaken(db.registrations, registration.regNo) by {
        assert db.registrations[|numbered|].regNo == registration.regNo;
      }
    } else {
      NextQueueNoFresh(numbered, registration.scheduleId);
      GenerateRegNoFresh(numbered, today);
    }
    inserted := db.InsertRegistration(registration);
  }

  /** Runs the rival bookings one after the other. The first of them that books
      takes the reference a request numbered against the starting table would
      take, so such a request then collides. */
  method RunRivals(db: Store, rivals: seq<Rival>, today: Date)
    requires db.Valid() && ValidDate(today)
    modifies db
    ensures db.Valid()
    ensures OnlyQuotaChanged(old(db.schedules), db.schedules)
    ensures Extends(old(db.registrations), db.registrations)
    ensures db.nextScheduleId == old(db.nextScheduleId)
    ensures BalancesKept(old(db.schedules), old(db.registrations), db.schedules, db.registrations)
    ensures db.registrations == old(db.registrations)
      || (|db.registrations| > |old(db.registrations)|
          && db.registrations[|old(db.registrations)|].regNo == GenerateRegNo(old(db.registrations), today))
    ensures RivalRows(old(db.registrations), db.registrations, rivals)
    decreases 1, 0
  {
    for j := 0 to |rivals|
      invariant db.Valid()
      invariant db.nextScheduleId == old(db.nextScheduleId)
      invariant RivalsOnly(old(db.schedules), old(db.registrations), db.schedules, db.registrations, rivals, today)
    {
      ghost var sBefore, before := db.schedules, db.registrations;
      RunRival(db, rivals[j], today);
      OneRival(sBefore, before, db.schedules, db.registrations, rivals, j, today);
      RivalsOnlyTrans(old(db.schedules), old(db.registrations), sBefore, before,
                      db.schedules, db.registrations, rivals, today);
    }
  }

  /** What the rival bookings of `rivals` can have done between two states: only
      quotas changed, rows were appended, every balance is kept, each new row is
      a rival's booking, and the first of them took the reference a request
      numbered against the first state would take. */
  ghost predicate RivalsOnly(s0: map<int, Schedule>, r0: seq<Registration>,
                             s1: map<int, Schedule>, r1: seq<Registration>, rivals: seq<Rival>, today: Date)
  {
    ValidDate(today) && Settled(s0, r0, s1, r1, rivals)
    && (r1 == r0 || (|r1| > |r0| && r1[|r0|].regNo == GenerateRegNo(r0, today)))
  }

  lemma OneRival(s0: map<int, Schedule>, r0: seq<Registration>, s1: map<int, Schedule>, r1: seq<Registration>,
                 rivals: seq<Rival>, j: nat, today: Date)
    requires ValidDate(today) && j < |rivals|
    requires OnlyQuotaChanged(s0, s1) && Extends(r0, r1) && BalancesKept(s0, r0, s1, r1)
    requires r1 == r0
      || (|r1| == |r0| + 1
          && var r := r1[|r0|];
          r.regNo == GenerateRegNo(r0, today)
          && r.status == Booked && r.patientId == rivals[j].patientId && r.scheduleId == rivals[j].scheduleId)
    ensures RivalsOnly(s0, r0, s1, r1, rivals, today)
  {
    if r1 != r0 {
      assert RivalRow(r1[|r0|], rivals) by {
        assert rivals[j] == Rival(r1[|r0|].patientId, r1[|r0|].scheduleId);
      }
    }
  }

  lemma RivalsOnlyTrans(s0: map<int, Schedule>, r0: seq<Registration>, s1: map<int, Schedule>, r1: seq<Registration>,
                        s2: map<int, Schedule>, r2: seq<Registration>, rivals: seq<Rival>, today: Date)
    requires RivalsOnly(s0, r0, s1, r1, rivals, today) && RivalsOnly(s1, r1, s2, r2, rivals, today)
    ensures RivalsOnly(s0, r0, s2, r2, rivals, today)
  {
    QuotaChangeTrans(s0, s1, s2);
    ExtendsTrans(r0, r1, r2);
    BalancesTrans(s0, r0, s1, r1, s2, r2);
    RivalRowsTrans(r0, r1, r2, rivals);
    if r1 != r0 {
      assert r2[|r0|] == r2[..|r1|][|r0|];
    }
  }

  /** One rival booking, made alone: it adds at most its own BOOKED row, numbered
      against the table it found. */
  method RunRival(db: Store, rival: Rival, today: Date)
    requires db.Valid() && ValidDate(today)
    modifies db
    ensures db.Valid()
    ensures OnlyQuotaChanged(old(db.schedules), db.schedules)
    ensures Extends(old(db.registrations), db.registrations)
    ensures db.nextScheduleId == old(db.nextScheduleId)
    ensures BalancesKept(old(db.schedules), old(db.registrations), db.schedules, db.registrations)
    ensures db.registrations == old(db.registrations)
      || (|db.registrations| == |old(db.registrations)| + 1
          && var r := db.registrations[|old(db.registrations)|];
          r.regNo == GenerateRegNo(old(db.registrations), today)
          && r.status == Booked && r.patientId == rival.patientId && r.scheduleId == rival.scheduleId)
    decreases 0, 7
  {
    var booked;
    ghost var collisions;
    booked, collisions := Create(db, rival.patientId, rival.scheduleId, today, Alone);
    assert Quiet(Alone);
    if booked.Success? {
      assert db.registrations == old(db.registrations) + [booked.value];
      assert db.registrations[..|db.registrations| - 1] == old(db.registrations);
    }
  }

  // ---------------------------------------------------------------------------
  // cancel and finish

  /** The error results of `cancel` and `finish`. */
  datatype StatusError =
    | RegistrationNotFound
    | NotBooked
    | CancelTooLate
    | StatusRaced

  /** A second request for the same registration that commits after the status
      check and before the conditional update. */
  datatype Race = NoRace | RacedByCancel(at: DateTime) | RacedByFinish

  function RaceRank(race: Race): nat
  {
    if race == NoRace then 0 else 1
  }

  /** The quota unit that goes back to `scheduleId`: one exactly when the
      registration `regId` is a row of that schedule that went from BOOKED to
      CANCELLED. */
  function Returned(before: seq<Registration>, after: seq<Registration>, regId: int, scheduleId: int): int
    requires |after| == |before|
  {
    match SelectById(before, regId)
    case None => 0
    case Some(i) =>
      if before[i].scheduleId == scheduleId && before[i].status == Booked && after[i].status == Cancelled then 1 else 0
  }

  /** What `cancel` and `finish` may change: the status of the one row and the
      remaining quota that row returns, keeping every balance. */
  ghost predicate StatusStep(s0: map<int, Schedule>, r0: seq<Registration>,
                             s1: map<int, Schedule>, r1: seq<Registration>, regId: int)
  {
    StatusOnlyChanged(r0, r1, regId)
    && OnlyQuotaChanged(s0, s1)
    && (forall id :: id in s0 ==> s1[id].remainingQuota == s0[id].remainingQuota + Returned(r0, r1, regId, id))
    && BalancesKept(s0, r0, s1, r1)
  }

  lemma StatusStepRefl(s: map<int, Schedule>, r: seq<Registration>, regId: int)
    ensures StatusStep(s, r, s, r, regId)
  {
  }

  /** The conditional update of `cancel` that hit, and the quota it gives back,
      after whatever the rival did. */
  lemma CancelStep(s0: map<int, Schedule>, r0: seq<Registration>, s1: map<int, Schedule>, r1: seq<Registration>,
                   r2: seq<Registration>, s2: map<int, Schedule>, regId: int, i: nat)
    requires StatusStep(s0, r0, s1, r1, regId)
    requires SelectById(r0, regId) == Some(i) && i < |r1|
    requires r0[i].status == Booked && r1[i].status == Booked && r1[i].scheduleId in s1
    requires r2 == r1[i := r1[i].(status := Cancelled)]
    requires s2 == Incremented(s1, r1[i].scheduleId).0
    ensures StatusStep(s0, r0, s2, r2, regId)
  {
    assert StatusOnlyChanged(r1, r2, regId);
    StatusOnlyChangedTrans(r0, r1, r2, regId);
    forall id | id in s1 ensures CountOccupied(r2, id) == CountOccupied(r1, id) - (if id == r1[i].scheduleId then 1 else 0) {
      OccupiedUpdate(r1, i, r1[i].(status := Cancelled), id);
    }
  }

  /** The conditional update of `finish` that hit, after whatever the rival did. */
  lemma FinishStep(s0: map<int, Schedule>, r0: seq<Registration>, s1: map<int, Schedule>, r1: seq<Registration>,
                   r2: seq<Registration>, regId: int, i: nat)
    requires StatusStep(s0, r0, s1, r1, regId)
    requires SelectById(r0, regId) == Some(i) && i < |r1|
    requires r0[i].status == Booked && r1[i].status == Booked
    requires r2 == r1[i := r1[i].(status := Finished)]
    ensures StatusStep(s0, r0, s1, r2, regId)
  {
    assert StatusOnlyChanged(r1, r2, regId);
    StatusOnlyChangedTrans(r0, r1, r2, regId);
    forall id | id in s1 ensures CountOccupied(r2, id) == CountOccupied(r1, id) {
      OccupiedUpdate(r1, i, r1[i].(status := Finished), id);
    }
  }

  /** `cancel(regId)` at the instant `now`. */
  method Cancel(db: Store, regId: int, now: DateTime, race: Race) returns (res: Outcome<StatusError>)
    requires db.Valid()
    modifies db
    ensures db.Valid()
    ensures db.nextScheduleId == old(db.nextScheduleId) && db.nextRegId == old(db.nextRegId)
    ensures StatusStep(old(db.schedules), old(db.registrations), db.schedules, db.registrations, regId)
    ensures SelectById(old(db.registrations), regId).None? ==> res == Fail(RegistrationNotFound) && unchanged(db)
    ensures SelectById(old(db.registrations), regId).Some? ==>
      var i := SelectById(old(db.registrations), regId).value;
      var r := old(db.registrations)[i];
      (r.status != Booked ==> res == Fail(NotBooked) && unchanged(db))
      && (r.status == Booked && !CancelAllowed(now, r.workDate, r.timeSlot) ==> res == Fail(CancelTooLate) && unchanged(db))
      && (res.Pass? ==> r.status == Booked && CancelAllowed(now, r.workDate, r.timeSlot)
                        && db.registrations[i].status == Cancelled)
      && (race == NoRace && r.status == Booked && CancelAllowed(now, r.workDate, r.timeSlot) ==>
            res.Pass? && db.registrations == old(db.registrations)[i := r.(status := Cancelled)]
            && db.schedules == Incremented(old(db.schedules), r.scheduleId).0)
    ensures res == Fail(StatusRaced) ==> race != NoRace
    decreases RaceRank(race)
  {
    StatusStepRefl(db.schedules, db.registrations, regId);
    var found := SelectById(db.registrations, regId);
    if found.None? {
      return Fail(RegistrationNotFound);
    }
    var registration := db.registrations[found.value];
    if registration.status != Booked {
      return Fail(NotBooked);
    }
    if IsAfter(now, CancelDeadline(registration.workDate, registration.timeSlot)) {
      return Fail(CancelTooLate);
    }
    assert LinkedAt(db.schedules, db.registrations, found.value);

    match race {
      case NoRace =>
      case RacedByCancel(at) =>
        var _ := Cancel(db, regId, at, NoRace);
      case RacedByFinish =>
        var _ := Finish(db, regId, NoRace);
    }
    ghost var s1, r1 := db.schedules, db.registrations;
    SelectByIdStable(old(db.registrations), r1, regId, regId);
    StatusUpdateEffect(r1, db.nextRegId, regId, Booked, Cancelled);
    var affected := db.UpdateStatusWithCondition(regId, Booked, Cancelled);
    if affected == 0 {
      return Fail(StatusRaced);
    }
    ghost var r2 := db.registrations;
    var _ := db.IncreaseQuota(registration.scheduleId);
    CancelStep(old(db.schedules), old(db.registrations), s1, r1, r2, db.schedules, regId, found.value);
    res := Pass;
  }

  /** `finish(regId)`. */
  method Finish(db: Store, regId: int, race: Race) returns (res: Outcome<StatusError>)
    requires db.Valid()
    modifies db
    ensures db.Valid()
    ensures db.nextScheduleId == old(db.nextScheduleId) && db.nextRegId == old(db.nextRegId)
    ensures StatusStep(old(db.schedules), old(db.registrations), db.schedules, db.registrations, regId)
    ensures SelectById(old(db.registrations), regId).None? ==> res == Fail(RegistrationNotFound) && unchanged(db)
    ensures SelectById(old(db.registrations), regId).Some? ==>
      var i := SelectById(old(db.registrations), regId).value;
      var r := old(db.registrations)[i];
      (r.status != Booked ==> res == Fail(NotBooked) && unchanged(db))
      && (res.Pass? ==> r.status == Booked && db.registrations[i].status == Finished)
      && (race == NoRace && r.status == Booked ==>
            res.Pass? && db.registrations == old(db.registrations)[i := r.(status := Finished)]
            && db.schedules == old(db.schedules))
    ensures res.Fail? ==> res.error != CancelTooLate
    ensures res == Fail(StatusRaced) ==> race != NoRace
    ensures !race.RacedByCancel? ==> db.schedules == old(db.schedules)
    decreases RaceRank(race)
  {
    StatusStepRefl(db.schedules, db.registrations, regId);
    var found := SelectById(db.registrations, regId);
    if found.None? {
      return Fail(RegistrationNotFound);
    }
    var registration := db.registrations[found.value];
    if registration.status != Booked {
      return Fail(NotBooked);
    }

    match race {
      case NoRace =>
      case RacedByCancel(at) =>
        var _ := Cancel(db, regId, at, NoRace);
      case RacedByFinish =>
        var _ := Finish(db, regId, NoRace);
    }
    ghost var s1, r1 := db.schedules, db.registrations;
    SelectByIdStable(old(db.registrations), r1, regId, regId);
    StatusUpdateEffect(r1, db.nextRegId, regId, Booked, Finished);
    var affected := db.UpdateStatusWithCondition(regId, Booked, Finished);
    if affected == 0 {
      return Fail(StatusRaced);
    }
    FinishStep(old(db.schedules), old(db.registrations), s1, r1, db.registrations, regId, found.value);
    res := Pass;
  }
}
