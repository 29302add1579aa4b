/** Dates and instants as the booking engine compares them (`LocalDate`,
    `LocalDateTime`), and the cancellation deadline of a visit. */
module Calendar {

  datatype Date = Date(year: int, month: int, day: int)

  /** An instant on the wall clock: a date and a time of day down to nanoseconds. */
  datatype DateTime = DateTime(date: Date, hour: int, minute: int, second: int, nano: int)

  /** A (year, month, day) triple that `yyyyMMdd` prints in eight digits; the month
      lengths are not checked. */
  predicate ValidDate(d: Date)
  {
    1 <= d.year <= 9999 && 1 <= d.month <= 12 && 1 <= d.day <= 31
  }

  /** `LocalDate.isBefore`: lexicographic on (year, month, day). */
  predicate DateBefore(a: Date, b: Date)
  {
    a.year < b.year
    || (a.year == b.year && a.month < b.month)
    || (a.year == b.year && a.month == b.month && a.day < b.day)
  }

  /** `LocalDateTime.isAfter`: strictly later, comparing date, then the time of day. */
  predicate IsAfter(a: DateTime, b: DateTime)
  {
    DateBefore(b.date, a.date)
    || (a.date == b.date &&
        (a.hour > b.hour
         || (a.hour == b.hour && a.minute > b.minute)
         || (a.hour == b.hour && a.minute == b.minute && a.second > b.second)
         || (a.hour == b.hour && a.minute == b.minute && a.second == b.second && a.nano > b.nano)))
  }

  /** The hour a half-day period starts: 08:00 for "AM", 14:00 for anything else. */
  function VisitHour(timeSlot: string): int
  {
    if timeSlot == "AM" then 8 else 14
  }

  /** One hour before the visit starts; since visits start at 08:00 or 14:00 the
      subtraction never crosses midnight. */
  function CancelDeadline(workDate: Date, timeSlot: string): DateTime
  {
    DateTime(workDate, VisitHour(timeSlot) - 1, 0, 0, 0)
  }

  /** A booking may be cancelled unless `now` is strictly after the deadline. */
  predicate CancelAllowed(now: DateTime, workDate: Date, timeSlot: string)
  {
    !IsAfter(now, CancelDeadline(workDate, timeSlot))
  }

  /** A time of day the clock can show. */
  predicate ValidTime(t: DateTime)
  {
    0 <= t.hour < 24 && 0 <= t.minute < 60 && 0 <= t.second < 60 && 0 <= t.nano < 1000000000
  }

  /** The window, stated on its own terms: any earlier day, or the visit day up to
      and including 07:00:00 sharp ("AM") or 13:00:00 sharp (any other period). */
  lemma CancelWindow(now: DateTime, workDate: Date, timeSlot: string)
    requires ValidTime(now)
    ensures CancelAllowed(now, workDate, timeSlot) <==>
      (DateBefore(now.date, workDate)
       || (now.date == workDate &&
           (now.hour < VisitHour(timeSlot) - 1
            || (now.hour == VisitHour(timeSlot) - 1 && now.minute == 0 && now.second == 0 && now.nano == 0))))
  {
    var a, b := now.date, workDate;
    assert DateBefore(a, b) || a == b || DateBefore(b, a);
  }

  /** Cancelling exactly at the deadline is allowed; one nanosecond later is not. */
  lemma DeadlineIsInclusive(workDate: Date, timeSlot: string)
    ensures CancelAllowed(CancelDeadline(workDate, timeSlot), workDate, timeSlot)
    ensures !CancelAllowed(CancelDeadline(workDate, timeSlot).(nano := 1), workDate, timeSlot)
  {
  }
}
