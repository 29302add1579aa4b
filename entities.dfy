/** The two rows the core works on: a schedule (a doctor's quota for one date and
    half-day period) and a registration (one patient's booking against a schedule). */
module Entities {
  import opened Wrappers
  import opened Calendar

  /** `registration.status`: "BOOKED", "CANCELLED" or "FINISHED". */
  datatype Status = Booked | Cancelled | Finished

  /** A `java.math.BigDecimal` (unscaled value and scale). The fee is copied from
      the schedule to the registration and never computed with. */
  datatype Fee = Fee(unscaled: int, scale: int)

  /** `schedule.status`: 1 while the schedule is open, 0 once it is soft-deleted. */
  const Open: int := 1
  const Deleted: int := 0

  /** A row of the `schedule` table (its key is the map key in the store). */
  datatype Schedule = Schedule(
    doctorId: int,
    workDate: Date,
    timeSlot: string,
    totalQuota: int,
    remainingQuota: int,
    fee: Fee,
    status: int)

  /** A row of the `registration` table. `deptId` is the department of the
      schedule's doctor as the schedule query joins it, absent when the doctor row is. */
  datatype Registration = Registration(
    regId: int,
    regNo: string,
    patientId: int,
    scheduleId: int,
    doctorId: int,
    deptId: Option<int>,
    workDate: Date,
    timeSlot: string,
    queueNo: int,
    fee: Fee,
    status: Status)
}
