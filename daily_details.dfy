// The status of one employee's day, as the daily-details query reports it:
// a first-match chain over today, the weekend, the attendance record, the
// holiday calendar and the approved leave requests.

module DailyDetails {
  import opened Domain

  /** The daily query's own full-shift threshold, in minutes, independent of the configured one. */
  const FullShiftMinutes := 360

  /**
   * What the query returns: the status, the attendance row it was read from
   * (only on a weekday with a row) and that day's punches (only alongside the row).
   */
  datatype DailyReport = DailyReport(
    status: AttendanceStatus,
    record: Option<DailyAttendance>,
    dailyLog: Option<seq<AttendanceLog>>)

  // The row selectors of the query, named so that other queries can be
  // compared with this one.

  function RecordOn(employeeId: int, date: int): DailyAttendance -> bool {
    (x: DailyAttendance) => x.employeeId == employeeId && x.date == date
  }

  function HolidayOn(date: int): Holiday -> bool {
    (h: Holiday) => h.date == date
  }

  function ApprovedLeaveOn(employeeId: int, date: int): LeaveRequest -> bool {
    (x: LeaveRequest) => x.employeeId == employeeId && x.fromDate <= date && date <= x.toDate && x.status == Approved
  }

  function LogOn(employeeId: int, date: int): AttendanceLog -> bool {
    (x: AttendanceLog) => x.employeeId == employeeId && x.punchDate == date
  }

  function TypeWithId(typeId: int): LeaveType -> bool {
    (t: LeaveType) => t.id == typeId
  }

  /** The leave type `typeId` exists and has category `c` (a type without a category has none). */
  predicate HasCategory(leaveTypes: seq<LeaveType>, typeId: int, c: LeaveCategory) {
    var t := FirstWhere(leaveTypes, TypeWithId(typeId));
    t.Some? && t.value.category == Some(c)
  }

  /** A leave covering a day with no attendance and no holiday: working from home or away. */
  function LeaveStatus(leaveTypes: seq<LeaveType>, leave: LeaveRequest): (s: AttendanceStatus)
    ensures s == WFH <==> HasCategory(leaveTypes, leave.typeId, WorkFromHome)
    ensures s == WFH || s == Leave
  {
    if HasCategory(leaveTypes, leave.typeId, WorkFromHome) then WFH else Leave
  }

  /** The status of a day without an attendance row. */
  function AbsenceStatus(employeeId: int, date: int, holidays: seq<Holiday>,
                         requests: seq<LeaveRequest>, leaveTypes: seq<LeaveType>): AttendanceStatus
  {
    var holiday := FirstWhere(holidays, HolidayOn(date));
    var leave := FirstWhere(requests, ApprovedLeaveOn(employeeId, date));
    if holiday.Some? then
      if holiday.value.holidayType == NormalHoliday then NormalHoliday
      else if leave.None? then Absent
      else RestrictedHoliday
    else if leave.None? then Absent
    else LeaveStatus(leaveTypes, leave.value)
  }

  predicate NoApprovedLeave(employeeId: int, date: int, requests: seq<LeaveRequest>) {
    forall i :: 0 <= i < |requests| ==> !ApprovedLeaveOn(employeeId, date)(requests[i])
  }

  predicate HasRecord(employeeId: int, date: int, records: seq<DailyAttendance>) {
    exists i :: 0 <= i < |records| && RecordOn(employeeId, date)(records[i])
  }

  /** The first holiday row on `date` exists and is not a normal holiday. */
  predicate SpecialHoliday(date: int, holidays: seq<Holiday>) {
    var h := FirstWhere(holidays, HolidayOn(date));
    h.Some? && h.value.holidayType != NormalHoliday
  }

  predicate NoHoliday(date: int, holidays: seq<Holiday>) {
    forall i :: 0 <= i < |holidays| ==> holidays[i].date != date
  }

  /**
   * The daily-details query for `employeeId` on `date`, `today` being the
   * current UTC date.  Each status is characterised by the facts that lead
   * to it.
   */
  function Details(employeeId: int, date: int, today: int, records: seq<DailyAttendance>,
                   holidays: seq<Holiday>, requests: seq<LeaveRequest>,
                   leaveTypes: seq<LeaveType>, logs: seq<AttendanceLog>): (r: DailyReport)
    ensures r.status == OngoingShift <==> date == today
    ensures date != today && IsWeekend(date) ==> r.status == NormalHoliday && r.record.None?
    ensures r.record.Some? <==> date != today && !IsWeekend(date) && HasRecord(employeeId, date, records)
    ensures r.record.Some? ==> RecordOn(employeeId, date)(r.record.value)
    ensures r.status == Present <==> r.record.Some? && r.record.value.insideDuration >= FullShiftMinutes
    ensures r.status == IncompleteShift <==> r.record.Some? && r.record.value.insideDuration < FullShiftMinutes
    ensures r.dailyLog.Some? <==> r.record.Some?
    ensures r.dailyLog.Some? ==> r.dailyLog.value == Filter(logs, LogOn(employeeId, date))
    ensures r.status == Absent <==>
              date != today && !IsWeekend(date) && !HasRecord(employeeId, date, records)
              && (NoHoliday(date, holidays) || SpecialHoliday(date, holidays))
              && NoApprovedLeave(employeeId, date, requests)
    ensures r.status == RestrictedHoliday <==>
              date != today && !IsWeekend(date) && !HasRecord(employeeId, date, records)
              && SpecialHoliday(date, holidays) && !NoApprovedLeave(employeeId, date, requests)
    ensures r.status == WFH || r.status == Leave ==>
              r.record.None? && NoHoliday(date, holidays) && !NoApprovedLeave(employeeId, date, requests)
    // a covering leave on a working day gives WFH or Leave by the category of the first such leave
    ensures r.status == WFH <==>
              date != today && !IsWeekend(date) && !HasRecord(employeeId, date, records) && NoHoliday(date, holidays)
              && var l := FirstWhere(requests, ApprovedLeaveOn(employeeId, date));
                 l.Some? && HasCategory(leaveTypes, l.value.typeId, WorkFromHome)
    ensures r.status == Leave <==>
              date != today && !IsWeekend(date) && !HasRecord(employeeId, date, records) && NoHoliday(date, holidays)
              && var l := FirstWhere(requests, ApprovedLeaveOn(employeeId, date));
                 l.Some? && !HasCategory(leaveTypes, l.value.typeId, WorkFromHome)
    ensures r.status == NormalHoliday <==>
              date != today && (IsWeekend(date) || (!HasRecord(employeeId, date, records)
                                                    && !NoHoliday(date, holidays)
                                                    && !SpecialHoliday(date, holidays)))
    ensures r.status != HalfDay
  {
    if date == today then DailyReport(OngoingShift, None, None)
    else if IsWeekend(date) then DailyReport(NormalHoliday, None, None)
    else
      var record := FirstWhere(records, RecordOn(employeeId, date));
      if record.None? then
        DailyReport(AbsenceStatus(employeeId, date, holidays, requests, leaveTypes), None, None)
      else
        var status := if record.value.insideDuration >= FullShiftMinutes then Present else IncompleteShift;
        DailyReport(status, record, Some(Filter(logs, LogOn(employeeId, date))))
  }
}
