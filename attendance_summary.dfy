// The monthly attendance summary: one pass over the days of a month, up to
// today, that classifies every weekday and counts each status.  The working
// time a full day needs starts at the configured minimum and is halved, for
// the rest of the month, on every day that carries an approved half-day leave.

module AttendanceSummary {
  import opened Domain
  import opened DailyDetails

  /** The eight counters the query returns. */
  datatype Summary = Summary(
    present: nat,
    absent: nat,
    incompleteShift: nat,
    restrictedHoliday: nat,
    normalHoliday: nat,
    wfh: nat,
    leave: nat,
    halfDay: nat)

  const Zero := Summary(0, 0, 0, 0, 0, 0, 0, 0)

  datatype SummaryError =
    | InvalidMonth      // the year and month name no calendar month, or its successor does not exist
    | DuplicateHalfDay  // two approved half-day leaves of the month start on the same date

  function Total(s: Summary): nat {
    s.present + s.absent + s.incompleteShift + s.restrictedHoliday + s.normalHoliday
    + s.wfh + s.leave + s.halfDay
  }

  /** The last day of the month: the first of the next month, minus one day. */
  function MonthEnd(year: int, month: int): (d: int)
    requires ValidYearMonth(year, month)
    ensures d - DayNumber(year, month, 1) + 1 == DaysInMonth(year, month)
  {
    DayNumber(year, month, DaysInMonth(year, month))
  }

  /** C#'s `x / 2` on an int, which truncates toward zero. */
  function Halve(x: int): (h: int)
    ensures x >= 0 ==> 0 <= h && x - 1 <= 2 * h <= x
    ensures x < 0 ==> h <= 0 && x <= 2 * h <= x + 1
  {
    if x >= 0 then x / 2 else -((-x) / 2)
  }

  // ---------------------------------------------------------------------
  // The rows the query loads for one employee and one month
  // ---------------------------------------------------------------------

  function RecordInMonth(employeeId: int, monthStart: int, monthEnd: int): DailyAttendance -> bool {
    (x: DailyAttendance) => x.employeeId == employeeId && x.date >= monthStart && x.date <= monthEnd
  }

  function HolidayInMonth(monthStart: int, monthEnd: int): Holiday -> bool {
    (h: Holiday) => h.date >= monthStart && h.date <= monthEnd
  }

  function ApprovedInMonth(employeeId: int, monthStart: int, monthEnd: int): LeaveRequest -> bool {
    (x: LeaveRequest) => x.employeeId == employeeId && x.fromDate <= monthEnd && x.toDate >= monthStart
                         && x.status == Approved
  }

  function IsHalfDayRequest(): LeaveRequest -> bool {
    (x: LeaveRequest) => x.halfDay
  }

  function DateIs(date: int): DailyAttendance -> bool {
    (x: DailyAttendance) => x.date == date
  }

  function Covers(date: int): LeaveRequest -> bool {
    (x: LeaveRequest) => x.fromDate <= date && x.toDate >= date
  }

  datatype MonthData = MonthData(
    records: seq<DailyAttendance>,
    holidays: seq<Holiday>,
    requests: seq<LeaveRequest>,
    leaveTypes: seq<LeaveType>,
    halfDays: seq<LeaveRequest>)

  function Load(employeeId: int, monthStart: int, monthEnd: int, records: seq<DailyAttendance>,
                holidays: seq<Holiday>, requests: seq<LeaveRequest>, leaveTypes: seq<LeaveType>): (m: MonthData)
    // only the employee's rows of the month, the month's holidays and the employee's approved leaves touching it
    ensures forall i :: 0 <= i < |m.records| ==>
              m.records[i] in records && RecordInMonth(employeeId, monthStart, monthEnd)(m.records[i])
    ensures forall i :: 0 <= i < |records| && RecordInMonth(employeeId, monthStart, monthEnd)(records[i]) ==>
              records[i] in m.records
    ensures forall i :: 0 <= i < |m.holidays| ==> m.holidays[i] in holidays && monthStart <= m.holidays[i].date <= monthEnd
    ensures forall i :: 0 <= i < |holidays| && monthStart <= holidays[i].date <= monthEnd ==> holidays[i] in m.holidays
    ensures forall i :: 0 <= i < |m.requests| ==>
              m.requests[i] in requests && ApprovedInMonth(employeeId, monthStart, monthEnd)(m.requests[i])
    ensures forall i :: 0 <= i < |requests| && ApprovedInMonth(employeeId, monthStart, monthEnd)(requests[i]) ==>
              requests[i] in m.requests
    // the half-day leaves are those approved leaves whose HalfDay flag is set
    ensures forall i :: 0 <= i < |m.halfDays| ==> m.halfDays[i] in m.requests && m.halfDays[i].halfDay
    ensures forall i :: 0 <= i < |m.requests| && m.requests[i].halfDay ==> m.requests[i] in m.halfDays
  {
    var approved := Filter(requests, ApprovedInMonth(employeeId, monthStart, monthEnd));
    MonthData(Filter(records, RecordInMonth(employeeId, monthStart, monthEnd)),
              Filter(holidays, HolidayInMonth(monthStart, monthEnd)),
              approved,
              leaveTypes,
              Filter(approved, IsHalfDayRequest()))
  }

  // ---------------------------------------------------------------------
  // The half-day dictionary, keyed by the first date of each request
  // ---------------------------------------------------------------------

  predicate DistinctFromDates(s: seq<LeaveRequest>) {
    forall i, j :: 0 <= i < j < |s| ==> s[i].fromDate != s[j].fromDate
  }

  predicate KeyedOn(s: seq<LeaveRequest>, date: int) {
    exists i :: 0 <= i < |s| && s[i].fromDate == date
  }

  /**
   * `ToDictionary(x => x.FromDate)`: fails on a repeated key, otherwise maps
   * every first date to its request.
   */
  method ToDictionary(s: seq<LeaveRequest>) returns (r: Option<map<int, LeaveRequest>>)
    ensures r.Some? <==> DistinctFromDates(s)
    ensures r.Some? ==> forall d :: d in r.value <==> KeyedOn(s, d)
    ensures r.Some? ==> forall i :: 0 <= i < |s| ==> s[i].fromDate in r.value && r.value[s[i].fromDate] == s[i]
  {
    var dictionary: map<int, LeaveRequest> := map[];
    var i := 0;
    while i < |s|
      invariant 0 <= i <= |s|
      invariant DistinctFromDates(s[..i])
      invariant forall d :: d in dictionary <==> KeyedOn(s[..i], d)
      invariant forall j :: 0 <= j < i ==> s[j].fromDate in dictionary && dictionary[s[j].fromDate] == s[j]
    {
      if s[i].fromDate in dictionary {
        var j :| 0 <= j < i && s[..i][j].fromDate == s[i].fromDate;
        assert s[j].fromDate == s[i].fromDate;
        return None;
      }
      dictionary := dictionary[s[i].fromDate := s[i]];
      assert s[..i + 1] == s[..i] + [s[i]];
      i := i + 1;
    }
    assert s[..i] == s;
    return Some(dictionary);
  }

  // ---------------------------------------------------------------------
  // The specification of the pass over the month
  // ---------------------------------------------------------------------

  /**
   * The status counted for a weekday, given the working time a full day
   * needs and whether a half-day leave starts that day; None when the day
   * is counted nowhere.
   */
  function Classify(m: MonthData, date: int, threshold: int, half: bool): (r: Option<AttendanceStatus>)
    ensures r != Some(OngoingShift)
    ensures r == Some(HalfDay) ==> half
    ensures r.None? ==> FirstWhere(m.records, DateIs(date)).None?
                        && SpecialHoliday(date, m.holidays)
  {
    var record := FirstWhere(m.records, DateIs(date));
    if record.Some? then
      if record.value.insideDuration >= threshold then
        if half then Some(HalfDay) else Some(Present)
      else Some(IncompleteShift)
    else
      var holiday := FirstWhere(m.holidays, HolidayOn(date));
      var leave := FirstWhere(m.requests, Covers(date));
      if holiday.Some? then
        if holiday.value.holidayType == NormalHoliday then Some(NormalHoliday)
        else if holiday.value.holidayType == RestrictedHoliday
                && leave.Some? && HasCategory(m.leaveTypes, leave.value.typeId, RestrictedHolidayLeave)
        then Some(RestrictedHoliday)
        else None
      else if leave.None? then Some(Absent)
      else Some(LeaveStatus(m.leaveTypes, leave.value))
  }

  /**
   * The summary's rules for one weekday, from the attendance row, the
   * holiday calendar and the covering leave, for any threshold.
   */
  lemma ClassifyRules(m: MonthData, date: int, threshold: int, half: bool)
    // a row: a full day (a half day on a half-day date) when the threshold is reached, otherwise incomplete
    ensures var r := Classify(m, date, threshold, half);
            var record := FirstWhere(m.records, DateIs(date));
            record.Some? ==>
              (r == Some(HalfDay) <==> record.value.insideDuration >= threshold && half) &&
              (r == Some(Present) <==> record.value.insideDuration >= threshold && !half) &&
              (r == Some(IncompleteShift) <==> record.value.insideDuration < threshold)
    // no row, a normal holiday: counted as such
    ensures var r := Classify(m, date, threshold, half);
            var holiday := FirstWhere(m.holidays, HolidayOn(date));
            FirstWhere(m.records, DateIs(date)).None? && holiday.Some? && holiday.value.holidayType == NormalHoliday ==>
              r == Some(NormalHoliday)
    // no row, a restricted holiday: counted only for a covering leave of the restricted-holiday category
    ensures var r := Classify(m, date, threshold, half);
            var holiday := FirstWhere(m.holidays, HolidayOn(date));
            var leave := FirstWhere(m.requests, Covers(date));
            FirstWhere(m.records, DateIs(date)).None? && holiday.Some? && holiday.value.holidayType == RestrictedHoliday ==>
              (r == Some(RestrictedHoliday) <==> leave.Some? && HasCategory(m.leaveTypes, leave.value.typeId, RestrictedHolidayLeave)) &&
              (r != Some(RestrictedHoliday) ==> r.None?)
    // no row, a holiday of any other kind: counted nowhere
    ensures var r := Classify(m, date, threshold, half);
            var holiday := FirstWhere(m.holidays, HolidayOn(date));
            FirstWhere(m.records, DateIs(date)).None? && holiday.Some? &&
            holiday.value.holidayType != NormalHoliday && holiday.value.holidayType != RestrictedHoliday ==>
              r.None?
    // no row, no holiday: absent without a covering leave, otherwise WFH or Leave by the leave's category
    ensures var r := Classify(m, date, threshold, half);
            var leave := FirstWhere(m.requests, Covers(date));
            FirstWhere(m.records, DateIs(date)).None? && FirstWhere(m.holidays, HolidayOn(date)).None? ==>
              (r == Some(Absent) <==> leave.None?) &&
              (r == Some(WFH) <==> leave.Some? && HasCategory(m.leaveTypes, leave.value.typeId, WorkFromHome)) &&
              (r == Some(Leave) <==> leave.Some? && !HasCategory(m.leaveTypes, leave.value.typeId, WorkFromHome))
  {
  }

  /** One day of the pass: weekends leave the tally alone, and a weekday halves the threshold on a half-day date and counts itself at most once. */
  lemma StepRules(m: MonthData, date: int, t: Tally)
    ensures IsWeekend(date) ==> Step(m, date, t) == t
    // the threshold halves exactly on a weekday that starts a half-day leave
    ensures Step(m, date, t).threshold ==
              if !IsWeekend(date) && IsHalfDayOn(m, date) then Halve(t.threshold) else t.threshold
    // a weekday is counted at most once, under the threshold it has just set
    ensures var r := Step(m, date, t);
            !IsWeekend(date) ==>
              Total(r.summary) == Total(t.summary) +
                (if Classify(m, date, r.threshold, IsHalfDayOn(m, date)).Some? then 1 else 0)
  {
  }

  /** The counter that tallies `status`; OngoingShift has none. */
  function StatusCount(s: Summary, status: AttendanceStatus): nat {
    match status
    case Present => s.present
    case Absent => s.absent
    case IncompleteShift => s.incompleteShift
    case RestrictedHoliday => s.restrictedHoliday
    case NormalHoliday => s.normalHoliday
    case WFH => s.wfh
    case Leave => s.leave
    case HalfDay => s.halfDay
    case OngoingShift => 0
  }

  /** Adds one to the counter of `status`. */
  function Count(s: Summary, status: Option<AttendanceStatus>): (r: Summary)
    ensures status.Some? && status.value != OngoingShift ==> Total(r) == Total(s) + 1
    ensures status.None? || status.value == OngoingShift ==> r == s
    // the status's own counter goes up by one and every other counter stays
    ensures forall st :: st != OngoingShift ==>
              StatusCount(r, st) == StatusCount(s, st) + (if status == Some(st) then 1 else 0)
  {
    match status
    case None => s
    case Some(Present) => s.(present := s.present + 1)
    case Some(Absent) => s.(absent := s.absent + 1)
    case Some(IncompleteShift) => s.(incompleteShift := s.incompleteShift + 1)
    case Some(RestrictedHoliday) => s.(restrictedHoliday := s.restrictedHoliday + 1)
    case Some(NormalHoliday) => s.(normalHoliday := s.normalHoliday + 1)
    case Some(WFH) => s.(wfh := s.wfh + 1)
    case Some(Leave) => s.(leave := s.leave + 1)
    case Some(HalfDay) => s.(halfDay := s.halfDay + 1)
    case Some(OngoingShift) => s
  }

  /** The counters and the current full-day threshold. */
  datatype Tally = Tally(summary: Summary, threshold: int)

  predicate IsHalfDayOn(m: MonthData, date: int) {
    KeyedOn(m.halfDays, date)
  }

  /** What one day does to the tally: weekends change nothing. */
  function Step(m: MonthData, date: int, t: Tally): Tally {
    if IsWeekend(date) then t
    else
      var half := IsHalfDayOn(m, date);
      var threshold := if half then Halve(t.threshold) else t.threshold;
      Tally(Count(t.summary, Classify(m, date, threshold, half)), threshold)
  }

  /** The tally after the days `start`, ..., `end - 1`, from `minWorkDuration`. */
  function Run(m: MonthData, start: int, end: int, minWorkDuration: int): Tally
    decreases end - start
  {
    if end <= start then Tally(Zero, minWorkDuration)
    else Step(m, end - 1, Run(m, start, end - 1, minWorkDuration))
  }

  /** The counting done for one weekday of the pass. */
  method CountDay(m: MonthData, date: int, threshold: int, isHalfDay: bool, s: Summary)
    returns (summary: Summary)
    ensures summary == Count(s, Classify(m, date, threshold, isHalfDay))
  {
    var record := FirstWhere(m.records, DateIs(date));
    if record.Some? {
      ghost var status := Classify(m, date, threshold, isHalfDay);
      summary := s;
      if record.value.insideDuration >= threshold {
        if isHalfDay {
          assert status == Some(HalfDay);
          summary := summary.(halfDay := summary.halfDay + 1);
        } else {
          assert status == Some(Present);
          summary := summary.(present := summary.present + 1);
        }
      } else {
        assert status == Some(IncompleteShift);
        summary := summary.(incompleteShift := summary.incompleteShift + 1);
      }
    } else {
      summary := CountUnrecordedDay(m, date, threshold, isHalfDay, s);
    }
  }

  /** The counting done for a weekday without an attendance row: a holiday or a leave, or an absence. */
  method CountUnrecordedDay(m: MonthData, date: int, threshold: int, isHalfDay: bool, s: Summary)
    returns (summary: Summary)
    requires FirstWhere(m.records, DateIs(date)).None?
    ensures summary == Count(s, Classify(m, date, threshold, isHalfDay))
  {
    ghost var status := Classify(m, date, threshold, isHalfDay);
    summary := s;
    var holiday := FirstWhere(m.holidays, HolidayOn(date));
    if holiday.Some? {
      if holiday.value.holidayType == NormalHoliday {
        assert status == Some(NormalHoliday);
        summary := summary.(normalHoliday := summary.normalHoliday + 1);
      } else if holiday.value.holidayType == RestrictedHoliday {
        var leaveForHoliday := FirstWhere(m.requests, Covers(date));
        if leaveForHoliday.Some? {
          var leaveType := FirstWhere(m.leaveTypes, TypeWithId(leaveForHoliday.value.typeId));
          if leaveType.Some? && leaveType.value.category == Some(RestrictedHolidayLeave) {
            assert status == Some(RestrictedHoliday);
            summary := summary.(restrictedHoliday := summary.restrictedHoliday + 1);
          } else {
            assert status == None;
          }
        } else {
          assert status == None;
        }
      } else {
        assert status == None;
      }
    } else {
      var leaveRequest := FirstWhere(m.requests, Covers(date));
      if leaveRequest.Some? {
        var leaveType := FirstWhere(m.leaveTypes, TypeWithId(leaveRequest.value.typeId));
        if leaveType.Some? && leaveType.value.category == Some(WorkFromHome) {
          assert status == Some(WFH);
          summary := summary.(wfh := summary.wfh + 1);
        } else {
          assert status == Some(Leave);
          summary := summary.(leave := summary.leave + 1);
        }
      } else {
        assert status == Some(Absent);
        summary := summary.(absent := summary.absent + 1);
      }
    }
  }

  /** One weekday of the pass: halve the threshold on a half-day leave, then count the day. */
  method CountWeekday(m: MonthData, date: int, isHalfDay: bool, threshold: int, s: Summary)
    returns (summary: Summary, newThreshold: int)
    requires !IsWeekend(date) && isHalfDay == IsHalfDayOn(m, date)
    ensures Tally(summary, newThreshold) == Step(m, date, Tally(s, threshold))
  {
    newThreshold := threshold;
    if isHalfDay {
      newThreshold := Halve(newThreshold);
    }
    summary := CountDay(m, date, newThreshold, isHalfDay, s);
  }

  lemma RunStep(m: MonthData, start: int, end: int, minWorkDuration: int)
    requires start <= end
    ensures Run(m, start, end + 1, minWorkDuration) == Step(m, end, Run(m, start, end, minWorkDuration))
  {
  }

  /** One day of the pass: weekends are skipped, weekdays are counted. */
  method CountNextDay(m: MonthData, leaveDictionary: map<int, LeaveRequest>, monthStart: int, current: int,
                      minWorkDuration: int, s: Summary, threshold: int)
    returns (summary: Summary, newThreshold: int)
    requires monthStart <= current
    requires forall d :: d in leaveDictionary <==> IsHalfDayOn(m, d)
    requires Tally(s, threshold) == Run(m, monthStart, current, minWorkDuration)
    ensures Tally(summary, newThreshold) == Run(m, monthStart, current + 1, minWorkDuration)
  {
    RunStep(m, monthStart, current, minWorkDuration);
    if IsWeekend(current) {
      return s, threshold;
    }
    var isHalfDay := current in leaveDictionary;
    summary, newThreshold := CountWeekday(m, current, isHalfDay, threshold, s);
  }

  /** The day after the last day the pass looks at: the month's end or today, whichever is first. */
  function StopDay(monthEnd: int, today: int): int {
    (if today < monthEnd then today else monthEnd) + 1
  }

  /**
   * The pass itself: the days from `monthStart` to `monthEnd`, stopping
   * after today, with `leaveDictionary` holding the first dates of the
   * month's half-day leaves.
   */
  method CountMonth(m: MonthData, leaveDictionary: map<int, LeaveRequest>, monthStart: int, monthEnd: int,
                    today: int, minWorkDuration: int)
    returns (summary: Summary)
    requires monthStart <= monthEnd
    requires forall d :: d in leaveDictionary <==> IsHalfDayOn(m, d)
    ensures summary == Run(m, monthStart, StopDay(monthEnd, today), minWorkDuration).summary
  {
    summary := Zero;
    var threshold := minWorkDuration;
    var current := monthStart;
    while current <= monthEnd
      invariant monthStart <= current <= monthEnd + 1
      invariant current == monthStart || current - 1 <= today
      invariant Tally(summary, threshold) == Run(m, monthStart, current, minWorkDuration)
      decreases monthEnd - current
    {
      if current > today {
        break;
      }
      summary, threshold := CountNextDay(m, leaveDictionary, monthStart, current, minWorkDuration, summary, threshold);
      current := current + 1;
    }
    assert current == StopDay(monthEnd, today) || (current == monthStart && StopDay(monthEnd, today) <= monthStart);
  }

  /**
   * The attendance summary of `employeeId` for `year`-`month`, `today`
   * being the current UTC date and `minWorkDuration` the configured
   * minimum working time of a full day, in minutes.
   */
  method Summarize(employeeId: int, year: int, month: int, today: int, minWorkDuration: int,
                   records: seq<DailyAttendance>, holidays: seq<Holiday>,
                   requests: seq<LeaveRequest>, leaveTypes: seq<LeaveType>)
    returns (r: Result<Summary, SummaryError>)
    ensures r == Err(InvalidMonth) <==> !ValidYearMonth(year, month) || (year == 9999 && month == 12)
    ensures ValidYearMonth(year, month) && !(year == 9999 && month == 12) ==>
              var monthStart := DayNumber(year, month, 1);
              var monthEnd := MonthEnd(year, month);
              var m := Load(employeeId, monthStart, monthEnd, records, holidays, requests, leaveTypes);
              if DistinctFromDates(m.halfDays)
              then r == Ok(Run(m, monthStart, StopDay(monthEnd, today), minWorkDuration).summary)
              else r == Err(DuplicateHalfDay)
  {
    if !ValidYearMonth(year, month) || (year == 9999 && month == 12) {
      return Err(InvalidMonth);
    }
    var monthStart := DayNumber(year, month, 1);
    var monthEnd := MonthEnd(year, month);
    var m := Load(employeeId, monthStart, monthEnd, records, holidays, requests, leaveTypes);
    var dictionary := ToDictionary(m.halfDays);
    if dictionary.None? {
      return Err(DuplicateHalfDay);
    }
    var summary := CountMonth(m, dictionary.value, monthStart, monthEnd, today, minWorkDuration);
    return Ok(summary);
  }

  // ---------------------------------------------------------------------
  // Properties of the pass
  // ---------------------------------------------------------------------

  function WeekdayCount(start: int, end: int): nat
    decreases end - start
  {
    if end <= start then 0 else WeekdayCount(start, end - 1) + (if IsWeekend(end - 1) then 0 else 1)
  }

  /** Every weekday is counted at most once, and weekends never. */
  lemma {:induction false} CountsBoundedByWeekdays(m: MonthData, start: int, end: int, minWorkDuration: int)
    ensures Total(Run(m, start, end, minWorkDuration).summary) <= WeekdayCount(start, end)
    decreases end - start
  {
    if end > start {
      CountsBoundedByWeekdays(m, start, end - 1, minWorkDuration);
      StepRules(m, end - 1, Run(m, start, end - 1, minWorkDuration));
    }
  }

  /**
   * When no holiday of the month is anything but a normal holiday, every
   * weekday lands in exactly one counter.
   */
  lemma {:induction false} EveryWeekdayCounted(m: MonthData, start: int, end: int, minWorkDuration: int)
    requires forall i :: 0 <= i < |m.holidays| ==> m.holidays[i].holidayType == NormalHoliday
    ensures Total(Run(m, start, end, minWorkDuration).summary) == WeekdayCount(start, end)
    decreases end - start
  {
    if end > start {
      EveryWeekdayCounted(m, start, end - 1, minWorkDuration);
      var t := Run(m, start, end - 1, minWorkDuration);
      StepRules(m, end - 1, t);
      if !IsWeekend(end - 1) {
        calc {
          Total(Run(m, start, end, minWorkDuration).summary);
          Total(Step(m, end - 1, t).summary);
          { WeekdayCounted(m, end - 1, t); }
          Total(t.summary) + 1;
          WeekdayCount(start, end - 1) + 1;
          WeekdayCount(start, end);
        }
      }
    }
  }

  /** Without special holidays, a weekday always lands in a counter. */
  lemma WeekdayCounted(m: MonthData, date: int, t: Tally)
    requires forall i :: 0 <= i < |m.holidays| ==> m.holidays[i].holidayType == NormalHoliday
    requires !IsWeekend(date)
    ensures Total(Step(m, date, t).summary) == Total(t.summary) + 1
  {
    StepRules(m, date, t);
    var holiday := FirstWhere(m.holidays, HolidayOn(date));
    assert holiday.Some? ==> holiday.value.holidayType == NormalHoliday;
    assert Classify(m, date, Step(m, date, t).threshold, IsHalfDayOn(m, date)).Some?;
  }

  function HalfDayCount(m: MonthData, start: int, end: int): nat
    decreases end - start
  {
    if end <= start then 0
    else HalfDayCount(m, start, end - 1) + (if !IsWeekend(end - 1) && IsHalfDayOn(m, end - 1) then 1 else 0)
  }

  /** `Halve` applied `k` times. */
  function HalveTimes(x: int, k: nat): int {
    if k == 0 then x else Halve(HalveTimes(x, k - 1))
  }

  function Pow2(k: nat): (p: nat)
    ensures p >= 1
  {
    if k == 0 then 1 else 2 * Pow2(k - 1)
  }

  /**
   * The threshold is halved once for every weekday with a half-day leave
   * seen so far, and never restored: the halving accumulates over the month.
   */
  lemma {:induction false} ThresholdHalvedPerHalfDay(m: MonthData, start: int, end: int, minWorkDuration: int)
    ensures Run(m, start, end, minWorkDuration).threshold == HalveTimes(minWorkDuration, HalfDayCount(m, start, end))
    decreases end - start
  {
    if end > start {
      ThresholdHalvedPerHalfDay(m, start, end - 1, minWorkDuration);
      StepRules(m, end - 1, Run(m, start, end - 1, minWorkDuration));
    }
  }

  lemma HalfOfQuotient(x: int, p: int)
    requires x >= 0 && p >= 1
    ensures (x / p) / 2 == x / (2 * p)
  {
    var q := x / p;
    var r := x % p;
    assert x == p * q + r && 0 <= r < p;
    var q2 := q / 2;
    var r2 := q % 2;
    assert q == 2 * q2 + r2 && (r2 == 0 || r2 == 1);
    var pr2 := if r2 == 0 then 0 else p;
    Distribute(p, q2, r2, pr2);
    DivisionIsUnique(x, 2 * p, q2, pr2 + r);
  }

  lemma Distribute(p: int, q2: int, r2: int, pr2: int)
    requires (r2 == 0 && pr2 == 0) || (r2 == 1 && pr2 == p)
    ensures p * (2 * q2 + r2) == (2 * p) * q2 + pr2
  {
  }

  lemma DivisionIsUnique(x: int, d: int, q: int, r: int)
    requires d >= 1 && x == d * q + r && 0 <= r < d
    ensures x / d == q
  {
    var q0 := x / d;
    var r0 := x % d;
    assert x == d * q0 + r0 && 0 <= r0 < d;
    assert d * (q - q0) == r0 - r;
    if q - q0 >= 1 {
      MultipleAtLeastFactor(d, q - q0);
      assert false;
    } else if q0 - q >= 1 {
      MultipleAtLeastFactor(d, q0 - q);
      assert false;
    }
  }

  lemma MultipleAtLeastFactor(d: int, k: int)
    requires d >= 0 && k >= 1
    ensures d * k >= d
  {
    assert d * k == d * (k - 1) + d;
  }

  /** For a non-negative minimum, `k` halvings divide it by 2 to the `k`, rounding down. */
  lemma {:induction false} HalveTimesDivides(x: int, k: nat)
    requires x >= 0
    ensures HalveTimes(x, k) == x / Pow2(k)
    ensures 0 <= HalveTimes(x, k) <= x
  {
    if k > 0 {
      HalveTimesDivides(x, k - 1);
      HalfOfQuotient(x, Pow2(k - 1));
    }
  }

  /**
   * On a weekday of the month other than today, with the daily query's
   * threshold and no half-day leave, the summary counts the day under the
   * status the daily query reports for it, except on a holiday that is not
   * a normal holiday: there the summary counts a restricted holiday only
   * for a covering leave of the restricted-holiday category, and otherwise
   * counts nothing where the daily query reports Absent or RestrictedHoliday.
   */
  lemma AgreesWithDailyDetails(employeeId: int, monthStart: int, monthEnd: int, date: int, today: int,
                               records: seq<DailyAttendance>, holidays: seq<Holiday>,
                               requests: seq<LeaveRequest>, leaveTypes: seq<LeaveType>,
                               logs: seq<AttendanceLog>)
    requires monthStart <= date <= monthEnd && date != today && !IsWeekend(date)
    ensures var m := Load(employeeId, monthStart, monthEnd, records, holidays, requests, leaveTypes);
            var counted := Classify(m, date, FullShiftMinutes, false);
            var daily := Details(employeeId, date, today, records, holidays, requests, leaveTypes, logs);
            if SpecialHoliday(date, holidays) && !HasRecord(employeeId, date, records)
            then counted.None? || (counted == Some(RestrictedHoliday) && daily.status == RestrictedHoliday)
            else counted == Some(daily.status)
  {
    var m := Load(employeeId, monthStart, monthEnd, records, holidays, requests, leaveTypes);
    FirstWhereOfFilter(records, RecordInMonth(employeeId, monthStart, monthEnd), DateIs(date),
                       RecordOn(employeeId, date));
    FirstWhereOfFilter(holidays, HolidayInMonth(monthStart, monthEnd), HolidayOn(date), HolidayOn(date));
    FirstWhereOfFilter(requests, ApprovedInMonth(employeeId, monthStart, monthEnd), Covers(date),
                       ApprovedLeaveOn(employeeId, date));
    SameRowsAgree(m, employeeId, date, today, records, holidays, requests, leaveTypes, logs);
  }

  /** Once the month's rows for `date` are the daily query's rows, the two classifications agree. */
  lemma SameRowsAgree(m: MonthData, employeeId: int, date: int, today: int,
                      records: seq<DailyAttendance>, holidays: seq<Holiday>,
                      requests: seq<LeaveRequest>, leaveTypes: seq<LeaveType>,
                      logs: seq<AttendanceLog>)
    requires date != today && !IsWeekend(date) && m.leaveTypes == leaveTypes
    requires FirstWhere(m.records, DateIs(date)) == FirstWhere(records, RecordOn(employeeId, date))
    requires FirstWhere(m.holidays, HolidayOn(date)) == FirstWhere(holidays, HolidayOn(date))
    requires FirstWhere(m.requests, Covers(date)) == FirstWhere(requests, ApprovedLeaveOn(employeeId, date))
    ensures var counted := Classify(m, date, FullShiftMinutes, false);
            var daily := Details(employeeId, date, today, records, holidays, requests, leaveTypes, logs);
            if SpecialHoliday(date, holidays) && !HasRecord(employeeId, date, records)
            then counted.None? || (counted == Some(RestrictedHoliday) && daily.status == RestrictedHoliday)
            else counted == Some(daily.status)
  {
  }

  /**
   * A day with a half-day leave and 200 minutes inside, against a configured
   * 360, is measured against 180 and counted as a half day.
   */
  lemma HalfDayDilutesThreshold(m: MonthData, date: int, record: DailyAttendance)
    requires FirstWhere(m.records, DateIs(date)) == Some(record) && record.insideDuration == 200
    ensures Halve(360) == 180
    ensures Classify(m, date, Halve(360), true) == Some(HalfDay)
    ensures Classify(m, date, 360, false) == Some(IncompleteShift)
  {
  }
}
