// Entities shared by the leave and attendance handlers of WolfDen, the
// calendar arithmetic on day numbers, and two generic sequence queries that
// stand for LINQ's `Where` and `FirstOrDefault`.

module Domain {

  datatype Option<+T> = None | Some(value: T)

  /** A value or the error that the handler throws instead. */
  datatype Result<+T, +E> = Ok(value: T) | Err(error: E)

  // ---------------------------------------------------------------------
  // Enumerations
  // ---------------------------------------------------------------------

  datatype Gender = Male | Female | OtherGender(code: int)

  datatype LeaveCategory =
    | CasualLeave
    | PrivilegeLeave
    | Maternity
    | Paternity
    | EmergencyLeave
    | BereavementLeave
    | RestrictedHolidayLeave
    | WorkFromHome
    | OtherCategory

  datatype LeaveRequestStatus = Open | Approved | Rejected | Deleted

  /** The status a day of attendance is classified into; a Holiday row carries one too. */
  datatype AttendanceStatus =
    | Present
    | Absent
    | IncompleteShift
    | RestrictedHoliday
    | NormalHoliday
    | WFH
    | Leave
    | HalfDay
    | OngoingShift

  // ---------------------------------------------------------------------
  // Records (one row of a table each); dates are day numbers, day 0 being
  // 1 January of year 1, as DateOnly.DayNumber counts them.
  // ---------------------------------------------------------------------

  datatype LeaveType = LeaveType(
    id: int,
    typeName: string,
    category: Option<LeaveCategory>,
    isHalfDayAllowed: Option<bool>,
    sandwich: Option<bool>,
    dutyDaysRequired: Option<int>,
    daysCheck: Option<int>,
    daysCheckMore: Option<int>,
    daysCheckEqualOrLess: Option<int>)

  datatype Employee = Employee(
    id: int,
    gender: Option<Gender>,
    managerId: Option<int>,
    joiningDate: Option<int>,
    email: string)

  /** Balance is a decimal(6,2) column; it is modelled exactly as a real. */
  datatype LeaveBalance = LeaveBalance(employeeId: int, typeId: int, balance: real)

  datatype LeaveRequest = LeaveRequest(
    id: int,
    employeeId: int,
    typeId: int,
    halfDay: bool,
    fromDate: int,
    toDate: int,
    applyDate: int,
    status: LeaveRequestStatus,
    description: string,
    processedBy: int)

  /** One calendar date consumed by the leave request with id `leaveRequestId`. */
  datatype LeaveRequestDay = LeaveRequestDay(leaveRequestId: int, leaveDate: int)

  datatype Holiday = Holiday(date: int, holidayType: AttendanceStatus)

  /** Durations are whole minutes. */
  datatype DailyAttendance = DailyAttendance(
    employeeId: int,
    date: int,
    arrivalTime: int,
    departureTime: int,
    insideDuration: int,
    outsideDuration: int,
    missedPunch: Option<string>)

  datatype AttendanceLog = AttendanceLog(
    employeeId: int,
    punchDate: int,
    punchTime: int,
    deviceName: string,
    direction: int)

  // ---------------------------------------------------------------------
  // Calendar
  // ---------------------------------------------------------------------

  const Sunday := 0
  const Saturday := 6

  /** Day 0 is a Monday, so the week day (Sunday = 0) is one ahead of the day number. */
  function DayOfWeek(dayNumber: int): (w: int)
    ensures 0 <= w < 7
  {
    (dayNumber + 1) % 7
  }

  predicate IsWeekend(dayNumber: int) {
    DayOfWeek(dayNumber) == Saturday || DayOfWeek(dayNumber) == Sunday
  }

  predicate IsLeapYear(year: int) {
    year % 4 == 0 && (year % 100 != 0 || year % 400 == 0)
  }

  predicate ValidYearMonth(year: int, month: int) {
    1 <= year <= 9999 && 1 <= month <= 12
  }

  function DaysInMonth(year: int, month: int): (n: int)
    requires 1 <= month <= 12
    ensures 28 <= n <= 31
    ensures month == 2 ==> (n == 29 <==> IsLeapYear(year))
  {
    if month == 2 then (if IsLeapYear(year) then 29 else 28)
    else if month == 4 || month == 6 || month == 9 || month == 11 then 30
    else 31
  }

  /** Days of the year that precede the first of `month`. */
  function DaysBeforeMonth(year: int, month: int): int
    requires 1 <= month <= 12
  {
    if month == 1 then 0 else DaysBeforeMonth(year, month - 1) + DaysInMonth(year, month - 1)
  }

  /** Days from 1 January of year 1 to 1 January of `year` in the proleptic Gregorian calendar. */
  function DaysBeforeYear(year: int): int
    requires year >= 1
  {
    var y := year - 1;
    365 * y + y / 4 - y / 100 + y / 400
  }

  /** The day number of `year`-`month`-`day`, what `new DateOnly(year, month, day).DayNumber` gives. */
  function DayNumber(year: int, month: int, day: int): int
    requires ValidYearMonth(year, month)
  {
    DaysBeforeYear(year) + DaysBeforeMonth(year, month) + day - 1
  }

  // ---------------------------------------------------------------------
  // Sequence queries
  // ---------------------------------------------------------------------

  /** LINQ `Where`: the elements that satisfy `p`, in their order. */
  function Filter<T(==)>(s: seq<T>, p: T -> bool): (r: seq<T>)
    ensures |r| <= |s|
    ensures forall i :: 0 <= i < |r| ==> r[i] in s && p(r[i])
    ensures forall i :: 0 <= i < |s| && p(s[i]) ==> s[i] in r
  {
    if s == [] then []
    else if p(s[0]) then [s[0]] + Filter(s[1..], p)
    else Filter(s[1..], p)
  }

  /** `Filter` distributes over concatenation. */
  lemma {:induction false} FilterAppend<T>(a: seq<T>, b: seq<T>, p: T -> bool)
    ensures Filter(a + b, p) == Filter(a, p) + Filter(b, p)
  {
    if a != [] {
      assert (a + b)[0] == a[0] && (a + b)[1..] == a[1..] + b;
      FilterAppend(a[1..], b, p);
      if p(a[0]) {
        assert Filter(a + b, p) == [a[0]] + Filter(a[1..] + b, p);
        assert Filter(a, p) == [a[0]] + Filter(a[1..], p);
      }
    } else {
      assert a + b == b;
    }
  }

  /** `Filter` keeps every copy of a kept element and no copy of a dropped one. */
  lemma {:induction false} FilterCount<T>(s: seq<T>, p: T -> bool, x: T)
    ensures multiset(Filter(s, p))[x] == if p(x) then multiset(s)[x] else 0
  {
    if s != [] {
      var rest := Filter(s[1..], p);
      FilterCount(s[1..], p, x);
      assert s == [s[0]] + s[1..];
      assert multiset(s)[x] == multiset{s[0]}[x] + multiset(s[1..])[x];
      if p(s[0]) {
        assert Filter(s, p) == [s[0]] + rest;
        assert multiset(Filter(s, p))[x] == multiset{s[0]}[x] + multiset(rest)[x];
      } else {
        assert Filter(s, p) == rest;
      }
    }
  }

  lemma FilterPermutation<T>(a: seq<T>, b: seq<T>, p: T -> bool)
    requires multiset(a) == multiset(b)
    ensures multiset(Filter(a, p)) == multiset(Filter(b, p))
  {
    forall x ensures multiset(Filter(a, p))[x] == multiset(Filter(b, p))[x] {
      FilterCount(a, p, x);
      FilterCount(b, p, x);
    }
  }

  /** LINQ `FirstOrDefault`: the first element that satisfies `p`, if any. */
  function FirstWhere<T(==)>(s: seq<T>, p: T -> bool): (r: Option<T>)
    ensures r.None? <==> forall i :: 0 <= i < |s| ==> !p(s[i])
    ensures r.Some? ==> exists i :: 0 <= i < |s| && s[i] == r.value && p(s[i])
                          && forall j :: 0 <= j < i ==> !p(s[j])
  {
    if s == [] then None
    else if p(s[0]) then Some(s[0])
    else
      var r := FirstWhere(s[1..], p);
      assert r.Some? ==> exists i :: 0 <= i < |s[1..]| && s[1..][i] == r.value && p(s[1..][i])
                          && forall j :: 0 <= j < i ==> !p(s[1..][j]);
      if r.Some? then
        var i :| 0 <= i < |s[1..]| && s[1..][i] == r.value && p(s[1..][i])
                 && forall j :: 0 <= j < i ==> !p(s[1..][j]);
        assert s[i + 1] == r.value && forall j :: 0 <= j < i + 1 ==> !p(s[j]);
        r
      else r
  }

  /**
   * Looking up the first match of `q` among the elements `p` keeps is the
   * same as looking up the first match of `r` in the whole sequence, when
   * `r` is `p && q` on every element.
   */
  lemma {:induction false} FirstWhereOfFilter<T>(s: seq<T>, p: T -> bool, q: T -> bool, r: T -> bool)
    requires forall i :: 0 <= i < |s| ==> r(s[i]) == (p(s[i]) && q(s[i]))
    ensures FirstWhere(Filter(s, p), q) == FirstWhere(s, r)
  {
    if s != [] {
      FirstWhereOfFilter(s[1..], p, q, r);
      if p(s[0]) {
        assert Filter(s, p) == [s[0]] + Filter(s[1..], p);
        assert ([s[0]] + Filter(s[1..], p))[1..] == Filter(s[1..], p);
      }
    }
  }
}
