// The decision tree of AddLeaveRequestCommandHandler.Handle: given the rows
// the handler has fetched, either the number of days the new Open request
// takes, or the error the handler throws. The store reads and the creation
// of the request are in leave_store.dfy.

module LeaveRules {
  import opened Domain

  /** The command as the employee submits it; HalfDay is a nullable bool. */
  datatype LeaveCommand = LeaveCommand(
    empId: int,
    typeId: int,
    halfDay: Option<bool>,
    fromDate: int,
    toDate: int,
    description: string)

  /** What the day-range expander reports for the command's range: a day count and the dates it covers. */
  datatype Expansion = Expansion(daysCount: real, validDates: seq<int>)

  /** Everything the decision depends on, as the handler has read it from the store. */
  datatype Facts = Facts(
    command: LeaveCommand,
    today: int,
    leaveType: Option<LeaveType>,
    employee: Option<Employee>,
    balance: Option<real>,
    openFullDays: nat,        // day rows of this employee's Open, whole-day requests of this type
    openHalfDays: nat,        // day rows of this employee's Open, half-day requests of this type
    expansion: Expansion,
    alreadyApplied: bool,     // some requested date is held by an Open or Approved request of this type
    restrictedHolidayCount: nat,
    emergencyType: Option<LeaveType>,
    emergencyBalance: Option<real>)

  /** One constructor per family of messages the handler throws. */
  datatype LeaveError =
    | NoSuchLeaveType
    | NoSuchEmployee
    | LeaveBalanceNotFound
    | DateAlreadyApplied
    | IncompleteProfile
    | GenderSpecific(typeName: string)
    | NoticeTooShortForMore(daysCheck: int, daysCheckMore: Option<int>, typeName: string)
    | NoticeTooShortForEqualOrLess(daysCheck: int, daysCheckEqualOrLess: Option<int>, typeName: string)
    | DaysCheckNotAssigned
    | NoSufficientLeave(typeName: string)
    | RevokeOrEdit(typeName: string)
    | HalfDayNotApplicable(typeName: string)
    | HalfDayOnlyOneDay
    | CurrentLeaveNotApplicable
    | PreviousDayNotApplicable
    | EmergencyLeaveMissing
    | MinimumDutyDays(dutyDaysRequired: int, typeName: string)
    | JoiningDateNotAssigned
    | NoRestrictedHoliday
    | ZeroLeaveDays
    | ManagerEmailMissing

  /** Outcome of one guard of the tree. */
  datatype Check = Pass | Fail(error: LeaveError)

  predicate IsHalfDay(halfDay: Option<bool>) {
    halfDay == Some(true)
  }

  /** The days a request takes: half the expander's count for a half-day request. */
  function RequestedDays(halfDay: Option<bool>, daysCount: real): real {
    if IsHalfDay(halfDay) then daysCount / 2.0 else daysCount
  }

  /** The balance minus what the Open requests already hold, a half-day row weighing one half. */
  function VirtualBalance(balance: real, openFullDays: nat, openHalfDays: nat): (v: real)
    ensures v <= balance
    ensures v == balance <==> openFullDays == 0 && openHalfDays == 0
    ensures openHalfDays == 0 ==> v == balance - openFullDays as real
  {
    balance - (openFullDays as real + openHalfDays as real / 2.0)
  }

  /** C#'s lifted `x >= threshold` on an `int?`: false when the threshold is null. */
  predicate AtLeast(x: int, threshold: Option<int>) {
    threshold.Some? && x >= threshold.value
  }

  /** The gender test of the handler: only a known Male or Female passes, each barred from one category. */
  predicate GenderAllows(gender: Option<Gender>, category: Option<LeaveCategory>) {
    gender.Some? &&
    ((gender.value == Male && category != Some(Maternity)) ||
     (gender.value == Female && category != Some(Paternity)))
  }

  /** Applied for a day that has not yet come (today < FromDate) and of the WorkFromHome category. */
  predicate FutureWorkFromHome(f: Facts)
    requires f.leaveType.Some?
  {
    f.leaveType.value.category == Some(WorkFromHome) && f.today < f.command.fromDate
  }

  function Then(c: Check, next: Result<real, LeaveError>): Result<real, LeaveError> {
    if c.Fail? then Err(c.error) else next
  }

  /**
   * The notice window: more days than DaysCheck need DaysCheckMore days of
   * notice, otherwise DaysCheckEqualOrLess; a null threshold never passes.
   */
  function NoticeWindow(lt: LeaveType, days: real, notice: int): (c: Check)
    ensures c.Pass? <==>
      lt.daysCheck.Some? &&
      (if days > lt.daysCheck.value as real then AtLeast(notice, lt.daysCheckMore)
       else AtLeast(notice, lt.daysCheckEqualOrLess))
    ensures lt.daysCheck.None? ==> c == Fail(DaysCheckNotAssigned)
    ensures c.Fail? ==> c.error.NoticeTooShortForMore? || c.error.NoticeTooShortForEqualOrLess?
                        || c.error == DaysCheckNotAssigned
    // a short notice names the threshold of the branch it failed
    ensures lt.daysCheck.Some? && days > lt.daysCheck.value as real && !AtLeast(notice, lt.daysCheckMore) ==>
              c == Fail(NoticeTooShortForMore(lt.daysCheck.value, lt.daysCheckMore, lt.typeName))
    ensures lt.daysCheck.Some? && days <= lt.daysCheck.value as real && !AtLeast(notice, lt.daysCheckEqualOrLess) ==>
              c == Fail(NoticeTooShortForEqualOrLess(lt.daysCheck.value, lt.daysCheckEqualOrLess, lt.typeName))
  {
    match lt.daysCheck
    case None => Fail(DaysCheckNotAssigned)
    case Some(dc) =>
      if days > dc as real then
        if AtLeast(notice, lt.daysCheckMore) then Pass
        else Fail(NoticeTooShortForMore(dc, lt.daysCheckMore, lt.typeName))
      else
        if AtLeast(notice, lt.daysCheckEqualOrLess) then Pass
        else Fail(NoticeTooShortForEqualOrLess(dc, lt.daysCheckEqualOrLess, lt.typeName))
  }

  /** Minimum tenure: with DutyDaysRequired set, FromDate must be that many days after joining. */
  function DutyCheck(lt: LeaveType, emp: Employee, fromDate: int): (c: Check)
    ensures c.Pass? <==>
      lt.dutyDaysRequired.None? ||
      (emp.joiningDate.Some? && fromDate - emp.joiningDate.value >= lt.dutyDaysRequired.value)
    ensures lt.dutyDaysRequired.Some? && emp.joiningDate.None? ==> c == Fail(JoiningDateNotAssigned)
    ensures lt.dutyDaysRequired.Some? && emp.joiningDate.Some? &&
            fromDate - emp.joiningDate.value < lt.dutyDaysRequired.value ==>
              c == Fail(MinimumDutyDays(lt.dutyDaysRequired.value, lt.typeName))
  {
    match lt.dutyDaysRequired
    case None => Pass
    case Some(dd) =>
      match emp.joiningDate
      case None => Fail(JoiningDateNotAssigned)
      case Some(joined) =>
        if fromDate - joined >= dd then Pass else Fail(MinimumDutyDays(dd, lt.typeName))
  }

  /** AddLeave's guard: a request of no days is refused. */
  function CreateLeave(days: real): (r: Result<real, LeaveError>)
    ensures r.Ok? <==> days > 0.0
    ensures r.Ok? ==> r.value == days
    ensures r.Err? ==> r.error == ZeroLeaveDays
  {
    if days > 0.0 then Ok(days) else Err(ZeroLeaveDays)
  }

  /** CheckOne: tenure, then a RestrictedHoliday type must take exactly the restricted holidays of the range. */
  function CheckOne(f: Facts, lt: LeaveType, emp: Employee, days: real): (r: Result<real, LeaveError>)
    ensures r.Ok? <==>
              DutyCheck(lt, emp, f.command.fromDate).Pass? &&
              (lt.category == Some(RestrictedHolidayLeave) ==> days == f.restrictedHolidayCount as real) &&
              days > 0.0
    ensures r.Ok? ==> r.value == days
    // the first rule that fails gives the error
    ensures DutyCheck(lt, emp, f.command.fromDate).Fail? ==> r == Err(DutyCheck(lt, emp, f.command.fromDate).error)
    ensures (DutyCheck(lt, emp, f.command.fromDate).Pass? && lt.category == Some(RestrictedHolidayLeave) &&
             days != f.restrictedHolidayCount as real) ==> r == Err(NoRestrictedHoliday)
    ensures r.Err? && r.error == ZeroLeaveDays ==> days <= 0.0
    ensures (DutyCheck(lt, emp, f.command.fromDate).Pass? &&
             !(lt.category == Some(RestrictedHolidayLeave) && days != f.restrictedHolidayCount as real) &&
             days <= 0.0) ==> r == Err(ZeroLeaveDays)
  {
    Then(DutyCheck(lt, emp, f.command.fromDate),
      if lt.category == Some(RestrictedHolidayLeave) && days != f.restrictedHolidayCount as real
      then Err(NoRestrictedHoliday)
      else CreateLeave(days))
  }

  /** WorkFromHomeCheck: tenure only. */
  function WorkFromHomeCheck(f: Facts, lt: LeaveType, emp: Employee, days: real): (r: Result<real, LeaveError>)
    ensures r.Ok? <==> DutyCheck(lt, emp, f.command.fromDate).Pass? && days > 0.0
    ensures r.Ok? ==> r.value == days
    ensures DutyCheck(lt, emp, f.command.fromDate).Fail? ==> r == Err(DutyCheck(lt, emp, f.command.fromDate).error)
    ensures DutyCheck(lt, emp, f.command.fromDate).Pass? && days <= 0.0 ==> r == Err(ZeroLeaveDays)
  {
    Then(DutyCheck(lt, emp, f.command.fromDate), CreateLeave(days))
  }

  /** The Balance helper: it always fails, and says which of the two figures fell short. */
  function BalanceFailure(balance: real, typeName: string, days: real): (e: LeaveError)
    ensures e == NoSufficientLeave(typeName) <==> balance < days
    ensures e == RevokeOrEdit(typeName) <==> balance >= days
  {
    if balance < days then NoSufficientLeave(typeName) else RevokeOrEdit(typeName)
  }

  /**
   * PreviousDayLeaves: Bereavement is created at once; Privilege and Casual
   * draw on the Emergency type's balance; every other category is refused.
   * The Emergency virtual balance is recomputed from the original type's
   * figures, as the handler does.
   */
  function PreviousDayLeaves(f: Facts, lt: LeaveType, balance: real, days: real): (r: Result<real, LeaveError>)
    ensures r.Ok? <==>
              days > 0.0 &&
              (lt.category == Some(BereavementLeave) ||
               ((lt.category == Some(PrivilegeLeave) || lt.category == Some(CasualLeave)) &&
                f.emergencyType.Some? && f.emergencyBalance.Some? && f.emergencyBalance.value >= days &&
                VirtualBalance(balance, f.openFullDays, f.openHalfDays) >= days))
    ensures r.Ok? ==> r.value == days
    ensures lt.category !in {Some(BereavementLeave), Some(PrivilegeLeave), Some(CasualLeave)} ==>
              r == Err(PreviousDayNotApplicable)
    ensures ((lt.category == Some(PrivilegeLeave) || lt.category == Some(CasualLeave)) &&
             (f.emergencyType.None? || f.emergencyBalance.None?)) ==> r == Err(EmergencyLeaveMissing)
    ensures (lt.category == Some(PrivilegeLeave) || lt.category == Some(CasualLeave)) &&
            f.emergencyType.Some? && f.emergencyBalance.Some? &&
            !(f.emergencyBalance.value >= days && VirtualBalance(balance, f.openFullDays, f.openHalfDays) >= days) ==>
              r == Err(BalanceFailure(f.emergencyBalance.value, f.emergencyType.value.typeName, days))
    // a request that passes its category's rules still needs a positive day count
    ensures lt.category == Some(BereavementLeave) && days <= 0.0 ==> r == Err(ZeroLeaveDays)
    ensures (lt.category == Some(PrivilegeLeave) || lt.category == Some(CasualLeave)) &&
            f.emergencyType.Some? && f.emergencyBalance.Some? &&
            f.emergencyBalance.value >= days && VirtualBalance(balance, f.openFullDays, f.openHalfDays) >= days &&
            days <= 0.0 ==>
              r == Err(ZeroLeaveDays)
  {
    if lt.category == Some(BereavementLeave) then CreateLeave(days)
    else if lt.category == Some(PrivilegeLeave) || lt.category == Some(CasualLeave) then
      match (f.emergencyType, f.emergencyBalance)
      case (Some(et), Some(eb)) =>
        var emergencyVirtual := VirtualBalance(balance, f.openFullDays, f.openHalfDays);
        if eb >= days && emergencyVirtual >= days then CreateLeave(days)
        else Err(BalanceFailure(eb, et.typeName, days))
      case _ => Err(EmergencyLeaveMissing)
    else Err(PreviousDayNotApplicable)
  }

  /** The rows are there, no date is taken and the gender test passes: the point where the temporal branches start. */
  predicate PastGuards(f: Facts) {
    f.leaveType.Some? && f.employee.Some? && f.balance.Some? && !f.alreadyApplied &&
    GenderAllows(f.employee.value.gender, f.leaveType.value.category)
  }

  /**
   * The whole decision of Handle, up to the creation of the request:
   * Ok(days) when an Open request of `days` days is to be recorded.
   */
  function Adjudicate(f: Facts): (r: Result<real, LeaveError>)
    ensures r.Ok? ==> PastGuards(f)
    ensures r.Ok? ==> r.value == RequestedDays(f.command.halfDay, f.expansion.daysCount) && r.value > 0.0
    // the balance gate holds for every admitted request except a future WorkFromHome one
    ensures r.Ok? && !FutureWorkFromHome(f) ==>
      f.balance.value >= r.value &&
      VirtualBalance(f.balance.value, f.openFullDays, f.openHalfDays) >= r.value
    // outside the WorkFromHome branch an admitted half day is one expanded day, taken as 0.5
    ensures r.Ok? && IsHalfDay(f.command.halfDay) && !FutureWorkFromHome(f) ==>
      f.leaveType.value.isHalfDayAllowed == Some(true) && f.expansion.daysCount == 1.0 && r.value == 0.5
    // a future request respects the notice window and the tenure, and is not Bereavement
    ensures r.Ok? && f.today < f.command.fromDate ==>
      NoticeWindow(f.leaveType.value, r.value, f.command.fromDate - f.today).Pass? &&
      DutyCheck(f.leaveType.value, f.employee.value, f.command.fromDate).Pass? &&
      f.leaveType.value.category != Some(BereavementLeave)
    ensures r.Ok? && f.today < f.command.fromDate && f.leaveType.value.category == Some(RestrictedHolidayLeave) ==>
      r.value == f.restrictedHolidayCount as real
    // a retroactive request is Bereavement, or Privilege/Casual covered by the Emergency balance
    ensures r.Ok? && f.today >= f.command.fromDate ==>
      f.leaveType.value.category in {Some(BereavementLeave), Some(PrivilegeLeave), Some(CasualLeave)} &&
      (f.leaveType.value.category != Some(BereavementLeave) ==>
         f.emergencyType.Some? && f.emergencyBalance.Some? && f.emergencyBalance.value >= r.value)
  {
    if f.leaveType.None? then Err(NoSuchLeaveType)
    else if f.employee.None? then Err(NoSuchEmployee)
    else if f.balance.None? then Err(LeaveBalanceNotFound)
    else
      var lt, emp, balance, cmd := f.leaveType.value, f.employee.value, f.balance.value, f.command;
      var days := RequestedDays(cmd.halfDay, f.expansion.daysCount);
      var virtual := VirtualBalance(balance, f.openFullDays, f.openHalfDays);
      var notice := cmd.fromDate - f.today;
      if f.alreadyApplied then Err(DateAlreadyApplied)
      else if !GenderAllows(emp.gender, lt.category) then
        if emp.gender.None? then Err(IncompleteProfile) else Err(GenderSpecific(lt.typeName))
      else if lt.category == Some(WorkFromHome) && f.today < cmd.fromDate then
        Then(NoticeWindow(lt, days, notice), WorkFromHomeCheck(f, lt, emp, days))
      else if f.today < cmd.fromDate && lt.category != Some(BereavementLeave) then
        if !(balance >= days && virtual >= days) then Err(BalanceFailure(balance, lt.typeName, days))
        else if !IsHalfDay(cmd.halfDay) then Then(NoticeWindow(lt, days, notice), CheckOne(f, lt, emp, days))
        else if lt.isHalfDayAllowed != Some(true) then Err(HalfDayNotApplicable(lt.typeName))
        else if f.expansion.daysCount != 1.0 then Err(HalfDayOnlyOneDay)
        else Then(NoticeWindow(lt, days, notice), CheckOne(f, lt, emp, days))
      else if f.today >= cmd.fromDate then
        if !(balance >= days && virtual >= days) then Err(BalanceFailure(balance, lt.typeName, days))
        else if !IsHalfDay(cmd.halfDay) then PreviousDayLeaves(f, lt, balance, days)
        else if lt.isHalfDayAllowed != Some(true) then Err(HalfDayNotApplicable(lt.typeName))
        else if f.expansion.daysCount != 1.0 then Err(HalfDayOnlyOneDay)
        else PreviousDayLeaves(f, lt, balance, days)
      else Err(CurrentLeaveNotApplicable)
  }

  /** The three row lookups come first, in the handler's order: leave type, employee, balance. */
  lemma RowLookupsFirst(f: Facts)
    ensures f.leaveType.None? ==> Adjudicate(f) == Err(NoSuchLeaveType)
    ensures f.leaveType.Some? && f.employee.None? ==> Adjudicate(f) == Err(NoSuchEmployee)
    ensures f.leaveType.Some? && f.employee.Some? && f.balance.None? ==> Adjudicate(f) == Err(LeaveBalanceNotFound)
  {
  }

  // ---------------------------------------------------------------------
  // Properties of the decision
  // ---------------------------------------------------------------------

  /** The duplicate-date guard comes before every policy rule. */
  lemma DuplicateDateFirst(f: Facts)
    requires f.leaveType.Some? && f.employee.Some? && f.balance.Some?
    ensures f.alreadyApplied <==> Adjudicate(f) == Err(DateAlreadyApplied)
  {
  }

  /** Gender: unknown asks for the profile; Male/Maternity, Female/Paternity and any other value are refused. */
  lemma GenderRules(f: Facts)
    requires f.leaveType.Some? && f.employee.Some? && f.balance.Some? && !f.alreadyApplied
    ensures f.employee.value.gender.None? ==> Adjudicate(f) == Err(IncompleteProfile)
    ensures f.employee.value.gender == Some(Male) && f.leaveType.value.category == Some(Maternity) ==>
      Adjudicate(f) == Err(GenderSpecific(f.leaveType.value.typeName))
    ensures f.employee.value.gender == Some(Female) && f.leaveType.value.category == Some(Paternity) ==>
      Adjudicate(f) == Err(GenderSpecific(f.leaveType.value.typeName))
    ensures f.employee.value.gender.Some? && f.employee.value.gender.value.OtherGender? ==>
      Adjudicate(f) == Err(GenderSpecific(f.leaveType.value.typeName))
  {
  }

  /** A Bereavement request for a day still to come always ends in "Current Leave Cannot Be Applied". */
  lemma FutureBereavementRefused(f: Facts)
    requires PastGuards(f)
    requires f.today < f.command.fromDate && f.leaveType.value.category == Some(BereavementLeave)
    ensures Adjudicate(f) == Err(CurrentLeaveNotApplicable)
  {
  }

  /** A future WorkFromHome request never consults the balance nor the Open requests. */
  lemma FutureWorkFromHomeIgnoresBalance(f: Facts, balance: real, openFullDays: nat, openHalfDays: nat)
    requires f.leaveType.Some? && f.balance.Some? && FutureWorkFromHome(f)
    ensures Adjudicate(f) ==
      Adjudicate(f.(balance := Some(balance), openFullDays := openFullDays, openHalfDays := openHalfDays))
  {
  }

  /**
   * Outside the future WorkFromHome and future Bereavement branches a failed
   * balance gate is reported by the Balance helper: "No Sufficient Leave"
   * when the balance itself is short, "Revoke or edit" when only the
   * virtual balance is.
   */
  lemma BalanceGateFailure(f: Facts)
    requires PastGuards(f) && !FutureWorkFromHome(f)
    requires !(f.today < f.command.fromDate && f.leaveType.value.category == Some(BereavementLeave))
    requires var days := RequestedDays(f.command.halfDay, f.expansion.daysCount);
      !(f.balance.value >= days && VirtualBalance(f.balance.value, f.openFullDays, f.openHalfDays) >= days)
    ensures var days := RequestedDays(f.command.halfDay, f.expansion.daysCount);
      Adjudicate(f) == Err(if f.balance.value < days then NoSufficientLeave(f.leaveType.value.typeName)
                           else RevokeOrEdit(f.leaveType.value.typeName))
  {
  }

  /**
   * A retroactive whole-day Privilege or Casual request that passed its own
   * balance gate is decided by the Emergency type's actual balance alone:
   * the recomputed Emergency virtual balance equals the virtual balance
   * already checked, so "Revoke or edit" can never be the answer here.
   */
  lemma RetroactiveDrawsOnEmergency(f: Facts)
    requires PastGuards(f) && f.today >= f.command.fromDate && !IsHalfDay(f.command.halfDay)
    requires f.leaveType.value.category in {Some(PrivilegeLeave), Some(CasualLeave)}
    requires f.emergencyType.Some? && f.emergencyBalance.Some?
    requires var days := f.expansion.daysCount;
      f.balance.value >= days && VirtualBalance(f.balance.value, f.openFullDays, f.openHalfDays) >= days
    ensures var days := f.expansion.daysCount;
      Adjudicate(f) ==
        if f.emergencyBalance.value < days then Err(NoSufficientLeave(f.emergencyType.value.typeName))
        else if days > 0.0 then Ok(days)
        else Err(ZeroLeaveDays)
  {
  }

  /** Retroactive requests of any category other than Bereavement, Privilege and Casual are refused. */
  lemma RetroactiveOtherCategoriesRefused(f: Facts)
    requires PastGuards(f) && f.today >= f.command.fromDate
    requires f.leaveType.value.category !in {Some(BereavementLeave), Some(PrivilegeLeave), Some(CasualLeave)}
    ensures Adjudicate(f).Err?
    ensures var days := RequestedDays(f.command.halfDay, f.expansion.daysCount);
      (f.balance.value >= days && VirtualBalance(f.balance.value, f.openFullDays, f.openHalfDays) >= days &&
       !IsHalfDay(f.command.halfDay)) ==> Adjudicate(f) == Err(PreviousDayNotApplicable)
  {
  }

  /**
   * The WorkFromHome branch does not look at the half-day flag's rules: a
   * future half-day WorkFromHome request over three expanded days, of a
   * type that does not allow half days, is admitted for 1.5 days.
   */
  lemma FutureWorkFromHomeHalfDayUnchecked(f: Facts)
    requires PastGuards(f) && FutureWorkFromHome(f)
    requires IsHalfDay(f.command.halfDay) && f.expansion.daysCount == 3.0
    requires f.leaveType.value.isHalfDayAllowed == Some(false)
    requires f.leaveType.value.daysCheck == Some(5) && f.leaveType.value.daysCheckEqualOrLess == Some(0)
    requires f.leaveType.value.dutyDaysRequired.None?
    ensures Adjudicate(f) == Ok(1.5)
  {
  }

  /**
   * Past the balance gate, a future request outside WorkFromHome and
   * Bereavement fails on the half-day rules first, then on the notice
   * window, and otherwise is decided by CheckOne (tenure, restricted
   * holidays, a non-zero day count), each with its own error.
   */
  lemma FutureRequestErrors(f: Facts)
    requires PastGuards(f) && f.today < f.command.fromDate
    requires f.leaveType.value.category !in {Some(WorkFromHome), Some(BereavementLeave)}
    requires var days := RequestedDays(f.command.halfDay, f.expansion.daysCount);
      f.balance.value >= days && VirtualBalance(f.balance.value, f.openFullDays, f.openHalfDays) >= days
    ensures var lt := f.leaveType.value;
            IsHalfDay(f.command.halfDay) && lt.isHalfDayAllowed != Some(true) ==>
              Adjudicate(f) == Err(HalfDayNotApplicable(lt.typeName))
    ensures (IsHalfDay(f.command.halfDay) && f.leaveType.value.isHalfDayAllowed == Some(true) &&
             f.expansion.daysCount != 1.0) ==> Adjudicate(f) == Err(HalfDayOnlyOneDay)
    ensures var lt, days := f.leaveType.value, RequestedDays(f.command.halfDay, f.expansion.daysCount);
            var notice := NoticeWindow(lt, days, f.command.fromDate - f.today);
            (!IsHalfDay(f.command.halfDay) || (lt.isHalfDayAllowed == Some(true) && f.expansion.daysCount == 1.0)) ==>
              (notice.Fail? ==> Adjudicate(f) == Err(notice.error)) &&
              (notice.Pass? ==> Adjudicate(f) == CheckOne(f, lt, f.employee.value, days))
  {
  }

  /** A future WorkFromHome request fails on its notice window first, then as WorkFromHomeCheck decides. */
  lemma FutureWorkFromHomeErrors(f: Facts)
    requires PastGuards(f) && FutureWorkFromHome(f)
    ensures var lt, days := f.leaveType.value, RequestedDays(f.command.halfDay, f.expansion.daysCount);
            var notice := NoticeWindow(lt, days, f.command.fromDate - f.today);
            (notice.Fail? ==> Adjudicate(f) == Err(notice.error)) &&
            (notice.Pass? ==> Adjudicate(f) == WorkFromHomeCheck(f, lt, f.employee.value, days))
  {
  }

  /**
   * Past the balance gate, a retroactive request fails on the half-day
   * rules first, and otherwise is decided by PreviousDayLeaves.
   */
  lemma RetroactiveRequestErrors(f: Facts)
    requires PastGuards(f) && f.today >= f.command.fromDate
    requires var days := RequestedDays(f.command.halfDay, f.expansion.daysCount);
      f.balance.value >= days && VirtualBalance(f.balance.value, f.openFullDays, f.openHalfDays) >= days
    ensures var lt := f.leaveType.value;
            IsHalfDay(f.command.halfDay) && lt.isHalfDayAllowed != Some(true) ==>
              Adjudicate(f) == Err(HalfDayNotApplicable(lt.typeName))
    ensures (IsHalfDay(f.command.halfDay) && f.leaveType.value.isHalfDayAllowed == Some(true) &&
             f.expansion.daysCount != 1.0) ==> Adjudicate(f) == Err(HalfDayOnlyOneDay)
    ensures var lt, days := f.leaveType.value, RequestedDays(f.command.halfDay, f.expansion.daysCount);
            (!IsHalfDay(f.command.halfDay) || (lt.isHalfDayAllowed == Some(true) && f.expansion.daysCount == 1.0)) ==>
              Adjudicate(f) == PreviousDayLeaves(f, lt, f.balance.value, days)
  {
  }

  /**
   * The converse of Adjudicate's contract for a future request outside the
   * WorkFromHome and Bereavement categories: when every rule on its path
   * holds, it is admitted for its days.
   */
  lemma FutureRequestAdmitted(f: Facts)
    requires PastGuards(f) && f.today < f.command.fromDate
    requires f.leaveType.value.category !in {Some(WorkFromHome), Some(BereavementLeave)}
    requires var days := RequestedDays(f.command.halfDay, f.expansion.daysCount);
      f.balance.value >= days && VirtualBalance(f.balance.value, f.openFullDays, f.openHalfDays) >= days
    requires IsHalfDay(f.command.halfDay) ==>
      f.leaveType.value.isHalfDayAllowed == Some(true) && f.expansion.daysCount == 1.0
    requires var days := RequestedDays(f.command.halfDay, f.expansion.daysCount);
      NoticeWindow(f.leaveType.value, days, f.command.fromDate - f.today).Pass? &&
      DutyCheck(f.leaveType.value, f.employee.value, f.command.fromDate).Pass? &&
      (f.leaveType.value.category == Some(RestrictedHolidayLeave) ==> days == f.restrictedHolidayCount as real) &&
      days > 0.0
    ensures Adjudicate(f) == Ok(RequestedDays(f.command.halfDay, f.expansion.daysCount))
  {
  }

  /** A future WorkFromHome request is admitted as soon as its notice window and tenure hold. */
  lemma FutureWorkFromHomeAdmitted(f: Facts)
    requires PastGuards(f) && FutureWorkFromHome(f)
    requires var days := RequestedDays(f.command.halfDay, f.expansion.daysCount);
      NoticeWindow(f.leaveType.value, days, f.command.fromDate - f.today).Pass? &&
      DutyCheck(f.leaveType.value, f.employee.value, f.command.fromDate).Pass? &&
      days > 0.0
    ensures Adjudicate(f) == Ok(RequestedDays(f.command.halfDay, f.expansion.daysCount))
  {
  }

  /** A retroactive Bereavement request needs only its balance gate and the half-day rules. */
  lemma RetroactiveBereavementAdmitted(f: Facts)
    requires PastGuards(f) && f.today >= f.command.fromDate
    requires f.leaveType.value.category == Some(BereavementLeave)
    requires var days := RequestedDays(f.command.halfDay, f.expansion.daysCount);
      f.balance.value >= days && VirtualBalance(f.balance.value, f.openFullDays, f.openHalfDays) >= days
      && days > 0.0
    requires IsHalfDay(f.command.halfDay) ==>
      f.leaveType.value.isHalfDayAllowed == Some(true) && f.expansion.daysCount == 1.0
    ensures Adjudicate(f) == Ok(RequestedDays(f.command.halfDay, f.expansion.daysCount))
  {
  }
}
