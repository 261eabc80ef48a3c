// The store side of AddLeaveRequestCommandHandler: the reads that feed the
// decision (virtual balance counts, duplicate dates, restricted holidays,
// the Emergency type), the creation of the Open request with its day rows,
// the choice of mail recipients, and the upward walk of the manager chain.

module LeaveStore {
  import opened Domain
  import opened LeaveRules

  /** Recipients of the approval mail; `cc` is null for a SuperAdmin. */
  datatype Mail = Mail(to: seq<string>, cc: Option<seq<string>>)

  /** A recorded request: its id, the days it takes, and where the mail goes. */
  datatype Created = Created(requestId: int, days: real, mail: Mail)

  /**
   * AddLeave's routing: a SuperAdmin mails their own address with no copy;
   * anyone else mails the first manager address and copies the rest. An
   * empty address list makes `receiverManagerEmails[0]` throw.
   */
  function MailRecipients(isSuperAdmin: bool, employeeEmail: string, managerEmails: seq<string>): (r: Result<Mail, LeaveError>)
    ensures isSuperAdmin ==> r == Ok(Mail([employeeEmail], None))
    ensures !isSuperAdmin ==> (r.Ok? <==> |managerEmails| > 0)
    ensures !isSuperAdmin && r.Ok? ==>
      |r.value.to| == 1 && r.value.cc.Some? && r.value.to + r.value.cc.value == managerEmails
    ensures r.Err? ==> r.error == ManagerEmailMissing
  {
    if isSuperAdmin then Ok(Mail([employeeEmail], None))
    else if |managerEmails| == 0 then Err(ManagerEmailMissing)
    else Ok(Mail([managerEmails[0]], Some(managerEmails[1..])))
  }

  // ---------------------------------------------------------------------
  // Leave requests and their day rows
  // ---------------------------------------------------------------------

  /** Request ids are an identity column: the request at index i has id i + 1. */
  predicate IdentityIds(requests: seq<LeaveRequest>) {
    forall i :: 0 <= i < |requests| ==> requests[i].id == i + 1
  }

  /** Every day row belongs to a recorded request. */
  predicate RowsReferToRequests(requests: seq<LeaveRequest>, rows: seq<LeaveRequestDay>) {
    forall j :: 0 <= j < |rows| ==> 1 <= rows[j].leaveRequestId <= |requests|
  }

  /** The row's request is an Open request of `empId` and `typeId` whose half-day flag is `halfDay`. */
  predicate CountsAsOpen(requests: seq<LeaveRequest>, row: LeaveRequestDay, empId: int, typeId: int, halfDay: bool) {
    1 <= row.leaveRequestId <= |requests| &&
    var r := requests[row.leaveRequestId - 1];
    r.employeeId == empId && r.typeId == typeId && r.status == Open && r.halfDay == halfDay
  }

  /** The count of day rows held by Open requests of one employee and type, whole-day or half-day ones. */
  function OpenDays(requests: seq<LeaveRequest>, rows: seq<LeaveRequestDay>, empId: int, typeId: int, halfDay: bool): (n: nat)
    ensures n <= |rows|
    ensures n == 0 <==> forall j :: 0 <= j < |rows| ==> !CountsAsOpen(requests, rows[j], empId, typeId, halfDay)
    ensures n == |rows| <==> forall j :: 0 <= j < |rows| ==> CountsAsOpen(requests, rows[j], empId, typeId, halfDay)
  {
    if rows == [] then 0
    else OpenDays(requests, rows[..|rows| - 1], empId, typeId, halfDay) +
         (if CountsAsOpen(requests, rows[|rows| - 1], empId, typeId, halfDay) then 1 else 0)
  }

  /** The row's request is an Open or Approved request of `empId` and `typeId`. */
  predicate HoldsDate(requests: seq<LeaveRequest>, row: LeaveRequestDay, empId: int, typeId: int) {
    1 <= row.leaveRequestId <= |requests| &&
    var r := requests[row.leaveRequestId - 1];
    r.employeeId == empId && r.typeId == typeId && (r.status == Open || r.status == Approved)
  }

  /** Some requested date is already held by an Open or Approved request of the same employee and type. */
  predicate AlreadyApplied(requests: seq<LeaveRequest>, rows: seq<LeaveRequestDay>, empId: int, typeId: int, dates: seq<int>) {
    exists j :: 0 <= j < |rows| && rows[j].leaveDate in dates && HoldsDate(requests, rows[j], empId, typeId)
  }

  /** The number of RestrictedHoliday rows dated within [fromDate, toDate]. */
  function RestrictedHolidayCount(holidays: seq<Holiday>, fromDate: int, toDate: int): (n: nat)
    ensures n <= |holidays|
    ensures n == 0 <==> forall i :: 0 <= i < |holidays| ==> !RestrictedWithin(holidays[i], fromDate, toDate)
  {
    NoRestrictedHolidayWithin(holidays, fromDate, toDate);
    |Filter(holidays, RestrictedBetween(fromDate, toDate))|
  }

  lemma NoRestrictedHolidayWithin(holidays: seq<Holiday>, fromDate: int, toDate: int)
    ensures Filter(holidays, RestrictedBetween(fromDate, toDate)) == [] <==>
              forall i :: 0 <= i < |holidays| ==> !RestrictedWithin(holidays[i], fromDate, toDate)
  {
    var within := Filter(holidays, RestrictedBetween(fromDate, toDate));
    assert forall i :: 0 <= i < |holidays| && RestrictedWithin(holidays[i], fromDate, toDate) ==>
                         RestrictedBetween(fromDate, toDate)(holidays[i]) && holidays[i] in within;
    if within != [] {
      assert RestrictedWithin(within[0], fromDate, toDate);
      var i :| 0 <= i < |holidays| && holidays[i] == within[0];
    }
  }

  /**
   * The count is additive over the holiday list and counts one holiday as
   * one exactly when it is a restricted holiday within the range, so it is
   * the number of such holidays.
   */
  lemma RestrictedHolidayCountAppend(a: seq<Holiday>, b: seq<Holiday>, fromDate: int, toDate: int)
    ensures RestrictedHolidayCount(a + b, fromDate, toDate) ==
            RestrictedHolidayCount(a, fromDate, toDate) + RestrictedHolidayCount(b, fromDate, toDate)
    ensures forall h :: RestrictedHolidayCount([h], fromDate, toDate) == if RestrictedWithin(h, fromDate, toDate) then 1 else 0
  {
    FilterAppend(a, b, RestrictedBetween(fromDate, toDate));
    forall h ensures RestrictedHolidayCount([h], fromDate, toDate) == if RestrictedWithin(h, fromDate, toDate) then 1 else 0 {
      assert [h][1..] == [];
    }
  }

  predicate RestrictedWithin(h: Holiday, fromDate: int, toDate: int) {
    h.holidayType == RestrictedHoliday && fromDate <= h.date <= toDate
  }

  function RestrictedBetween(fromDate: int, toDate: int): Holiday -> bool {
    (h: Holiday) => RestrictedWithin(h, fromDate, toDate)
  }

  /** The balance row of `empId` for leave type `typeId`. */
  predicate BalanceRowOf(b: LeaveBalance, empId: int, typeId: int) {
    b.employeeId == empId && b.typeId == typeId
  }

  /** The request AddLeave records: Open, applied today, processed by the employee. */
  function NewRequest(id: int, cmd: LeaveCommand, today: int): LeaveRequest {
    LeaveRequest(id, cmd.empId, cmd.typeId, IsHalfDay(cmd.halfDay), cmd.fromDate, cmd.toDate,
                 today, Open, cmd.description, cmd.empId)
  }

  /** Recording a new request, and then its day rows, keeps the identity ids and the row references. */
  lemma CreationKeepsStoreInvariant(requests: seq<LeaveRequest>, rows: seq<LeaveRequestDay>, cmd: LeaveCommand,
                                    today: int, dates: seq<int>)
    requires IdentityIds(requests) && RowsReferToRequests(requests, rows)
    ensures var requests' := requests + [NewRequest(|requests| + 1, cmd, today)];
            IdentityIds(requests') && RowsReferToRequests(requests', rows) &&
            RowsReferToRequests(requests', rows + DayRows(|requests| + 1, dates))
  {
    var requests' := requests + [NewRequest(|requests| + 1, cmd, today)];
    var rows' := rows + DayRows(|requests| + 1, dates);
    forall j | 0 <= j < |rows'|
      ensures 1 <= rows'[j].leaveRequestId <= |requests'|
    {
      if j >= |rows| {
        assert rows'[j] == DayRows(|requests| + 1, dates)[j - |rows|];
      }
    }
  }

  /** One day row per expanded date, all pointing at request `id`. */
  function DayRows(id: int, dates: seq<int>): (rows: seq<LeaveRequestDay>)
    ensures |rows| == |dates|
    ensures forall j :: 0 <= j < |rows| ==> rows[j] == LeaveRequestDay(id, dates[j])
  {
    seq(|dates|, j requires 0 <= j < |dates| => LeaveRequestDay(id, dates[j]))
  }

  lemma {:induction false} OpenDaysAppend(requests: seq<LeaveRequest>, a: seq<LeaveRequestDay>, b: seq<LeaveRequestDay>,
                                          empId: int, typeId: int, halfDay: bool)
    ensures OpenDays(requests, a + b, empId, typeId, halfDay) ==
            OpenDays(requests, a, empId, typeId, halfDay) + OpenDays(requests, b, empId, typeId, halfDay)
    decreases |b|
  {
    if b == [] {
      assert a + b == a;
    } else {
      var b' := b[..|b| - 1];
      assert (a + b)[..|a + b| - 1] == a + b';
      assert (a + b)[|a + b| - 1] == b[|b| - 1];
      OpenDaysAppend(requests, a, b', empId, typeId, halfDay);
    }
  }

  /** Appending requests does not change how the existing rows are counted. */
  lemma {:induction false} OpenDaysExtendRequests(requests: seq<LeaveRequest>, extra: seq<LeaveRequest>,
                                                  rows: seq<LeaveRequestDay>, empId: int, typeId: int, halfDay: bool)
    requires RowsReferToRequests(requests, rows)
    ensures OpenDays(requests + extra, rows, empId, typeId, halfDay) == OpenDays(requests, rows, empId, typeId, halfDay)
    decreases |rows|
  {
    if rows != [] {
      var last := rows[|rows| - 1];
      assert (requests + extra)[last.leaveRequestId - 1] == requests[last.leaveRequestId - 1];
      OpenDaysExtendRequests(requests, extra, rows[..|rows| - 1], empId, typeId, halfDay);
    }
  }

  /** Rows that all point at one request are all counted or none is. */
  lemma {:induction false} OpenDaysOfOneRequest(requests: seq<LeaveRequest>, id: int, dates: seq<int>,
                                                empId: int, typeId: int, halfDay: bool)
    ensures OpenDays(requests, DayRows(id, dates), empId, typeId, halfDay) ==
            if CountsAsOpen(requests, LeaveRequestDay(id, 0), empId, typeId, halfDay) then |dates| else 0
    decreases |dates|
  {
    if dates != [] {
      var rows := DayRows(id, dates);
      assert rows[..|rows| - 1] == DayRows(id, dates[..|dates| - 1]);
      OpenDaysOfOneRequest(requests, id, dates[..|dates| - 1], empId, typeId, halfDay);
    }
  }

  /**
   * Recording a request with one row per date makes its employee and type
   * hold exactly those dates more, in the half-day or whole-day count the
   * request belongs to; every other count is unchanged.
   */
  lemma CreationReservesDates(requests: seq<LeaveRequest>, rows: seq<LeaveRequestDay>, cmd: LeaveCommand,
                              today: int, dates: seq<int>, empId: int, typeId: int, halfDay: bool)
    requires IdentityIds(requests) && RowsReferToRequests(requests, rows)
    ensures var id := |requests| + 1;
      OpenDays(requests + [NewRequest(id, cmd, today)], rows + DayRows(id, dates), empId, typeId, halfDay) ==
      OpenDays(requests, rows, empId, typeId, halfDay) +
      (if empId == cmd.empId && typeId == cmd.typeId && halfDay == IsHalfDay(cmd.halfDay) then |dates| else 0)
  {
    var id := |requests| + 1;
    var requests' := requests + [NewRequest(id, cmd, today)];
    OpenDaysAppend(requests', rows, DayRows(id, dates), empId, typeId, halfDay);
    OpenDaysExtendRequests(requests, [NewRequest(id, cmd, today)], rows, empId, typeId, halfDay);
    OpenDaysOfOneRequest(requests', id, dates, empId, typeId, halfDay);
  }

  /**
   * When the expander's count is the number of dates it returned, a
   * recorded request lowers the virtual balance of its employee and type by
   * exactly the days it was admitted for.
   */
  lemma CreationLowersVirtualBalance(requests: seq<LeaveRequest>, rows: seq<LeaveRequestDay>, cmd: LeaveCommand,
                                     today: int, expansion: Expansion, balance: real)
    requires IdentityIds(requests) && RowsReferToRequests(requests, rows)
    requires expansion.daysCount == |expansion.validDates| as real
    ensures var id := |requests| + 1;
      var requests' := requests + [NewRequest(id, cmd, today)];
      var rows' := rows + DayRows(id, expansion.validDates);
      VirtualBalance(balance, OpenDays(requests', rows', cmd.empId, cmd.typeId, false),
                              OpenDays(requests', rows', cmd.empId, cmd.typeId, true)) ==
      VirtualBalance(balance, OpenDays(requests, rows, cmd.empId, cmd.typeId, false),
                              OpenDays(requests, rows, cmd.empId, cmd.typeId, true))
        - RequestedDays(cmd.halfDay, expansion.daysCount)
  {
    CreationReservesDates(requests, rows, cmd, today, expansion.validDates, cmd.empId, cmd.typeId, false);
    CreationReservesDates(requests, rows, cmd, today, expansion.validDates, cmd.empId, cmd.typeId, true);
  }

  /** Once recorded, the same dates cannot be applied for again under the same type. */
  lemma CreationBlocksSameDates(requests: seq<LeaveRequest>, rows: seq<LeaveRequestDay>, cmd: LeaveCommand,
                                today: int, dates: seq<int>)
    requires IdentityIds(requests) && |dates| > 0
    ensures var id := |requests| + 1;
      AlreadyApplied(requests + [NewRequest(id, cmd, today)], rows + DayRows(id, dates), cmd.empId, cmd.typeId, dates)
  {
    var id := |requests| + 1;
    var rows' := rows + DayRows(id, dates);
    assert rows'[|rows|] == LeaveRequestDay(id, dates[0]);
  }

  // ---------------------------------------------------------------------
  // The store
  // ---------------------------------------------------------------------

  class LeaveStore {
    const leaveTypes: seq<LeaveType>
    const employees: seq<Employee>
    const balances: seq<LeaveBalance>
    const holidays: seq<Holiday>
    var requests: seq<LeaveRequest>
    var requestDays: seq<LeaveRequestDay>

    ghost predicate Valid()
      reads this
    {
      IdentityIds(requests) && RowsReferToRequests(requests, requestDays)
    }

    constructor (leaveTypes: seq<LeaveType>, employees: seq<Employee>, balances: seq<LeaveBalance>, holidays: seq<Holiday>)
      ensures Valid()
      ensures this.leaveTypes == leaveTypes && this.employees == employees
      ensures this.balances == balances && this.holidays == holidays
      ensures requests == [] && requestDays == []
    {
      this.leaveTypes, this.employees, this.balances, this.holidays := leaveTypes, employees, balances, holidays;
      requests, requestDays := [], [];
    }

    function FindEmployee(id: int): Option<Employee> {
      FirstWhere(employees, (e: Employee) => e.id == id)
    }

    function BalanceOf(empId: int, typeId: int): Option<real> {
      match FirstWhere(balances, (b: LeaveBalance) => BalanceRowOf(b, empId, typeId))
      case None => None
      case Some(b) => Some(b.balance)
    }

    /** The rows Handle reads before it decides. */
    function FactsFor(cmd: LeaveCommand, today: int, expansion: Expansion): (f: Facts)
      reads this
      ensures f.command == cmd && f.today == today && f.expansion == expansion
      ensures f.leaveType.Some? ==> f.leaveType.value.id == cmd.typeId && f.leaveType.value in leaveTypes
      ensures f.leaveType.None? <==> forall i :: 0 <= i < |leaveTypes| ==> leaveTypes[i].id != cmd.typeId
      ensures f.employee.Some? ==> f.employee.value.id == cmd.empId && f.employee.value in employees
      ensures f.employee.None? <==> forall i :: 0 <= i < |employees| ==> employees[i].id != cmd.empId
      ensures f.balance.None? <==> forall i :: 0 <= i < |balances| ==> !BalanceRowOf(balances[i], cmd.empId, cmd.typeId)
      ensures f.balance.Some? ==>
                exists i :: 0 <= i < |balances| && BalanceRowOf(balances[i], cmd.empId, cmd.typeId) &&
                            balances[i].balance == f.balance.value
      ensures f.openFullDays == OpenDays(requests, requestDays, cmd.empId, cmd.typeId, false)
      ensures f.openHalfDays == OpenDays(requests, requestDays, cmd.empId, cmd.typeId, true)
      ensures f.restrictedHolidayCount == RestrictedHolidayCount(holidays, cmd.fromDate, cmd.toDate)
      ensures f.emergencyType.None? <==> forall i :: 0 <= i < |leaveTypes| ==> leaveTypes[i].category != Some(EmergencyLeave)
      ensures f.emergencyType.Some? ==> f.emergencyType.value in leaveTypes
      ensures f.emergencyType.Some? ==>
                (f.emergencyBalance.None? <==>
                   forall i :: 0 <= i < |balances| ==> !BalanceRowOf(balances[i], cmd.empId, f.emergencyType.value.id))
      ensures f.emergencyType.Some? && f.emergencyBalance.Some? ==>
                exists i :: 0 <= i < |balances| && BalanceRowOf(balances[i], cmd.empId, f.emergencyType.value.id) &&
                            balances[i].balance == f.emergencyBalance.value
      ensures f.emergencyType.Some? ==> f.emergencyType.value.category == Some(EmergencyLeave)
      ensures f.emergencyBalance.Some? ==> f.emergencyType.Some?
      ensures f.alreadyApplied == AlreadyApplied(requests, requestDays, cmd.empId, cmd.typeId, expansion.validDates)
    {
      var emergencyType := FirstWhere(leaveTypes, (t: LeaveType) => t.category == Some(EmergencyLeave));
      Facts(
        cmd,
        today,
        FirstWhere(leaveTypes, (t: LeaveType) => t.id == cmd.typeId),
        FindEmployee(cmd.empId),
        BalanceOf(cmd.empId, cmd.typeId),
        OpenDays(requests, requestDays, cmd.empId, cmd.typeId, false),
        OpenDays(requests, requestDays, cmd.empId, cmd.typeId, true),
        expansion,
        AlreadyApplied(requests, requestDays, cmd.empId, cmd.typeId, expansion.validDates),
        RestrictedHolidayCount(holidays, cmd.fromDate, cmd.toDate),
        emergencyType,
        if emergencyType.Some? then BalanceOf(cmd.empId, emergencyType.value.id) else None)
    }

    /**
     * Handle from the decision on: a refused request changes nothing; an
     * admitted one is saved as Open; the mail recipients are chosen, and
     * only when that succeeds are the day rows added.
     */
    method Apply(cmd: LeaveCommand, today: int, expansion: Expansion, isSuperAdmin: bool, managerEmails: seq<string>)
      returns (outcome: Result<Created, LeaveError>)
      requires Valid()
      modifies this
      ensures Valid()
      ensures var decision := Adjudicate(old(FactsFor(cmd, today, expansion)));
        decision.Err? ==>
          outcome == Err(decision.error) && requests == old(requests) && requestDays == old(requestDays)
      ensures var facts := old(FactsFor(cmd, today, expansion));
        var decision := Adjudicate(facts);
        var id := |old(requests)| + 1;
        decision.Ok? ==>
          requests == old(requests) + [NewRequest(id, cmd, today)] &&
          var routing := MailRecipients(isSuperAdmin, facts.employee.value.email, managerEmails);
          (routing.Err? ==> outcome == Err(routing.error) && requestDays == old(requestDays)) &&
          (routing.Ok? ==> outcome == Ok(Created(id, decision.value, routing.value)) &&
                           requestDays == old(requestDays) + DayRows(id, expansion.validDates))
    {
      var facts := FactsFor(cmd, today, expansion);
      var decision := Adjudicate(facts);
      if decision.Err? {
        return Err(decision.error);
      }
      var id := |requests| + 1;
      CreationKeepsStoreInvariant(requests, requestDays, cmd, today, expansion.validDates);
      requests := requests + [NewRequest(id, cmd, today)];
      var routing := MailRecipients(isSuperAdmin, facts.employee.value.email, managerEmails);
      if routing.Err? {
        return Err(routing.error);
      }
      requestDays := requestDays + DayRows(id, expansion.validDates);
      outcome := Ok(Created(id, decision.value, routing.value));
    }

    // -------------------------------------------------------------------
    // The manager chain
    // -------------------------------------------------------------------

    function ManagerOf(id: int): Option<int> {
      match FindEmployee(id)
      case None => None
      case Some(e) => e.managerId
    }

    /** The organisation chart is acyclic: every manager ranks strictly below the employee. */
    ghost predicate Ranked(rank: map<int, nat>) {
      forall i :: 0 <= i < |employees| ==>
        employees[i].id in rank &&
        (employees[i].managerId.Some? && FindEmployee(employees[i].managerId.value).Some? ==>
           employees[i].managerId.value in rank && rank[employees[i].managerId.value] < rank[employees[i].id])
    }

    ghost function Height(rank: map<int, nat>, managerId: Option<int>): nat {
      if managerId.Some? && managerId.value in rank && FindEmployee(managerId.value).Some?
      then rank[managerId.value] + 1 else 0
    }

    /**
     * `ids` walks the chart upward from `start`, immediate manager first:
     * every id is an employee, each next id is the previous one's manager,
     * and the walk ends at a null ManagerId or at an id with no employee.
     */
    ghost predicate IsManagerChain(start: Option<int>, ids: seq<int>) {
      (|ids| == 0 <==> start.None? || FindEmployee(start.value).None?) &&
      (|ids| > 0 ==> ids[0] == start.value) &&
      (forall i :: 0 <= i < |ids| ==> FindEmployee(ids[i]).Some?) &&
      (forall i :: 0 <= i < |ids| - 1 ==> ManagerOf(ids[i]) == Some(ids[i + 1])) &&
      (|ids| > 0 ==> var top := ManagerOf(ids[|ids| - 1]); top.None? || FindEmployee(top.value).None?)
    }

    /** FindManagerIdsAsync: the manager, then recursively the manager's own chain. */
    method FindManagerIds(managerId: Option<int>, ghost rank: map<int, nat>) returns (managerIds: seq<int>)
      requires Ranked(rank)
      ensures IsManagerChain(managerId, managerIds)
      decreases Height(rank, managerId)
    {
      managerIds := [];
      if managerId.None? {
        return;
      }
      var manager := FindEmployee(managerId.value);
      if manager.Some? {
        var m := manager.value;
        HeightDrops(rank, managerId.value, m);
        var higherManagerIds := FindManagerIds(m.managerId, rank);
        ChainExtends(managerId.value, m, higherManagerIds);
        managerIds := [m.id] + higherManagerIds;
      }
    }

    lemma HeightDrops(rank: map<int, nat>, id: int, m: Employee)
      requires Ranked(rank) && FindEmployee(id) == Some(m)
      ensures m.id == id
      ensures Height(rank, m.managerId) < Height(rank, Some(id))
    {
      var i :| 0 <= i < |employees| && employees[i] == m && m.id == id;
      assert employees[i].id in rank;
    }

    lemma ChainExtends(id: int, m: Employee, higher: seq<int>)
      requires FindEmployee(id) == Some(m) && IsManagerChain(m.managerId, higher)
      ensures IsManagerChain(Some(id), [id] + higher)
    {
      var ids := [id] + higher;
      assert ManagerOf(id) == m.managerId;
      forall i | 0 <= i < |ids| ensures FindEmployee(ids[i]).Some? {
        if i > 0 { assert ids[i] == higher[i - 1]; }
      }
      forall i | 0 <= i < |ids| - 1 ensures ManagerOf(ids[i]) == Some(ids[i + 1]) {
        if i > 0 { assert ids[i] == higher[i - 1] && ids[i + 1] == higher[i]; }
      }
    }

    /** In an acyclic chart no manager appears twice in a chain. */
    lemma {:induction false} ChainIsDistinct(rank: map<int, nat>, start: Option<int>, ids: seq<int>)
      requires Ranked(rank) && IsManagerChain(start, ids)
      ensures forall i, j :: 0 <= i < j < |ids| ==> ids[i] != ids[j]
    {
      forall i, j | 0 <= i < j < |ids|
        ensures ids[j] in rank && ids[i] in rank && rank[ids[j]] < rank[ids[i]]
      {
        RankDecreases(rank, start, ids, i, j);
      }
    }

    lemma {:induction false} RankDecreases(rank: map<int, nat>, start: Option<int>, ids: seq<int>, i: int, j: int)
      requires Ranked(rank) && IsManagerChain(start, ids)
      requires 0 <= i < j < |ids|
      ensures ids[j] in rank && ids[i] in rank && rank[ids[j]] < rank[ids[i]]
      decreases j - i
    {
      var e := FindEmployee(ids[j - 1]).value;
      var k :| 0 <= k < |employees| && employees[k] == e && e.id == ids[j - 1];
      assert ManagerOf(ids[j - 1]) == Some(ids[j]);
      assert FindEmployee(ids[j]).Some?;
      if i < j - 1 {
        RankDecreases(rank, start, ids, i, j - 1);
      }
    }

    /** The chain from a start is unique: the walk has no choices. */
    lemma {:induction false} ChainIsUnique(start: Option<int>, a: seq<int>, b: seq<int>)
      requires IsManagerChain(start, a) && IsManagerChain(start, b)
      ensures a == b
    {
      if |a| == 0 || |b| == 0 {
        assert |a| == |b|;
      } else if |a| < |b| {
        ChainPrefixAgrees(start, a, b, |a| - 1);
        ChainStep(start, b, |a| - 1);
        assert false;
      } else if |b| < |a| {
        ChainPrefixAgrees(start, a, b, |b| - 1);
        ChainStep(start, a, |b| - 1);
        assert false;
      }
      forall k | 0 <= k < |a| ensures a[k] == b[k] {
        ChainPrefixAgrees(start, a, b, k);
      }
    }

    lemma ChainStep(start: Option<int>, ids: seq<int>, i: int)
      requires IsManagerChain(start, ids) && 0 <= i < |ids| - 1
      ensures ManagerOf(ids[i]) == Some(ids[i + 1]) && FindEmployee(ids[i + 1]).Some?
    {
    }

    lemma {:induction false} ChainPrefixAgrees(start: Option<int>, a: seq<int>, b: seq<int>, k: int)
      requires IsManagerChain(start, a) && IsManagerChain(start, b)
      requires 0 <= k < |a| && k < |b|
      ensures a[k] == b[k]
      decreases k
    {
      if k > 0 {
        ChainPrefixAgrees(start, a, b, k - 1);
      }
    }
  }
}
