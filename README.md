# WolfDen leave and attendance core in Dafny

This project models four handlers of the WolfDen HR system:

- **Leave application** (`AddLeaveRequestCommandHandler`). It decides whether an employee's leave request is admitted. The rules cover the gender restriction, the notice window, half days, minimum tenure, restricted holidays, retroactive leave drawn from the Emergency balance, and the balance and "virtual" balance. An admitted request is recorded as an Open request with one day row per date. Mail recipients are chosen, and the manager chain is walked upward for notifications.
- **Daily details** (`DailyDetailsQueryHandler`). It gives the status of one employee's day by a first-match chain: today, weekend, attendance row, holiday, approved leave.
- **Monthly attendance summary** (`AttendanceSummaryQueryHandler`). It makes one pass over the month up to today and counts each weekday under one status. The full-day threshold is halved, and stays halved, on every day that starts an approved half-day leave.
- **Leave history** (`GetLeaveRequestHistoryQueryHandler`). It lists the employee's requests, newest id first, optionally narrowed to one status. It returns one clamped page and the number of matching requests.

Layout:

- `domain.dfy`: the entities, the calendar on day numbers (day 0 is Monday 1 January of year 1), and LINQ's `Where`/`FirstOrDefault` as `Filter`/`FirstWhere`.
- `leave_rules.dfy`: the pure decision tree `Adjudicate`. It returns the admitted days or one error per family of thrown messages.
- `leave_store.dfy`: the class `LeaveStore`, holding the requests and their day rows. `Apply` records a request. `FindManagerIds` walks the manager chain.
- `daily_details.dfy`, `attendance_summary.dfy` and `leave_history.dfy`: the three queries.

Modelling conventions:

- Decimals (balances, day counts) are exact reals.
- A nullable comparison such as `x >= leaveType.DaysCheckMore` is false when the right side is null, as C#'s lifted operators make it.
- C#'s `int / 2` truncates toward zero. `Halve` writes this out.
- Today's date is a parameter wherever the handlers read the clock.

Where the code departs from what its names and messages suggest, the model follows the code:

- A future WorkFromHome request is never checked against the balance. Its half-day flag is not checked either.
- A retroactive Privilege or Casual request recomputes the "Emergency virtual balance" from the original type's counts (`AddLeaveRequestCommandHandler.cs` line 456). So only the Emergency type's actual balance can refuse it.
- The two retroactive Emergency counts (lines 454-455) are read but never used. They are not inputs of the model.
- A null notice threshold makes the notice check fail with the "too short" message, not a configuration error.
- The summary halves the threshold cumulatively: every half-day in the month so far halves it again.
- On a RestrictedHoliday holiday without a RestrictedHoliday-category leave, the summary counts nothing.
- The daily query has no half-day status.
- The daily query reports RestrictedHoliday for any approved leave on a holiday that is not a normal holiday.
- The row lookups that precede the duplicate-date check make a missing leave type, employee or balance the first errors.

## Model

| member | source | states |
|---|---|---|
| Domain.FirstWhere | src/services/WolfDen.Application/Requests/Queries/Attendence/DailyDetails/DailyDetailsQueryHandler.cs:43 | None exactly when no element matches; otherwise the first matching element, as `FirstOrDefault` returns it |
| Domain.FirstWhereOfFilter | src/services/WolfDen.Application/Requests/Queries/Attendence/AttendanceSummary/AttendanceSummaryQueryHandler.cs:37-39 | looking up in a pre-filtered list equals looking up the conjunction of both predicates in the whole list |
| Domain.DaysInMonth | src/services/WolfDen.Application/Requests/Queries/Attendence/AttendanceSummary/AttendanceSummaryQueryHandler.cs:20-21 | 28 to 31 days, February having 29 exactly in leap years |
| LeaveRules.NoticeWindow | src/services/WolfDen.Application/Requests/Commands/LeaveManagement/LeaveRequests/AddLeaveRequest/AddLeaveRequestCommandHandler.cs:84-110 | passes iff DaysCheck is set and the notice reaches DaysCheckMore (more days than DaysCheck) or DaysCheckEqualOrLess (otherwise); a null threshold never passes; unset DaysCheck fails with "Days Check Not Assigned", a short notice for more days with the DaysCheckMore message and a short notice for fewer days with the DaysCheckEqualOrLess message |
| LeaveRules.DutyCheck | src/services/WolfDen.Application/Requests/Commands/LeaveManagement/LeaveRequests/AddLeaveRequest/AddLeaveRequestCommandHandler.cs:360-392 | passes iff no DutyDaysRequired, or a joining date at least that many days before FromDate; a missing joining date fails with the joining-date error, and a joining date too recent fails with "Minimum Duty Days" for the type |
| LeaveRules.VirtualBalance | src/services/WolfDen.Application/Requests/Commands/LeaveManagement/LeaveRequests/AddLeaveRequest/AddLeaveRequestCommandHandler.cs:62-64 | the virtual balance is at most the balance, equal to it exactly when no Open day rows exist, and the balance minus the whole-day rows when no half-day rows exist |
| LeaveRules.CreateLeave | src/services/WolfDen.Application/Requests/Commands/LeaveManagement/LeaveRequests/AddLeaveRequest/AddLeaveRequestCommandHandler.cs:267-272 | admits iff the days are positive, for exactly those days; otherwise "Total Leave days are 0" |
| LeaveRules.CheckOne | src/services/WolfDen.Application/Requests/Commands/LeaveManagement/LeaveRequests/AddLeaveRequest/AddLeaveRequestCommandHandler.cs:358-412 | admits iff the tenure check passes, a RestrictedHoliday-category request covers exactly as many restricted holidays as days, and the days are positive; a tenure failure gives its error, a count mismatch "Selected Day Do not Contain Restricted Holiday", and a request past both with no positive days "Total Leave days are 0" |
| LeaveRules.WorkFromHomeCheck | src/services/WolfDen.Application/Requests/Commands/LeaveManagement/LeaveRequests/AddLeaveRequest/AddLeaveRequestCommandHandler.cs:415-440 | admits iff the tenure check passes and the days are positive; a tenure failure gives its error, zero days the zero-days error |
| LeaveRules.PreviousDayLeaves | src/services/WolfDen.Application/Requests/Commands/LeaveManagement/LeaveRequests/AddLeaveRequest/AddLeaveRequestCommandHandler.cs:444-471 | admits iff the days are positive and the type is Bereavement, or Privilege/Casual with the Emergency balance and the recomputed virtual balance both covering the days; other categories get the previous-day message; a short Emergency balance gets the Balance helper's error with the Emergency type's name; a Bereavement request, or a covered Privilege/Casual one, without positive days gets "Total Leave days are 0" |
| LeaveRules.BalanceFailure | src/services/WolfDen.Application/Requests/Commands/LeaveManagement/LeaveRequests/AddLeaveRequest/AddLeaveRequestCommandHandler.cs:473-483 | always an error: "No Sufficient Leave" iff the balance is below the days, "Revoke or edit" otherwise |
| LeaveRules.Adjudicate | src/services/WolfDen.Application/Requests/Commands/LeaveManagement/LeaveRequests/AddLeaveRequest/AddLeaveRequestCommandHandler.cs:49-260 | an admitted request passed the row lookups, the duplicate-date and gender guards, takes its requested days (> 0), satisfies the balance gate unless future WorkFromHome, is a one-day 0.5 when half-day outside future WorkFromHome, meets notice and tenure when future and is not Bereavement, matches the restricted holiday count, and when retroactive is Bereavement or Privilege/Casual covered by the Emergency balance |
| LeaveRules.RowLookupsFirst | src/services/WolfDen.Application/Requests/Commands/LeaveManagement/LeaveRequests/AddLeaveRequest/AddLeaveRequestCommandHandler.cs:49-61 | a missing leave type gives "No Such Leave Type"; with the type found, a missing employee gives "No Such Employee"; with both found, a missing balance gives "Leave balance not found" |
| LeaveRules.DuplicateDateFirst | src/services/WolfDen.Application/Requests/Commands/LeaveManagement/LeaveRequests/AddLeaveRequest/AddLeaveRequestCommandHandler.cs:73-78 | once the rows exist, the request is refused with "already applied" iff one of its dates is held by an Open or Approved request |
| LeaveRules.GenderRules | src/services/WolfDen.Application/Requests/Commands/LeaveManagement/LeaveRequests/AddLeaveRequest/AddLeaveRequestCommandHandler.cs:248-256 | an unknown gender asks for the profile; Male with Maternity, Female with Paternity and any other gender are refused as gender specific |
| LeaveRules.FutureBereavementRefused | src/services/WolfDen.Application/Requests/Commands/LeaveManagement/LeaveRequests/AddLeaveRequest/AddLeaveRequestCommandHandler.cs:243-246 | a Bereavement request for a later day always ends in "Current Leave Cannot Be Applied" |
| LeaveRules.FutureWorkFromHomeIgnoresBalance | src/services/WolfDen.Application/Requests/Commands/LeaveManagement/LeaveRequests/AddLeaveRequest/AddLeaveRequestCommandHandler.cs:82-111 | the outcome of a future WorkFromHome request does not depend on the balance or the Open requests |
| LeaveRules.FutureWorkFromHomeHalfDayUnchecked | src/services/WolfDen.Application/Requests/Commands/LeaveManagement/LeaveRequests/AddLeaveRequest/AddLeaveRequestCommandHandler.cs:82-111 | a future half-day WorkFromHome request over three days, of a type without half days, is admitted for 1.5 days |
| LeaveRules.BalanceGateFailure | src/services/WolfDen.Application/Requests/Commands/LeaveManagement/LeaveRequests/AddLeaveRequest/AddLeaveRequestCommandHandler.cs:201-204 | a failed balance gate outside future WorkFromHome and future Bereavement yields the Balance helper's error for the request's own type |
| LeaveRules.RetroactiveDrawsOnEmergency | src/services/WolfDen.Application/Requests/Commands/LeaveManagement/LeaveRequests/AddLeaveRequest/AddLeaveRequestCommandHandler.cs:450-464 | a retroactive whole-day Privilege/Casual request past its own gate is refused iff the Emergency balance is short, with the Emergency type's name, and never with "Revoke or edit" |
| LeaveRules.RetroactiveOtherCategoriesRefused | src/services/WolfDen.Application/Requests/Commands/LeaveManagement/LeaveRequests/AddLeaveRequest/AddLeaveRequestCommandHandler.cs:467-470 | retroactive requests of other categories are always refused, with the previous-day message once past the balance and half-day checks |
| LeaveRules.FutureRequestErrors | src/services/WolfDen.Application/Requests/Commands/LeaveManagement/LeaveRequests/AddLeaveRequest/AddLeaveRequestCommandHandler.cs:114-198 | past the balance gate, a future request of a type without half days asked as a half day gets "Half Day Not Applicable", an allowed half day over more than one day "Half Day can Only Be Applied For One Day", then a failed notice its error, and otherwise the outcome is CheckOne's |
| LeaveRules.FutureWorkFromHomeErrors | src/services/WolfDen.Application/Requests/Commands/LeaveManagement/LeaveRequests/AddLeaveRequest/AddLeaveRequestCommandHandler.cs:82-111 | a future WorkFromHome request gets the notice error when the notice fails, and otherwise the outcome of the WorkFromHome check |
| LeaveRules.RetroactiveRequestErrors | src/services/WolfDen.Application/Requests/Commands/LeaveManagement/LeaveRequests/AddLeaveRequest/AddLeaveRequestCommandHandler.cs:207-242 | past the balance gate, a retroactive request gets the two half-day errors in that order, and otherwise the outcome of the previous-day rules |
| LeaveRules.FutureRequestAdmitted | src/services/WolfDen.Application/Requests/Commands/LeaveManagement/LeaveRequests/AddLeaveRequest/AddLeaveRequestCommandHandler.cs:114-198 | conversely, a future request whose balance, half-day, notice, tenure, restricted-holiday and non-zero rules all hold is admitted for its days |
| LeaveRules.FutureWorkFromHomeAdmitted | src/services/WolfDen.Application/Requests/Commands/LeaveManagement/LeaveRequests/AddLeaveRequest/AddLeaveRequestCommandHandler.cs:415-440 | a future WorkFromHome request with notice, tenure and non-zero days is admitted |
| LeaveRules.RetroactiveBereavementAdmitted | src/services/WolfDen.Application/Requests/Commands/LeaveManagement/LeaveRequests/AddLeaveRequest/AddLeaveRequestCommandHandler.cs:444-449 | a retroactive Bereavement request past its balance and half-day checks is admitted |
| LeaveStore.MailRecipients | src/services/WolfDen.Application/Requests/Commands/LeaveManagement/LeaveRequests/AddLeaveRequest/AddLeaveRequestCommandHandler.cs:276-287 | a SuperAdmin mails their own address without copy; anyone else mails the first manager address and copies the rest, and an empty list is an error |
| LeaveStore.OpenDays | src/services/WolfDen.Application/Requests/Commands/LeaveManagement/LeaveRequests/AddLeaveRequest/AddLeaveRequestCommandHandler.cs:62-63 | counts the day rows of the employee's Open requests of the type with the given half-day flag: at most all rows, none exactly when no row qualifies, all exactly when every row does |
| LeaveStore.RestrictedHolidayCount | src/services/WolfDen.Application/Requests/Commands/LeaveManagement/LeaveRequests/AddLeaveRequest/AddLeaveRequestCommandHandler.cs:368 | counts the restricted holidays between the two dates inclusive: zero exactly when there are none |
| LeaveStore.RestrictedHolidayCountAppend | src/services/WolfDen.Application/Requests/Commands/LeaveManagement/LeaveRequests/AddLeaveRequest/AddLeaveRequestCommandHandler.cs:368 | the count adds up over concatenated holiday lists and is one for a single restricted holiday within the range, zero for any other, so it is exactly the number of restricted holidays in the range |
| LeaveStore.CreationKeepsStoreInvariant | src/services/WolfDen.Application/Requests/Commands/LeaveManagement/LeaveRequests/AddLeaveRequest/AddLeaveRequestCommandHandler.cs:267-272 | recording a request under the next id, then its day rows, keeps the ids an identity column and every row pointing at a request |
| LeaveStore.CreationReservesDates | src/services/WolfDen.Application/Requests/Commands/LeaveManagement/LeaveRequests/AddLeaveRequest/AddLeaveRequestCommandHandler.cs:62-63 | recording a request with one row per date raises its employee's Open whole-day or half-day count for that type by the number of dates and leaves every other count unchanged |
| LeaveStore.CreationLowersVirtualBalance | src/services/WolfDen.Application/Requests/Commands/LeaveManagement/LeaveRequests/AddLeaveRequest/AddLeaveRequestCommandHandler.cs:64 | when the expander's count equals its dates, recording a request lowers the virtual balance by exactly the admitted days |
| LeaveStore.CreationBlocksSameDates | src/services/WolfDen.Application/Requests/Commands/LeaveManagement/LeaveRequests/AddLeaveRequest/AddLeaveRequestCommandHandler.cs:73-78 | after recording, the same dates under the same type are reported as already applied |
| LeaveStore.LeaveStore.FactsFor | src/services/WolfDen.Application/Requests/Commands/LeaveManagement/LeaveRequests/AddLeaveRequest/AddLeaveRequestCommandHandler.cs:41-78 | gathers the facts the decision reads: the type, the employee and the balance row for the request's ids, each None exactly when the table has no such row, and otherwise a row of that table; the Open whole-day and half-day counts as OpenDays gives them; the restricted holidays in the range as RestrictedHolidayCount gives them; an Emergency-category type, None exactly when there is none, and that type's balance row for the employee under the same rule; the duplicate-date test as AlreadyApplied states it; the command, today and expansion passed through |
| LeaveStore.LeaveStore.Apply | src/services/WolfDen.Application/Requests/Commands/LeaveManagement/LeaveRequests/AddLeaveRequest/AddLeaveRequestCommandHandler.cs:267-353 | a refused request leaves the store unchanged; an admitted one appends the Open request, then either fails on the mail routing with no day rows or appends one row per date and returns the new id, days and recipients |
| LeaveStore.LeaveStore.FindManagerIds | src/services/WolfDen.Application/Requests/Commands/LeaveManagement/LeaveRequests/AddLeaveRequest/AddLeaveRequestCommandHandler.cs:485-500 | returns the upward chain from the given manager: each id is an employee and the next id is its manager, ending at a null or unknown manager |
| LeaveStore.LeaveStore.ChainIsDistinct | src/services/WolfDen.Application/Requests/Commands/LeaveManagement/LeaveRequests/AddLeaveRequest/AddLeaveRequestCommandHandler.cs:485-500 | in an acyclic organisation chart no manager appears twice in the chain |
| LeaveStore.LeaveStore.ChainIsUnique | src/services/WolfDen.Application/Requests/Commands/LeaveManagement/LeaveRequests/AddLeaveRequest/AddLeaveRequestCommandHandler.cs:485-500 | the chain from a given start is unique |
| DailyDetails.LeaveStatus | src/services/WolfDen.Application/Requests/Queries/Attendence/DailyDetails/DailyDetailsQueryHandler.cs:76-80 | WFH iff the leave's type exists with the WorkFromHome category, otherwise Leave |
| DailyDetails.Details | src/services/WolfDen.Application/Requests/Queries/Attendence/DailyDetails/DailyDetailsQueryHandler.cs:17-101 | OngoingShift iff the date is today; weekends are NormalHoliday; a row is reported iff a weekday has one, with Present iff 360 minutes inside; logs accompany exactly the row; Absent, RestrictedHoliday and NormalHoliday each characterised by the record, holiday and approved-leave facts; on a working day without row or holiday, WFH iff the first approved leave on the date has the WorkFromHome category and Leave iff it exists with another category |
| AttendanceSummary.MonthEnd | src/services/WolfDen.Application/Requests/Queries/Attendence/AttendanceSummary/AttendanceSummaryQueryHandler.cs:20-21 | the month's last day lies its length minus one after the first |
| AttendanceSummary.Halve | src/services/WolfDen.Application/Requests/Queries/Attendence/AttendanceSummary/AttendanceSummaryQueryHandler.cs:75 | truncating halving: between x/2 rounded toward zero on either sign |
| AttendanceSummary.ToDictionary | src/services/WolfDen.Application/Requests/Queries/Attendence/AttendanceSummary/AttendanceSummaryQueryHandler.cs:57 | fails iff two half-day requests share a first date; otherwise maps every first date to its request |
| AttendanceSummary.Classify | src/services/WolfDen.Application/Requests/Queries/Attendence/AttendanceSummary/AttendanceSummaryQueryHandler.cs:78-143 | never OngoingShift; HalfDay only on a half day; a day is counted nowhere only without a row and on a holiday that is not normal |
| AttendanceSummary.ClassifyRules | src/services/WolfDen.Application/Requests/Queries/Attendence/AttendanceSummary/AttendanceSummaryQueryHandler.cs:78-143 | with a row: HalfDay, Present or IncompleteShift by the threshold and the half-day flag; without a row, a normal holiday counts as NormalHoliday; a restricted holiday counts as RestrictedHoliday iff the first covering leave has the RestrictedHoliday category, else nowhere; other holidays count nowhere; a day without row or holiday is Absent iff no leave covers it, WFH iff the first covering leave has the WorkFromHome category, Leave otherwise |
| AttendanceSummary.Count | src/services/WolfDen.Application/Requests/Queries/Attendence/AttendanceSummary/AttendanceSummaryQueryHandler.cs:86-140 | the status's own counter goes up by one and every other counter stays; no status changes nothing |
| AttendanceSummary.CountDay | src/services/WolfDen.Application/Requests/Queries/Attendence/AttendanceSummary/AttendanceSummaryQueryHandler.cs:78-95 | the counters after one weekday are the day's classification added to them |
| AttendanceSummary.CountUnrecordedDay | src/services/WolfDen.Application/Requests/Queries/Attendence/AttendanceSummary/AttendanceSummaryQueryHandler.cs:96-143 | for a weekday without an attendance row, the counters after it are the day's classification added to them |
| AttendanceSummary.CountWeekday | src/services/WolfDen.Application/Requests/Queries/Attendence/AttendanceSummary/AttendanceSummaryQueryHandler.cs:71-143 | one weekday of the loop halves the threshold exactly on a half-day first date and then counts the day as the specification's day step does |
| AttendanceSummary.CountNextDay | src/services/WolfDen.Application/Requests/Queries/Attendence/AttendanceSummary/AttendanceSummaryQueryHandler.cs:61-76 | one iteration of the loop, weekend or weekday, moves the counters and threshold from the fold up to a day to the fold up to the next |
| AttendanceSummary.StepRules | src/services/WolfDen.Application/Requests/Queries/Attendence/AttendanceSummary/AttendanceSummaryQueryHandler.cs:59-144 | a weekend leaves counters and threshold alone; a weekday halves the threshold exactly when it starts a half-day leave and raises the total by one exactly when the day is classified under the new threshold |
| AttendanceSummary.Load | src/services/WolfDen.Application/Requests/Queries/Attendence/AttendanceSummary/AttendanceSummaryQueryHandler.cs:37-55 | the month's rows are exactly the employee's attendance rows, holidays and approved overlapping leaves within the month, and the half-day list is exactly its approved half-day leaves |
| AttendanceSummary.CountMonth | src/services/WolfDen.Application/Requests/Queries/Attendence/AttendanceSummary/AttendanceSummaryQueryHandler.cs:59-144 | the loop's counters equal the fold of the day step over the month up to today |
| AttendanceSummary.Summarize | src/services/WolfDen.Application/Requests/Queries/Attendence/AttendanceSummary/AttendanceSummaryQueryHandler.cs:16-146 | invalid or last-possible months are errors; a repeated half-day first date is an error; otherwise the counters of the fold from the month's first day to the earlier of month end and today |
| AttendanceSummary.CountsBoundedByWeekdays | src/services/WolfDen.Application/Requests/Queries/Attendence/AttendanceSummary/AttendanceSummaryQueryHandler.cs:59-69 | the counters never total more than the weekdays passed |
| AttendanceSummary.EveryWeekdayCounted | src/services/WolfDen.Application/Requests/Queries/Attendence/AttendanceSummary/AttendanceSummaryQueryHandler.cs:96-143 | with only normal holidays, every weekday passed is counted exactly once |
| AttendanceSummary.WeekdayCounted | src/services/WolfDen.Application/Requests/Queries/Attendence/AttendanceSummary/AttendanceSummaryQueryHandler.cs:96-143 | with only normal holidays, one weekday raises the total by exactly one |
| AttendanceSummary.ThresholdHalvedPerHalfDay | src/services/WolfDen.Application/Requests/Queries/Attendence/AttendanceSummary/AttendanceSummaryQueryHandler.cs:71-76 | the threshold is the minimum halved once per half-day weekday passed so far |
| AttendanceSummary.HalveTimesDivides | src/services/WolfDen.Application/Requests/Queries/Attendence/AttendanceSummary/AttendanceSummaryQueryHandler.cs:75 | for a non-negative minimum, k halvings divide it by 2^k rounding down |
| AttendanceSummary.AgreesWithDailyDetails | src/services/WolfDen.Application/Requests/Queries/Attendence/AttendanceSummary/AttendanceSummaryQueryHandler.cs:78-143 | on a weekday of the month other than today, with threshold 360 and no half day, the summary counts the daily query's status, except on a special holiday where it counts RestrictedHoliday only when the daily query also says so, or nothing |
| AttendanceSummary.SameRowsAgree | src/services/WolfDen.Application/Requests/Queries/Attendence/AttendanceSummary/AttendanceSummaryQueryHandler.cs:78-143 | once the month's first row, holiday and covering leave for the date are the daily query's, the two classifications agree as above |
| AttendanceSummary.HalfDayDilutesThreshold | src/services/WolfDen.Application/Requests/Queries/Attendence/AttendanceSummary/AttendanceSummaryQueryHandler.cs:71-93 | 200 minutes against a halved 360 counts as a half day and against 360 as an incomplete shift |
| LeaveHistory.PageNumber | src/services/WolfDen.Application/Requests/Queries/LeaveManagement/LeaveRequests/GetLeaveRequestHistory/GetLeaveRequestHistoryQueryHandler.cs:15 | a positive page number is kept, anything else becomes 0 |
| LeaveHistory.PageSize | src/services/WolfDen.Application/Requests/Queries/LeaveManagement/LeaveRequests/GetLeaveRequestHistory/GetLeaveRequestHistoryQueryHandler.cs:16 | a positive page size is kept, anything else becomes 1 |
| LeaveHistory.SortDescending | src/services/WolfDen.Application/Requests/Queries/LeaveManagement/LeaveRequests/GetLeaveRequestHistory/GetLeaveRequestHistoryQueryHandler.cs:23 | a permutation of its input in non-increasing key order |
| LeaveHistory.Skip | src/services/WolfDen.Application/Requests/Queries/LeaveManagement/LeaveRequests/GetLeaveRequestHistory/GetLeaveRequestHistoryQueryHandler.cs:48 | drops the first n elements, none for a negative n, all when n exceeds the length |
| LeaveHistory.Take | src/services/WolfDen.Application/Requests/Queries/LeaveManagement/LeaveRequests/GetLeaveRequestHistory/GetLeaveRequestHistoryQueryHandler.cs:49 | keeps the first n elements, none for a negative n, all when n exceeds the length |
| LeaveHistory.Page | src/services/WolfDen.Application/Requests/Queries/LeaveManagement/LeaveRequests/GetLeaveRequestHistory/GetLeaveRequestHistoryQueryHandler.cs:47-49 | at most size rows, the k-th being row number*size+k of the list; full when the list reaches that far, non-empty when the offset is inside it |
| LeaveHistory.ListingIsSortedSelection | src/services/WolfDen.Application/Requests/Queries/LeaveManagement/LeaveRequests/GetLeaveRequestHistory/GetLeaveRequestHistoryQueryHandler.cs:19-44 | the listing is a permutation of the employee's requests with the asked-for status, in descending id order, and its length is their number |
| LeaveHistory.ListingIdsStrictlyDescend | src/services/WolfDen.Application/Requests/Queries/LeaveManagement/LeaveRequests/GetLeaveRequestHistory/GetLeaveRequestHistoryQueryHandler.cs:19-23 | with unique request ids the listing's ids strictly descend |
| LeaveHistory.PageShowsOnlyMatches | src/services/WolfDen.Application/Requests/Queries/LeaveManagement/LeaveRequests/GetLeaveRequestHistory/GetLeaveRequestHistoryQueryHandler.cs:39-49 | every row shown is one of the employee's requests with the asked-for status |
| LeaveHistory.History | src/services/WolfDen.Application/Requests/Queries/LeaveManagement/LeaveRequests/GetLeaveRequestHistory/GetLeaveRequestHistoryQueryHandler.cs:19-55 | TotalPages is the number of the employee's requests with the asked-for status; at most one page size of rows; empty exactly when the page starts at or past that number |
| LeaveHistory.HistoryAsWritten | src/services/WolfDen.Application/Requests/Queries/LeaveManagement/LeaveRequests/GetLeaveRequestHistory/GetLeaveRequestHistoryQueryHandler.cs:47-54 | the code's version reports the same TotalPages as the intended one and never more rows than the page size |
| LeaveHistory.PagesTileTheList | src/services/WolfDen.Application/Requests/Queries/LeaveManagement/LeaveRequests/GetLeaveRequestHistory/GetLeaveRequestHistoryQueryHandler.cs:47-49 | pages 0 to n-1 shown in turn are exactly the start of the listing |
| LeaveHistory.Wrap32 | src/services/WolfDen.Application/Requests/Queries/LeaveManagement/LeaveRequests/GetLeaveRequestHistory/GetLeaveRequestHistoryQueryHandler.cs:48 | unchecked 32-bit wrap: equal to the input when it fits, congruent to it modulo 2^32 |
| LeaveHistory.AsWrittenAgreesWithoutOverflow | src/services/WolfDen.Application/Requests/Queries/LeaveManagement/LeaveRequests/GetLeaveRequestHistory/GetLeaveRequestHistoryQueryHandler.cs:48 | while page number times size fits in an int, the page the code returns is the intended one |
| LeaveHistory.OverflowingOffsetShowsFirstPage | src/services/WolfDen.Application/Requests/Queries/LeaveManagement/LeaveRequests/GetLeaveRequestHistory/GetLeaveRequestHistoryQueryHandler.cs:48 | page 65536 of size 65536 of a one-row history shows that row, where the intended page is empty |

## Left out

- Request validation (`AddLeaveRequestValidator`, lines 35-40) is not part of this model.
- Identity roles are not modelled. The SuperAdmin test becomes a boolean parameter.
- `CalculateLeaveDays` is not part of this model. Its day count and date list are an input, `Expansion`.
- `ManagerEmailFinder.FindManagerEmailsAsync` is not part of this model. Its address list is a parameter of `Apply`.
- The mail body, `SendMail` and the notifications sent per manager are I/O and are left out. Only the choice of recipients and the chain of manager ids are modelled.
- `AddLeaveRequestDayCommand` is not part of this model. Its effect is taken to be one day row per expanded date.
- The dereference of `employee.UserId` before the employee null check is not modelled. A missing employee is the `NoSuchEmployee` error.
- A missing Emergency type or Emergency balance throws a null dereference in the code. It is the `EmergencyLeaveMissing` error here.
- The wall clock is not read. `today` is a parameter of every operation that uses it.
- The daily query's leave type is read through a navigation property that always exists in the database. A leave whose type is not in the list is reported as Leave.
- Database concurrency and transactions are not modelled. `Apply` runs alone.
- The async plumbing is not modelled. The request is saved before the mail recipients are chosen, and `Apply` states that order.
- LeaveStore.LeaveStore.FindManagerIds: requires an acyclic organisation chart, given as a ghost rank that drops from each employee to their manager (`Ranked(rank)`), so that the walk terminates. On a cyclic chart the recursion at lines 485-500 of `AddLeaveRequestCommandHandler.cs` never ends. The model does not cover that case.
- The history shows the leave type name and the manager's first name. The model keeps their ids, because the names come from other tables.

## Findings

| source | as written | input that shows it | evidently intended | confidence | as-written member | corrected member |
|---|---|---|---|---|---|---|
| src/services/WolfDen.Application/Requests/Queries/LeaveManagement/LeaveRequests/GetLeaveRequestHistory/GetLeaveRequestHistoryQueryHandler.cs:48 | `Skip(pageNumber * pageSize)` multiplies two ints unchecked, so a large page number wraps to a small or negative offset and `Skip` of it shows the first rows | PageNumber = PageSize = 65536 on a one-request history: the offset 2^32 wraps to 0 and the one request is shown | rows `[pageNumber*pageSize, pageNumber*pageSize+pageSize)` of the list, empty beyond its end | medium; not executed | LeaveHistory.OverflowingOffsetShowsFirstPage | LeaveHistory.Page |
