/** The rules inside the leave views (leaves/views.py): the guards of the AJAX approve and cancel
    endpoints, the month and year the calendar page shows with its previous/next links, and the
    cells of the calendar grid. */
module LeaveViews {
  import opened Results
  import opened Dates
  import opened Text
  import opened LeaveModels
  import opened LeaveServices
  import LeaveForms

  // ---------------------------------------------------------------------------------------
  // approve_leave_ajax, cancel_leave_ajax

  datatype AjaxError = NotPending | InvalidAction | ReasonRequired | PermissionDenied | CannotCancel

  datatype Decision = Approve | Reject

  /** The `reason` field as the view reads it: missing is '', and it is stripped. */
  function ReasonText(reason: Option<string>): string {
    Strip(if reason.Some? then reason.value else "")
  }

  /** The checks of `approve_leave_ajax`, in order: the request must be PENDING (checked before
      the action is even read), the action must be `approve` or `reject`, and a rejection needs
      a reason that is not blank. */
  function ApprovalDecision(status: Status, action: Option<string>, reason: Option<string>): (res: Result<Decision, AjaxError>)
    ensures status != Pending ==> res == Err(NotPending)
    ensures res == Ok(Approve) <==> status == Pending && action == Some("approve")
    ensures res == Ok(Reject) <==> status == Pending && action == Some("reject") && ReasonText(reason) != []
    ensures res == Err(InvalidAction) <==> status == Pending && action != Some("approve") && action != Some("reject")
    ensures res == Err(ReasonRequired) <==> status == Pending && action == Some("reject") && ReasonText(reason) == []
  {
    if status != Pending then Err(NotPending)
    else if action != Some("approve") && action != Some("reject") then Err(InvalidAction)
    else if action == Some("reject") && ReasonText(reason) == [] then Err(ReasonRequired)
    else if action == Some("approve") then Ok(Approve)
    else Ok(Reject)
  }

  /** The approval form and the AJAX view accept the same decisions on a pending request: an
      approval always, a rejection exactly when its stripped reason is non-empty. */
  lemma FormAgreesWithView(action: Option<string>, reason: Option<string>)
    requires action == Some("approve") || action == Some("reject")
    ensures LeaveForms.ApprovalFormValid(action, ReasonText(reason)) <==> ApprovalDecision(Pending, action, reason).Ok?
  {
  }


  /** `approve_leave_ajax` on request `pk` by `user`: a refused call changes nothing; otherwise
      the service approves or rejects with the stripped reason, and the new status is returned.
      An approval recomputes the balance row of the request's employee, type and year. */
  method ApproveLeaveAjax(db: LeaveDatabase, pk: nat, user: UserId, action: Option<string>, reason: Option<string>, now: int)
    returns (res: Result<Status, AjaxError>)
    requires db.Valid() && pk < |db.requests|
    modifies db`requests, db`history, db`balances
    ensures db.Valid()
    ensures var d := ApprovalDecision(old(db.requests[pk].status), action, reason);
            && (d.Err? ==> res == Err(d.error) && unchanged(db))
            && (d == Ok(Approve) ==>
                  res == Ok(Approved)
                  && db.requests == old(db.requests)[pk := ApprovedRow(old(db.requests[pk]), user, now)]
                  && db.history == old(db.history) + [StatusChange(pk, Pending, Approved, user, ReasonText(reason))]
                  && db.balances == RecomputedBalances(old(db.balances), db.requests, old(db.requests[pk].employee),
                                                       old(db.requests[pk].leaveType.code), old(db.requests[pk].start.year)))
            && (d == Ok(Reject) ==>
                  res == Ok(Rejected) && db.balances == old(db.balances)
                  && db.requests == old(db.requests)[pk := RejectedRow(old(db.requests[pk]), ReasonText(reason), now)]
                  && db.history == old(db.history) + [StatusChange(pk, Pending, Rejected, user, ReasonText(reason))])
  {
    var decision := ApprovalDecision(db.requests[pk].status, action, reason);
    if decision.Err? {
      return Err(decision.error);
    }
    var text := ReasonText(reason);
    if decision.value == Approve {
      var r := ApproveLeaveRequest(db, pk, user, text, now);
      res := Ok(r.status);
    } else {
      var r := RejectLeaveRequest(db, pk, user, text, now);
      res := Ok(r.status);
    }
  }

  /** Because the view only lets PENDING requests through, an approval or rejection made through
      it keeps the table free of overlapping active requests (which the service alone does not,
      see `ApprovingRejectedCanOverlap`). */
  lemma ViewTransitionsKeepNoOverlaps(rs: seq<LeaveRequest>, pk: nat, user: UserId, action: Option<string>,
                                      reason: Option<string>, now: int)
    requires NoActiveOverlaps(rs) && pk < |rs|
    ensures ApprovalDecision(rs[pk].status, action, reason) == Ok(Approve) ==>
              NoActiveOverlaps(rs[pk := ApprovedRow(rs[pk], user, now)])
    ensures ApprovalDecision(rs[pk].status, action, reason) == Ok(Reject) ==>
              NoActiveOverlaps(rs[pk := RejectedRow(rs[pk], ReasonText(reason), now)])
  {
    TransitionsKeepNoOverlaps(rs, pk, user, ReasonText(reason), now);
  }

  /** The checks of `cancel_leave_ajax`: only the requester may cancel, and only a request that
      can be cancelled on `today`. */
  function CancelDecision(user: UserId, r: LeaveRequest, today: CalendarDate): (res: Result<(), AjaxError>)
    ensures res.Ok? <==> user == r.employee && CanBeCancelled(r, today)
    ensures res == Err(PermissionDenied) <==> user != r.employee
  {
    if user != r.employee then Err(PermissionDenied)
    else if !CanBeCancelled(r, today) then Err(CannotCancel)
    else Ok(())
  }

  /** `cancel_leave_ajax`: a refused call changes nothing; otherwise the service cancels the
      request with the reason "Cancelled by user", which then always succeeds and recomputes
      the balance row of the request's employee, type and year. */
  method CancelLeaveAjax(db: LeaveDatabase, pk: nat, user: UserId, today: CalendarDate, now: int)
    returns (res: Result<Status, AjaxError>)
    requires db.Valid() && pk < |db.requests|
    modifies db`requests, db`history, db`balances
    ensures db.Valid()
    ensures var d := CancelDecision(user, old(db.requests[pk]), today);
            && (d.Err? ==> res == Err(d.error) && unchanged(db))
            && (d.Ok? ==>
                  res == Ok(Cancelled)
                  && db.requests == old(db.requests)[pk := CancelledRow(old(db.requests[pk]), now)]
                  && db.history == old(db.history)
                                   + [StatusChange(pk, old(db.requests[pk].status), Cancelled, user, "Cancelled by user")]
                  && db.balances == RecomputedBalances(old(db.balances), db.requests, old(db.requests[pk].employee),
                                                       old(db.requests[pk].leaveType.code), old(db.requests[pk].start.year)))
  {
    var decision := CancelDecision(user, db.requests[pk], today);
    if decision.Err? {
      return Err(decision.error);
    }
    var r := CancelLeaveRequest(db, pk, user, "Cancelled by user", today, now);
    match r {
      case Ok(row) => res := Ok(row.status);
      case Err(_) => assert false; res := Err(CannotCancel);
    }
  }

  // ---------------------------------------------------------------------------------------
  // leave_calendar_view

  /** The value asked for: the cleaned one when the filter form is valid; otherwise the raw
      parameter, when it is present and not blank, read with `int()` (unreadable text leaves the
      current value). */
  function Requested(formValid: bool, cleaned: Option<int>, param: Option<string>): Option<int> {
    if formValid then cleaned
    else if param.Some? && !IsBlank(param.value) then ParseInt(param.value)
    else None
  }

  /** The month shown: the one asked for when it is a month, else the current month. */
  function ChosenMonth(requested: Option<int>, today: CalendarDate): (m: int)
    ensures 1 <= m <= 12
    ensures requested.Some? && 1 <= requested.value <= 12 ==> m == requested.value
    ensures !(requested.Some? && 1 <= requested.value <= 12) ==> m == today.month
  {
    if requested.Some? && 1 <= requested.value <= 12 then requested.value else today.month
  }

  /** The year shown: the one asked for when within ten years of the current one, else the
      current year. */
  function ChosenYear(requested: Option<int>, today: CalendarDate): (y: int)
    ensures today.year - 10 <= y <= today.year + 10
    ensures requested.Some? && today.year - 10 <= requested.value <= today.year + 10 ==> y == requested.value
    ensures !(requested.Some? && today.year - 10 <= requested.value <= today.year + 10) ==> y == today.year
  {
    if requested.Some? && today.year - 10 <= requested.value <= today.year + 10 then requested.value else today.year
  }

  /** The month and year steps of `leave_calendar_view`: start from today's, take the form's or
      the raw parameters', then reset an out-of-range month or year to today's. */
  method CalendarMonthYear(formValid: bool, cleanedMonth: Option<int>, cleanedYear: Option<int>,
                           monthParam: Option<string>, yearParam: Option<string>, today: CalendarDate)
    returns (month: int, year: int)
    ensures month == ChosenMonth(Requested(formValid, cleanedMonth, monthParam), today)
    ensures year == ChosenYear(Requested(formValid, cleanedYear, yearParam), today)
  {
    month := today.month;
    year := today.year;
    if formValid {
      if cleanedMonth.Some? {
        month := cleanedMonth.value;
      }
      if cleanedYear.Some? {
        year := cleanedYear.value;
      }
    } else {
      if monthParam.Some? && !IsBlank(monthParam.value) {
        var parsed := ParseInt(monthParam.value);
        month := if parsed.Some? then parsed.value else today.month;
      }
      if yearParam.Some? && !IsBlank(yearParam.value) {
        var parsed := ParseInt(yearParam.value);
        year := if parsed.Some? then parsed.value else today.year;
      }
    }
    if !(1 <= month <= 12) {
      month := today.month;
    }
    if !(today.year - 10 <= year <= today.year + 10) {
      year := today.year;
    }
  }

  /** The days the calendar page covers: from the first of the month to the day before the
      first of the next month (December rolling into January of the next year), which is the
      month's last day. */
  function CalendarRange(year: int, month: int): (r: (CalendarDate, CalendarDate))
    requires 1 <= year && 1 <= month <= 12
    ensures r.0 == Date(year, month, 1)
    ensures Ordinal(r.1) == Ordinal(FirstOfNextMonth(year, month)) - 1
    ensures r.1.year == year && r.1.month == month
  {
    NextMonthFollowsLastDay(year, month);
    (Date(year, month, 1), LastOfMonth(Date(year, month, 1)))
  }

  /** The "previous month" link: January goes to December of the year before. */
  function PrevMonth(month: int, year: int): (r: (int, int))
    requires 1 <= month <= 12
    ensures 1 <= r.0 <= 12
    ensures month == 1 ==> r == (12, year - 1)
    ensures month > 1 ==> r == (month - 1, year)
  {
    if month == 1 then (12, year - 1) else (month - 1, year)
  }

  /** The "next month" link: December goes to January of the year after. */
  function NextMonth(month: int, year: int): (r: (int, int))
    requires 1 <= month <= 12
    ensures 1 <= r.0 <= 12
    ensures month == 12 ==> r == (1, year + 1)
    ensures month < 12 ==> r == (month + 1, year)
  {
    if month == 12 then (1, year + 1) else (month + 1, year)
  }

  /** The two links undo each other. */
  lemma NavigationRoundTrip(month: int, year: int)
    requires 1 <= month <= 12
    ensures PrevMonth(NextMonth(month, year).0, NextMonth(month, year).1) == (month, year)
    ensures NextMonth(PrevMonth(month, year).0, PrevMonth(month, year).1) == (month, year)
  {
  }

  /** The next link leads to the month that starts the day after the shown range ends. */
  lemma NextMonthIsAdjacent(month: int, year: int)
    requires 1 <= year && 1 <= month <= 12
    ensures var (m, y) := NextMonth(month, year);
            Valid(Date(y, m, 1)) && Ordinal(Date(y, m, 1)) == Ordinal(CalendarRange(year, month).1) + 1
  {
  }

  // ---------------------------------------------------------------------------------------
  // generate_calendar_weeks

  /** One cell of the month grid: an empty cell for a day of another month, or a day of the
      month with its flags and the requests shown on it. */
  datatype GridCell =
    | OtherMonth
    | InMonth(date: CalendarDate, isToday: bool, isWeekend: bool, isHoliday: bool, requests: seq<nat>)

  /** The team-calendar entry of ordinal `d`, if the calendar covers it (the `.get(day_date, {})`). */
  function EntryOf(first: int, days: seq<CalendarDay>, d: int): Option<CalendarDay> {
    if first <= d < first + |days| then Some(days[d - first]) else None
  }

  /** At most the first three of a list (`xs[:3]`). */
  function FirstThree(xs: seq<nat>): (r: seq<nat>)
    ensures r <= xs && |r| <= 3
    ensures |xs| <= 3 ==> r == xs
  {
    if |xs| <= 3 then xs else xs[..3]
  }

  /** The cell for grid number `day` of the month (0 marks a day of another month). */
  function GridCellOf(year: int, month: int, day: int, first: int, days: seq<CalendarDay>, today: CalendarDate): (c: GridCell)
    requires day == 0 || (1 <= year && 1 <= month <= 12 && 1 <= day <= DaysInMonth(year, month))
    ensures c.OtherMonth? <==> day == 0
    ensures c.InMonth? ==>
              c.date == Date(year, month, day) && (c.isToday <==> c.date == today)
              && (c.isWeekend <==> Weekday(Ordinal(c.date)) == 5 || Weekday(Ordinal(c.date)) == 6)
              && |c.requests| <= 3
    ensures c.InMonth? ==>
              var entry := EntryOf(first, days, Ordinal(c.date));
              (entry.None? ==> c.requests == [] && !c.isHoliday)
              && (entry.Some? ==> c.requests <= entry.value.requests && c.isHoliday == entry.value.isHoliday)
  {
    if day == 0 then OtherMonth
    else
      var date: CalendarDate := Date(year, month, day);
      var d := Ordinal(date);
      var entry := EntryOf(first, days, d);
      InMonth(date, date == today, Weekday(d) == 5 || Weekday(d) == 6,
              entry.Some? && entry.value.isHoliday, if entry.Some? then FirstThree(entry.value.requests) else [])
  }

  /** Whether every number of the grid is 0 or a day of the month. */
  predicate GridOfMonth(year: int, month: int, grid: seq<seq<int>>) {
    forall w, i :: 0 <= w < |grid| && 0 <= i < |grid[w]| ==>
      grid[w][i] == 0 || (1 <= year && 1 <= month <= 12 && 1 <= grid[w][i] <= DaysInMonth(year, month))
  }

  /** `generate_calendar_weeks`: one row of cells per week of the month grid, built cell by
      cell. The grid itself (which weekday starts a row) is the calendar library's and is given. */
  method GenerateCalendarWeeks(year: int, month: int, grid: seq<seq<int>>, first: int, days: seq<CalendarDay>,
                               today: CalendarDate)
    returns (weeks: seq<seq<GridCell>>)
    requires GridOfMonth(year, month, grid)
    ensures |weeks| == |grid|
    ensures forall w :: 0 <= w < |grid| ==> |weeks[w]| == |grid[w]|
    ensures forall w, i :: 0 <= w < |grid| && 0 <= i < |grid[w]| ==>
              weeks[w][i] == GridCellOf(year, month, grid[w][i], first, days, today)
  {
    weeks := [];
    var w := 0;
    while w < |grid|
      invariant 0 <= w <= |grid| && |weeks| == w
      invariant forall v :: 0 <= v < w ==> |weeks[v]| == |grid[v]|
      invariant forall v, i :: 0 <= v < w && 0 <= i < |grid[v]| ==>
                  weeks[v][i] == GridCellOf(year, month, grid[v][i], first, days, today)
    {
      var row := WeekRow(year, month, grid[w], first, days, today);
      weeks := weeks + [row];
      w := w + 1;
    }
  }

  /** The inner loop of `generate_calendar_weeks`: the cells of one week. */
  method WeekRow(year: int, month: int, week: seq<int>, first: int, days: seq<CalendarDay>, today: CalendarDate)
    returns (row: seq<GridCell>)
    requires forall i :: 0 <= i < |week| ==>
               week[i] == 0 || (1 <= year && 1 <= month <= 12 && 1 <= week[i] <= DaysInMonth(year, month))
    ensures |row| == |week|
    ensures forall i :: 0 <= i < |week| ==> row[i] == GridCellOf(year, month, week[i], first, days, today)
  {
    row := [];
    var i := 0;
    while i < |week|
      invariant 0 <= i <= |week| && |row| == i
      invariant forall j :: 0 <= j < i ==> row[j] == GridCellOf(year, month, week[j], first, days, today)
    {
      var cell: GridCell;
      var day := week[i];
      if day == 0 {
        cell := OtherMonth;
      } else {
        var date: CalendarDate := Date(year, month, day);
        var d := Ordinal(date);
        var entry := EntryOf(first, days, d);
        var requests := if entry.Some? then entry.value.requests else [];
        cell := InMonth(date, date == today, Weekday(d) == 5 || Weekday(d) == 6,
                        entry.Some? && entry.value.isHoliday, if |requests| > 0 then FirstThree(requests) else []);
      }
      row := row + [cell];
      i := i + 1;
    }
  }

  /** On the calendar the page builds for the month, a cell of the month shows the first (up
      to) three requests the team calendar lists for its day, in the query's order, and that
      day's holiday flag. */
  lemma MonthCellsShowTeamCalendar(rs: seq<LeaveRequest>, es: seq<Entitlement>, holidays: seq<Holiday>,
                                   department: Option<string>, year: int, month: int, days: seq<CalendarDay>,
                                   day: int, today: CalendarDate)
    requires 1 <= year && 1 <= month <= 12 && 1 <= day <= DaysInMonth(year, month)
    requires var (s, e) := CalendarRange(year, month);
             |days| == Ordinal(e) - Ordinal(s) + 1
             && forall i :: 0 <= i < |days| ==>
                  days[i] == CalendarCell(rs, es, holidays, department, Ordinal(s), Ordinal(e), Ordinal(s) + i)
    ensures var (s, e) := CalendarRange(year, month);
            var c := GridCellOf(year, month, day, Ordinal(s), days, today);
            c.InMonth?
            && c.requests == FirstThree(DayRequests(rs, es, department, Ordinal(s), Ordinal(e), Ordinal(c.date)))
            && (c.isHoliday <==> IsHolidayOn(holidays, Ordinal(c.date)))
  {
    var (s, e) := CalendarRange(year, month);
    var date: CalendarDate := Date(year, month, day);
    var first, last, d := Ordinal(s), Ordinal(e), Ordinal(date);
    DayOfMonthOrdinal(year, month, day);
    assert first <= d <= last && |days| == last - first + 1;
    assert forall i :: 0 <= i < |days| ==> days[i] == CalendarCell(rs, es, holidays, department, first, last, first + i);
    EntryIsCell(rs, es, holidays, department, first, last, d, days);
    var cell := CalendarCell(rs, es, holidays, department, first, last, d);
    assert cell.requests == DayRequests(rs, es, department, first, last, d);
    assert cell.isHoliday == IsHolidayOn(holidays, d);
    GridCellOfEntry(year, month, day, first, days, today, cell);
  }

  /** A day of the month whose entry is found shows that entry's holiday flag and first three
      requests. */
  lemma GridCellOfEntry(year: int, month: int, day: int, first: int, days: seq<CalendarDay>, today: CalendarDate,
                        cell: CalendarDay)
    requires 1 <= year && 1 <= month <= 12 && 1 <= day <= DaysInMonth(year, month)
    requires EntryOf(first, days, Ordinal(Date(year, month, day))) == Some(cell)
    ensures var c := GridCellOf(year, month, day, first, days, today);
            c.InMonth? && c.date == Date(year, month, day)
            && c.requests == FirstThree(cell.requests) && c.isHoliday == cell.isHoliday
  {
  }

  /** Day `day` of the month lies `day - 1` days after the first, and no later than the last. */
  lemma DayOfMonthOrdinal(year: int, month: int, day: int)
    requires 1 <= year && 1 <= month <= 12 && 1 <= day <= DaysInMonth(year, month)
    ensures var (s, e) := CalendarRange(year, month);
            Ordinal(Date(year, month, day)) == Ordinal(s) + day - 1
            && Ordinal(e) == Ordinal(s) + DaysInMonth(year, month) - 1
  {
  }

  /** A day `d` of the range `s..e` finds, in the team calendar of that range, its own cell. */
  lemma EntryIsCell(rs: seq<LeaveRequest>, es: seq<Entitlement>, holidays: seq<Holiday>,
                    department: Option<string>, s: int, e: int, d: int, days: seq<CalendarDay>)
    requires s <= d <= e && |days| == e - s + 1
    requires forall i :: 0 <= i < |days| ==> days[i] == CalendarCell(rs, es, holidays, department, s, e, s + i)
    ensures EntryOf(s, days, d) == Some(CalendarCell(rs, es, holidays, department, s, e, d))
  {
    assert days[d - s] == CalendarCell(rs, es, holidays, department, s, e, s + (d - s));
  }

  /** A cell shows the latest-starting requests of its day: every request the team calendar
      lists for the day but the cell leaves out starts no later than each request shown. */
  lemma ShownAreLatestStarting(rs: seq<LeaveRequest>, es: seq<Entitlement>, department: Option<string>,
                               s: int, e: int, d: int, k: nat, shown: nat)
    requires k < |rs| && Listed(rs, es, department, s, e, k, d)
    requires var c := FirstThree(DayRequests(rs, es, department, s, e, d)); k !in c && shown in c
    ensures shown < |rs| && Ordinal(rs[shown].start) >= Ordinal(rs[k].start)
  {
    var l := DayRequests(rs, es, department, s, e, d);
    DayRequestsLatestFirst(rs, es, department, s, e, d);
    var c := FirstThree(l);
    var j :| 0 <= j < |l| && l[j] == k;
    var i :| 0 <= i < |c| && c[i] == shown;
    assert l[i] == shown;
    assert i < j;
  }
}
