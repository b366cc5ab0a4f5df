/** `LeaveCalculationService` (leaves/services.py): working-day counting, the per-employee
    summary, the eligibility check, the request state machine with its audit trail and balance
    rows, the team calendar and the entitlement import. */
module LeaveServices {
  import opened Results
  import opened Dates
  import opened Text
  import opened LeaveModels

  // ---------------------------------------------------------------------------------------
  // calculate_leave_duration

  /** Whether the walk skips ordinal `d`: a Saturday or Sunday, or a holiday. */
  predicate Skipped(d: int, holidays: set<int>, excludeWeekends: bool, excludeHolidays: bool) {
    (excludeWeekends && (Weekday(d) == 5 || Weekday(d) == 6)) || (excludeHolidays && d in holidays)
  }

  /** The days `calculate_leave_duration` counts over the ordinals `s..e`: one per day not skipped. */
  function ServiceDays(s: int, e: int, holidays: set<int>, excludeWeekends: bool, excludeHolidays: bool): (n: nat)
    ensures e < s ==> n == 0
    ensures e >= s ==> n <= e - s + 1
    decreases e - s
  {
    if e < s then 0
    else ServiceDays(s, e - 1, holidays, excludeWeekends, excludeHolidays)
         + (if Skipped(e, holidays, excludeWeekends, excludeHolidays) then 0 else 1)
  }

  /** The ordinals of the active holidays dated within `s..e` (the `date__range` query). */
  function ActiveHolidays(holidays: seq<Holiday>, s: int, e: int): (r: set<int>)
    ensures forall d :: d in r ==> s <= d <= e
  {
    set h | h in holidays && h.isActive && s <= Ordinal(h.date) <= e :: Ordinal(h.date)
  }

  /** The whole-day duration of `start..end`, 0 when a date is missing or the range is reversed. */
  function LeaveDuration(holidays: seq<Holiday>, start: Option<CalendarDate>, end: Option<CalendarDate>,
                         excludeWeekends: bool, excludeHolidays: bool): (n: nat)
    ensures start.None? || end.None? || Ordinal(end.value) < Ordinal(start.value) ==> n == 0
    ensures start.Some? && end.Some? && Ordinal(start.value) <= Ordinal(end.value) ==>
              n <= Ordinal(end.value) - Ordinal(start.value) + 1
  {
    if start.None? || end.None? || Ordinal(end.value) < Ordinal(start.value) then 0
    else
      var s := Ordinal(start.value);
      var e := Ordinal(end.value);
      ServiceDays(s, e, if excludeHolidays then ActiveHolidays(holidays, s, e) else {}, excludeWeekends, excludeHolidays)
  }

  /** `calculate_leave_duration`: walks the days from start to end, counting each one that is
      neither a skipped weekend day nor a skipped holiday. */
  method CalculateLeaveDuration(holidays: seq<Holiday>, start: Option<CalendarDate>, end: Option<CalendarDate>,
                                excludeWeekends: bool, excludeHolidays: bool)
    returns (duration: nat)
    ensures duration == LeaveDuration(holidays, start, end, excludeWeekends, excludeHolidays)
  {
    if start.None? || end.None? || Ordinal(end.value) < Ordinal(start.value) {
      return 0;
    }
    var s := Ordinal(start.value);
    var e := Ordinal(end.value);
    var skip: set<int> := {};
    if excludeHolidays {
      skip := ActiveHolidays(holidays, s, e);
    }
    duration := CountServiceDays(s, e, skip, excludeWeekends, excludeHolidays);
  }

  /** The day walk of `calculate_leave_duration` over the ordinals `s..e`. */
  method CountServiceDays(s: int, e: int, skip: set<int>, excludeWeekends: bool, excludeHolidays: bool)
    returns (duration: nat)
    requires s <= e
    ensures duration == ServiceDays(s, e, skip, excludeWeekends, excludeHolidays)
  {
    duration := 0;
    var current := s;
    while current <= e
      invariant s <= current <= e + 1
      invariant duration == ServiceDays(s, current - 1, skip, excludeWeekends, excludeHolidays)
      decreases e - current
    {
      if excludeWeekends && (Weekday(current) == 5 || Weekday(current) == 6) {
        current := current + 1;
        continue;
      }
      if excludeHolidays && current in skip {
        current := current + 1;
        continue;
      }
      duration := duration + 1;
      current := current + 1;
    }
  }

  /** Only the holidays inside `s..e` matter to the count over `s..e`. */
  lemma {:induction false} ServiceDaysLocal(s: int, e: int, h1: set<int>, h2: set<int>, excludeWeekends: bool, excludeHolidays: bool)
    requires forall d :: s <= d <= e ==> (d in h1 <==> d in h2)
    ensures ServiceDays(s, e, h1, excludeWeekends, excludeHolidays) == ServiceDays(s, e, h2, excludeWeekends, excludeHolidays)
    decreases e - s
  {
    if e >= s {
      ServiceDaysLocal(s, e - 1, h1, h2, excludeWeekends, excludeHolidays);
    }
  }

  /** With the same holidays, a later end never counts fewer days. */
  lemma {:induction false} ServiceDaysMonotone(s: int, e1: int, e2: int, h: set<int>, excludeWeekends: bool, excludeHolidays: bool)
    requires e1 <= e2
    ensures ServiceDays(s, e1, h, excludeWeekends, excludeHolidays) <= ServiceDays(s, e2, h, excludeWeekends, excludeHolidays)
    decreases e2 - e1
  {
    if e1 < e2 {
      ServiceDaysMonotone(s, e1, e2 - 1, h, excludeWeekends, excludeHolidays);
    }
  }

  /** With the start fixed, moving the end later never decreases the duration, even though the
      holiday query is taken over the new range. */
  lemma LeaveDurationMonotone(holidays: seq<Holiday>, start: CalendarDate, end1: CalendarDate, end2: CalendarDate,
                              excludeWeekends: bool, excludeHolidays: bool)
    requires OnOrBefore(end1, end2)
    ensures LeaveDuration(holidays, Some(start), Some(end1), excludeWeekends, excludeHolidays)
            <= LeaveDuration(holidays, Some(start), Some(end2), excludeWeekends, excludeHolidays)
  {
    var s, e1, e2 := Ordinal(start), Ordinal(end1), Ordinal(end2);
    if s <= e1 {
      var h1 := if excludeHolidays then ActiveHolidays(holidays, s, e1) else {};
      var h2 := if excludeHolidays then ActiveHolidays(holidays, s, e2) else {};
      forall d | s <= d <= e1
        ensures d in h1 <==> d in h2
      {
        if excludeHolidays && d in h2 {
          var h :| h in holidays && h.isActive && s <= Ordinal(h.date) <= e2 && Ordinal(h.date) == d;
          assert d in h1;
        }
      }
      ServiceDaysLocal(s, e1, h1, h2, excludeWeekends, excludeHolidays);
      ServiceDaysMonotone(s, e1, e2, h2, excludeWeekends, excludeHolidays);
    }
  }

  /** Without holidays the service count is the model's full-day count in whole days, and with
      holidays it is never more. */
  lemma {:induction false} ServiceCountsLikeModel(s: int, e: int, h: set<int>)
    ensures 10 * ServiceDays(s, e, h, true, false) == WeekdayTenths(s, e, false)
    ensures 10 * ServiceDays(s, e, h, true, true) <= WeekdayTenths(s, e, false)
    decreases e - s
  {
    if e >= s {
      ServiceCountsLikeModel(s, e - 1, h);
    }
  }

  /** A holiday on a working day is charged by `LeaveRequest.calculate_duration` but not by the
      service: a one-day request on an active holiday counts 0 days here and 1 day there. */
  lemma HolidayChargedOnlyByModel(holidays: seq<Holiday>, d: CalendarDate)
    requires Weekday(Ordinal(d)) < 5
    requires exists h :: h in holidays && h.isActive && h.date == d
    ensures LeaveDuration(holidays, Some(d), Some(d), true, true) == 0
    ensures WeekdayTenths(Ordinal(d), Ordinal(d), false) == 10
  {
    var h :| h in holidays && h.isActive && h.date == d;
    assert Ordinal(d) in ActiveHolidays(holidays, Ordinal(d), Ordinal(d));
  }

  // ---------------------------------------------------------------------------------------
  // get_employee_leave_summary

  datatype TypeTotals = TypeTotals(approved: Tenths, pending: Tenths, total: Tenths)

  datatype LeaveSummary = LeaveSummary(
    entitlement: Entitlement,
    totalAvailable: Tenths,
    approvedDays: Tenths,
    pendingDays: Tenths,
    remainingDays: Tenths,
    utilization: Percent,
    byType: map<string, TypeTotals>)

  function ApprovedQuery(employee: UserId, year: int, code: Option<string>): Query {
    Query(employee, year, Approved, code)
  }

  function PendingQuery(employee: UserId, year: int, code: Option<string>): Query {
    Query(employee, year, Pending, code)
  }

  /** `leave_by_type`: for each active type, its APPROVED and PENDING sums and their total. */
  function ByType(types: seq<LeaveType>, rs: seq<LeaveRequest>, employee: UserId, year: int): (m: map<string, TypeTotals>)
    ensures forall c :: c in m <==> exists t :: t in types && t.isActive && t.code == c
    ensures forall c :: c in m ==>
              m[c].approved == SumDuration(rs, ApprovedQuery(employee, year, Some(c)))
              && m[c].pending == SumDuration(rs, PendingQuery(employee, year, Some(c)))
              && m[c].total == m[c].approved + m[c].pending
  {
    if types == [] then map[]
    else
      var m := ByType(types[..|types| - 1], rs, employee, year);
      var t := types[|types| - 1];
      assert forall u :: u in types <==> u in types[..|types| - 1] || u == t;
      if t.isActive then
        var a := SumDuration(rs, ApprovedQuery(employee, year, Some(t.code)));
        var p := SumDuration(rs, PendingQuery(employee, year, Some(t.code)));
        m[t.code := TypeTotals(a, p, a + p)]
      else m
  }

  /** `remaining_days`: the total available less the APPROVED and the PENDING days of the year. */
  function RemainingDays(e: Entitlement, rs: seq<LeaveRequest>): Tenths {
    TotalAvailableDays(e) - SumDuration(rs, ApprovedQuery(e.employee, e.year, None))
    - SumDuration(rs, PendingQuery(e.employee, e.year, None))
  }

  /** The summary for the year of entitlement `e`. */
  function SummaryOf(e: Entitlement, rs: seq<LeaveRequest>, types: seq<LeaveType>): (s: LeaveSummary)
    ensures s.remainingDays == RemainingDays(e, rs)
  {
    var approved := SumDuration(rs, ApprovedQuery(e.employee, e.year, None));
    var pending := SumDuration(rs, PendingQuery(e.employee, e.year, None));
    LeaveSummary(e, TotalAvailableDays(e), approved, pending, TotalAvailableDays(e) - approved - pending,
                 UtilizationRate(e, rs), ByType(types, rs, e.employee, e.year))
  }

  /** The summary's remaining days are the entitlement's own remaining days less what is still
      pending, and each type's sums are bounded by the all-type sums. */
  lemma SummaryAgreesWithEntitlement(e: Entitlement, rs: seq<LeaveRequest>, types: seq<LeaveType>, code: string)
    requires forall i :: 0 <= i < |rs| ==> rs[i].duration >= 0
    ensures var s := SummaryOf(e, rs, types);
            s.remainingDays == RemainingEntitlement(e, rs) - s.pendingDays
            && (code in s.byType ==> 0 <= s.byType[code].approved <= s.approvedDays
                                     && 0 <= s.byType[code].pending <= s.pendingDays)
  {
    SumDurationTypeBound(rs, ApprovedQuery(e.employee, e.year, None), code);
    SumDurationTypeBound(rs, PendingQuery(e.employee, e.year, None), code);
  }

  const DefaultDepartment: string := "Default Department"

  /** The department a lazily created entitlement is filed under: the first by name in
      code-point order, or the default department when the table is empty. */
  function DepartmentForNewEntitlement(departments: seq<string>): string {
    if departments == [] then DefaultDepartment else FirstByName(departments)
  }

  /** The row `get_employee_leave_summary` creates when the employee has none for the year:
      the field defaults, with the carry-over `save` fills in for a new row. */
  function NewEntitlement(es: seq<Entitlement>, rs: seq<LeaveRequest>, departments: seq<string>,
                          employee: UserId, year: int): (e: Entitlement)
    ensures e.employee == employee && e.year == year && e.annual == 250 && e.timeInLieu == 0
    ensures e.carriedOver == UnusedDaysFromPreviousYear(es, rs, employee, year)
  {
    var unused := UnusedDaysFromPreviousYear(es, rs, employee, year);
    Entitlement(employee, DepartmentForNewEntitlement(departments), year, 250,
                AutoFilledCarriedOver(true, 0, unused), 0)
  }

  /** The entitlement the summary reads: the stored one, or the one it creates. */
  function ProvisionedEntitlement(es: seq<Entitlement>, rs: seq<LeaveRequest>, departments: seq<string>,
                                  employee: UserId, year: int): Entitlement
  {
    match FindEntitlement(es, employee, year)
    case Some(i) => es[i]
    case None => NewEntitlement(es, rs, departments, employee, year)
  }

  /** The tables after the summary's `get_or_create` of (employee, year): unchanged when the
      row exists; otherwise the default row appended, and the default department filed when
      there is no department at all. Either way the row exists afterwards. */
  predicate SummaryWrites(es0: seq<Entitlement>, departments0: seq<string>, rs: seq<LeaveRequest>, employee: UserId,
                          year: int, es: seq<Entitlement>, departments: seq<string>)
  {
    && (FindEntitlement(es0, employee, year).Some? ==> es == es0 && departments == departments0)
    && (FindEntitlement(es0, employee, year).None? ==>
          es == es0 + [NewEntitlement(es0, rs, departments0, employee, year)]
          && departments == (if departments0 == [] then [DefaultDepartment] else departments0))
    && FindEntitlement(es, employee, year).Some?
  }

  /** `get_employee_leave_summary`: reads (creating it when absent) the employee's entitlement
      for the year, then aggregates their requests starting in that year. */
  method GetEmployeeLeaveSummary(db: LeaveDatabase, employee: UserId, year: int) returns (s: LeaveSummary)
    requires db.Valid()
    modifies db`entitlements, db`departments
    ensures db.Valid()
    ensures s == SummaryOf(ProvisionedEntitlement(old(db.entitlements), db.requests, old(db.departments), employee, year),
                           db.requests, db.leaveTypes)
    ensures SummaryWrites(old(db.entitlements), old(db.departments), db.requests, employee, year,
                          db.entitlements, db.departments)
  {
    var found := FindEntitlement(db.entitlements, employee, year);
    var e: Entitlement;
    if found.Some? {
      e := db.entitlements[found.value];
    } else {
      e := CreateEntitlement(db, employee, year);
    }
    s := SummaryOf(e, db.requests, db.leaveTypes);
  }

  /** The `create` branch of the summary's `get_or_create`: files the default department when
      there is none, then saves a new entitlement with the field defaults. */
  method CreateEntitlement(db: LeaveDatabase, employee: UserId, year: int) returns (e: Entitlement)
    requires db.Valid()
    requires FindEntitlement(db.entitlements, employee, year).None?
    modifies db`entitlements, db`departments
    ensures db.Valid()
    ensures e == NewEntitlement(old(db.entitlements), db.requests, old(db.departments), employee, year)
    ensures db.entitlements == old(db.entitlements) + [e]
    ensures db.departments == (if old(db.departments) == [] then [DefaultDepartment] else old(db.departments))
    ensures FindEntitlement(db.entitlements, employee, year).Some?
  {
    if db.departments == [] {
      db.departments := [DefaultDepartment];
    }
    e := SaveNewEntitlement(db, employee, FirstByName(db.departments), year);
    SummaryStable(old(db.entitlements), db.requests, old(db.departments), employee, year);
  }

  /** Saves a new instance with the field defaults under `department`. */
  method SaveNewEntitlement(db: LeaveDatabase, employee: UserId, department: string, year: int) returns (e: Entitlement)
    requires db.Valid()
    requires FindEntitlement(db.entitlements, employee, year).None?
    modifies db`entitlements
    ensures db.Valid()
    ensures e == Entitlement(employee, department, year, 250,
                             AutoFilledCarriedOver(true, 0, UnusedDaysFromPreviousYear(old(db.entitlements), db.requests, employee, year)), 0)
    ensures db.entitlements == old(db.entitlements) + [e]
  {
    var inst := new EntitlementInstance(employee, department, year);
    var saved := inst.Save(db);
    e := inst.Row();
  }

  /** A second summary call finds the row the first one created and changes nothing. */
  lemma SummaryStable(es: seq<Entitlement>, rs: seq<LeaveRequest>, departments: seq<string>, employee: UserId, year: int)
    requires UniqueEntitlements(es)
    requires FindEntitlement(es, employee, year).None?
    ensures var e := ProvisionedEntitlement(es, rs, departments, employee, year);
            FindEntitlement(es + [e], employee, year) == Some(|es|)
            && ProvisionedEntitlement(es + [e], rs, departments, employee, year) == e
  {
    var e := ProvisionedEntitlement(es, rs, departments, employee, year);
    assert (es + [e])[..|es|] == es;
  }

  // ---------------------------------------------------------------------------------------
  // check_leave_eligibility

  datatype EligibilityError = EndBeforeStart | OverlappingRequest | InsufficientBalance(requested: Tenths, available: Tenths)

  datatype EligibilityWarning = PastOrCurrentDate

  datatype Eligibility = Eligibility(
    eligible: bool,
    errors: seq<EligibilityError>,
    warnings: seq<EligibilityWarning>,
    calculatedDuration: Tenths)

  /** The eligibility verdict, given the remaining days the summary reports for the start year
      (consulted only when the type affects the entitlement). A duration the caller does not
      give is the service's whole-day count. */
  function EligibilityOf(rs: seq<LeaveRequest>, holidays: seq<Holiday>, employee: UserId, leaveType: LeaveType,
                         start: CalendarDate, end: CalendarDate, given: Option<Tenths>, today: CalendarDate,
                         remaining: Tenths): (r: Eligibility)
    ensures r.calculatedDuration == if given.Some? then given.value
                                    else 10 * LeaveDuration(holidays, Some(start), Some(end), true, true)
    ensures r.eligible <==> r.errors == []
    ensures r.warnings == if OnOrBefore(start, today) then [PastOrCurrentDate] else []
  {
    var d := if given.Some? then given.value else 10 * LeaveDuration(holidays, Some(start), Some(end), true, true);
    var errors := ErrorList(Ordinal(end) < Ordinal(start), HasOverlap(rs, employee, start, end, None),
                            leaveType.affectsEntitlement && d > remaining, d, remaining);
    Eligibility(errors == [], errors, if OnOrBefore(start, today) then [PastOrCurrentDate] else [], d)
  }

  /** The errors in the order they are found: the date order, the overlap, the balance. */
  function ErrorList(reversed: bool, overlap: bool, short: bool, requested: Tenths, available: Tenths)
    : seq<EligibilityError>
  {
    var e1: seq<EligibilityError> := if reversed then [EndBeforeStart] else [];
    var e2: seq<EligibilityError> := if overlap then [OverlappingRequest] else [];
    var e3: seq<EligibilityError> := if short then [InsufficientBalance(requested, available)] else [];
    e1 + e2 + e3
  }

  /** Each error is in the list exactly when its check fails, and there are at most three. */
  lemma ErrorListMeans(reversed: bool, overlap: bool, short: bool, requested: Tenths, available: Tenths)
    ensures var errors := ErrorList(reversed, overlap, short, requested, available);
      && (EndBeforeStart in errors <==> reversed)
      && (OverlappingRequest in errors <==> overlap)
      && ((exists x :: x in errors && x.InsufficientBalance?) <==> short)
      && |errors| <= 3
      && (errors == [] <==> !reversed && !overlap && !short)
  {
    var e1: seq<EligibilityError> := if reversed then [EndBeforeStart] else [];
    var e2: seq<EligibilityError> := if overlap then [OverlappingRequest] else [];
    var e3: seq<EligibilityError> := if short then [InsufficientBalance(requested, available)] else [];
    assert forall x :: x in e1 + e2 + e3 <==> x in e1 || x in e2 || x in e3;
    assert short ==> InsufficientBalance(requested, available) in e1 + e2 + e3;
  }

  /** The verdict of `check_leave_eligibility`: eligible exactly when no error was found; a
      reversed range, an overlapping PENDING or APPROVED request of the employee (inclusive
      bounds), and — for a type that affects the entitlement — a duration above the remaining
      days are each an error, while a start on or before today is only a warning. */
  lemma EligibilityVerdict(rs: seq<LeaveRequest>, holidays: seq<Holiday>, employee: UserId, leaveType: LeaveType,
                           start: CalendarDate, end: CalendarDate, given: Option<Tenths>, today: CalendarDate,
                           remaining: Tenths)
    ensures var r := EligibilityOf(rs, holidays, employee, leaveType, start, end, given, today, remaining);
            (r.eligible <==> !(Ordinal(end) < Ordinal(start)) && !HasOverlap(rs, employee, start, end, None)
                             && !(leaveType.affectsEntitlement && r.calculatedDuration > remaining))
            && (EndBeforeStart in r.errors <==> Ordinal(end) < Ordinal(start))
            && (OverlappingRequest in r.errors <==> HasOverlap(rs, employee, start, end, None))
            && ((exists x :: x in r.errors && x.InsufficientBalance?) <==>
                  leaveType.affectsEntitlement && r.calculatedDuration > remaining)
            && (OnOrBefore(start, today) ==> r.warnings == [PastOrCurrentDate])
  {
    var r := EligibilityOf(rs, holidays, employee, leaveType, start, end, given, today, remaining);
    ErrorListMeans(Ordinal(end) < Ordinal(start), HasOverlap(rs, employee, start, end, None),
                   leaveType.affectsEntitlement && r.calculatedDuration > remaining, r.calculatedDuration, remaining);
  }

  /** `check_leave_eligibility`: the overlap and date checks, then, for a type that affects the
      entitlement, the balance check against the summary of the start year (which may create
      that year's entitlement). */
  method CheckLeaveEligibility(db: LeaveDatabase, employee: UserId, leaveType: LeaveType, start: CalendarDate,
                               end: CalendarDate, given: Option<Tenths>, today: CalendarDate)
    returns (r: Eligibility)
    requires db.Valid()
    modifies db`entitlements, db`departments
    ensures db.Valid()
    ensures !leaveType.affectsEntitlement ==>
              db.entitlements == old(db.entitlements) && db.departments == old(db.departments)
    ensures leaveType.affectsEntitlement ==>
              SummaryWrites(old(db.entitlements), old(db.departments), db.requests, employee, start.year,
                            db.entitlements, db.departments)
    ensures r == EligibilityOf(db.requests, db.holidays, employee, leaveType, start, end, given, today,
                   RemainingDays(ProvisionedEntitlement(old(db.entitlements), db.requests, old(db.departments), employee, start.year),
                                 db.requests))
  {
    var rs, holidays := db.requests, db.holidays;
    var d, errors, warnings := DateChecks(rs, holidays, employee, start, end, given, today);
    var balance := BalanceErrors(db, employee, start.year, leaveType.affectsEntitlement, d);
    assert rs == db.requests && holidays == db.holidays;
    EligibilityAssembled(rs, holidays, employee, leaveType, start, end, given, today,
                         RemainingDays(ProvisionedEntitlement(old(db.entitlements), rs, old(db.departments), employee, start.year), rs),
                         d, errors, warnings, balance);
    r := Eligibility(|errors + balance| == 0, errors + balance, warnings, d);
  }

  /** The date and overlap errors followed by the balance error make up `EligibilityOf`. */
  lemma EligibilityAssembled(rs: seq<LeaveRequest>, holidays: seq<Holiday>, employee: UserId, leaveType: LeaveType,
                             start: CalendarDate, end: CalendarDate, given: Option<Tenths>, today: CalendarDate,
                             remaining: Tenths, d: Tenths, errors: seq<EligibilityError>,
                             warnings: seq<EligibilityWarning>, balance: seq<EligibilityError>)
    requires d == if given.Some? then given.value else 10 * LeaveDuration(holidays, Some(start), Some(end), true, true)
    requires errors == ErrorList(Ordinal(end) < Ordinal(start), HasOverlap(rs, employee, start, end, None), false, 0, 0)
    requires warnings == if OnOrBefore(start, today) then [PastOrCurrentDate] else []
    requires balance == if leaveType.affectsEntitlement && d > remaining then [InsufficientBalance(d, remaining)] else []
    ensures Eligibility(|errors + balance| == 0, errors + balance, warnings, d)
            == EligibilityOf(rs, holidays, employee, leaveType, start, end, given, today, remaining)
  {
    ErrorListBalance(Ordinal(end) < Ordinal(start), HasOverlap(rs, employee, start, end, None),
                     leaveType.affectsEntitlement && d > remaining, d, remaining);
  }

  /** The checks of `check_leave_eligibility` that read no balance: the duration (the given one,
      or the whole-day count), the date order and overlap errors, and the past-date warning. */
  method DateChecks(rs: seq<LeaveRequest>, holidays: seq<Holiday>, employee: UserId, start: CalendarDate,
                    end: CalendarDate, given: Option<Tenths>, today: CalendarDate)
    returns (d: Tenths, errors: seq<EligibilityError>, warnings: seq<EligibilityWarning>)
    ensures d == if given.Some? then given.value else 10 * LeaveDuration(holidays, Some(start), Some(end), true, true)
    ensures errors == ErrorList(Ordinal(end) < Ordinal(start), HasOverlap(rs, employee, start, end, None), false, 0, 0)
    ensures warnings == if OnOrBefore(start, today) then [PastOrCurrentDate] else []
  {
    if given.None? {
      var days := CalculateLeaveDuration(holidays, Some(start), Some(end), true, true);
      d := 10 * days;
    } else {
      d := given.value;
    }
    errors := DateAndOverlapErrors(rs, employee, start, end);
    warnings := [];
    if OnOrBefore(start, today) {
      warnings := warnings + [PastOrCurrentDate];
    }
  }

  /** The balance error comes last in the list, after the date and overlap errors. */
  lemma ErrorListBalance(reversed: bool, overlap: bool, short: bool, d: Tenths, remaining: Tenths)
    ensures ErrorList(reversed, overlap, short, d, remaining)
            == ErrorList(reversed, overlap, false, 0, 0) + (if short then [InsufficientBalance(d, remaining)] else [])
  {
  }

  /** The first two checks of `check_leave_eligibility`: the date order, then the overlap. */
  method DateAndOverlapErrors(rs: seq<LeaveRequest>, employee: UserId, start: CalendarDate, end: CalendarDate)
    returns (errors: seq<EligibilityError>)
    ensures errors == ErrorList(Ordinal(end) < Ordinal(start), HasOverlap(rs, employee, start, end, None), false, 0, 0)
  {
    errors := [];
    if Ordinal(end) < Ordinal(start) {
      errors := errors + [EndBeforeStart];
    }
    if HasOverlap(rs, employee, start, end, None) {
      errors := errors + [OverlappingRequest];
    }
  }

  /** The balance step of `check_leave_eligibility`: for a type that affects the entitlement,
      the summary of the start year (which may create that year's entitlement) and the error
      for a duration above its remaining days. */
  method BalanceErrors(db: LeaveDatabase, employee: UserId, year: int, affectsEntitlement: bool, d: Tenths)
    returns (errors: seq<EligibilityError>)
    requires db.Valid()
    modifies db`entitlements, db`departments
    ensures db.Valid()
    ensures !affectsEntitlement ==> db.entitlements == old(db.entitlements) && db.departments == old(db.departments)
    ensures affectsEntitlement ==>
              SummaryWrites(old(db.entitlements), old(db.departments), db.requests, employee, year,
                            db.entitlements, db.departments)
    ensures var remaining := RemainingDays(ProvisionedEntitlement(old(db.entitlements), db.requests, old(db.departments), employee, year),
                                           db.requests);
            errors == if affectsEntitlement && d > remaining then [InsufficientBalance(d, remaining)] else []
  {
    errors := [];
    if affectsEntitlement {
      var summary := GetEmployeeLeaveSummary(db, employee, year);
      if d > summary.remainingDays {
        errors := errors + [InsufficientBalance(d, summary.remainingDays)];
      }
    }
  }

  /** The request being edited is not left out of the overlap test: whenever the new range meets
      its own stored range it is reported as overlapping, although `LeaveRequest.clean`, which
      leaves the row out, accepts the same edit when no other request is in the way. */
  lemma EditedRequestOverlapsItself(rs: seq<LeaveRequest>, k: nat, start: CalendarDate, end: CalendarDate,
                                    holidays: seq<Holiday>, given: Option<Tenths>, today: CalendarDate, remaining: Tenths)
    requires k < |rs| && IsActive(rs[k].status)
    requires OnOrBefore(start, end) && OnOrBefore(rs[k].start, end) && OnOrBefore(start, rs[k].end)
    requires !HasOverlap(rs, rs[k].employee, start, end, Some(k))
    ensures OverlappingRequest in EligibilityOf(rs, holidays, rs[k].employee, rs[k].leaveType, start, end, given, today, remaining).errors
    ensures !EligibilityOf(rs, holidays, rs[k].employee, rs[k].leaveType, start, end, given, today, remaining).eligible
    ensures Clean(rs, Some(k), Some(rs[k].employee), start, end) == Ok(())
  {
    assert OverlapsRange(rs[k], start, end);
    var r := EligibilityOf(rs, holidays, rs[k].employee, rs[k].leaveType, start, end, given, today, remaining);
    ErrorListMeans(Ordinal(end) < Ordinal(start), true,
                   rs[k].leaveType.affectsEntitlement && r.calculatedDuration > remaining, r.calculatedDuration, remaining);
  }

  // ---------------------------------------------------------------------------------------
  // update_leave_balance

  /** The balance row of (employee, type code, year), if any: the `get` of `get_or_create`. */
  function FindBalance(bs: seq<LeaveBalance>, employee: UserId, code: string, year: int): (r: Option<nat>)
    ensures r.Some? ==> r.value < |bs| && SameBalanceKey(bs[r.value], employee, code, year)
    ensures r.Some? ==> forall j :: 0 <= j < r.value ==> !SameBalanceKey(bs[j], employee, code, year)
    ensures r.None? ==> forall j :: 0 <= j < |bs| ==> !SameBalanceKey(bs[j], employee, code, year)
  {
    if bs == [] then None
    else
      match FindBalance(bs[..|bs| - 1], employee, code, year)
      case Some(i) => Some(i)
      case None => if SameBalanceKey(bs[|bs| - 1], employee, code, year) then Some(|bs| - 1) else None
  }

  /** The first row with a key is found wherever it sits. */
  lemma {:induction false} FindBalanceFirst(bs: seq<LeaveBalance>, employee: UserId, code: string, year: int, k: nat)
    requires k < |bs| && SameBalanceKey(bs[k], employee, code, year)
    requires forall j :: 0 <= j < k ==> !SameBalanceKey(bs[j], employee, code, year)
    ensures FindBalance(bs, employee, code, year) == Some(k)
  {
    var r := FindBalance(bs, employee, code, year);
    assert r.Some?;
  }

  /** The balance rows after `update_leave_balance` for (employee, type code, year): the row's
      used and pending days are the APPROVED and PENDING sums, its allocation is kept (0 for a
      new row), and every other row is left alone. */
  function RecomputedBalances(bs: seq<LeaveBalance>, rs: seq<LeaveRequest>, employee: UserId, code: string, year: int)
    : (r: seq<LeaveBalance>)
    ensures UniqueBalances(bs) ==> UniqueBalances(r)
    ensures |bs| <= |r| <= |bs| + 1
    ensures forall j :: 0 <= j < |bs| && !SameBalanceKey(bs[j], employee, code, year) ==> r[j] == bs[j]
    ensures FindBalance(r, employee, code, year).Some?
    ensures var k := FindBalance(r, employee, code, year).value;
            r[k].usedDays == SumDuration(rs, ApprovedQuery(employee, year, Some(code)))
            && r[k].pendingDays == SumDuration(rs, PendingQuery(employee, year, Some(code)))
            && r[k].allocatedDays == match FindBalance(bs, employee, code, year)
                                     case Some(i) => bs[i].allocatedDays
                                     case None => 0
  {
    var used := SumDuration(rs, ApprovedQuery(employee, year, Some(code)));
    var pending := SumDuration(rs, PendingQuery(employee, year, Some(code)));
    match FindBalance(bs, employee, code, year)
    case Some(i) =>
      var r := bs[i := bs[i].(usedDays := used, pendingDays := pending)];
      FindBalanceFirst(r, employee, code, year, i);
      r
    case None =>
      var r := bs + [LeaveBalance(employee, code, year, 0, used, pending)];
      FindBalanceFirst(r, employee, code, year, |bs|);
      r
  }

  /** `update_leave_balance`: fetches or creates the balance row and overwrites its used and
      pending days with the aggregates. */
  method UpdateLeaveBalance(db: LeaveDatabase, employee: UserId, leaveType: LeaveType, year: int)
    returns (b: LeaveBalance)
    requires db.Valid()
    modifies db`balances
    ensures db.Valid()
    ensures db.balances == RecomputedBalances(old(db.balances), db.requests, employee, leaveType.code, year)
    ensures b == db.balances[FindBalance(db.balances, employee, leaveType.code, year).value]
  {
    ghost var bs := db.balances;
    var found := FindBalance(db.balances, employee, leaveType.code, year);
    var k: nat;
    if found.Some? {
      k := found.value;
      b := db.balances[k];
    } else {
      b := LeaveBalance(employee, leaveType.code, year, 0, 0, 0);
      db.balances := db.balances + [b];
      k := |db.balances| - 1;
    }
    var used := SumDuration(db.requests, ApprovedQuery(employee, year, Some(leaveType.code)));
    var pending := SumDuration(db.requests, PendingQuery(employee, year, Some(leaveType.code)));
    b := b.(usedDays := used, pendingDays := pending);
    db.balances := db.balances[k := b];
    if found.None? {
      assert db.balances == bs + [b];
    }
    assert db.balances == RecomputedBalances(bs, db.requests, employee, leaveType.code, year);
    FindBalanceFirst(db.balances, employee, leaveType.code, year, k);
  }

  // ---------------------------------------------------------------------------------------
  // approve / reject / cancel

  /** The row `approve_leave_request` saves. */
  function ApprovedRow(r: LeaveRequest, approver: UserId, now: int): (s: LeaveRequest)
    ensures s.status == Approved && s.approvedBy == Some(approver) && s.approvedAt == Some(now)
    ensures s.employee == r.employee && s.leaveType == r.leaveType && s.start == r.start && s.end == r.end
    ensures r.duration != 0 ==> s.duration == r.duration
    ensures s.rejectionReason == r.rejectionReason && s.reason == r.reason
  {
    SavedRequest(r.(status := Approved, approvedBy := Some(approver), approvedAt := Some(now)), now)
  }

  /** The row `reject_leave_request` saves. */
  function RejectedRow(r: LeaveRequest, reason: string, now: int): (s: LeaveRequest)
    ensures s.status == Rejected && s.rejectionReason == reason
    ensures s.employee == r.employee && s.leaveType == r.leaveType && s.start == r.start && s.end == r.end
    ensures r.duration != 0 ==> s.duration == r.duration
    ensures s.approvedBy == r.approvedBy && s.approvedAt == r.approvedAt
  {
    SavedRequest(r.(status := Rejected, rejectionReason := reason), now)
  }

  /** The row `cancel_leave_request` saves. */
  function CancelledRow(r: LeaveRequest, now: int): (s: LeaveRequest)
    ensures s.status == Cancelled
    ensures s.employee == r.employee && s.leaveType == r.leaveType && s.start == r.start && s.end == r.end
    ensures r.duration != 0 ==> s.duration == r.duration
    ensures s.approvedBy == r.approvedBy && s.approvedAt == r.approvedAt
  {
    SavedRequest(r.(status := Cancelled), now)
  }

  /** `approve_leave_request`: records the transition in the audit trail, saves the request as
      APPROVED by `approver` at `now`, and recomputes the balance row of its type and year. It
      does not check that the request is PENDING. */
  method ApproveLeaveRequest(db: LeaveDatabase, pk: nat, approver: UserId, reason: string, now: int)
    returns (r: LeaveRequest)
    requires db.Valid() && pk < |db.requests|
    modifies db`requests, db`history, db`balances
    ensures db.Valid()
    ensures db.history == old(db.history) + [StatusChange(pk, old(db.requests[pk].status), Approved, approver, reason)]
    ensures r == ApprovedRow(old(db.requests[pk]), approver, now)
    ensures db.requests == old(db.requests)[pk := r]
    ensures db.balances == RecomputedBalances(old(db.balances), db.requests, r.employee, r.leaveType.code, r.start.year)
  {
    var row := db.requests[pk];
    db.history := db.history + [StatusChange(pk, row.status, Approved, approver, reason)];
    row := row.(status := Approved, approvedBy := Some(approver), approvedAt := Some(now));
    var id := db.SaveRequest(Some(pk), row, now);
    r := db.requests[pk];
    var balance := UpdateLeaveBalance(db, r.employee, r.leaveType, r.start.year);
  }

  /** `reject_leave_request`: records the transition and saves the request as REJECTED with the
      reason; balances are not touched. */
  method RejectLeaveRequest(db: LeaveDatabase, pk: nat, rejecter: UserId, reason: string, now: int)
    returns (r: LeaveRequest)
    requires db.Valid() && pk < |db.requests|
    modifies db`requests, db`history
    ensures db.Valid()
    ensures db.history == old(db.history) + [StatusChange(pk, old(db.requests[pk].status), Rejected, rejecter, reason)]
    ensures r == RejectedRow(old(db.requests[pk]), reason, now)
    ensures db.requests == old(db.requests)[pk := r]
  {
    var row := db.requests[pk];
    db.history := db.history + [StatusChange(pk, row.status, Rejected, rejecter, reason)];
    row := row.(status := Rejected, rejectionReason := reason);
    var id := db.SaveRequest(Some(pk), row, now);
    r := db.requests[pk];
  }

  datatype TransitionError = NotCancellable

  /** `cancel_leave_request`: refuses, changing nothing, a request that cannot be cancelled on
      `today`; otherwise records the transition, saves it as CANCELLED and recomputes the
      balance row — always, since the status it tests has just been set to CANCELLED. */
  method CancelLeaveRequest(db: LeaveDatabase, pk: nat, canceller: UserId, reason: string, today: CalendarDate, now: int)
    returns (res: Result<LeaveRequest, TransitionError>)
    requires db.Valid() && pk < |db.requests|
    modifies db`requests, db`history, db`balances
    ensures db.Valid()
    ensures !CanBeCancelled(old(db.requests[pk]), today) ==>
              res == Err(NotCancellable) && db.requests == old(db.requests)
              && db.history == old(db.history) && db.balances == old(db.balances)
    ensures CanBeCancelled(old(db.requests[pk]), today) ==>
              res == Ok(CancelledRow(old(db.requests[pk]), now))
              && db.requests == old(db.requests)[pk := res.value]
              && db.history == old(db.history) + [StatusChange(pk, old(db.requests[pk].status), Cancelled, canceller, reason)]
              && db.balances == RecomputedBalances(old(db.balances), db.requests, res.value.employee,
                                                   res.value.leaveType.code, res.value.start.year)
  {
    var row := db.requests[pk];
    if !CanBeCancelled(row, today) {
      return Err(NotCancellable);
    }
    db.history := db.history + [StatusChange(pk, row.status, Cancelled, canceller, reason)];
    row := row.(status := Cancelled);
    var id := db.SaveRequest(Some(pk), row, now);
    var r := db.requests[pk];
    if r.status == Approved || r.status == Cancelled {
      var balance := UpdateLeaveBalance(db, r.employee, r.leaveType, r.start.year);
    }
    res := Ok(r);
  }

  /** Two requests of one employee that are both PENDING or APPROVED and whose inclusive ranges
      meet. */
  predicate Clash(a: LeaveRequest, b: LeaveRequest) {
    a.employee == b.employee && IsActive(a.status) && IsActive(b.status)
    && OnOrBefore(a.start, b.end) && OnOrBefore(b.start, a.end)
  }

  /** The state the overlap checks aim for: no two active requests of an employee overlap. */
  predicate NoActiveOverlaps(rs: seq<LeaveRequest>) {
    forall i, j :: 0 <= i < j < |rs| ==> !Clash(rs[i], rs[j])
  }

  /** Replacing a row by one that is inactive, or by one with the same employee and dates when
      the old row was already active, keeps the table free of active overlaps. */
  lemma ReplaceKeepsNoOverlaps(rs: seq<LeaveRequest>, k: nat, s: LeaveRequest)
    requires NoActiveOverlaps(rs) && k < |rs|
    requires IsActive(s.status) ==>
               IsActive(rs[k].status) && s.employee == rs[k].employee && s.start == rs[k].start && s.end == rs[k].end
    ensures NoActiveOverlaps(rs[k := s])
  {
    var rs' := rs[k := s];
    forall i, j | 0 <= i < j < |rs'|
      ensures !Clash(rs'[i], rs'[j])
    {
      assert !Clash(rs[i], rs[j]);
    }
  }

  /** Rejecting or cancelling any request, and approving a PENDING or APPROVED one, keeps the
      table free of active overlaps. */
  lemma TransitionsKeepNoOverlaps(rs: seq<LeaveRequest>, k: nat, actor: UserId, reason: string, now: int)
    requires NoActiveOverlaps(rs) && k < |rs|
    ensures NoActiveOverlaps(rs[k := RejectedRow(rs[k], reason, now)])
    ensures NoActiveOverlaps(rs[k := CancelledRow(rs[k], now)])
    ensures IsActive(rs[k].status) ==> NoActiveOverlaps(rs[k := ApprovedRow(rs[k], actor, now)])
  {
    ReplaceKeepsNoOverlaps(rs, k, RejectedRow(rs[k], reason, now));
    ReplaceKeepsNoOverlaps(rs, k, CancelledRow(rs[k], now));
    if IsActive(rs[k].status) {
      ReplaceKeepsNoOverlaps(rs, k, ApprovedRow(rs[k], actor, now));
    }
  }

  /** The service itself does not refuse to approve a REJECTED request: here one employee has an
      APPROVED and a REJECTED request for the same day, and approving the rejected one through
      the service leaves two active requests overlapping. */
  lemma ApprovingRejectedCanOverlap()
    ensures var day: CalendarDate := Date(2024, 3, 4);
            var t := LeaveType("AL", true, true, false, true, true);
            var a := LeaveRequest(7, t, day, day, 10, "", Approved, Some(1), Some(0), "", 7);
            var b := LeaveRequest(7, t, day, day, 10, "", Rejected, None, None, "clash", 7);
            NoActiveOverlaps([a, b]) && !NoActiveOverlaps([a, b][1 := ApprovedRow(b, 1, 5)])
  {
    var day: CalendarDate := Date(2024, 3, 4);
    var t := LeaveType("AL", true, true, false, true, true);
    var a := LeaveRequest(7, t, day, day, 10, "", Approved, Some(1), Some(0), "", 7);
    var b := LeaveRequest(7, t, day, day, 10, "", Rejected, None, None, "clash", 7);
    assert Clash([a, b][1 := ApprovedRow(b, 1, 5)][0], [a, b][1 := ApprovedRow(b, 1, 5)][1]);
  }

  /** Approving a PENDING request with a stored duration moves its days from pending to
      approved: the remaining days of every entitlement and the used-plus-pending total of every
      balance key are unchanged. */
  lemma ApprovingPendingMovesDays(rs: seq<LeaveRequest>, k: nat, approver: UserId, now: int,
                                  e: Entitlement, employee: UserId, year: int, code: Option<string>)
    requires k < |rs| && rs[k].status == Pending && rs[k].duration != 0
    ensures var rs' := rs[k := ApprovedRow(rs[k], approver, now)];
            SumDuration(rs', ApprovedQuery(employee, year, code)) + SumDuration(rs', PendingQuery(employee, year, code))
            == SumDuration(rs, ApprovedQuery(employee, year, code)) + SumDuration(rs, PendingQuery(employee, year, code))
            && RemainingDays(e, rs') == RemainingDays(e, rs)
  {
    var s := ApprovedRow(rs[k], approver, now);
    SumDurationUpdate(rs, k, s, ApprovedQuery(employee, year, code));
    SumDurationUpdate(rs, k, s, PendingQuery(employee, year, code));
    SumDurationUpdate(rs, k, s, ApprovedQuery(e.employee, e.year, None));
    SumDurationUpdate(rs, k, s, PendingQuery(e.employee, e.year, None));
  }

  /** Approving a PENDING request moves its days from pending to used on the recomputed
      balance row, so the row's `available_days` stays the same. */
  lemma ApprovalKeepsAvailableDays(bs: seq<LeaveBalance>, rs: seq<LeaveRequest>, k: nat, approver: UserId,
                                   now: int, employee: UserId, code: string, year: int)
    requires k < |rs| && rs[k].status == Pending && rs[k].duration != 0
    ensures var before := RecomputedBalances(bs, rs, employee, code, year);
            var after := RecomputedBalances(bs, rs[k := ApprovedRow(rs[k], approver, now)], employee, code, year);
            AvailableDays(after[FindBalance(after, employee, code, year).value])
            == AvailableDays(before[FindBalance(before, employee, code, year).value])
  {
    ApprovingPendingMovesDays(rs, k, approver, now, Entitlement(employee, "", year, 0, 0, 0), employee, year, Some(code));
  }

  // ---------------------------------------------------------------------------------------
  // get_team_leave_calendar

  /** One day of the team calendar: its ordinal, the weekend and holiday flags, and the
      indices of the requests shown on it. */
  datatype CalendarDay = CalendarDay(day: int, isWeekend: bool, isHoliday: bool, requests: seq<nat>)

  /** Whether `employee` holds an entitlement, of any year, in `department`. */
  predicate InDepartment(es: seq<Entitlement>, department: string, employee: UserId) {
    exists i :: 0 <= i < |es| && es[i].department == department && es[i].employee == employee
  }

  /** Whether request `k` is in the calendar's query: PENDING or APPROVED, meeting `s..e`, and
      of an employee of the department when one is given. */
  predicate OnTeamCalendar(rs: seq<LeaveRequest>, es: seq<Entitlement>, department: Option<string>, s: int, e: int, k: nat)
    requires k < |rs|
  {
    IsActive(rs[k].status) && Ordinal(rs[k].start) <= e && s <= Ordinal(rs[k].end)
    && (department.Some? ==> InDepartment(es, department.value, rs[k].employee))
  }

  /** Whether request `k` is in the query and its range covers ordinal `d`. */
  predicate Listed(rs: seq<LeaveRequest>, es: seq<Entitlement>, department: Option<string>, s: int, e: int, k: nat, d: int)
    requires k < |rs|
  {
    OnTeamCalendar(rs, es, department, s, e, k) && Ordinal(rs[k].start) <= d <= Ordinal(rs[k].end)
  }

  /** The start ordinals of the requests, the key the table's default ordering sorts on. */
  function Starts(rs: seq<LeaveRequest>): (r: seq<int>)
    ensures |r| == |rs| && forall i :: 0 <= i < |rs| ==> r[i] == Ordinal(rs[i].start)
  {
    seq(|rs|, i requires 0 <= i < |rs| => Ordinal(rs[i].start))
  }

  /** Whether row `a` comes before row `b` when sorted on `keys` descending, as the calendar's
      query is (latest start date first); rows with the same key come in table order. */
  predicate ListedBefore(keys: seq<int>, a: nat, b: nat)
    requires a < |keys| && b < |keys|
  {
    keys[a] > keys[b] || (keys[a] == keys[b] && a < b)
  }

  predicate Indexes(n: nat, xs: seq<nat>) {
    forall i :: 0 <= i < |xs| ==> xs[i] < n
  }

  /** A list of rows in the order of the query. */
  predicate InQueryOrder(keys: seq<int>, xs: seq<nat>) {
    Indexes(|keys|, xs) && forall i, j :: 0 <= i < j < |xs| ==> ListedBefore(keys, xs[i], xs[j])
  }

  /** Row `k` placed into an ordered list, after every row whose key is at least its own. */
  function InsertByKey(keys: seq<int>, k: nat, xs: seq<nat>): (r: seq<nat>)
    requires k < |keys| && Indexes(|keys|, xs)
    ensures |r| == |xs| + 1 && Indexes(|keys|, r)
    ensures forall x :: x in r <==> x == k || x in xs
  {
    if xs == [] then [k]
    else if keys[xs[0]] >= keys[k] then [xs[0]] + InsertByKey(keys, k, xs[1..])
    else [k] + xs
  }

  /** The first `n` rows in the order of the query. */
  function QueryOrder(keys: seq<int>, n: nat): (r: seq<nat>)
    requires n <= |keys|
    ensures |r| == n && Indexes(|keys|, r)
    ensures forall x :: x in r ==> x < n
  {
    if n == 0 then [] else InsertByKey(keys, n - 1, QueryOrder(keys, n - 1))
  }

  /** Placing a row later in the table than every listed one keeps the list ordered. */
  lemma {:induction false} InsertKeepsOrder(keys: seq<int>, k: nat, xs: seq<nat>)
    requires k < |keys| && InQueryOrder(keys, xs) && forall x :: x in xs ==> x < k
    ensures InQueryOrder(keys, InsertByKey(keys, k, xs))
  {
    var r := InsertByKey(keys, k, xs);
    if xs != [] && keys[xs[0]] >= keys[k] {
      var t := xs[1..];
      assert forall i :: 0 <= i < |t| ==> t[i] == xs[i + 1];
      assert forall x :: x in t ==> x in xs;
      InsertKeepsOrder(keys, k, t);
      var r' := InsertByKey(keys, k, t);
      assert r == [xs[0]] + r';
      forall i, j | 0 <= i < j < |r|
        ensures ListedBefore(keys, r[i], r[j])
      {
        assert r[j] == r'[j - 1];
        if i == 0 {
          assert r[0] == xs[0] && r[j] in r';
          if r[j] == k {
            assert xs[0] in xs;
          } else {
            var m :| 0 <= m < |t| && t[m] == r[j];
            assert xs[m + 1] == r[j];
          }
        } else {
          assert r[i] == r'[i - 1];
        }
      }
    } else if xs != [] {
      assert r == [k] + xs;
      forall i, j | 0 <= i < j < |r|
        ensures ListedBefore(keys, r[i], r[j])
      {
        assert r[j] == xs[j - 1];
        if i == 0 {
          if j > 1 {
            assert ListedBefore(keys, xs[0], xs[j - 1]);
          }
        } else {
          assert r[i] == xs[i - 1];
        }
      }
    }
  }

  /** The query's order lists each of the first `n` rows once, highest key first. */
  lemma {:induction false} QueryOrderFacts(keys: seq<int>, n: nat)
    requires n <= |keys|
    ensures InQueryOrder(keys, QueryOrder(keys, n))
    ensures forall x: nat :: x in QueryOrder(keys, n) <==> x < n
  {
    if n > 0 {
      QueryOrderFacts(keys, n - 1);
      InsertKeepsOrder(keys, n - 1, QueryOrder(keys, n - 1));
    }
  }

  /** The requests among the first `n` of `order` that are in the query and cover ordinal `d`,
      in the order of `order`. */
  function Covering(rs: seq<LeaveRequest>, es: seq<Entitlement>, department: Option<string>, s: int, e: int,
                    order: seq<nat>, n: nat, d: int): seq<nat>
    requires n <= |order| && Indexes(|rs|, order)
  {
    if n == 0 then []
    else Covering(rs, es, department, s, e, order, n - 1, d)
         + (if Listed(rs, es, department, s, e, order[n - 1], d) then [order[n - 1]] else [])
  }

  /** The requests a day of the calendar lists, in the order of the query. */
  function DayRequests(rs: seq<LeaveRequest>, es: seq<Entitlement>, department: Option<string>, s: int, e: int, d: int)
    : seq<nat>
  {
    Covering(rs, es, department, s, e, QueryOrder(Starts(rs), |rs|), |rs|, d)
  }

  /** A request is among the first `n` a walk of `order` lists on a day exactly when it is
      among the first `n` of `order`, in the query and covering the day; the list keeps the
      order of `order`. */
  lemma CoveringFacts(rs: seq<LeaveRequest>, es: seq<Entitlement>, department: Option<string>,
                      s: int, e: int, keys: seq<int>, order: seq<nat>, n: nat, d: int)
    requires n <= |order| && |keys| == |rs| && InQueryOrder(keys, order)
    ensures var c := Covering(rs, es, department, s, e, order, n, d);
      && (forall k: nat :: k in c <==> k in order[..n] && k < |rs| && Listed(rs, es, department, s, e, k, d))
      && InQueryOrder(keys, c)
  {
    CoveringMembers(rs, es, department, s, e, order, n, d);
    CoveringOrdered(rs, es, department, s, e, keys, order, n, d);
  }

  /** The walk of the first `n` of `order` lists exactly those listed on the day. */
  lemma {:induction false} CoveringMembers(rs: seq<LeaveRequest>, es: seq<Entitlement>, department: Option<string>,
                                           s: int, e: int, order: seq<nat>, n: nat, d: int)
    requires n <= |order| && Indexes(|rs|, order)
    ensures forall k: nat :: k in Covering(rs, es, department, s, e, order, n, d) <==>
              k in order[..n] && k < |rs| && Listed(rs, es, department, s, e, k, d)
  {
    if n > 0 {
      CoveringMembers(rs, es, department, s, e, order, n - 1, d);
      assert order[..n] == order[..n - 1] + [order[n - 1]];
    }
  }

  /** The walk of the first `n` of `order` keeps the order of `order`. */
  lemma {:induction false} CoveringOrdered(rs: seq<LeaveRequest>, es: seq<Entitlement>, department: Option<string>,
                                           s: int, e: int, keys: seq<int>, order: seq<nat>, n: nat, d: int)
    requires n <= |order| && |keys| == |rs| && InQueryOrder(keys, order)
    ensures InQueryOrder(keys, Covering(rs, es, department, s, e, order, n, d))
  {
    if n > 0 {
      CoveringOrdered(rs, es, department, s, e, keys, order, n - 1, d);
      CoveringMembers(rs, es, department, s, e, order, n - 1, d);
      var c0 := Covering(rs, es, department, s, e, order, n - 1, d);
      var last := order[n - 1];
      var tail: seq<nat> := if Listed(rs, es, department, s, e, last, d) then [last] else [];
      var c := c0 + tail;
      forall i | 0 <= i < |c0|
        ensures ListedBefore(keys, c0[i], last)
      {
        assert c0[i] in order[..n - 1];
        var m :| 0 <= m < n - 1 && order[m] == c0[i];
      }
      forall i, j | 0 <= i < j < |c|
        ensures ListedBefore(keys, c[i], c[j])
      {
        if j >= |c0| {
          assert c[j] == last && c[i] == c0[i];
        } else {
          assert c[i] == c0[i] && c[j] == c0[j];
        }
      }
    }
  }

  /** A day of the calendar lists exactly the requests in the query that cover it, each once,
      latest start first, those starting the same day in table order. */
  lemma DayRequestsLatestFirst(rs: seq<LeaveRequest>, es: seq<Entitlement>, department: Option<string>,
                               s: int, e: int, d: int)
    ensures var c := DayRequests(rs, es, department, s, e, d);
      && (forall k: nat :: k in c <==> k < |rs| && Listed(rs, es, department, s, e, k, d))
      && (forall i, j :: 0 <= i < j < |c| ==>
            (c[i] != c[j] && c[i] < |rs| && c[j] < |rs| && Ordinal(rs[c[i]].start) >= Ordinal(rs[c[j]].start)))
  {
    var keys := Starts(rs);
    var order := QueryOrder(keys, |rs|);
    QueryOrderFacts(keys, |rs|);
    assert order[..|rs|] == order;
    CoveringFacts(rs, es, department, s, e, keys, order, |rs|, d);
  }

  predicate IsHolidayOn(holidays: seq<Holiday>, d: int) {
    exists h :: h in holidays && h.isActive && Ordinal(h.date) == d
  }

  /** The day `CalendarDay` the calendar holds for ordinal `d` once all requests are placed. */
  function CalendarCell(db_requests: seq<LeaveRequest>, es: seq<Entitlement>, holidays: seq<Holiday>,
                        department: Option<string>, s: int, e: int, d: int): CalendarDay
  {
    CalendarDay(d, Weekday(d) == 5 || Weekday(d) == 6, IsHolidayOn(holidays, d),
                DayRequests(db_requests, es, department, s, e, d))
  }

  /** `get_team_leave_calendar`: one entry per day of `start..end` (by default the month of
      `today`), listing the PENDING and APPROVED requests (of the department's employees, when
      one is given) whose range covers that day. Entry `i` is the day `first + i`. */
  method GetTeamLeaveCalendar(db: LeaveDatabase, department: Option<string>, start: Option<CalendarDate>,
                              end: Option<CalendarDate>, today: CalendarDate)
    returns (first: int, days: seq<CalendarDay>)
    ensures var startDate: CalendarDate := if start.Some? then start.value else Date(today.year, today.month, 1);
            var endDate: CalendarDate := if end.Some? then end.value else LastOfMonth(startDate);
            first == Ordinal(startDate)
            && |days| == (if Ordinal(endDate) < first then 0 else Ordinal(endDate) - first + 1)
            && forall i :: 0 <= i < |days| ==>
                 days[i] == CalendarCell(db.requests, db.entitlements, db.holidays, department, first, Ordinal(endDate), first + i)
  {
    var startDate: CalendarDate := if start.Some? then start.value else Date(today.year, today.month, 1);
    var endDate: CalendarDate := if end.Some? then end.value else LastOfMonth(startDate);
    var s := Ordinal(startDate);
    var e := Ordinal(endDate);
    first := s;
    var rs := db.requests;
    var es := db.entitlements;
    var order := QueryOrder(Starts(rs), |rs|);
    var empty := EmptyDays(s, e, db.holidays);
    days := PlaceAll(empty, s, e, rs, es, department, order, db.holidays);
    assert |order| == |rs|;
  }

  /** The outer walk of the calendar: places every request of `order` in turn. */
  method PlaceAll(days0: seq<CalendarDay>, s: int, e: int, rs: seq<LeaveRequest>, es: seq<Entitlement>,
                  department: Option<string>, order: seq<nat>, holidays: seq<Holiday>)
    returns (days: seq<CalendarDay>)
    requires Indexes(|rs|, order)
    requires forall i :: 0 <= i < |days0| ==>
               days0[i] == CalendarDay(s + i, Weekday(s + i) == 5 || Weekday(s + i) == 6, IsHolidayOn(holidays, s + i), [])
    ensures |days| == |days0|
    ensures forall i :: 0 <= i < |days| ==>
              days[i] == CalendarDay(s + i, Weekday(s + i) == 5 || Weekday(s + i) == 6, IsHolidayOn(holidays, s + i),
                                     Covering(rs, es, department, s, e, order, |order|, s + i))
  {
    days := days0;
    var k := 0;
    while k < |order|
      invariant 0 <= k <= |order|
      invariant |days| == |days0|
      invariant forall i :: 0 <= i < |days| ==>
                  days[i] == CalendarDay(s + i, Weekday(s + i) == 5 || Weekday(s + i) == 6, IsHolidayOn(holidays, s + i),
                                         Covering(rs, es, department, s, e, order, k, s + i))
    {
      if OnTeamCalendar(rs, es, department, s, e, order[k]) {
        days := PlaceRequest(days, s, rs, es, department, e, order, k, holidays);
      } else {
        CoveringSkips(rs, es, department, s, e, order, k);
      }
      k := k + 1;
    }
  }

  /** A request outside the query is listed on no day. */
  lemma CoveringSkips(rs: seq<LeaveRequest>, es: seq<Entitlement>, department: Option<string>, s: int, e: int,
                      order: seq<nat>, k: nat)
    requires k < |order| && Indexes(|rs|, order) && !OnTeamCalendar(rs, es, department, s, e, order[k])
    ensures forall d :: Covering(rs, es, department, s, e, order, k + 1, d) == Covering(rs, es, department, s, e, order, k, d)
  {
  }

  /** The first walk of the calendar: one empty entry per day of `s..e`. */
  method EmptyDays(s: int, e: int, holidays: seq<Holiday>) returns (days: seq<CalendarDay>)
    ensures |days| == if e < s then 0 else e - s + 1
    ensures forall i :: 0 <= i < |days| ==>
              days[i] == CalendarDay(s + i, Weekday(s + i) == 5 || Weekday(s + i) == 6, IsHolidayOn(holidays, s + i), [])
  {
    days := [];
    var current := s;
    while current <= e
      invariant s <= current <= if s <= e then e + 1 else s
      invariant |days| == current - s
      invariant forall i :: 0 <= i < |days| ==>
                  days[i] == CalendarDay(s + i, Weekday(s + i) == 5 || Weekday(s + i) == 6, IsHolidayOn(holidays, s + i), [])
      decreases e - current
    {
      days := days + [CalendarDay(current, Weekday(current) == 5 || Weekday(current) == 6, IsHolidayOn(holidays, current), [])];
      current := current + 1;
    }
  }

  /** The inner walk of the calendar: appends the `k`-th request of the query to each listed
      day its range covers. */
  method PlaceRequest(days0: seq<CalendarDay>, s: int, rs: seq<LeaveRequest>, es: seq<Entitlement>,
                      department: Option<string>, e: int, order: seq<nat>, k: nat, holidays: seq<Holiday>)
    returns (days: seq<CalendarDay>)
    requires k < |order| && Indexes(|rs|, order) && OnTeamCalendar(rs, es, department, s, e, order[k])
    requires forall i :: 0 <= i < |days0| ==>
               days0[i] == CalendarDay(s + i, Weekday(s + i) == 5 || Weekday(s + i) == 6, IsHolidayOn(holidays, s + i),
                                       Covering(rs, es, department, s, e, order, k, s + i))
    ensures |days| == |days0|
    ensures forall i :: 0 <= i < |days| ==>
              days[i] == CalendarDay(s + i, Weekday(s + i) == 5 || Weekday(s + i) == 6, IsHolidayOn(holidays, s + i),
                                     Covering(rs, es, department, s, e, order, k + 1, s + i))
  {
    days := days0;
    var r := order[k];
    var a := Ordinal(rs[r].start);
    var b := Ordinal(rs[r].end);
    var current := a;
    while current <= b
      invariant a <= current <= if a <= b then b + 1 else a
      invariant |days| == |days0|
      invariant forall i :: 0 <= i < |days| ==>
                  days[i] == days0[i].(requests := days0[i].requests + (if a <= s + i < current then [r] else []))
      decreases b - current
    {
      if s <= current < s + |days| {
        var i := current - s;
        days := days[i := days[i].(requests := days[i].requests + [r])];
      }
      current := current + 1;
    }
  }

  // ---------------------------------------------------------------------------------------
  // import_entitlements_from_excel_data

  /** One spreadsheet row; a field is `None` when the column is missing or its value is not a
      number `Decimal` accepts. */
  datatype ExcelRow = ExcelRow(
    employeeName: Option<string>,
    department: Option<string>,
    annual: Option<Tenths>,
    carriedOver: Option<Tenths>,
    timeInLieu: Option<Tenths>)

  /** A user as the name lookup sees it. */
  datatype Person = Person(id: UserId, firstName: string, lastName: string)

  datatype ImportError = EmployeeNotFound(name: string) | MultipleEmployees(name: string) | ProcessingError(name: string)

  /** What a row that goes through writes: the entitlement values for `employee`. */
  datatype ImportedRow = ImportedRow(employee: UserId, department: string, annual: Tenths, carriedOver: Tenths, timeInLieu: Tenths)

  /** `name.split(' ', 1)`: the first name and the rest ('' when there is no space). */
  function SplitName(name: string): (r: (string, string))
    ensures ' ' !in r.0
    ensures r.1 != [] ==> name == r.0 + " " + r.1
    ensures ' ' !in name ==> r == (name, "")
  {
    var first := BeforeFirst(name, ' ');
    if |first| < |name| then
      assert name[|first|] == ' '; (first, name[|first| + 1..])
    else
      assert first == name[..|first|] == name; (first, "")
  }

  /** The users whose first and last names equal the given ones, ignoring case. */
  function NameMatches(people: seq<Person>, first: string, last: string): (r: seq<UserId>)
    ensures |r| <= |people|
    ensures forall id :: id in r ==> exists p :: p in people && p.id == id
  {
    if people == [] then []
    else
      var p := people[|people| - 1];
      NameMatches(people[..|people| - 1], first, last)
      + (if Lower(p.firstName) == Lower(first) && Lower(p.lastName) == Lower(last) then [p.id] else [])
  }

  /** What one row comes to, in the order the row is read: the department column, the name, the
      lookup (none or several matches are errors), then the three numbers, which the write
      refuses (an "Error processing" entry) when one of them does not fit its column. */
  function RowOutcome(people: seq<Person>, row: ExcelRow): (r: Result<ImportedRow, ImportError>)
    ensures r.Ok? ==> row.employeeName.Some? && row.department == Some(r.value.department)
                      && row.annual == Some(r.value.annual) && row.carriedOver == Some(r.value.carriedOver)
                      && row.timeInLieu == Some(r.value.timeInLieu)
                      && FitsFiveOne(r.value.annual) && FitsFiveOne(r.value.carriedOver) && FitsFiveOne(r.value.timeInLieu)
    ensures row.department.None? || row.employeeName.None? ==> r.Err? && r.error.ProcessingError?
    ensures row.annual.Some? && !FitsFiveOne(row.annual.value) ==> r.Err?
    ensures row.carriedOver.Some? && !FitsFiveOne(row.carriedOver.value) ==> r.Err?
    ensures row.timeInLieu.Some? && !FitsFiveOne(row.timeInLieu.value) ==> r.Err?
  {
    var shown := if row.employeeName.Some? then row.employeeName.value else "Unknown";
    if row.department.None? || row.employeeName.None? then Err(ProcessingError(shown))
    else
      var (first, last) := SplitName(row.employeeName.value);
      var found := NameMatches(people, first, last);
      if |found| == 0 then Err(EmployeeNotFound(row.employeeName.value))
      else if |found| > 1 then Err(MultipleEmployees(row.employeeName.value))
      else if row.annual.None? || row.carriedOver.None? || row.timeInLieu.None? then Err(ProcessingError(shown))
      else if !FitsFiveOne(row.annual.value) || !FitsFiveOne(row.carriedOver.value)
              || !FitsFiveOne(row.timeInLieu.value) then Err(ProcessingError(shown))
      else Ok(ImportedRow(found[0], row.department.value, row.annual.value, row.carriedOver.value, row.timeInLieu.value))
  }

  /** The errors the rows produce, in row order. */
  function ImportErrors(people: seq<Person>, rows: seq<ExcelRow>): seq<ImportError> {
    if rows == [] then []
    else
      ImportErrors(people, rows[..|rows| - 1])
      + (match RowOutcome(people, rows[|rows| - 1]) case Err(x) => [x] case Ok(_) => [])
  }

  /** The number of rows that go through. */
  function ImportedCount(people: seq<Person>, rows: seq<ExcelRow>): nat {
    if rows == [] then 0
    else ImportedCount(people, rows[..|rows| - 1]) + (if RowOutcome(people, rows[|rows| - 1]).Ok? then 1 else 0)
  }

  /** A line whose employee is found but one of whose numbers does not fit its column (12000.0
      annual days, say) is not counted: it is reported as an "Error processing" entry. */
  lemma OverflowingRowReported(people: seq<Person>, rows: seq<ExcelRow>, row: ExcelRow)
    requires row.department.Some? && row.employeeName.Some?
    requires |NameMatches(people, SplitName(row.employeeName.value).0, SplitName(row.employeeName.value).1)| == 1
    requires row.annual == Some(120000) && row.carriedOver.Some? && row.timeInLieu.Some?
    ensures ImportedCount(people, rows + [row]) == ImportedCount(people, rows)
    ensures ImportErrors(people, rows + [row]) == ImportErrors(people, rows) + [ProcessingError(row.employeeName.value)]
  {
    assert (rows + [row])[..|rows|] == rows;
  }

  /** Every row is either counted as imported or reported by exactly one error. */
  lemma {:induction false} EveryRowAccountedFor(people: seq<Person>, rows: seq<ExcelRow>)
    ensures ImportedCount(people, rows) + |ImportErrors(people, rows)| == |rows|
  {
    if rows != [] {
      EveryRowAccountedFor(people, rows[..|rows| - 1]);
    }
  }

  /** The values the last row that goes through for `employee` writes, if any. */
  function LastImport(people: seq<Person>, rows: seq<ExcelRow>, employee: UserId): (r: Option<ImportedRow>)
    ensures r.Some? ==> r.value.employee == employee
  {
    if rows == [] then None
    else
      match RowOutcome(people, rows[|rows| - 1])
      case Ok(v) => if v.employee == employee then Some(v) else LastImport(people, rows[..|rows| - 1], employee)
      case Err(_) => LastImport(people, rows[..|rows| - 1], employee)
  }

  /** The entitlement of (employee, year) holds what the last row for that employee wrote; a
      carry-over of 0 is the exception, because `save` fills it in on a newly created row. */
  predicate Holds(es: seq<Entitlement>, v: ImportedRow, year: int) {
    var k := FindEntitlement(es, v.employee, year);
    k.Some? && es[k.value].department == v.department && es[k.value].annual == v.annual
    && es[k.value].timeInLieu == v.timeInLieu
    && (v.carriedOver != 0 ==> es[k.value].carriedOver == v.carriedOver)
  }

  /** `update_or_create` on the (employee, year) key: overwrite the row with that key, or append. */
  function PutEntitlement(es: seq<Entitlement>, row: Entitlement): (r: seq<Entitlement>)
    ensures FindEntitlement(es, row.employee, row.year).None? ==> r == es + [row]
    ensures FindEntitlement(es, row.employee, row.year).Some? ==>
              r == es[FindEntitlement(es, row.employee, row.year).value := row]
  {
    match FindEntitlement(es, row.employee, row.year)
    case Some(k) => es[k := row]
    case None => es + [row]
  }

  /** Writing one key keeps the table free of duplicate keys, makes the row findable, and leaves
      the lookup of every other key, and the row it finds, as they were. */
  lemma PutEntitlementFacts(es: seq<Entitlement>, row: Entitlement)
    requires UniqueEntitlements(es)
    ensures UniqueEntitlements(PutEntitlement(es, row))
    ensures var k := FindEntitlement(PutEntitlement(es, row), row.employee, row.year);
            k.Some? && PutEntitlement(es, row)[k.value] == row
  {
    var es' := PutEntitlement(es, row);
    var k := if FindEntitlement(es, row.employee, row.year).Some? then FindEntitlement(es, row.employee, row.year).value else |es|;
    assert k < |es'| && es'[k] == row;
    forall i, j | 0 <= i < j < |es'| ensures !SameKey(es'[j], es'[i].employee, es'[i].year) {
      if i != k && j != k {
        assert es'[i] == es[i] && es'[j] == es[j];
      } else if j == k && k == |es| {
        assert !SameKey(es[i], row.employee, row.year);
      }
    }
    FindEntitlementUnique(es', row.employee, row.year, k);
  }

  /** The other half of `PutEntitlementFacts`: keys other than the written one are untouched. */
  lemma PutEntitlementOtherKey(es: seq<Entitlement>, row: Entitlement, employee: UserId, year: int)
    requires UniqueEntitlements(es)
    requires !SameKey(row, employee, year)
    ensures FindEntitlement(PutEntitlement(es, row), employee, year) == FindEntitlement(es, employee, year)
    ensures FindEntitlement(es, employee, year).Some? ==>
              PutEntitlement(es, row)[FindEntitlement(es, employee, year).value] == es[FindEntitlement(es, employee, year).value]
  {
    PutEntitlementFacts(es, row);
    var es' := PutEntitlement(es, row);
    var f := FindEntitlement(es, employee, year);
    if f.Some? {
      assert es'[f.value] == es[f.value];
      FindEntitlementUnique(es', employee, year, f.value);
    }
  }

  /** The row `update_or_create` writes for an imported line: the values of the line, and for a
      newly created row the carry-over `save` fills in when the line says 0. */
  function ImportedEntitlement(es: seq<Entitlement>, rs: seq<LeaveRequest>, v: ImportedRow, year: int): (r: Entitlement)
    ensures SameKey(r, v.employee, year)
    ensures r.department == v.department && r.annual == v.annual && r.timeInLieu == v.timeInLieu
    ensures FindEntitlement(es, v.employee, year).Some? ==> r.carriedOver == v.carriedOver
    ensures v.carriedOver != 0 ==> r.carriedOver == v.carriedOver
  {
    var created := FindEntitlement(es, v.employee, year).None?;
    Entitlement(v.employee, v.department, year, v.annual,
                AutoFilledCarriedOver(created, v.carriedOver, UnusedDaysFromPreviousYear(es, rs, v.employee, year)),
                v.timeInLieu)
  }

  /** One row of the import loop: the department is filed first, even when the row then fails. */
  method ImportRow(db: LeaveDatabase, people: seq<Person>, row: ExcelRow, currentYear: int)
    returns (outcome: Result<ImportedRow, ImportError>)
    requires db.Valid()
    modifies db`entitlements, db`departments
    ensures db.Valid()
    ensures outcome == RowOutcome(people, row)
    ensures db.departments == if row.department.None? || row.department.value in old(db.departments) then old(db.departments)
                              else old(db.departments) + [row.department.value]
    ensures outcome.Err? ==> db.entitlements == old(db.entitlements)
    ensures outcome.Ok? ==>
              db.entitlements == PutEntitlement(old(db.entitlements),
                                   ImportedEntitlement(old(db.entitlements), db.requests, outcome.value, currentYear))
  {
    outcome := RowOutcome(people, row);
    if row.department.None? {
      return;
    }
    var department := row.department.value;
    if department !in db.departments {
      db.departments := db.departments + [department];
    }
    if outcome.Ok? {
      WriteImported(db, outcome.value, currentYear);
    }
  }

  /** `update_or_create` for one imported line: a new instance with the key, given the found
      row's key when there is one, and saved. */
  method WriteImported(db: LeaveDatabase, v: ImportedRow, currentYear: int)
    requires db.Valid()
    modifies db`entitlements
    ensures db.Valid()
    ensures db.entitlements == PutEntitlement(old(db.entitlements),
                                 ImportedEntitlement(old(db.entitlements), db.requests, v, currentYear))
  {
    var es := db.entitlements;
    var found := FindEntitlement(es, v.employee, currentYear);
    var inst := new EntitlementInstance(v.employee, v.department, currentYear);
    inst.annual := v.annual;
    inst.carriedOver := v.carriedOver;
    inst.timeInLieu := v.timeInLieu;
    inst.pk := found;
    if found.Some? {
      assert !exists j :: 0 <= j < |es| && j != found.value && SameKey(es[j], v.employee, currentYear);
    }
    var saved := inst.Save(db);
    assert inst.Row() == ImportedEntitlement(es, db.requests, v, currentYear);
  }

  /** `import_entitlements_from_excel_data` for the current year: row by row, files the
      department, looks the employee up by name and creates or updates their entitlement; a row
      that fails adds one error and the loop goes on. */
  method ImportEntitlementsFromExcelData(db: LeaveDatabase, people: seq<Person>, rows: seq<ExcelRow>, currentYear: int)
    returns (imported: nat, errors: seq<ImportError>)
    requires db.Valid()
    modifies db`entitlements, db`departments
    ensures db.Valid()
    ensures imported == ImportedCount(people, rows) && errors == ImportErrors(people, rows)
    ensures imported + |errors| == |rows|
    ensures forall d :: d in old(db.departments) ==> d in db.departments
    ensures forall i :: 0 <= i < |rows| && rows[i].department.Some? ==> rows[i].department.value in db.departments
    ensures forall employee :: LastImport(people, rows, employee).Some? ==>
              Holds(db.entitlements, LastImport(people, rows, employee).value, currentYear)
    ensures forall d :: d in db.departments ==>
              d in old(db.departments) || exists i :: 0 <= i < |rows| && rows[i].department == Some(d)
    ensures forall employee, year :: year != currentYear || LastImport(people, rows, employee).None? ==>
              Untouched(old(db.entitlements), db.entitlements, employee, year)
  {
    imported := 0;
    errors := [];
    var n := 0;
    while n < |rows|
      invariant 0 <= n <= |rows|
      invariant db.Valid()
      invariant ImportProgress(db.entitlements, db.departments, old(db.departments), people, rows, n, imported, errors, currentYear)
      invariant ImportFrame(old(db.entitlements), db.entitlements, old(db.departments), db.departments, people, rows, n, currentYear)
    {
      imported, errors := ImportNextRow(db, old(db.entitlements), old(db.departments), people, rows, n, imported, errors, currentYear);
      n := n + 1;
    }
    assert rows[..n] == rows;
    EveryRowAccountedFor(people, rows);
  }

  /** What the import loop has done after its first `n` rows: the tally, the departments filed,
      and the entitlements the rows wrote. */
  ghost predicate ImportProgress(es: seq<Entitlement>, departments: seq<string>, before: seq<string>,
                                 people: seq<Person>, rows: seq<ExcelRow>, n: int,
                                 imported: nat, errors: seq<ImportError>, currentYear: int)
    requires 0 <= n <= |rows|
  {
    && imported == ImportedCount(people, rows[..n]) && errors == ImportErrors(people, rows[..n])
    && (forall d :: d in before ==> d in departments)
    && (forall i :: 0 <= i < n && rows[i].department.Some? ==> rows[i].department.value in departments)
    && (forall employee :: LastImport(people, rows[..n], employee).Some? ==>
          Holds(es, LastImport(people, rows[..n], employee).value, currentYear))
  }

  /** The entitlement of (employee, year) is found at the same place as in `es0` and holds
      the same values. */
  predicate Untouched(es0: seq<Entitlement>, es: seq<Entitlement>, employee: UserId, year: int) {
    var f := FindEntitlement(es0, employee, year);
    FindEntitlement(es, employee, year) == f && (f.Some? ==> f.value < |es| && es[f.value] == es0[f.value])
  }

  /** What the import loop has left alone after its first `n` rows: it filed no department
      but theirs, and no key but (employee, `currentYear`) of an employee one of them went
      through for was written. */
  ghost predicate ImportFrame(es0: seq<Entitlement>, es: seq<Entitlement>, before: seq<string>, departments: seq<string>,
                              people: seq<Person>, rows: seq<ExcelRow>, n: int, currentYear: int)
    requires 0 <= n <= |rows|
  {
    && (forall d :: d in departments ==> d in before || exists i :: 0 <= i < n && rows[i].department == Some(d))
    && (forall employee, year :: year != currentYear || LastImport(people, rows[..n], employee).None? ==>
          Untouched(es0, es, employee, year))
  }

  /** The import loop's frame carried over one row. */
  lemma ImportFrameStep(es0: seq<Entitlement>, es: seq<Entitlement>, es': seq<Entitlement>,
                        departments: seq<string>, departments': seq<string>, rs: seq<LeaveRequest>, before: seq<string>,
                        people: seq<Person>, rows: seq<ExcelRow>, n: int, currentYear: int)
    requires 0 <= n < |rows|
    requires UniqueEntitlements(es)
    requires ImportFrame(es0, es, before, departments, people, rows, n, currentYear)
    requires departments' == if rows[n].department.None? || rows[n].department.value in departments then departments
                              else departments + [rows[n].department.value]
    requires RowOutcome(people, rows[n]).Err? ==> es' == es
    requires RowOutcome(people, rows[n]).Ok? ==>
               es' == PutEntitlement(es, ImportedEntitlement(es, rs, RowOutcome(people, rows[n]).value, currentYear))
    ensures ImportFrame(es0, es', before, departments', people, rows, n + 1, currentYear)
  {
    DepartmentsFrameStep(departments, departments', before, rows, n);
    ImportTallyStep(people, rows, n);
    var done := rows[..n + 1];
    forall employee, year | year != currentYear || LastImport(people, done, employee).None?
      ensures Untouched(es0, es', employee, year)
    {
      LastImportStep(people, rows[..n], rows[n], employee);
      var o := RowOutcome(people, rows[n]);
      var notWritten := year == currentYear;
      if notWritten {
        assert LastImport(people, rows[..n] + [rows[n]], employee).None?;
        assert o.Err? || o.value.employee != employee;
        assert LastImport(people, rows[..n], employee).None?;
      }
      assert Untouched(es0, es, employee, year);
      UntouchedStep(es, es', rs, people, rows[n], currentYear, employee, year, notWritten);
    }
  }

  /** The departments filed after row `n` are the earlier ones and, possibly, the row's. */
  lemma DepartmentsFrameStep(departments: seq<string>, departments': seq<string>, before: seq<string>,
                             rows: seq<ExcelRow>, n: int)
    requires 0 <= n < |rows|
    requires forall d :: d in departments ==> d in before || exists i :: 0 <= i < n && rows[i].department == Some(d)
    requires departments' == if rows[n].department.None? || rows[n].department.value in departments then departments
                              else departments + [rows[n].department.value]
    ensures forall d :: d in departments' ==> d in before || exists i :: 0 <= i < n + 1 && rows[i].department == Some(d)
  {
    forall d | d in departments'
      ensures d in before || exists i :: 0 <= i < n + 1 && rows[i].department == Some(d)
    {
      if d !in departments {
        assert rows[n].department == Some(d);
      } else {
        assert d in before || exists i :: 0 <= i < n && rows[i].department == Some(d);
      }
    }
  }

  /** One row leaves alone every key but (its employee, the current year). */
  lemma UntouchedStep(es: seq<Entitlement>, es': seq<Entitlement>, rs: seq<LeaveRequest>, people: seq<Person>,
                      row: ExcelRow, currentYear: int, employee: UserId, year: int, notWritten: bool)
    requires UniqueEntitlements(es)
    requires notWritten ==> RowOutcome(people, row).Err? || RowOutcome(people, row).value.employee != employee
    requires year != currentYear || notWritten
    requires RowOutcome(people, row).Err? ==> es' == es
    requires RowOutcome(people, row).Ok? ==>
               es' == PutEntitlement(es, ImportedEntitlement(es, rs, RowOutcome(people, row).value, currentYear))
    ensures forall es0 :: Untouched(es0, es, employee, year) ==> Untouched(es0, es', employee, year)
  {
    var o := RowOutcome(people, row);
    if o.Ok? {
      PutEntitlementOtherKey(es, ImportedEntitlement(es, rs, o.value, currentYear), employee, year);
    }
  }

  /** The body of the import loop: row `n`, and its error or its count. */
  method ImportNextRow(db: LeaveDatabase, ghost es0: seq<Entitlement>, ghost before: seq<string>, people: seq<Person>,
                       rows: seq<ExcelRow>, n: int, imported: nat, errors: seq<ImportError>, currentYear: int)
    returns (imported': nat, errors': seq<ImportError>)
    requires 0 <= n < |rows|
    requires db.Valid()
    requires ImportProgress(db.entitlements, db.departments, before, people, rows, n, imported, errors, currentYear)
    requires ImportFrame(es0, db.entitlements, before, db.departments, people, rows, n, currentYear)
    modifies db`entitlements, db`departments
    ensures db.Valid()
    ensures ImportProgress(db.entitlements, db.departments, before, people, rows, n + 1, imported', errors', currentYear)
    ensures ImportFrame(es0, db.entitlements, before, db.departments, people, rows, n + 1, currentYear)
  {
    ghost var es := db.entitlements;
    ghost var departments := db.departments;
    var outcome := ImportRow(db, people, rows[n], currentYear);
    ImportProgressStep(es, departments, db.entitlements, db.departments, db.requests, before, people, rows, n,
                       imported, errors, currentYear);
    ImportFrameStep(es0, es, db.entitlements, departments, db.departments, db.requests, before, people, rows, n,
                    currentYear);
    if outcome.Err? {
      imported', errors' := imported, errors + [outcome.error];
    } else {
      imported', errors' := imported + 1, errors;
    }
  }

  /** The import loop's invariant carried over one row. */
  lemma ImportProgressStep(es: seq<Entitlement>, departments: seq<string>, es': seq<Entitlement>, departments': seq<string>,
                           rs: seq<LeaveRequest>, before: seq<string>, people: seq<Person>, rows: seq<ExcelRow>, n: int,
                           imported: nat, errors: seq<ImportError>, currentYear: int)
    requires 0 <= n < |rows|
    requires UniqueEntitlements(es)
    requires ImportProgress(es, departments, before, people, rows, n, imported, errors, currentYear)
    requires departments' == if rows[n].department.None? || rows[n].department.value in departments then departments
                              else departments + [rows[n].department.value]
    requires RowOutcome(people, rows[n]).Err? ==> es' == es
    requires RowOutcome(people, rows[n]).Ok? ==>
               es' == PutEntitlement(es, ImportedEntitlement(es, rs, RowOutcome(people, rows[n]).value, currentYear))
    ensures var o := RowOutcome(people, rows[n]);
      ImportProgress(es', departments', before, people, rows, n + 1,
                     if o.Ok? then imported + 1 else imported, if o.Err? then errors + [o.error] else errors, currentYear)
  {
    ImportTallyStep(people, rows, n);
    KeepHolding(es, es', rs, people, rows[..n], rows[n], currentYear);
    DepartmentsStep(departments, departments', before, rows, n);
    var o := RowOutcome(people, rows[n]);
    var done := rows[..n + 1];
    assert done == rows[..n] + [rows[n]];
    assert forall employee :: LastImport(people, done, employee).Some? ==>
             Holds(es', LastImport(people, done, employee).value, currentYear);
    assert (if o.Ok? then imported + 1 else imported) == ImportedCount(people, done);
    assert (if o.Err? then errors + [o.error] else errors) == ImportErrors(people, done);
  }

  /** The step of the import loop's department invariants: the list only grows, and row `n`'s
      department is on it afterwards. */
  lemma DepartmentsStep(departments: seq<string>, departments': seq<string>, before: seq<string>,
                        rows: seq<ExcelRow>, n: int)
    requires 0 <= n < |rows|
    requires forall d :: d in before ==> d in departments
    requires forall i :: 0 <= i < n && rows[i].department.Some? ==> rows[i].department.value in departments
    requires departments' == if rows[n].department.None? || rows[n].department.value in departments then departments
                              else departments + [rows[n].department.value]
    ensures forall d :: d in before ==> d in departments'
    ensures forall i :: 0 <= i < n + 1 && rows[i].department.Some? ==> rows[i].department.value in departments'
  {
    forall d | d in before ensures d in departments' {
      assert d in departments;
    }
    forall i | 0 <= i < n + 1 && rows[i].department.Some? ensures rows[i].department.value in departments' {
      if i < n {
        assert rows[i].department.value in departments;
      }
    }
  }

  /** One more row adds its error, or one to the count, and nothing else. */
  lemma ImportTallyStep(people: seq<Person>, rows: seq<ExcelRow>, n: int)
    requires 0 <= n < |rows|
    ensures rows[..n + 1] == rows[..n] + [rows[n]]
    ensures var o := RowOutcome(people, rows[n]);
      && ImportErrors(people, rows[..n + 1]) == ImportErrors(people, rows[..n]) + (if o.Err? then [o.error] else [])
      && ImportedCount(people, rows[..n + 1]) == ImportedCount(people, rows[..n]) + (if o.Ok? then 1 else 0)
  {
    assert rows[..n + 1][..n] == rows[..n];
  }

  /** The step of the import loop's last-writer invariant. */
  lemma KeepHolding(es: seq<Entitlement>, es': seq<Entitlement>, rs: seq<LeaveRequest>, people: seq<Person>,
                    prev: seq<ExcelRow>, last: ExcelRow, year: int)
    requires UniqueEntitlements(es)
    requires forall employee :: LastImport(people, prev, employee).Some? ==>
               Holds(es, LastImport(people, prev, employee).value, year)
    requires RowOutcome(people, last).Err? ==> es' == es
    requires RowOutcome(people, last).Ok? ==>
               es' == PutEntitlement(es, ImportedEntitlement(es, rs, RowOutcome(people, last).value, year))
    ensures forall employee :: LastImport(people, prev + [last], employee).Some? ==>
              Holds(es', LastImport(people, prev + [last], employee).value, year)
  {
    forall employee | LastImport(people, prev + [last], employee).Some?
      ensures Holds(es', LastImport(people, prev + [last], employee).value, year)
    {
      LastImportStep(people, prev, last, employee);
      var outcome := RowOutcome(people, last);
      if outcome.Ok? {
        var row := ImportedEntitlement(es, rs, outcome.value, year);
        if employee == outcome.value.employee {
          HoldsAfterPut(es, row, outcome.value, year);
        } else {
          HoldsAfterOtherPut(es, row, LastImport(people, prev, employee).value, year);
        }
      }
    }
  }

  /** Writing a line's row makes the table hold that line. */
  lemma HoldsAfterPut(es: seq<Entitlement>, row: Entitlement, v: ImportedRow, year: int)
    requires UniqueEntitlements(es)
    requires SameKey(row, v.employee, year)
    requires row.department == v.department && row.annual == v.annual && row.timeInLieu == v.timeInLieu
    requires v.carriedOver != 0 ==> row.carriedOver == v.carriedOver
    ensures Holds(PutEntitlement(es, row), v, year)
  {
    PutEntitlementFacts(es, row);
  }

  /** Writing another employee's row keeps what the table held. */
  lemma HoldsAfterOtherPut(es: seq<Entitlement>, row: Entitlement, v: ImportedRow, year: int)
    requires UniqueEntitlements(es)
    requires Holds(es, v, year) && row.employee != v.employee
    ensures Holds(PutEntitlement(es, row), v, year)
  {
    PutEntitlementOtherKey(es, row, v.employee, year);
  }

  /** `LastImport` over one more row. */
  lemma LastImportStep(people: seq<Person>, prev: seq<ExcelRow>, last: ExcelRow, employee: UserId)
    ensures LastImport(people, prev + [last], employee)
            == if RowOutcome(people, last).Ok? && RowOutcome(people, last).value.employee == employee
               then Some(RowOutcome(people, last).value) else LastImport(people, prev, employee)
  {
    assert (prev + [last])[..|prev|] == prev;
    assert (prev + [last])[|prev|] == last;
  }
}
