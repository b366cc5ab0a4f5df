/** The leave app's records (leaves/models.py): requests, entitlements, balances, holidays and
    the audit trail, with the arithmetic their properties compute and the two `save` overrides. */
module LeaveModels {
  import opened Results
  import opened Dates

  /** A decimal day count with one decimal place, in tenths of a day (2.5 days is 25). */
  type Tenths = int

  /** A `DecimalField(max_digits=5, decimal_places=1)` holds at most 9999.9 in absolute value;
      a larger value makes the database refuse the write. */
  const FiveOneLimit: Tenths := 100000

  predicate FitsFiveOne(t: Tenths) {
    -FiveOneLimit < t < FiveOneLimit
  }

  /** A user's primary key. */
  type UserId = nat

  datatype Status = Pending | Approved | Rejected | Cancelled

  /** PENDING and APPROVED requests are the ones that block overlaps and appear on calendars. */
  predicate IsActive(s: Status) {
    s == Pending || s == Approved
  }

  datatype LeaveType = LeaveType(
    code: string,
    isPaid: bool,
    affectsEntitlement: bool,
    isHalfDay: bool,
    requiresApproval: bool,
    isActive: bool)

  /** A leave request; `approvedAt` is the instant of approval, as an abstract clock reading. */
  datatype LeaveRequest = LeaveRequest(
    employee: UserId,
    leaveType: LeaveType,
    start: CalendarDate,
    end: CalendarDate,
    duration: Tenths,
    reason: string,
    status: Status,
    approvedBy: Option<UserId>,
    approvedAt: Option<int>,
    rejectionReason: string,
    createdBy: UserId)

  /** An employee's entitlement for one year; at most one per (employee, year). */
  datatype Entitlement = Entitlement(
    employee: UserId,
    department: string,
    year: int,
    annual: Tenths,
    carriedOver: Tenths,
    timeInLieu: Tenths)

  /** Per-type balance row; at most one per (employee, type code, year). */
  datatype LeaveBalance = LeaveBalance(
    employee: UserId,
    typeCode: string,
    year: int,
    allocatedDays: Tenths,
    usedDays: Tenths,
    pendingDays: Tenths)

  /** An audit row: `request` is the index of the request in the request table. */
  datatype StatusChange = StatusChange(
    request: nat,
    previous: Status,
    next: Status,
    changedBy: UserId,
    reason: string)

  datatype Holiday = Holiday(date: CalendarDate, isRecurring: bool, isActive: bool)

  /** An exact percentage `num / den` (`den > 0`). */
  datatype Percent = Percent(num: int, den: int)

  // ---------------------------------------------------------------------------------------
  // Aggregates: `filter(...).aggregate(total=Sum('duration_days'))['total'] or 0`

  /** The filter of an aggregate: employee, year of `start_date`, status and optionally the type. */
  datatype Query = Query(employee: UserId, year: int, status: Status, typeCode: Option<string>)

  predicate Selects(q: Query, r: LeaveRequest) {
    r.employee == q.employee && r.start.year == q.year && r.status == q.status
    && (q.typeCode.Some? ==> r.leaveType.code == q.typeCode.value)
  }

  function Contribution(q: Query, r: LeaveRequest): Tenths {
    if Selects(q, r) then r.duration else 0
  }

  /** The sum of the durations of the requests the query selects; 0 for none (`or 0`). */
  function SumDuration(rs: seq<LeaveRequest>, q: Query): Tenths {
    if rs == [] then 0 else SumDuration(rs[..|rs| - 1], q) + Contribution(q, rs[|rs| - 1])
  }

  /** Requests the query does not select do not change the sum; requests it does add up. */
  lemma {:induction false} SumDurationAppend(rs: seq<LeaveRequest>, r: LeaveRequest, q: Query)
    ensures SumDuration(rs + [r], q) == SumDuration(rs, q) + Contribution(q, r)
  {
    assert (rs + [r])[..|rs|] == rs;
  }

  /** Replacing one request changes the sum by the difference of the two contributions. */
  lemma {:induction false} SumDurationUpdate(rs: seq<LeaveRequest>, i: nat, r: LeaveRequest, q: Query)
    requires i < |rs|
    ensures SumDuration(rs[i := r], q) == SumDuration(rs, q) - Contribution(q, rs[i]) + Contribution(q, r)
    decreases |rs|
  {
    var n := |rs| - 1;
    if i < n {
      assert rs[i := r][..n] == rs[..n][i := r];
      SumDurationUpdate(rs[..n], i, r, q);
    } else {
      assert rs[i := r][..n] == rs[..n];
    }
  }

  /** A sum over requests none of which the query selects is 0. */
  lemma {:induction false} SumDurationNone(rs: seq<LeaveRequest>, q: Query)
    requires forall i :: 0 <= i < |rs| ==> !Selects(q, rs[i])
    ensures SumDuration(rs, q) == 0
  {
    if rs != [] {
      SumDurationNone(rs[..|rs| - 1], q);
    }
  }

  /** The sum for a type never exceeds the sum over all types, when durations are non-negative. */
  lemma {:induction false} SumDurationTypeBound(rs: seq<LeaveRequest>, q: Query, code: string)
    requires q.typeCode.None?
    requires forall i :: 0 <= i < |rs| ==> rs[i].duration >= 0
    ensures 0 <= SumDuration(rs, q.(typeCode := Some(code))) <= SumDuration(rs, q)
  {
    if rs != [] {
      SumDurationTypeBound(rs[..|rs| - 1], q, code);
    }
  }

  // ---------------------------------------------------------------------------------------
  // EmployeeEntitlement

  /** `total_available_days`: annual entitlement plus carried-over days plus time in lieu. */
  function TotalAvailableDays(e: Entitlement): Tenths {
    e.annual + e.carriedOver + e.timeInLieu
  }

  /** `days_taken`: the APPROVED durations of the employee's requests starting in `year`. */
  function DaysTaken(rs: seq<LeaveRequest>, employee: UserId, year: int): Tenths {
    SumDuration(rs, Query(employee, year, Approved, None))
  }

  /** `remaining_entitlement`: what is available minus what has been taken. */
  function RemainingEntitlement(e: Entitlement, rs: seq<LeaveRequest>): (r: Tenths)
    ensures r + DaysTaken(rs, e.employee, e.year) == e.annual + e.carriedOver + e.timeInLieu
  {
    TotalAvailableDays(e) - DaysTaken(rs, e.employee, e.year)
  }

  predicate SameKey(e: Entitlement, employee: UserId, year: int) {
    e.employee == employee && e.year == year
  }

  /** The `unique_together = ['employee', 'year']` constraint. */
  predicate UniqueEntitlements(es: seq<Entitlement>) {
    forall i, j :: 0 <= i < j < |es| ==> !SameKey(es[j], es[i].employee, es[i].year)
  }

  /** `EmployeeEntitlement.objects.get(employee=…, year=…)`: the index of the row, `None` for
      `DoesNotExist`. */
  function FindEntitlement(es: seq<Entitlement>, employee: UserId, year: int): (r: Option<nat>)
    ensures r.Some? ==> r.value < |es| && SameKey(es[r.value], employee, year)
    ensures r.None? ==> forall i :: 0 <= i < |es| ==> !SameKey(es[i], employee, year)
  {
    if es == [] then None
    else
      match FindEntitlement(es[..|es| - 1], employee, year)
      case Some(i) => Some(i)
      case None => if SameKey(es[|es| - 1], employee, year) then Some(|es| - 1) else None
  }

  /** Under the uniqueness constraint the row found is the only one with that key. */
  lemma FindEntitlementUnique(es: seq<Entitlement>, employee: UserId, year: int, k: nat)
    requires UniqueEntitlements(es)
    requires k < |es| && SameKey(es[k], employee, year)
    ensures FindEntitlement(es, employee, year) == Some(k)
  {
  }

  function Max(a: int, b: int): int {
    if a >= b then a else b
  }

  /** `calculate_unused_days_from_previous_year`: the previous year's annual entitlement minus the
      days taken that year, floored at 0; 0 when there is no previous-year row. */
  function UnusedDaysFromPreviousYear(es: seq<Entitlement>, rs: seq<LeaveRequest>, employee: UserId, year: int): (r: Tenths)
    ensures r >= 0
    ensures FindEntitlement(es, employee, year - 1).None? ==> r == 0
    ensures FindEntitlement(es, employee, year - 1).Some? ==>
              var prev := es[FindEntitlement(es, employee, year - 1).value];
              r >= prev.annual - DaysTaken(rs, employee, year - 1)
              && (r == 0 || r == prev.annual - DaysTaken(rs, employee, year - 1))
  {
    match FindEntitlement(es, employee, year - 1)
    case None => 0
    case Some(i) => Max(0, es[i].annual - DaysTaken(rs, employee, year - 1))
  }

  /** Only the annual entitlement carries over: rewriting the previous year's carried-over and
      time-in-lieu days leaves the unused count unchanged. */
  lemma UnusedIgnoresCarriedAndLieu(es: seq<Entitlement>, rs: seq<LeaveRequest>, employee: UserId, year: int,
                                    k: nat, carried: Tenths, lieu: Tenths)
    requires UniqueEntitlements(es)
    requires k < |es| && SameKey(es[k], employee, year - 1)
    ensures UnusedDaysFromPreviousYear(es[k := es[k].(carriedOver := carried, timeInLieu := lieu)], rs, employee, year)
            == UnusedDaysFromPreviousYear(es, rs, employee, year)
  {
    var es' := es[k := es[k].(carriedOver := carried, timeInLieu := lieu)];
    assert UniqueEntitlements(es') by {
      forall i, j | 0 <= i < j < |es'|
        ensures !SameKey(es'[j], es'[i].employee, es'[i].year)
      {
        assert !SameKey(es[j], es[i].employee, es[i].year);
      }
    }
    FindEntitlementUnique(es, employee, year - 1, k);
    FindEntitlementUnique(es', employee, year - 1, k);
  }

  /** The cap of `auto_calculate_carried_over_days`: `min(unused, cap)` when a cap is given. */
  function CarryOverWithCap(unused: Tenths, cap: Option<Tenths>): (r: Tenths)
    ensures cap.None? ==> r == unused
    ensures cap.Some? ==> r <= unused && r <= cap.value && (r == unused || r == cap.value)
    ensures unused >= 0 && (cap.None? || cap.value >= 0) ==> r >= 0
  {
    if cap.Some? && cap.value < unused then cap.value else unused
  }

  /** The carry-over `save` writes: recomputed only for a new row whose carry-over is 0, and only
      when the computed value is positive. */
  function AutoFilledCarriedOver(isNew: bool, carriedOver: Tenths, unused: Tenths): (r: Tenths)
    ensures !isNew ==> r == carriedOver
    ensures r != carriedOver ==> isNew && carriedOver == 0 && unused > 0 && r == unused
    ensures isNew && carriedOver == 0 && unused > 0 ==> r == unused
  {
    if isNew && carriedOver == 0 && unused > 0 then unused else carriedOver
  }

  /** `utilization_rate`: days taken as a percentage of the total available, 0 when the total is
      not positive. */
  function UtilizationRate(e: Entitlement, rs: seq<LeaveRequest>): (p: Percent)
    ensures p.den > 0
    ensures TotalAvailableDays(e) <= 0 ==> p.num == 0
    ensures TotalAvailableDays(e) > 0 ==>
              p.num * TotalAvailableDays(e) == 100 * DaysTaken(rs, e.employee, e.year) * p.den
  {
    var total := TotalAvailableDays(e);
    if total > 0 then Percent(100 * DaysTaken(rs, e.employee, e.year), total) else Percent(0, 1)
  }

  // ---------------------------------------------------------------------------------------
  // LeaveRequest

  /** `can_be_cancelled` on `today`: PENDING, or APPROVED and still in the future. */
  predicate CanBeCancelled(r: LeaveRequest, today: CalendarDate): (b: bool)
    ensures b ==> IsActive(r.status)
    ensures r.status == Pending ==> b
    ensures r.status == Approved ==> (b <==> !OnOrBefore(r.start, today))
  {
    r.status == Pending || (r.status == Approved && Ordinal(today) < Ordinal(r.start))
  }

  /** Cancellability is only ever lost as time passes, and only active requests have it. */
  lemma CancellableEarlier(r: LeaveRequest, earlier: CalendarDate, later: CalendarDate)
    requires OnOrBefore(earlier, later)
    ensures CanBeCancelled(r, later) ==> CanBeCancelled(r, earlier) && IsActive(r.status)
    ensures r.status == Approved && !CanBeCancelled(r, earlier) ==> !CanBeCancelled(r, later)
  {
  }

  /** Tenths one counted day is worth: a whole day, or half of one for a half-day type. */
  function PerDay(halfDay: bool): Tenths {
    if halfDay then 5 else 10
  }

  /** The count `calculate_duration` makes over the ordinals `s..e`: `PerDay` for each
      Monday–Friday, nothing for Saturday and Sunday; holidays are not consulted. */
  function WeekdayTenths(s: int, e: int, halfDay: bool): (t: Tenths)
    ensures e < s ==> t == 0
    ensures e >= s ==> 0 <= t <= (if halfDay then 5 * (e - s + 1) else 10 * (e - s + 1))
    decreases e - s
  {
    if e < s then 0
    else WeekdayTenths(s, e - 1, halfDay) + (if Weekday(e) < 5 then PerDay(halfDay) else 0)
  }

  /** A half-day type is charged exactly half of what a full-day type is for the same range. */
  lemma {:induction false} HalfDayIsHalf(s: int, e: int)
    ensures 2 * WeekdayTenths(s, e, true) == WeekdayTenths(s, e, false)
    decreases e - s
  {
    if e >= s {
      HalfDayIsHalf(s, e - 1);
    }
  }

  /** What a day of weekday `w` adds to the count: `p` from Monday to Friday, nothing else. */
  function DayWorth(w: int, p: Tenths): Tenths {
    if w < 5 then p else 0
  }

  /** Whatever weekday a week starts on, five of its seven days are Monday to Friday. */
  lemma FiveOfSeven(w: int, p: Tenths)
    requires 0 <= w < 7
    ensures DayWorth(w, p) + DayWorth((w + 1) % 7, p) + DayWorth((w + 2) % 7, p)
            + DayWorth((w + 3) % 7, p) + DayWorth((w + 4) % 7, p) + DayWorth((w + 5) % 7, p)
            + DayWorth((w + 6) % 7, p) == 5 * p
  {
    if w == 0 {
    } else if w == 1 {
    } else if w == 2 {
    } else if w == 3 {
    } else if w == 4 {
    } else if w == 5 {
    } else {
    }
  }

  /** Any seven consecutive days hold five working days. */
  lemma WeekHasFiveWorkingDays(s: int, halfDay: bool)
    ensures WeekdayTenths(s, s + 6, halfDay) == 5 * PerDay(halfDay)
  {
    var p := PerDay(halfDay);
    var w := Weekday(s);
    assert WeekdayTenths(s, s + 6, halfDay) ==
      DayWorth(w, p) + DayWorth(Weekday(s + 1), p) + DayWorth(Weekday(s + 2), p)
      + DayWorth(Weekday(s + 3), p) + DayWorth(Weekday(s + 4), p) + DayWorth(Weekday(s + 5), p)
      + DayWorth(Weekday(s + 6), p)
    by {
      assert WeekdayTenths(s, s, halfDay) == DayWorth(w, p);
      assert WeekdayTenths(s, s + 1, halfDay) == WeekdayTenths(s, s, halfDay) + DayWorth(Weekday(s + 1), p);
      assert WeekdayTenths(s, s + 2, halfDay) == WeekdayTenths(s, s + 1, halfDay) + DayWorth(Weekday(s + 2), p);
      assert WeekdayTenths(s, s + 3, halfDay) == WeekdayTenths(s, s + 2, halfDay) + DayWorth(Weekday(s + 3), p);
      assert WeekdayTenths(s, s + 4, halfDay) == WeekdayTenths(s, s + 3, halfDay) + DayWorth(Weekday(s + 4), p);
      assert WeekdayTenths(s, s + 5, halfDay) == WeekdayTenths(s, s + 4, halfDay) + DayWorth(Weekday(s + 5), p);
      assert WeekdayTenths(s, s + 6, halfDay) == WeekdayTenths(s, s + 5, halfDay) + DayWorth(Weekday(s + 6), p);
    }
    WeekdayShift(s, 1);
    WeekdayShift(s, 2);
    WeekdayShift(s, 3);
    WeekdayShift(s, 4);
    WeekdayShift(s, 5);
    WeekdayShift(s, 6);
    FiveOfSeven(w, p);
  }

  /** `calculate_duration`: walks the days from start to end and adds a day's worth for each
      working day; 0 when a date is missing. */
  method CalculateDuration(start: Option<CalendarDate>, end: Option<CalendarDate>, halfDay: bool)
    returns (duration: Tenths)
    ensures start.None? || end.None? ==> duration == 0
    ensures start.Some? && end.Some? ==>
              duration == WeekdayTenths(Ordinal(start.value), Ordinal(end.value), halfDay)
  {
    if start.None? || end.None? {
      return 0;
    }
    duration := CountWeekdays(Ordinal(start.value), Ordinal(end.value), halfDay);
  }

  /** The day walk of `calculate_duration` over the ordinals `s..e`. */
  method CountWeekdays(s: int, e: int, halfDay: bool) returns (duration: Tenths)
    ensures duration == WeekdayTenths(s, e, halfDay)
  {
    duration := 0;
    var current := s;
    while current <= e
      invariant s <= current <= if s <= e then e + 1 else s
      invariant duration == WeekdayTenths(s, current - 1, halfDay)
      decreases e - current
    {
      if Weekday(current) != 5 && Weekday(current) != 6 {
        duration := duration + PerDay(halfDay);
      }
      current := current + 1;
    }
  }

  /** What `LeaveRequest.save` stores: a missing (zero) duration is computed by
      `calculate_duration`, and an APPROVED request without an approval instant gets `now`. */
  function SavedRequest(r: LeaveRequest, now: int): (s: LeaveRequest)
    ensures r.duration != 0 ==> s.duration == r.duration
    ensures r.duration == 0 ==>
              s.duration == WeekdayTenths(Ordinal(r.start), Ordinal(r.end), r.leaveType.isHalfDay)
    ensures s.approvedAt.None? <==> r.approvedAt.None? && r.status != Approved
    ensures r.approvedAt.Some? ==> s.approvedAt == r.approvedAt
    ensures s == r.(duration := s.duration, approvedAt := s.approvedAt)
  {
    var d := if r.duration == 0 then WeekdayTenths(Ordinal(r.start), Ordinal(r.end), r.leaveType.isHalfDay)
             else r.duration;
    var at := if r.status == Approved && r.approvedAt.None? then Some(now) else r.approvedAt;
    r.(duration := d, approvedAt := at)
  }

  /** Saving twice stores the same row as saving once, including when the duration computed on
      the first save is 0, since the second save then recomputes the same value. */
  lemma SaveIdempotent(r: LeaveRequest, now: int, later: int)
    ensures SavedRequest(SavedRequest(r, now), later) == SavedRequest(r, now)
  {
  }

  /** Whether `r` is PENDING or APPROVED and its inclusive range meets `start..end`. */
  predicate OverlapsRange(r: LeaveRequest, start: CalendarDate, end: CalendarDate) {
    IsActive(r.status) && OnOrBefore(r.start, end) && OnOrBefore(start, r.end)
  }

  /** Whether a request of `employee` other than the one at index `skip` overlaps `start..end`. */
  predicate HasOverlap(rs: seq<LeaveRequest>, employee: UserId, start: CalendarDate, end: CalendarDate, skip: Option<nat>) {
    exists i :: 0 <= i < |rs| && skip != Some(i) && rs[i].employee == employee && OverlapsRange(rs[i], start, end)
  }

  datatype CleanError = StartAfterEnd | OverlapsExisting

  /** `LeaveRequest.clean` for the row at index `pk` (none for a new row): the date order first,
      then, when an employee is set, the overlap test that leaves the row itself out. */
  function Clean(rs: seq<LeaveRequest>, pk: Option<nat>, employee: Option<UserId>,
                 start: CalendarDate, end: CalendarDate): (res: Result<(), CleanError>)
    ensures res == Err(StartAfterEnd) <==> Ordinal(end) < Ordinal(start)
    ensures res == Err(OverlapsExisting) <==>
              OnOrBefore(start, end) && employee.Some? && HasOverlap(rs, employee.value, start, end, pk)
    ensures res.Ok? <==>
              OnOrBefore(start, end) && (employee.None? || !HasOverlap(rs, employee.value, start, end, pk))
  {
    if Ordinal(end) < Ordinal(start) then Err(StartAfterEnd)
    else if employee.Some? && HasOverlap(rs, employee.value, start, end, pk) then Err(OverlapsExisting)
    else Ok(())
  }

  // ---------------------------------------------------------------------------------------
  // LeaveBalance

  predicate SameBalanceKey(b: LeaveBalance, employee: UserId, code: string, year: int) {
    b.employee == employee && b.typeCode == code && b.year == year
  }

  /** The `unique_together = ['employee', 'leave_type', 'year']` constraint. */
  predicate UniqueBalances(bs: seq<LeaveBalance>) {
    forall i, j :: 0 <= i < j < |bs| ==> !SameBalanceKey(bs[j], bs[i].employee, bs[i].typeCode, bs[i].year)
  }

  /** `available_days`: allocated minus used minus pending. */
  function AvailableDays(b: LeaveBalance): (r: Tenths)
    ensures r + b.usedDays + b.pendingDays == b.allocatedDays
  {
    b.allocatedDays - b.usedDays - b.pendingDays
  }

  // ---------------------------------------------------------------------------------------
  // The tables

  /** The leave app's tables; a request's primary key is its index in `requests`. */
  class LeaveDatabase {
    var requests: seq<LeaveRequest>
    var history: seq<StatusChange>
    var balances: seq<LeaveBalance>
    var entitlements: seq<Entitlement>
    var departments: seq<string>
    var holidays: seq<Holiday>
    var leaveTypes: seq<LeaveType>

    /** The uniqueness constraints hold and every audit row names an existing request. */
    predicate Valid()
      reads this
    {
      UniqueEntitlements(entitlements) && UniqueBalances(balances)
      && forall h :: h in history ==> h.request < |requests|
    }

    constructor (holidays: seq<Holiday>, leaveTypes: seq<LeaveType>, departments: seq<string>)
      ensures Valid()
      ensures requests == [] && history == [] && balances == [] && entitlements == []
      ensures this.holidays == holidays && this.leaveTypes == leaveTypes && this.departments == departments
    {
      requests := [];
      history := [];
      balances := [];
      entitlements := [];
      this.departments := departments;
      this.holidays := holidays;
      this.leaveTypes := leaveTypes;
    }

    /** `LeaveRequest.save`: inserts the row (no `pk`) or overwrites row `pk`, after filling in
        the duration and the approval instant; returns the row's key. */
    method SaveRequest(pk: Option<nat>, r: LeaveRequest, now: int) returns (id: nat)
      requires Valid()
      requires pk.Some? ==> pk.value < |requests|
      modifies this`requests
      ensures Valid()
      ensures id == if pk.Some? then pk.value else |old(requests)|
      ensures requests == if pk.Some? then old(requests)[pk.value := SavedRequest(r, now)]
                          else old(requests) + [SavedRequest(r, now)]
    {
      var row := r;
      if row.duration == 0 {
        var d := CalculateDuration(Some(row.start), Some(row.end), row.leaveType.isHalfDay);
        row := row.(duration := d);
      }
      if row.status == Approved && row.approvedAt.None? {
        row := row.(approvedAt := Some(now));
      }
      if pk.Some? {
        requests := requests[pk.value := row];
        id := pk.value;
      } else {
        requests := requests + [row];
        id := |requests| - 1;
      }
    }
  }

  datatype SaveError = DuplicateEntitlement

  /** An `EmployeeEntitlement` instance being edited in memory; `pk` is its row once saved. */
  class EntitlementInstance {
    var employee: UserId
    var department: string
    var year: int
    var annual: Tenths
    var carriedOver: Tenths
    var timeInLieu: Tenths
    var pk: Option<nat>

    function Row(): Entitlement
      reads this
    {
      Entitlement(employee, department, year, annual, carriedOver, timeInLieu)
    }

    /** A new, unsaved instance with the field defaults: 25.0 days annual, nothing carried over,
        no time in lieu. */
    constructor (employee: UserId, department: string, year: int)
      ensures Row() == Entitlement(employee, department, year, 250, 0, 0) && pk.None?
    {
      this.employee := employee;
      this.department := department;
      this.year := year;
      annual := 250;
      carriedOver := 0;
      timeInLieu := 0;
      pk := None;
    }

    /** `auto_calculate_carried_over_days`: sets and returns the previous year's unused days,
        capped when a cap is given. */
    method AutoCalculateCarriedOverDays(db: LeaveDatabase, cap: Option<Tenths>) returns (days: Tenths)
      modifies this`carriedOver
      ensures days == CarryOverWithCap(UnusedDaysFromPreviousYear(db.entitlements, db.requests, employee, year), cap)
      ensures carriedOver == days
      ensures cap.None? || cap.value >= 0 ==> days >= 0
    {
      var unused := UnusedDaysFromPreviousYear(db.entitlements, db.requests, employee, year);
      if cap.Some? {
        unused := if unused <= cap.value then unused else cap.value;
      }
      carriedOver := unused;
      days := unused;
    }

    /** `EmployeeEntitlement.save`: fills in the carry-over of a new row, then inserts or
        overwrites it; a second row for the same (employee, year) is refused and nothing is
        written to the table. */
    method Save(db: LeaveDatabase) returns (res: Result<nat, SaveError>)
      requires db.Valid()
      requires pk.Some? ==> pk.value < |db.entitlements|
      modifies this`carriedOver, this`pk, db`entitlements
      ensures db.Valid()
      ensures carriedOver == AutoFilledCarriedOver(old(pk).None?, old(carriedOver),
                               UnusedDaysFromPreviousYear(old(db.entitlements), db.requests, employee, year))
      ensures old(pk).None? ==>
                if FindEntitlement(old(db.entitlements), employee, year).Some? then
                  res == Err(DuplicateEntitlement) && db.entitlements == old(db.entitlements) && pk == old(pk)
                else
                  res == Ok(|old(db.entitlements)|) && pk == Some(|old(db.entitlements)|)
                  && db.entitlements == old(db.entitlements) + [Row()]
      ensures old(pk).Some? ==>
                pk == old(pk)
                && if exists j :: 0 <= j < |old(db.entitlements)| && j != old(pk).value
                                  && SameKey(old(db.entitlements)[j], employee, year) then
                     res == Err(DuplicateEntitlement) && db.entitlements == old(db.entitlements)
                   else
                     res == Ok(old(pk).value) && db.entitlements == old(db.entitlements)[old(pk).value := Row()]
    {
      if pk.None? && carriedOver == 0 {
        var unused := UnusedDaysFromPreviousYear(db.entitlements, db.requests, employee, year);
        if unused > 0 {
          carriedOver := unused;
        }
      }
      var es := db.entitlements;
      if pk.None? {
        if FindEntitlement(es, employee, year).Some? {
          return Err(DuplicateEntitlement);
        }
        db.entitlements := es + [Row()];
        pk := Some(|es|);
        res := Ok(|es|);
      } else {
        var k := pk.value;
        if exists j :: 0 <= j < |es| && j != k && SameKey(es[j], employee, year) {
          return Err(DuplicateEntitlement);
        }
        db.entitlements := es[k := Row()];
        res := Ok(k);
      }
    }
  }
}
