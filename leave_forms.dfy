/** The cleaners of the leave forms (leaves/forms.py): the request form's date and eligibility
    checks and its save, the approval form, the calendar filter's month and year, and the
    upload check of the bulk import form. */
module LeaveForms {
  import opened Results
  import opened Dates
  import opened Text
  import opened LeaveModels
  import opened LeaveServices

  // ---------------------------------------------------------------------------------------
  // LeaveRequestForm

  datatype FormError = StartOnWeekend | EndOnWeekend | EndBeforeStartDate | Ineligible(error: EligibilityError)

  /** The form's own notion of a weekend: Friday or Saturday (weekday 4 or 5). */
  predicate FormWeekend(d: CalendarDate) {
    Weekday(Ordinal(d)) == 4 || Weekday(Ordinal(d)) == 5
  }

  /** What `check_leave_eligibility` answers the form, on the store as it is before the call. */
  function FormEligibility(rs: seq<LeaveRequest>, holidays: seq<Holiday>, es: seq<Entitlement>, departments: seq<string>,
                           employee: UserId, leaveType: LeaveType, start: CalendarDate, end: CalendarDate,
                           today: CalendarDate): Eligibility {
    EligibilityOf(rs, holidays, employee, leaveType, start, end, None, today,
                  RemainingDays(ProvisionedEntitlement(es, rs, departments, employee, start.year), rs))
  }

  /** `LeaveRequestForm.clean`: the start's weekday, then the end's, then their order, then —
      with both dates, a type and an employee — the first eligibility error, if any. `Ok(Some(d))`
      is the duration the form stores in `duration_days`; `Ok(None)` means it stores none. */
  function CleanLeaveRequest(rs: seq<LeaveRequest>, holidays: seq<Holiday>, es: seq<Entitlement>, departments: seq<string>,
                             start: Option<CalendarDate>, end: Option<CalendarDate>, leaveType: Option<LeaveType>,
                             employee: Option<UserId>, today: CalendarDate)
    : (res: Result<Option<Tenths>, FormError>)
    ensures start.Some? && FormWeekend(start.value) ==> res == Err(StartOnWeekend)
    ensures res == Err(EndOnWeekend) <==>
              !(start.Some? && FormWeekend(start.value)) && end.Some? && FormWeekend(end.value)
    ensures res == Err(EndBeforeStartDate) <==>
              start.Some? && end.Some? && !FormWeekend(start.value) && !FormWeekend(end.value)
              && Ordinal(end.value) < Ordinal(start.value)
    ensures res.Ok? && res.value.Some? ==>
              start.Some? && end.Some? && leaveType.Some? && employee.Some?
              && res.value.value == 10 * LeaveDuration(holidays, start, end, true, true)
    ensures res.Err? && res.error.Ineligible? ==>
              start.Some? && end.Some? && leaveType.Some? && employee.Some?
              && var v := FormEligibility(rs, holidays, es, departments, employee.value, leaveType.value,
                                          start.value, end.value, today);
                 !v.eligible && res.error.error == v.errors[0]
  {
    if start.Some? && FormWeekend(start.value) then Err(StartOnWeekend)
    else if end.Some? && FormWeekend(end.value) then Err(EndOnWeekend)
    else if start.Some? && end.Some? && Ordinal(end.value) < Ordinal(start.value) then Err(EndBeforeStartDate)
    else if start.Some? && end.Some? && leaveType.Some? && employee.Some? then
      var v := FormEligibility(rs, holidays, es, departments, employee.value, leaveType.value, start.value, end.value, today);
      if !v.eligible then Err(Ineligible(v.errors[0])) else Ok(Some(v.calculatedDuration))
    else Ok(None)
  }

  /** The form reaches the eligibility check only with ordered dates, so the error it can raise
      from there is an overlap or a short balance, never the service's reversed-range error; and
      when everything is present the form accepts exactly when the service finds the request
      eligible. */
  lemma FormSurfacesEligibility(rs: seq<LeaveRequest>, holidays: seq<Holiday>, es: seq<Entitlement>, departments: seq<string>,
                                start: CalendarDate, end: CalendarDate, leaveType: LeaveType, employee: UserId,
                                today: CalendarDate)
    requires !FormWeekend(start) && !FormWeekend(end) && OnOrBefore(start, end)
    ensures var res := CleanLeaveRequest(rs, holidays, es, departments, Some(start), Some(end), Some(leaveType),
                                         Some(employee), today);
            var v := FormEligibility(rs, holidays, es, departments, employee, leaveType, start, end, today);
            (res.Ok? <==> v.eligible)
            && (res.Err? ==> res.error.Ineligible? && res.error.error != EndBeforeStart)
  {
    var v := FormEligibility(rs, holidays, es, departments, employee, leaveType, start, end, today);
    EligibilityVerdict(rs, holidays, employee, leaveType, start, end, None, today,
                       RemainingDays(ProvisionedEntitlement(es, rs, departments, employee, start.year), rs));
    if !v.eligible {
      assert v.errors[0] in v.errors;
    }
  }

  /** The two weekend rules disagree: a request starting on a Friday is refused by the form,
      although both day counters charge a Friday as a working day. */
  lemma FridayRefusedYetCounted(rs: seq<LeaveRequest>, holidays: seq<Holiday>, es: seq<Entitlement>, departments: seq<string>,
                                start: CalendarDate, end: Option<CalendarDate>, leaveType: Option<LeaveType>,
                                employee: Option<UserId>, today: CalendarDate)
    requires Weekday(Ordinal(start)) == 4
    ensures CleanLeaveRequest(rs, holidays, es, departments, Some(start), end, leaveType, employee, today) == Err(StartOnWeekend)
    ensures ServiceDays(Ordinal(start), Ordinal(start), {}, true, true) == 1
    ensures WeekdayTenths(Ordinal(start), Ordinal(start), false) == 10
  {
  }

  /** And the other way round: a Sunday passes the form's weekend test, yet neither counter
      charges it. */
  lemma SundayAcceptedYetFree(rs: seq<LeaveRequest>, holidays: seq<Holiday>, es: seq<Entitlement>, departments: seq<string>,
                              day: CalendarDate, leaveType: Option<LeaveType>, employee: Option<UserId>, today: CalendarDate)
    requires Weekday(Ordinal(day)) == 6
    ensures var res := CleanLeaveRequest(rs, holidays, es, departments, Some(day), Some(day), leaveType, employee, today);
            res != Err(StartOnWeekend) && res != Err(EndOnWeekend) && res != Err(EndBeforeStartDate)
    ensures LeaveDuration(holidays, Some(day), Some(day), true, true) == 0
    ensures WeekdayTenths(Ordinal(day), Ordinal(day), false) == 0
  {
  }

  /** Whether the form's cleaning gets as far as the balance check, the one step that may write
      to the store: every field present, neither date on the form's weekend, the dates in order,
      and a type that affects the entitlement. */
  predicate ReachesBalanceCheck(start: Option<CalendarDate>, end: Option<CalendarDate>, leaveType: Option<LeaveType>,
                                employee: Option<UserId>)
  {
    start.Some? && end.Some? && leaveType.Some? && employee.Some?
    && !FormWeekend(start.value) && !FormWeekend(end.value) && Ordinal(start.value) <= Ordinal(end.value)
    && leaveType.value.affectsEntitlement
  }

  /** `LeaveRequestForm.clean` on the store: the same checks, where the eligibility check
      creates the employee's entitlement for the start year when it is missing. */
  method CleanLeaveRequestForm(db: LeaveDatabase, start: Option<CalendarDate>, end: Option<CalendarDate>,
                               leaveType: Option<LeaveType>, employee: Option<UserId>, today: CalendarDate)
    returns (res: Result<Option<Tenths>, FormError>)
    requires db.Valid()
    modifies db`entitlements, db`departments
    ensures db.Valid()
    ensures res == CleanLeaveRequest(db.requests, db.holidays, old(db.entitlements), old(db.departments),
                                     start, end, leaveType, employee, today)
    ensures if ReachesBalanceCheck(start, end, leaveType, employee)
            then SummaryWrites(old(db.entitlements), old(db.departments), db.requests, employee.value, start.value.year,
                               db.entitlements, db.departments)
            else db.entitlements == old(db.entitlements) && db.departments == old(db.departments)
  {
    if start.Some? && FormWeekend(start.value) {
      return Err(StartOnWeekend);
    }
    if end.Some? && FormWeekend(end.value) {
      return Err(EndOnWeekend);
    }
    if start.Some? && end.Some? && Ordinal(end.value) < Ordinal(start.value) {
      return Err(EndBeforeStartDate);
    }
    res := Ok(None);
    if start.Some? && end.Some? && leaveType.Some? && employee.Some? {
      var v := CheckLeaveEligibility(db, employee.value, leaveType.value, start.value, end.value, None, today);
      if !v.eligible {
        return Err(Ineligible(v.errors[0]));
      }
      res := Ok(Some(v.calculatedDuration));
    }
  }

  /** The instance `LeaveRequestForm.save` builds: the form's employee becomes the requester and
      the creator, and a cleaned duration replaces the instance's. */
  function FormInstance(r: LeaveRequest, employee: Option<UserId>, duration: Option<Tenths>): (s: LeaveRequest)
    ensures s.employee == (if employee.Some? then employee.value else r.employee)
    ensures s.createdBy == (if employee.Some? then employee.value else r.createdBy)
    ensures s.duration == (if duration.Some? then duration.value else r.duration)
    ensures s.(employee := r.employee, createdBy := r.createdBy, duration := r.duration) == r
  {
    var s := if employee.Some? then r.(employee := employee.value, createdBy := employee.value) else r;
    if duration.Some? then s.(duration := duration.value) else s
  }

  /** `LeaveRequestForm.save`: builds the instance and, when committing, stores it with
      `LeaveRequest.save` (a new row without `pk`, else row `pk`). */
  method SaveLeaveRequestForm(db: LeaveDatabase, pk: Option<nat>, r: LeaveRequest, employee: Option<UserId>,
                              duration: Option<Tenths>, commit: bool, now: int)
    returns (instance: LeaveRequest)
    requires db.Valid()
    requires pk.Some? ==> pk.value < |db.requests|
    modifies db`requests
    ensures db.Valid()
    ensures instance == if commit then SavedRequest(FormInstance(r, employee, duration), now)
                        else FormInstance(r, employee, duration)
    ensures !commit ==> db.requests == old(db.requests)
    ensures commit ==>
              db.requests == if pk.Some? then old(db.requests)[pk.value := instance] else old(db.requests) + [instance]
  {
    instance := r;
    if employee.Some? {
      instance := instance.(employee := employee.value, createdBy := employee.value);
    }
    if duration.Some? {
      instance := instance.(duration := duration.value);
    }
    if commit {
      var id := db.SaveRequest(pk, instance, now);
      instance := db.requests[id];
    }
  }

  /** A day the form accepts (Monday to Thursday) that is an active holiday: when the service
      finds the one-day request eligible, the form cleans it to 0 working days, and because
      `LeaveRequest.save` treats a zero duration as missing, the stored request is charged a
      whole day (half a day for a half-day type) after all. */
  lemma HolidayRequestChargedOnSave(rs: seq<LeaveRequest>, holidays: seq<Holiday>, es: seq<Entitlement>,
                                    departments: seq<string>, d: CalendarDate, r: LeaveRequest, employee: UserId,
                                    today: CalendarDate, now: int)
    requires Weekday(Ordinal(d)) < 4
    requires exists h :: h in holidays && h.isActive && h.date == d
    requires r.start == d && r.end == d
    requires FormEligibility(rs, holidays, es, departments, employee, r.leaveType, d, d, today).eligible
    ensures CleanLeaveRequest(rs, holidays, es, departments, Some(d), Some(d), Some(r.leaveType), Some(employee), today)
            == Ok(Some(0))
    ensures SavedRequest(FormInstance(r, Some(employee), Some(0)), now).duration == PerDay(r.leaveType.isHalfDay)
  {
    HolidayChargedOnlyByModel(holidays, d);
  }

  /** A non-zero cleaned duration is what gets stored: the service's count, not the model's. */
  lemma CleanedDurationStored(r: LeaveRequest, employee: Option<UserId>, d: Tenths, now: int)
    requires d != 0
    ensures SavedRequest(FormInstance(r, employee, Some(d)), now).duration == d
  {
  }

  // ---------------------------------------------------------------------------------------
  // LeaveApprovalForm

  /** `LeaveApprovalForm.clean`: the form is refused exactly when the action is a rejection
      with an empty reason; an approval needs no reason. `reason` is the field's cleaned value,
      which the character field has already stripped of surrounding whitespace. */
  function ApprovalFormValid(action: Option<string>, reason: string): (ok: bool)
    ensures action == Some("approve") ==> ok
    ensures action == Some("reject") ==> (ok <==> reason != [])
  {
    !(action == Some("reject") && reason == [])
  }

  // ---------------------------------------------------------------------------------------
  // LeaveCalendarFilterForm

  datatype FieldError = OutOfRange | InvalidValue

  /** `clean_month`: empty is `None`; otherwise `int()` of the text, which must lie in 1..12. */
  function CleanMonth(month: string): (res: Result<Option<int>, FieldError>)
    ensures res == Ok(None) <==> month == []
    ensures res.Ok? && res.value.Some? ==> 1 <= res.value.value <= 12 && ParseInt(month) == Some(res.value.value)
    ensures res == Err(InvalidValue) <==> month != [] && ParseInt(month).None?
    ensures res == Err(OutOfRange) <==>
              month != [] && ParseInt(month).Some? && !(1 <= ParseInt(month).value <= 12)
  {
    if month == [] then Ok(None)
    else
      match ParseInt(month)
      case None => Err(InvalidValue)
      case Some(m) => if 1 <= m <= 12 then Ok(Some(m)) else Err(OutOfRange)
  }

  /** `clean_year`: empty is `None`; otherwise `int()` of the text, within ten years of the
      current one either way. */
  function CleanYear(year: string, currentYear: int): (res: Result<Option<int>, FieldError>)
    ensures res == Ok(None) <==> year == []
    ensures res.Ok? && res.value.Some? ==>
              currentYear - 10 <= res.value.value <= currentYear + 10 && ParseInt(year) == Some(res.value.value)
    ensures res == Err(InvalidValue) <==> year != [] && ParseInt(year).None?
    ensures res == Err(OutOfRange) <==>
              year != [] && ParseInt(year).Some? && !(currentYear - 10 <= ParseInt(year).value <= currentYear + 10)
  {
    if year == [] then Ok(None)
    else
      match ParseInt(year)
      case None => Err(InvalidValue)
      case Some(y) => if currentYear - 10 <= y <= currentYear + 10 then Ok(Some(y)) else Err(OutOfRange)
  }

  /** The month choices the filter offers (the numbers 1..12 written out) all clean to themselves. */
  lemma MonthChoicesClean(m: nat)
    requires 1 <= m <= 12
    ensures CleanMonth(ShowNat(m)) == Ok(Some(m))
  {
    ParseShowNat(m);
  }

  /** A year written out cleans back to itself exactly when it lies in the window. */
  lemma YearChoicesClean(y: nat, currentYear: int)
    ensures CleanYear(ShowNat(y), currentYear) == if currentYear - 10 <= y <= currentYear + 10 then Ok(Some(y)) else Err(OutOfRange)
  {
    ParseShowNat(y);
  }

  // ---------------------------------------------------------------------------------------
  // BulkLeaveImportForm

  datatype Upload = Upload(name: string, size: nat)

  datatype UploadError = TooLarge | BadExtension

  const MaxUploadSize: nat := 10 * 1024 * 1024

  /** The extensions the form accepts (it compares them with a '.' put in front). */
  predicate AllowedExtension(ext: string) {
    ext == "xlsx" || ext == "xls" || ext == "csv"
  }

  /** `clean_excel_file`: no file (or one without a name, which is falsy) passes unchecked;
      otherwise the size must be at most 10 MiB and the lowercased text after the last '.' of
      the name must be `xlsx`, `xls` or `csv`. */
  function CleanExcelFile(file: Option<Upload>): (res: Result<Option<Upload>, UploadError>)
    ensures res.Ok? ==> res.value == file
    ensures file.Some? && file.value.name != [] ==>
              (res == Err(TooLarge) <==> file.value.size > MaxUploadSize)
              && (res == Err(BadExtension) <==>
                    file.value.size <= MaxUploadSize && !AllowedExtension(AfterLast(Lower(file.value.name), '.')))
    ensures file.None? || file.value.name == [] ==> res == Ok(file)
  {
    if file.None? || file.value.name == [] then Ok(file)
    else if file.value.size > MaxUploadSize then Err(TooLarge)
    else if !AllowedExtension(AfterLast(Lower(file.value.name), '.')) then Err(BadExtension)
    else Ok(file)
  }

  /** Exactly 10 MiB passes and one byte more does not. */
  lemma UploadSizeBoundary(name: string)
    requires name != [] && AllowedExtension(AfterLast(Lower(name), '.'))
    ensures CleanExcelFile(Some(Upload(name, MaxUploadSize))) == Ok(Some(Upload(name, MaxUploadSize)))
    ensures CleanExcelFile(Some(Upload(name, MaxUploadSize + 1))) == Err(TooLarge)
  {
    assert Upload(name, MaxUploadSize).name != [];
  }

  /** A name with a '.' passes (within the size limit) exactly when the text after its last
      '.', lower-cased, is an allowed extension, so the case of the extension does not matter. */
  lemma UploadExtensionRule(base: string, ext: string, size: nat)
    requires '.' !in ext && size <= MaxUploadSize
    ensures CleanExcelFile(Some(Upload(base + "." + ext, size))).Ok? <==> AllowedExtension(Lower(ext))
  {
    var name := base + "." + ext;
    LowerAppend(base + ".", ext);
    LowerAppend(base, ".");
    assert Lower(".") == ".";
    assert Lower(name) == Lower(base) + ['.'] + Lower(ext);
    LowerNoDot(ext);
    AfterLastOfSuffix(Lower(base), '.', Lower(ext));
    ExtensionDecides(Upload(name, size), Lower(ext));
  }

  /** A name without any '.' is its own extension: a file called just "csv" passes. */
  lemma UploadWithoutDot(name: string, size: nat)
    requires '.' !in name && name != [] && size <= MaxUploadSize
    ensures CleanExcelFile(Some(Upload(name, size))).Ok? <==> AllowedExtension(Lower(name))
  {
    LowerNoDot(name);
    AfterLastWithout(Lower(name), '.');
    ExtensionDecides(Upload(name, size), Lower(name));
  }

  /** A named upload within the size limit passes exactly when its extension is allowed. */
  lemma ExtensionDecides(u: Upload, ext: string)
    requires u.name != [] && u.size <= MaxUploadSize && AfterLast(Lower(u.name), '.') == ext
    ensures CleanExcelFile(Some(u)).Ok? <==> AllowedExtension(ext)
  {
    if AllowedExtension(ext) {
      assert CleanExcelFile(Some(u)) == Ok(Some(u));
    } else {
      assert CleanExcelFile(Some(u)) == Err(BadExtension);
    }
  }
}
