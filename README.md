# managehub leave, project and user rules in Dafny

This project models the calculation and validation core of the managehub portal, a Django
application for managing projects, users and employee leave. The model covers these parts:

- **Leave.** The leave app's entitlement arithmetic: available, taken, remaining, carry-over
  and utilisation. It also covers the two day counters (the request model's and the service's),
  the eligibility checks, the request state machine (PENDING to APPROVED, REJECTED or CANCELLED)
  with its audit trail and balance rows, the team calendar, and the spreadsheet entitlement
  import.
- **Leave forms, views, admin and command.** The form cleaners, the guards of the AJAX views,
  the month and year handling of the calendar page, the calendar grid cells, the admin
  display rules, and the guard and messages of the year-end carry-over command.
- **Projects.** The derived project properties, the project identifier check, the inline
  edit of one project field, and the spreadsheet import hooks for business areas, project
  types and projects.
- **Users.** The username validator, the user field defaults and the user import hook.
- **Dashboard.** The estimated-hours, revenue and sales figures.

How the model represents the system:

- **Database.** The tables are sequences of records held by a `LeaveDatabase` class. A
  request's primary key is its index. The methods that write (save, approve, reject, cancel,
  balance recomputation, import) modify the class and state the whole new state.
- **Numbers and dates.**
  - Decimal day counts with one decimal place are whole numbers of tenths of a day.
  - Dates are proleptic Gregorian calendar dates with an ordinal count. Monday is weekday 0,
    as in Python.
  - Percentages are exact fractions.
- **The clock.** The current date, the current year and the current instant are parameters.
- **Import rows.** A row is an `ImportRow` object whose `cells` map the hooks rewrite in
  place. Each hook is proved equal to a function that states the whole cleaned row, and the
  lemmas state what the cleaned row guarantees.

Several behaviours are modelled as the code has them, and lemmas exhibit them:

- The request form refuses a Friday or Saturday start or end (leaves/forms.py:67-77). Both
  day counters treat Saturday and Sunday as the weekend (leaves/services.py:40,
  leaves/models.py:242). So a Friday is refused yet would be charged, and a Sunday is
  accepted yet free (`LeaveForms.FridayRefusedYetCounted`, `LeaveForms.SundayAcceptedYetFree`).
- The service's overlap query does not exclude the request being edited, while the model's
  `clean` does. An edited active request therefore overlaps itself whenever its new range
  meets its old one (`LeaveServices.EditedRequestOverlapsItself`).
- The service counter skips holidays and the model counter does not. A request whose
  cleaned duration is 0 (a single holiday) is stored with 0 days, so `LeaveRequest.save`
  recomputes it and charges the holiday (`LeaveForms.HolidayRequestChargedOnSave`).
- A manager is looked up by the user's UUID (users/models.py:23), not by the primary key.
  A numeric value raises, and the view reports the exception
  (`ProjectViews.NumericManagerRaises`, `ProjectViews.ManagerByUuid`).
- `cancel_leave_request` always recomputes the balance. Its condition (leaves/services.py:252)
  is evaluated after the status was set to CANCELLED, so it always holds.
- The service approves a REJECTED request without complaint, which can produce two
  overlapping active requests. Only the AJAX view refuses non-PENDING requests
  (`LeaveServices.ApprovingRejectedCanOverlap`, `LeaveViews.ViewTransitionsKeepNoOverlaps`).
- A `--max-carry-over` of 0 means no cap at all (`CarryOverCommand.ZeroCapIsNoCap`).
- The timeline, T/code and description limits of the inline edit are measured before
  stripping (`ProjectViews.PaddedTimelineRefused`).
- A username derived from an email can fail the username validator
  (`UserResources.DerivedUsernameMayBeInvalid`, `UserResources.EmptyLocalPart`).
- The project-id validator lets a trailing newline and non-ASCII decimal digits through.
  The import's `isdigit` check also admits superscript digits (`ProjectModels.ProjectIdEdges`,
  `ProjectModels.ImportCheckAndValidator`).

Files: `results.dfy` (Option, Result), `text.dfy` (Python string operations), `dates.dfy`
(calendar arithmetic), `leave_models.dfy`, `leave_services.dfy`, `leave_forms.dfy`,
`leave_views.dfy`, `leave_admin.dfy`, `carry_over_command.dfy`, `project_models.dfy`,
`import_rows.dfy`, `project_resources.dfy`, `project_views.dfy`, `user_models.dfy`,
`user_resources.dfy`, `dashboard.dfy`, `uuids.dfy` (UUID text and its conversion).

## Model

| member | source | states |
|---|---|---|
| LeaveModels.SumDurationAppend | leaves/models.py:94-101 | An aggregate over one more request grows by exactly that request's duration when the filter selects it, and not at all otherwise |
| LeaveModels.SumDurationUpdate | leaves/models.py:94-101 | Rewriting one request changes an aggregate by the new contribution minus the old one |
| LeaveModels.SumDurationNone | leaves/services.py:86-92 | An aggregate that selects no request is 0 (the `or Decimal('0')` fallback) |
| LeaveModels.SumDurationTypeBound | leaves/services.py:94-111 | With non-negative durations, a per-type sum lies between 0 and the sum over all types |
| LeaveModels.RemainingEntitlement | leaves/models.py:89-106 | Remaining entitlement plus the approved days of the year equals annual + carried over + time in lieu |
| LeaveModels.FindEntitlement | leaves/models.py:112-116 | The lookup by (employee, year) returns a row with that key, and reports none only when no row has it |
| LeaveModels.FindEntitlementUnique | leaves/models.py:69-70 | Under the (employee, year) uniqueness constraint, the row found is the one row with that key |
| LeaveModels.UnusedDaysFromPreviousYear | leaves/models.py:108-127 | Never negative; 0 without a previous-year row; otherwise the previous annual entitlement minus its days taken, or 0 when that is negative |
| LeaveModels.UnusedIgnoresCarriedAndLieu | leaves/models.py:118-120 | Changing the previous year's carried-over and time-in-lieu days does not change the unused days: only the annual entitlement carries over |
| LeaveModels.CarryOverWithCap | leaves/models.py:139-143 | Without a cap the unused days; with one, their minimum: at most both, equal to one of them, and non-negative when both are |
| LeaveModels.AutoFilledCarriedOver | leaves/models.py:73-84 | An existing row keeps its carry-over; the value changes only for a new row with carry-over 0 and positive unused days, and then becomes those days |
| LeaveModels.UtilizationRate | leaves/models.py:148-153 | 0 when nothing is available; otherwise exactly days taken / total available × 100 |
| LeaveModels.CanBeCancelled | leaves/models.py:228-230 | Only a PENDING or APPROVED request can be cancelled; a PENDING one always can, an APPROVED one exactly while its start date is still after today |
| LeaveModels.CancellableEarlier | leaves/models.py:222-230 | A request cancellable on some day was cancellable on every earlier day and is PENDING or APPROVED; an APPROVED one, once no longer cancellable, never becomes cancellable again |
| LeaveModels.WeekdayTenths | leaves/models.py:232-249 | The day count is 0 for a reversed range and otherwise at most one day's worth per day of the range |
| LeaveModels.HalfDayIsHalf | leaves/models.py:243-246 | A half-day type is charged exactly half of what a full-day type is charged for the same range |
| LeaveModels.WeekHasFiveWorkingDays | leaves/models.py:240-247 | Any seven consecutive days are charged exactly five days' worth: Saturdays and Sundays are free |
| LeaveModels.FiveOfSeven | leaves/models.py:242 | Whatever weekday a week starts on, five of its seven days are Monday to Friday |
| LeaveModels.CalculateDuration | leaves/models.py:232-249 | The day walk returns 0 when a date is missing, and otherwise the weekday count of the range |
| LeaveModels.CountWeekdays | leaves/models.py:237-249 | The loop over the days of the range computes the weekday count |
| LeaveModels.SavedRequest | leaves/models.py:251-260 | A non-zero duration is kept and a zero one recomputed by the day count; the approval instant is set only for an APPROVED row without one and is never overwritten; no other field changes |
| LeaveModels.SaveIdempotent | leaves/models.py:251-260 | Saving the saved row again stores the same row |
| LeaveModels.Clean | leaves/models.py:203-220 | Refuses a reversed range first; then refuses the range exactly when another PENDING or APPROVED request of the employee (not the row itself) overlaps it inclusively; accepts otherwise |
| LeaveModels.AvailableDays | leaves/models.py:296-299 | Available + used + pending = allocated |
| LeaveModels.LeaveDatabase.constructor | leaves/models.py:49-70 | Empty request, history, balance and entitlement tables satisfy the uniqueness constraints |
| LeaveModels.LeaveDatabase.SaveRequest | leaves/models.py:251-260 | Inserts the saved row, or overwrites row `pk` with it, and keeps the table invariant |
| LeaveModels.EntitlementInstance.constructor | leaves/models.py:53-67 | A new entitlement takes the field defaults: 25.0 days annual, nothing carried over, no time in lieu, unsaved |
| LeaveModels.EntitlementInstance.AutoCalculateCarriedOverDays | leaves/models.py:129-146 | Sets and returns the capped unused days of the previous year, never negative under a non-negative cap |
| LeaveModels.EntitlementInstance.Save | leaves/models.py:73-84 | Auto-fills the carry-over of a new row as stated by AutoFilledCarriedOver, then inserts it or overwrites its row, keeping the key unique |
| LeaveServices.ServiceDays | leaves/services.py:38-50 | The count is 0 for a reversed range and at most the number of days in the range |
| LeaveServices.ActiveHolidays | leaves/services.py:29-36 | Only holidays dated within the range are read |
| LeaveServices.LeaveDuration | leaves/services.py:18-52 | 0 when a date is missing or the range is reversed; otherwise a whole number of days, at most end − start + 1 |
| LeaveServices.CalculateLeaveDuration | leaves/services.py:18-52 | The day walk, skipping weekend days and active holidays as asked, returns LeaveDuration |
| LeaveServices.CountServiceDays | leaves/services.py:38-50 | The loop over the days of the range computes ServiceDays |
| LeaveServices.ServiceDaysLocal | leaves/services.py:31-36 | Only the holidays inside the range affect the count |
| LeaveServices.ServiceDaysMonotone | leaves/services.py:38-50 | With the same holidays, a later end never counts fewer days |
| LeaveServices.LeaveDurationMonotone | leaves/services.py:18-52 | With the start fixed, moving the end later never decreases the duration, although the holiday query widens with the range |
| LeaveServices.ServiceCountsLikeModel | leaves/services.py:38-50 | Without the holiday skip, the service's count is the request model's full-day count; with it, never more |
| LeaveServices.HolidayChargedOnlyByModel | leaves/services.py:44-47 | An active holiday on a weekday costs 0 days in the service and a full day in the request model's count |
| LeaveServices.ByType | leaves/services.py:94-111 | One entry per active leave type, holding that type's APPROVED and PENDING sums and their total |
| LeaveServices.SummaryOf | leaves/services.py:113-121 | The summary's remaining days are the total available minus the APPROVED and PENDING sums of the year |
| LeaveServices.SummaryAgreesWithEntitlement | leaves/services.py:113-121 | The summary's remaining days are the entitlement's remaining entitlement less the pending days; each type's sums lie within the overall sums |
| LeaveServices.NewEntitlement | leaves/services.py:74-78 | A lazily created entitlement has the employee, the year, 25.0 annual days, no time in lieu, and the previous year's unused days carried over |
| LeaveServices.GetEmployeeLeaveSummary | leaves/services.py:55-121 | Returns the summary of the stored or the newly created entitlement; creates one (and the default department when there is none) only when absent, and afterwards the entitlement exists |
| LeaveServices.CreateEntitlement | leaves/services.py:66-78 | The create branch appends the new entitlement and files "Default Department" when no department exists |
| LeaveServices.SaveNewEntitlement | leaves/services.py:74-78 | The new row is saved with the defaults and the auto-filled carry-over |
| LeaveServices.SummaryStable | leaves/services.py:63-78 | After the first call creates the entitlement, a second call finds that row and reads the same entitlement |
| LeaveServices.EligibilityOf | leaves/services.py:124-172 | The duration is the given one or the computed one; eligible exactly when there is no error; a start on or before today adds only a warning |
| LeaveServices.ErrorListMeans | leaves/services.py:138-165 | Each error is listed exactly when its check fails, there are at most three, and the list is empty exactly when all checks pass |
| LeaveServices.EligibilityVerdict | leaves/services.py:137-172 | Eligible iff the range is not reversed, no PENDING or APPROVED request of the employee overlaps it inclusively (the edited one included), and the type does not affect the entitlement or the duration fits the remaining days |
| LeaveServices.CheckLeaveEligibility | leaves/services.py:124-172 | Returns EligibilityOf with the remaining days of the start year; for a type that does not affect the entitlement the tables are unchanged; for one that does, the start year's entitlement (and the default department when there is none) is created only when absent, and it exists afterwards |
| LeaveServices.DateChecks | leaves/services.py:131-153 | Computes the duration, the date-order and overlap errors, and the past-date warning |
| LeaveServices.ErrorListBalance | leaves/services.py:155-165 | The balance error comes last, after the date and overlap errors |
| LeaveServices.DateAndOverlapErrors | leaves/services.py:137-153 | The first two errors are the reversed range and the inclusive overlap |
| LeaveServices.BalanceErrors | leaves/services.py:155-165 | The balance error is added only for a type that affects the entitlement and a duration above the remaining days; only such a type touches the tables, and then only to create the year's missing entitlement and the default department |
| LeaveServices.EditedRequestOverlapsItself | leaves/services.py:145-153 | An active request whose new range meets its old one, and meets no other request, passes the model's `clean` but is refused by the service as overlapping |
| LeaveServices.FindBalance | leaves/services.py:266-271 | The lookup by (employee, type, year) finds the first row with that key, or reports that none has it |
| LeaveServices.FindBalanceFirst | leaves/services.py:266-271 | The first row with the key is the one found |
| LeaveServices.RecomputedBalances | leaves/services.py:262-293 | Keeps the balance uniqueness constraint and every other row; the row of the key exists afterwards with used = APPROVED sum, pending = PENDING sum, and allocated kept (0 for a new row) |
| LeaveServices.UpdateLeaveBalance | leaves/services.py:262-293 | The balance table becomes RecomputedBalances and the returned row is the key's row |
| LeaveServices.ApprovedRow | leaves/services.py:190-194 | The saved row is APPROVED, by the approver, at now, with employee, type, dates, reasons and a non-zero duration unchanged |
| LeaveServices.RejectedRow | leaves/services.py:221-224 | The saved row is REJECTED with the reason as rejection reason, with employee, type, dates, approval and a non-zero duration unchanged |
| LeaveServices.CancelledRow | leaves/services.py:247-249 | The saved row is CANCELLED, with employee, type, dates, approval and a non-zero duration unchanged |
| LeaveServices.ApproveLeaveRequest | leaves/services.py:175-203 | Appends one audit row from the old status to APPROVED, saves the approved row, and recomputes the balance of its type and start year |
| LeaveServices.RejectLeaveRequest | leaves/services.py:206-226 | Appends one audit row from the old status to REJECTED, saves the rejected row, and leaves the balances alone |
| LeaveServices.CancelLeaveRequest | leaves/services.py:229-259 | Refuses a request that cannot be cancelled, changing nothing; otherwise appends one audit row to CANCELLED, saves the cancelled row and always recomputes the balance |
| LeaveServices.ReplaceKeepsNoOverlaps | leaves/services.py:145-153 | Replacing a request by an inactive one, or by an active one with the same employee and dates, keeps active requests free of overlaps |
| LeaveServices.TransitionsKeepNoOverlaps | leaves/services.py:175-259 | Rejecting or cancelling any request, and approving a PENDING or APPROVED one, keeps active requests free of overlaps |
| LeaveServices.ApprovingRejectedCanOverlap | leaves/services.py:175-194 | The service does not check the status it approves: approving a REJECTED request can create two overlapping active requests |
| LeaveServices.ApprovingPendingMovesDays | leaves/services.py:175-201 | Approving a PENDING request with a stored duration moves its days from pending to approved and leaves the remaining days unchanged |
| LeaveServices.ApprovalKeepsAvailableDays | leaves/models.py:296-299 | Approving a PENDING request with a stored duration leaves `available_days` of the recomputed balance row unchanged: its days move from pending to used |
| LeaveServices.InsertKeepsOrder | leaves/models.py:193 | Placing a row that comes later in the table than every listed one into a list sorted latest start first keeps it sorted, ties in table order |
| LeaveServices.QueryOrderFacts | leaves/models.py:193 | The query's default ordering lists every request exactly once, latest start date first, ties in table order |
| LeaveServices.CoveringFacts | leaves/services.py:338-343 | Walking the query in its order, a request is listed on a day exactly when it is in the query and its range covers the day, and the day's list keeps the query's order |
| LeaveServices.DayRequestsLatestFirst | leaves/services.py:309-343 | A day lists exactly the requests in the query covering it, each once, latest start date first (the `-start_date` ordering at leaves/models.py:193) |
| LeaveServices.GetTeamLeaveCalendar | leaves/services.py:296-345 | Defaults to the current month; one entry per day of the range, each with the Saturday/Sunday flag, the active-holiday flag and the requests covering it in the query's order, latest start first |
| LeaveServices.PlaceAll | leaves/services.py:338-343 | The outer walk places the requests in the query's order, so each day lists the covering requests in that order |
| LeaveServices.CoveringSkips | leaves/services.py:309-320 | A request outside the query (inactive, outside the range or outside the department) is listed on no day |
| LeaveServices.EmptyDays | leaves/services.py:326-335 | The first walk creates one empty entry per day with its weekend and holiday flags |
| LeaveServices.PlaceRequest | leaves/services.py:339-343 | Placing a request in the query appends it to exactly the days its range covers |
| LeaveServices.SplitName | leaves/services.py:373-375 | The first name has no space; with a space, the name is first name, space, rest; without one, the last name is empty |
| LeaveServices.NameMatches | leaves/services.py:377-381 | Only existing users match the case-insensitive name lookup |
| LeaveServices.EveryRowAccountedFor | leaves/services.py:364-404 | Every row is either counted as imported or reported by exactly one error |
| LeaveServices.LastImport | leaves/services.py:389-399 | The last successful row for an employee is about that employee |
| LeaveServices.PutEntitlement | leaves/services.py:390-399 | `update_or_create` overwrites the row with the key or appends a new one |
| LeaveServices.PutEntitlementFacts | leaves/services.py:390-399 | Writing keeps the (employee, year) uniqueness and makes the written row the one found for its key |
| LeaveServices.PutEntitlementOtherKey | leaves/services.py:390-399 | Writing one key leaves the lookup and the row of every other key unchanged |
| LeaveServices.ImportedEntitlement | leaves/services.py:390-399 | The written row has the key, the line's department, annual days and time in lieu, and the line's carry-over when the row exists or the carry-over is not 0 |
| LeaveServices.ImportRow | leaves/services.py:365-404 | The department is filed first even when the row then fails; a failing row writes no entitlement; a good one is written by `update_or_create` |
| LeaveServices.RowOutcome | leaves/services.py:364-402 | A line goes through only with a department, a name matching exactly one user and all three values present and within `numeric(5,1)` (under 10000 days), and then carries those values; a missing department or name, or a value out of range, is an error |
| LeaveServices.OverflowingRowReported | leaves/services.py:389-402 | A matched line with 12000.0 annual days is not counted and adds one "Error processing" entry |
| LeaveServices.WriteImported | leaves/services.py:390-399 | Writes the imported line's entitlement for the current year |
| LeaveServices.ImportEntitlementsFromExcelData | leaves/services.py:348-409 | Count plus errors equals the number of rows, a line with a value outside `numeric(5,1)` being an error; every named department is filed and no other is added; each employee's entitlement holds the department, annual days and time in lieu of the last row that went through for them, and its carry-over unless that is 0 on a newly created row; the entitlement of every other employee and year is found where it was and is unchanged |
| LeaveServices.ImportFrameStep | leaves/services.py:360-404 | One row of the import files no department but its own and writes no entitlement but its employee's for the current year |
| LeaveServices.ImportNextRow | leaves/services.py:364-404 | One turn of the import loop keeps the loop's progress invariant |
| LeaveForms.CleanLeaveRequest | leaves/forms.py:60-99 | Refuses a Friday/Saturday start before a Friday/Saturday end, then a reversed range; with all inputs present, fails with the first eligibility error or yields the service duration |
| LeaveForms.FormSurfacesEligibility | leaves/forms.py:86-97 | For dates the form accepts, the form passes exactly when the service finds the request eligible |
| LeaveForms.FridayRefusedYetCounted | leaves/forms.py:67-71 | A Friday start is refused by the form, yet both day counters charge a Friday as a working day |
| LeaveForms.SundayAcceptedYetFree | leaves/forms.py:66-84 | A one-day request on a Sunday passes the form's date checks, yet both counters charge it 0 |
| LeaveForms.CleanLeaveRequestForm | leaves/forms.py:60-99 | The form's clean returns CleanLeaveRequest; when it reaches the balance check of a type that affects the entitlement it creates the start year's missing entitlement (and the default department) and nothing else, and otherwise leaves the tables unchanged |
| LeaveForms.FormInstance | leaves/forms.py:101-111 | The employee and creator are set from the form's employee, the duration from the cleaned data, and nothing else changes |
| LeaveForms.SaveLeaveRequestForm | leaves/forms.py:101-115 | With commit, the instance goes through `LeaveRequest.save` into the table; without, the table is unchanged |
| LeaveForms.HolidayRequestChargedOnSave | leaves/forms.py:96-113 | A one-day request, Monday to Thursday, on an active holiday that the service finds eligible is cleaned to 0 days, yet the saved request is charged a day's worth |
| LeaveForms.CleanedDurationStored | leaves/forms.py:108-113 | A non-zero cleaned duration is what the saved request holds |
| LeaveForms.ApprovalFormValid | leaves/forms.py:199-208 | Approving is always valid; rejecting is valid exactly when a reason is given |
| LeaveForms.CleanMonth | leaves/forms.py:375-386 | Empty gives none; otherwise an integer 1..12 is accepted, a non-integer is invalid, and any other integer is out of range |
| LeaveForms.CleanYear | leaves/forms.py:388-400 | Empty gives none; otherwise an integer within ten years of the current year is accepted, a non-integer is invalid, and any other integer is out of range |
| LeaveForms.MonthChoicesClean | leaves/forms.py:360-365 | Every month the filter offers cleans back to itself |
| LeaveForms.YearChoicesClean | leaves/forms.py:368-373 | A year written out cleans back to itself exactly when it lies within ten years of the current year |
| LeaveForms.CleanExcelFile | leaves/forms.py:428-444 | A missing file passes; a file over 10 MiB is refused; otherwise it is refused exactly when the lower-cased text after its last '.' is not xlsx, xls or csv |
| LeaveForms.UploadSizeBoundary | leaves/forms.py:433-434 | Exactly 10 MiB passes and one byte more is refused |
| LeaveForms.UploadExtensionRule | leaves/forms.py:437-442 | A name ending in '.' and an extension passes exactly when the extension, in any case, is xlsx, xls or csv |
| LeaveForms.UploadWithoutDot | leaves/forms.py:437-442 | A name without a dot is its own extension, so a file named "csv" passes |
| LeaveViews.ApprovalDecision | leaves/views.py:517-529 | A non-PENDING request is refused before the action is read; approve passes; reject passes exactly with a non-blank reason; any other action is invalid |
| LeaveViews.FormAgreesWithView | leaves/forms.py:199-208 | For an approve or reject action, the approval form is valid exactly when the AJAX view accepts the decision on a PENDING request |
| LeaveViews.ApproveLeaveAjax | leaves/views.py:512-552 | A refused call changes nothing; otherwise the service approves or rejects with the stripped reason, recording a transition from PENDING; an approval recomputes the balance row of the request's employee, type and year, a rejection leaves balances alone |
| LeaveViews.ViewTransitionsKeepNoOverlaps | leaves/views.py:517-540 | An approval or rejection through the view keeps active requests free of overlaps |
| LeaveViews.CancelDecision | leaves/views.py:561-566 | Passes exactly when the caller is the requester and the request can be cancelled; another caller is refused permission |
| LeaveViews.CancelLeaveAjax | leaves/views.py:556-583 | A refused call changes nothing; otherwise the service cancels the request and recomputes the balance row of its employee, type and year |
| LeaveViews.ChosenMonth | leaves/views.py:405-407 | The month shown is within 1..12: the requested one when it is a month, else the current month |
| LeaveViews.ChosenYear | leaves/views.py:409-411 | The year shown is within ten years of the current one: the requested one when it is, else the current year |
| LeaveViews.CalendarMonthYear | leaves/views.py:370-411 | The step-by-step choice of month and year ends with ChosenMonth and ChosenYear of the value asked for |
| LeaveViews.CalendarRange | leaves/views.py:414-418 | The range runs from the first of the month to the day before the first of the next month, which is in the same month and year |
| LeaveViews.PrevMonth | leaves/views.py:428-431 | January goes to December of the year before; any other month to the one before in the same year |
| LeaveViews.NextMonth | leaves/views.py:433-436 | December goes to January of the year after; any other month to the one after in the same year |
| LeaveViews.NavigationRoundTrip | leaves/views.py:428-436 | The previous and next links undo each other |
| LeaveViews.NextMonthIsAdjacent | leaves/views.py:414-436 | The next link's month starts the day after the shown range ends |
| LeaveViews.FirstThree | leaves/views.py:755 | A cell keeps a prefix of at most three requests, and all of them when there are at most three |
| LeaveViews.GridCellOf | leaves/views.py:723-756 | Day 0 is an empty other-month cell; a day of the month has its date, is today exactly on today, is weekend exactly on Saturday or Sunday, and shows a prefix of at most three of the calendar's requests and its holiday flag |
| LeaveViews.GenerateCalendarWeeks | leaves/views.py:704-764 | One row per week and one cell per grid number, each cell as GridCellOf states |
| LeaveViews.WeekRow | leaves/views.py:722-760 | The inner loop builds one cell per day of the week |
| LeaveViews.MonthCellsShowTeamCalendar | leaves/views.py:414-425 | On the page's calendar, a day of the month shows the first three requests the team calendar lists for it, and its holiday flag |
| LeaveViews.ShownAreLatestStarting | leaves/views.py:755 | When a day lists more requests than it shows, every request shown starts no earlier than any listed request left out |
| LeaveAdmin.Preview | leaves/admin.py:225-226 | Text of at most 50 characters is unchanged; longer text becomes its first 50 characters and "..." |
| LeaveAdmin.PreviewIdempotent | leaves/admin.py:250-251 | Previewing a preview changes nothing |
| LeaveAdmin.StatusColour | leaves/admin.py:166-177 | An unknown status code is shown black |
| LeaveAdmin.StatusColoursDistinct | leaves/admin.py:166-177 | Each status has its own colour, none of them black |
| LeaveAdmin.UtilisationBand | leaves/admin.py:122-131 | Green exactly below 70 %, red exactly from 90 %, orange between |
| LeaveAdmin.BalanceUtilisation | leaves/models.py:301-306 | Used over allocated days in percent, or 0 when nothing is allocated |
| LeaveAdmin.BandsMonotone | leaves/admin.py:205-215 | A higher utilisation never shows a lower band |
| LeaveAdmin.EmptyShowsGreen | leaves/admin.py:122-131 | An entitlement with nothing available and a balance with nothing allocated show green |
| LeaveAdmin.FullBalanceShowsRed | leaves/admin.py:205-215 | A fully used balance shows red |
| CarryOverCommand.CapOption | leaves/management/commands/process_year_end_carry_over.py:36 | A missing cap and a cap of 0 both mean no cap; any other value is kept |
| CarryOverCommand.ZeroCapIsNoCap | leaves/management/commands/process_year_end_carry_over.py:36 | Asking for a cap of 0 carries over all unused days, where a real cap of 0 would carry none |
| CarryOverCommand.CarriedOverCount | leaves/management/commands/process_year_end_carry_over.py:51-54 | The count is 0 exactly when no entitlement of the year carries days over |
| CarryOverCommand.ClosingMessage | leaves/management/commands/process_year_end_carry_over.py:109-124 | Success exactly when changes were saved for someone; the dry-run message exactly on a dry run; otherwise "no employees" |
| CarryOverCommand.Handle | leaves/management/commands/process_year_end_carry_over.py:34-124 | Stops before processing exactly when neither flag is given and some entitlement of the year already carries days over; otherwise ends with ClosingMessage |
| CarryOverCommand.GuardSkipped | leaves/management/commands/process_year_end_carry_over.py:50 | Either flag, or a year with no carry-over yet, lets the command run |
| CarryOverCommand.SecondRunStops | leaves/management/commands/process_year_end_carry_over.py:49-63 | Once any row of the year carries days over, a run without flags stops at the guard |
| ProjectModels.IsOverdue | projects/models.py:139-144 | A project without an estimated end date, or complete, is never overdue; an overdue project's estimated end date lies strictly before today |
| ProjectModels.OverdueStaysOverdue | projects/models.py:139-144 | An overdue project stays overdue as days pass, and a complete one is never overdue |
| ProjectModels.DurationDays | projects/models.py:146-152 | None without a start date; otherwise the days from the start to the actual end date, or to today while open |
| ProjectModels.DurationFrozenOnceEnded | projects/models.py:146-152 | A finished project's duration does not depend on the clock; an open one grows by one each day |
| ProjectModels.PriorityOrder | projects/models.py:154-158 | Ranks lie in 1..5, and 5 exactly for a code that is not a priority |
| ProjectModels.PriorityRanking | projects/models.py:154-158 | The four priorities have distinct ranks in the order CRITICAL, HIGH, MEDIUM, LOW |
| ProjectModels.EstimatedHours | projects/models.py:160-164 | None exactly without an effort size; never negative; positive exactly for S, M or L |
| ProjectModels.EffortSizesDouble | projects/models.py:163 | M is twice S and L twice M |
| ProjectModels.ProjectIdValid | projects/models.py:54-59 | Accepted exactly for seven decimal digits, optionally followed by one newline |
| ProjectModels.ProjectIdEdges | projects/models.py:58 | A trailing newline and Arabic-Indic digits pass; six or eight digits and a leading space do not |
| ProjectModels.ImportCheckAndValidator | projects/resources.py:134-136 | The import's check admits every seven-digit identifier the validator admits, and also superscript digits the validator refuses |
| ImportRows.Str | projects/resources.py:134 | Text converts to itself and a non-negative number to its digits |
| ImportRows.FieldFailure | projects/resources.py:129-131 | A column fails exactly when it is missing, not text, or blank, and the error names it |
| ImportRows.RequiredFailure | projects/resources.py:128-131 | The loop passes exactly when every listed column is filled, and otherwise names an unfilled listed column |
| ImportRows.CleanedTextCell | projects/resources.py:140-142 | Cleaning keeps the columns, strips each listed column holding a truthy value, and leaves every other cell as it was |
| ImportRows.CleanedTextKeys | projects/resources.py:140-142 | Cleaning keeps the set of columns |
| ImportRows.ImportRow.constructor | projects/resources.py:124 | A row holds the cells it is given |
| ImportRows.CheckRequired | projects/resources.py:128-131 | The required-field loop returns RequiredFailure |
| ImportRows.CleanTextFields | projects/resources.py:140-142 | The text-cleaning loop leaves the row as CleanedText states |
| ProjectResources.TextColumns | projects/resources.py:140 | The text columns the hook strips are exactly the seven listed |
| ProjectResources.StrippedStaysFilled | projects/resources.py:134-137 | Stripping non-blank text gives non-blank text that strips to itself |
| ProjectResources.NameVerdict | projects/resources.py:20-24 | A business-area or project-type row passes exactly when its name is filled, and otherwise fails on the name |
| ProjectResources.ProjectTypeBeforeImportRow | projects/resources.py:45-50 | A refused row is unchanged; an accepted one has its name stripped |
| ProjectResources.BusinessAreaBeforeImportRow | projects/resources.py:20-31 | A refused row is unchanged; an accepted one has its name stripped and `is_active` defaulted |
| ProjectResources.BusinessAreaNormalised | projects/resources.py:26-31 | An accepted business area has a stripped non-blank name, a non-empty `is_active` (true when missing or empty), and every other cell kept |
| ProjectResources.ProjectTypeNormalised | projects/resources.py:45-50 | An accepted project type has a stripped non-blank name, every other cell kept, and passes the hook again unchanged |
| ProjectResources.ChoiceFailure | projects/resources.py:144-155 | None exactly when each of status, priority and effort size is empty or a valid code; otherwise the first bad one, with its value |
| ProjectResources.ProjectRequiredFilled | projects/resources.py:127-131 | The loop passes exactly when the six required columns hold non-blank text |
| ProjectResources.StagedByLoop | projects/resources.py:137-142 | Writing back the stripped identifier and running the text loop gives the staged row |
| ProjectResources.ProjectVerdict | projects/resources.py:124-155 | Accepted exactly when the required columns are filled, the stripped identifier is seven digits and the staged choices are valid; an identifier error carries the stripped identifier |
| ProjectResources.DefaultedCell | projects/resources.py:157-165 | Status becomes NEW, priority MEDIUM and the creator the manager when they are falsy; every other cell is kept |
| ProjectResources.DefaultsOver | projects/resources.py:157-165 | On a row with valid choices, the defaults give a known status and priority and keep a valid effort size |
| ProjectResources.ProjectIdentityNormalised | projects/resources.py:133-142 | An accepted row leaves the hook with its identifier stripped and seven digits, and its name and description stripped and non-blank |
| ProjectResources.ProjectReferencesKept | projects/resources.py:124-165 | An accepted row keeps its columns, gains status, priority and creator, and keeps its references |
| ProjectResources.ProjectChoicesDefaulted | projects/resources.py:144-165 | An accepted row leaves the hook with a known status and priority, given or defaulted, a valid or empty effort size, and a creator |
| ProjectResources.TextColumnSettled | projects/resources.py:140-142 | A truthy text column of an accepted row is stripped text that strips to itself |
| ProjectResources.CleanedRequired | projects/resources.py:127-137 | The required columns of a cleaned row are still filled and its identifier reads the same |
| ProjectResources.RestagingChangesNothing | projects/resources.py:133-142 | Stripping a cleaned row again changes none of its cells |
| ProjectResources.DefaultsAlreadyFilled | projects/resources.py:157-165 | A cleaned row already has its defaults |
| ProjectResources.ProjectCleanedIsFixed | projects/resources.py:124-165 | Importing an accepted row again accepts it and changes nothing |
| ProjectResources.CheckChoices | projects/resources.py:144-155 | The three choice checks, in order, return ChoiceFailure |
| ProjectResources.FillDefaults | projects/resources.py:157-165 | The defaults are filled in place as Defaulted states |
| ProjectResources.ProjectBeforeImportRow | projects/resources.py:124-165 | Returns ProjectVerdict; an accepted row becomes ProjectCleaned; a row refused before the choices is unchanged, and one refused on a choice is left staged |
| ProjectViews.ParseField | projects/views.py:221-233 | A field is recognised exactly when it is one of the eight allowed names, and then names that field |
| ProjectViews.FieldNamesRoundTrip | projects/views.py:221-230 | Every editable field has an allowed name that parses back to it |
| ProjectViews.ManagerDisplay | projects/views.py:275 | The manager is shown by full name, or by username when the full name is empty |
| ProjectViews.ManagerEdit | projects/views.py:236-242 | An empty or missing manager is refused as invalid; an accepted one is an active user whose UUID is the value sent, and only the manager changes |
| ProjectViews.EditAs | projects/views.py:236-269 | An accepted edit changes only the named field, needs a value unless it clears the effort size, and stores a status, priority or effort size only from its choices and a name only non-empty and at most 200 long |
| ProjectViews.Edit | projects/views.py:212-233 | A request that is not an AJAX POST is refused as invalid, a field outside the eight allowed names as an invalid field, and an accepted edit is an AJAX POST naming an allowed field |
| ProjectViews.DisplayValue | projects/views.py:271-282 | The answer shows nothing exactly for a cleared effort size; the manager is shown by username or full name, and a text field by the text stored |
| ProjectViews.EditableProject.constructor | projects/views.py:216 | The loaded project holds the given field values |
| ProjectViews.UpdateProjectField | projects/views.py:213-297 | A refused edit changes nothing and reports the view's error; an accepted one sets the named field as Edit states (a manager by the UUID of the one active user holding it) and answers with its display value |
| ProjectViews.EditTouchesOneField | projects/views.py:256-269 | A successful edit changes the named field and no other |
| ProjectViews.NameRule | projects/views.py:245-248 | The name is accepted exactly when its stripped text is non-blank and at most 200 long, and is stored stripped; a blank name is refused as empty |
| ProjectViews.TextLimitRule | projects/views.py:249-256 | Timeline, T/code and description are refused exactly when the value as sent exceeds 200, 50 or 1000; within the limit they are stored stripped, and the stored text fits |
| ProjectViews.PaddedTimelineRefused | projects/views.py:249-250 | A timeline "x" padded with spaces to 201 characters is refused although its text fits |
| ProjectViews.ChoiceRule | projects/views.py:264-269 | Status and priority are accepted exactly for their choice codes and stored as sent; empty and missing values are refused |
| ProjectViews.EffortSizeRule | projects/views.py:258-263 | An empty or missing effort size clears it, S, M or L is stored, and anything else is refused |
| ProjectViews.ActiveWithId | projects/views.py:238 | The users the manager lookup finds are exactly the active ones holding the UUID, in table order |
| ProjectViews.ManagerRule | projects/views.py:236-242 | An empty manager is refused as invalid; a value that is not a UUID raises; otherwise it is accepted exactly when one active user holds the UUID, who then manages the project and nothing else changes, and it is "not found" exactly when no active user holds it |
| ProjectViews.NoneFound | projects/views.py:238 | Without an active user holding the UUID the lookup finds nothing |
| ProjectViews.OnlyMatch | users/models.py:23 | With unique UUIDs, the active user holding the UUID is the only one found |
| ProjectViews.ManagerByUuid | projects/views.py:236-240 | The text of an active user's UUID, as the page sends it, makes that user the manager |
| ProjectViews.NumericManagerRaises | projects/views.py:292-295 | A numeric manager value is no UUID, so the lookup raises and the view reports the exception |
| Uuids.ParseUuid | users/models.py:23 | The UUID field reads a lookup value as a UUID below 2^128, or raises |
| Uuids.UuidRoundTrip | users/models.py:23 | The text of a UUID, bare or in braces, reads back as that UUID |
| Uuids.HexDigitsValue | users/models.py:23 | Writing n hex digits of a number below 16^n and reading them back gives the number |
| Uuids.NumberIsNoUuid | projects/views.py:238 | "5" and "42" are not UUIDs: the conversion raises |
| ProjectViews.ResubmitStored | projects/views.py:243-269 | Sending back what an accepted edit stored is accepted and changes nothing |
| UserModels.UsernameValid | users/models.py:12-13 | Accepted exactly when non-empty and made of ASCII letters, digits, '_' and '.', optionally followed by one newline |
| UserModels.UsernameRefusesMessageChars | users/models.py:13-17 | A username containing '@', '+' or '-' is refused, although the message lists them as allowed |
| UserModels.UsernameExamples | users/models.py:13 | A dotted name and one with a single trailing newline pass; two newlines, a lone newline and the empty name do not |
| UserModels.NewUser | users/models.py:22-69 | A user created with only the required fields holds the given UUID, has gender "Other" and occupation "other", and is active and not staff |
| UserModels.DefaultsAreChoices | users/models.py:44-69 | The gender and occupation defaults are valid choices |
| UserResources.UserRequiredMeans | users/resources.py:29-32 | The loop passes exactly when email, first name and last name hold non-blank text |
| UserResources.UserVerdict | users/resources.py:27-38 | Accepted exactly when the required columns are filled and the stripped, lower-cased email has an '@'; an email error carries that email |
| UserResources.FillUserDefaults | users/resources.py:48-59 | The flag defaults and choice fallbacks are filled in place |
| UserResources.UserBeforeImportRow | users/resources.py:27-59 | Returns UserVerdict; a refused row is unchanged and an accepted one is rewritten to UserCleaned |
| UserResources.UserIdentityNormalised | users/resources.py:34-46 | An accepted row has a lower-case email with an '@', the given username or else the email's text before its first '@', and stripped, title-cased names |
| UserResources.LocalPartPrefix | users/resources.py:41-42 | The derived username is the text before the first '@': the email is that text, '@', and the rest |
| UserResources.FlagDefaultCell | users/resources.py:49-52 | A flag given as anything but empty text is kept; a missing or empty one gets its default; other columns are untouched |
| UserResources.FallbackCell | users/resources.py:55-59 | A falsy or valid choice is kept; any other is replaced by the fallback; other columns are untouched |
| UserResources.UserFlagsDefaulted | users/resources.py:48-52 | An accepted row has `is_active` and `is_staff` set, true and false unless given as anything but empty text |
| UserResources.UserChoicesFallBack | users/resources.py:54-59 | An accepted row's gender and occupation are empty or valid: valid or falsy ones are kept, invalid ones become "Other" and "other" |
| UserResources.DerivedUsernameMayBeInvalid | users/resources.py:41-42 | A '-' or '+' before the '@' passes the import but yields a username the validator refuses |
| UserResources.EmptyLocalPart | users/resources.py:41-42 | An email starting with '@' yields an empty username, which is not valid |
| Dashboard.Hours | dashboard/views.py:33 | A project adds positive hours exactly when its effort size is S, M or L |
| Dashboard.WithEffort | dashboard/views.py:28 | The projects kept all have an effort size and come from the list |
| Dashboard.CompletedWithinTotal | dashboard/views.py:32-36 | The completed hours never exceed the total hours |
| Dashboard.EffortFilterImmaterial | dashboard/views.py:28-36 | Leaving out the projects without an effort size changes neither sum |
| Dashboard.TotalHoursBound | dashboard/views.py:32-34 | The total is at most 160 hours per project |
| Dashboard.EstimatedHoursTotals | dashboard/views.py:28-36 | The loop computes the total and completed hours, with completed at most total |
| Dashboard.StatusCount | dashboard/views.py:18-21 | A status count never exceeds the number of projects |
| Dashboard.StatusCountsWithinTotal | dashboard/views.py:17-21 | The four status counts add up to at most the number of projects |
| Dashboard.Grouped | dashboard/views.py:64 | Grouping by thousands never shortens the digits |
| Dashboard.GroupedLength | dashboard/views.py:64 | Grouping n digits adds (n - 1) / 3 commas, and the first group holds one to three digits |
| Dashboard.GroupedCommas | dashboard/views.py:64 | A character of the grouped text is a comma exactly when it is a multiple of four places from the right end, so each comma is followed by three digits |
| Dashboard.UngroupAppend | dashboard/views.py:64 | Taking commas out distributes over concatenation |
| Dashboard.UngroupNoCommas | dashboard/views.py:64 | Text without commas is unchanged by taking commas out |
| Dashboard.GroupedRoundTrip | dashboard/views.py:64 | Taking the commas out of grouped digits gives the digits back |
| Dashboard.RevenueDisplayReadsBack | dashboard/views.py:64 | The shown revenue reads back as the revenue's digits, and "0" agrees with grouping zero |
| Dashboard.DashboardFigures | dashboard/views.py:13-41 | The status counts, the revenue display of 100 × total hours and the sales of 100 × completed hours, with sales at most revenue |

## Left out

- HTTP plumbing is not modelled: request methods and headers beyond the one AJAX flag,
  JSON responses, templates, messages, redirects, pagination and login decorators.
  `get_object_or_404` becomes the precondition that the primary key names a row.
- The list, detail, create, update and dashboard views of leaves/views.py, together with
  `entitlement_list_view`, `get_leave_balance_ajax`, `reports_view` and `add_comment_ajax`,
  are plain queries and rendering, so they have no member.
- `LeaveReportService` (the monthly and annual summaries, and the year-end batch the
  command calls) is not part of this model. The command takes the number of employees the
  batch carried days over for as an input.
- The calendar grid of `calendar.monthcalendar` and its `setfirstweekday` side effect are not
  modelled. The grid is an input, and the model states only the per-cell rules.
- Floating point is not modelled: the float conversions for JSON and the `{:.1f}` admin
  formatting. Day counts are exact tenths and percentages exact fractions, so
  `LeaveAdmin.UtilisationBand` compares exactly, where the admin compares a float.
- Database concurrency is not modelled: the overlap checks are not atomic with the
  insert. The model's operations run one at a time.
- Field lengths the database enforces on save (`max_length`) are not checked by the
  import model.
- Unicode handling is narrower than Python's:
  - `Text.Lower` and `Text.Title` change ASCII letters only, where Python's case mapping
    covers all of Unicode.
  - `Text.IsDecimalDigit` and `Text.IsDigitChar` cover the ASCII, Arabic-Indic,
    Extended Arabic-Indic, Devanagari and Fullwidth digits (and, for `isdigit`, the superscript, subscript and circled digits), not every
    Unicode digit.
- `Text.ParseInt` models `int()` on text only: optional whitespace and sign, then digits with
  single underscores between them.
- `LeaveForms.CleanMonth` and `LeaveForms.CleanYear` model the field methods on any text. Django's
  choice validation, which runs first and only lets the offered choices through, is
  not modelled.
- Django's own form validation is not modelled. `is_valid` on the request form also runs
  `LeaveRequest.clean` through the model form's `_post_clean`. The approval form's choice
  field refuses an action other than approve or reject before `clean` runs. Character fields
  strip their input, so `LeaveForms.ApprovalFormValid` takes the reason already stripped.
- The calendar's query orders by start date only. Requests with the same start date are
  listed in table order in the model; the database leaves their order unspecified.
- A user's UUID is drawn at random. `UserModels.NewUser` takes it as a parameter.
- LeaveModels.Clean takes both dates as present. The model's dates are not optional, so
  the branch where `clean` runs without a start or end date is not modelled.
- `after_import_instance` (saving a new project, the temporary password of a new user) and
  `get_queryset` in projects/resources.py and users/resources.py are left out, as is
  `ProjectCommentResource`.
- The duplicate `UserResource` in projects/resources.py:214-272 has the same hook as
  users/resources.py:27-59, so the `UserResources` module models both.
- `User.__str__` (users/models.py:98-99) only returns the username, so it has no member of
  its own.
- The dashboard's recent-project, team-member and recent-comment querysets are queries only
  and are left out.
- The user count on the dashboard is a query over a table the model does not hold, so it
  is left out.
- LeaveModels.CalculateDuration: the `OverflowError` Python raises when the walk steps past
  9999-12-31 is not modelled. The walk returns a count for any later range.
- LeaveModels.CountWeekdays: the `OverflowError` Python raises past 9999-12-31 is not modelled.
- LeaveServices.CalculateLeaveDuration: the `OverflowError` Python raises when the walk steps
  past 9999-12-31 is not modelled. The walk returns a duration for any later range.
- LeaveServices.CountServiceDays: the `OverflowError` Python raises past 9999-12-31 is not
  modelled.
- `Dates.CalendarDate` admits years after 9999, which Python's `date` (`MAXYEAR`) cannot build.
  Every date the source can hold is a `CalendarDate`.
- LeaveServices.NewEntitlement: the department is the least name in code-point order, as
  `Department.objects.first()` returns it under a C collation. Under another database
  collation (en_US.UTF-8, say) the first name can differ ("alpha" before "Beta").
- LeaveServices.CreateEntitlement: files the new row under the least department name in
  code-point order, which can differ from the first by the database collation.
- LeaveModels.LeaveDatabase.SaveRequest: the limit of `duration_days` (`max_digits=4`) is not
  checked. A duration above 999.9 days is stored where the database refuses it with a numeric
  overflow.
- LeaveModels.EntitlementInstance.Save: the `numeric(5,1)` limits are not checked. An annual,
  carry-over or time-in-lieu value of 10000 days or more is stored where the database refuses
  it.
- LeaveServices.RecomputedBalances: a used or pending sum above 9999.9 days is stored where the
  `numeric(5,1)` column refuses it on save.
- LeaveServices.UpdateLeaveBalance: the `numeric(5,1)` overflow on save is not modelled, as for
  RecomputedBalances.
- LeaveServices.ImportRow: the three values of a line are checked against `numeric(5,1)`, but the
  carry-over `save` fills in for a new row is not. A previous year holding more than 9999.9
  unused days is stored where the database refuses it.
- Day counts are whole tenths of a day. The rounding to one decimal place a `DecimalField`
  applies on save (a cap of `--max-carry-over 2.25`, an imported 2.25) is not modelled.
  The command's cap and the import's values are inputs already in tenths.
- LeaveServices.NameMatches: the case-insensitive lookup (`iexact`) compares ASCII-lower-cased
  names.
- LeaveServices.ImportEntitlementsFromExcelData: a carry-over of 0 on a line that creates a row is
  not promised to be stored, because `save` then fills in the previous year's unused days.
- LeaveServices.ImportEntitlementsFromExcelData: a spreadsheet value that cannot be converted
  is an absent field in the model. The exact exception text is not modelled.
