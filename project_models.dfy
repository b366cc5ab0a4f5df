/** The derived properties of a project (overdue, duration, priority rank, estimated hours)
    and the seven-digit project identifier. */
module ProjectModels {
  import opened Results
  import opened Dates
  import opened Text

  const Statuses: seq<string> := ["NEW", "IN_PROGRESS", "COMPLETE", "ON_HOLD", "CANCELLED"]
  const Priorities: seq<string> := ["LOW", "MEDIUM", "HIGH", "CRITICAL"]
  const EffortSizes: seq<string> := ["S", "M", "L"]

  /** A project is overdue when it has an estimated end date, is not complete, and today is
      past that date. */
  predicate IsOverdue(estimatedEnd: Option<CalendarDate>, status: string, today: CalendarDate): (b: bool)
    ensures estimatedEnd.None? || status == "COMPLETE" ==> !b
    ensures b ==> OnOrBefore(estimatedEnd.value, today) && estimatedEnd.value != today
  {
    estimatedEnd.Some? && status != "COMPLETE" && Ordinal(today) > Ordinal(estimatedEnd.value)
  }

  /** Once overdue, a project stays overdue as the days pass, until it is completed. */
  lemma OverdueStaysOverdue(estimatedEnd: Option<CalendarDate>, status: string, today: CalendarDate, later: CalendarDate)
    requires IsOverdue(estimatedEnd, status, today) && OnOrBefore(today, later)
    ensures IsOverdue(estimatedEnd, status, later)
    ensures !IsOverdue(estimatedEnd, "COMPLETE", later)
  {
  }

  /** Days from the start to the actual end date, or to today while it is still open; none
      without a start date. */
  function DurationDays(start: Option<CalendarDate>, actualEnd: Option<CalendarDate>, today: CalendarDate): (r: Option<int>)
    ensures r.Some? <==> start.Some?
    ensures actualEnd.Some? && start.Some? ==> r == Some(Ordinal(actualEnd.value) - Ordinal(start.value))
    ensures actualEnd.None? && start.Some? ==> r == Some(Ordinal(today) - Ordinal(start.value))
  {
    match start
    case None => None
    case Some(s) =>
      var end := if actualEnd.Some? then actualEnd.value else today;
      Some(Ordinal(end) - Ordinal(s))
  }

  /** A finished project's duration no longer depends on the clock, and an open project's
      duration grows by one each day. */
  lemma DurationFrozenOnceEnded(start: CalendarDate, actualEnd: CalendarDate, today: CalendarDate, other: CalendarDate)
    ensures DurationDays(Some(start), Some(actualEnd), today) == DurationDays(Some(start), Some(actualEnd), other)
    ensures Ordinal(other) == Ordinal(today) + 1
            ==> DurationDays(Some(start), None, other).value == DurationDays(Some(start), None, today).value + 1
  {
  }

  /** The rank used to sort by priority, 1 being the most urgent; any other code ranks last. */
  function PriorityOrder(priority: string): (r: int)
    ensures 1 <= r <= 5
    ensures r == 5 <==> priority !in Priorities
  {
    if priority == "CRITICAL" then 1
    else if priority == "HIGH" then 2
    else if priority == "MEDIUM" then 3
    else if priority == "LOW" then 4
    else 5
  }

  /** The four priorities rank in the order of their urgency, each on its own rank. */
  lemma PriorityRanking(p: string, q: string)
    requires p in Priorities && q in Priorities
    ensures PriorityOrder(p) == PriorityOrder(q) <==> p == q
    ensures PriorityOrder("CRITICAL") < PriorityOrder("HIGH") < PriorityOrder("MEDIUM") < PriorityOrder("LOW")
  {
  }

  /** Hours estimated from the effort size: none without one, 40, 80 or 160 for S, M or L,
      and 0 for any other code. */
  function EstimatedHours(effortSize: Option<string>): (r: Option<int>)
    ensures r.None? <==> effortSize.None? || effortSize.value == ""
    ensures r.Some? ==> r.value >= 0
    ensures r.Some? ==> (r.value > 0 <==> effortSize.value in EffortSizes)
  {
    match effortSize
    case None => None
    case Some(e) =>
      if e == "" then None
      else if e == "S" then Some(40)
      else if e == "M" then Some(80)
      else if e == "L" then Some(160)
      else Some(0)
  }

  /** Each size up is twice the hours of the one below it. */
  lemma EffortSizesDouble()
    ensures EstimatedHours(Some("M")).value == 2 * EstimatedHours(Some("S")).value
    ensures EstimatedHours(Some("L")).value == 2 * EstimatedHours(Some("M")).value
  {
  }

  /** Seven decimal digits. */
  predicate SevenDigits(s: string) {
    |s| == 7 && forall i :: 0 <= i < 7 ==> IsDecimalDigit(s[i])
  }

  /** The identifier validator, the pattern `^\d{7}$` searched in the text: seven decimal
      digits (any script's), where `$` also matches before one final newline. */
  function ProjectIdValid(s: string): (r: bool)
    ensures r <==> SevenDigits(s) || (|s| == 8 && SevenDigits(s[..7]) && s[7] == '\n')
  {
    if |s| == 7 then SevenDigits(s)
    else if |s| == 8 then SevenDigits(s[..7]) && s[7] == '\n'
    else false
  }

  /** The validator lets an identifier through with a trailing newline and in Arabic-Indic
      digits, and refuses six or eight digits. */
  lemma ProjectIdEdges()
    ensures ProjectIdValid("1007127")
    ensures ProjectIdValid("1007127\n")
    ensures ProjectIdValid("١٠٠٧١٢٧")
    ensures !ProjectIdValid("100712")
    ensures !ProjectIdValid("10071270")
    ensures !ProjectIdValid(" 1007127")
  {
    assert "1007127\n"[..7] == "1007127";
    assert !IsDecimalDigit(' ');
  }

  /** The import's check (`isdigit` and length seven) admits every identifier the validator
      admits without a newline, and also the superscript digits the validator refuses. */
  lemma ImportCheckAndValidator(s: string)
    requires SevenDigits(s)
    ensures IsDigitString(s) && |s| == 7 && ProjectIdValid(s)
    ensures IsDigitString("100712²") && !ProjectIdValid("100712²")
  {
    var t := "100712²";
    assert !IsDecimalDigit(t[6]);
  }
}
