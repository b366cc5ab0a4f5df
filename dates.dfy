/** Python's proleptic Gregorian `datetime.date`, reduced to what the leave core uses:
    day ordinals (so that `date + timedelta(days=1)` is `+ 1`), weekdays and month ends. */
module Dates {

  /** A calendar date; `Valid` says it names a real day. */
  datatype Date = Date(year: int, month: int, day: int)

  predicate IsLeap(y: int) {
    y % 4 == 0 && (y % 100 != 0 || y % 400 == 0)
  }

  function DaysInYear(y: int): int {
    if IsLeap(y) then 366 else 365
  }

  function DaysInMonth(y: int, m: int): (n: int)
    requires 1 <= m <= 12
    ensures 28 <= n <= 31
    ensures n == 29 <==> m == 2 && IsLeap(y)
  {
    if m == 2 then (if IsLeap(y) then 29 else 28)
    else if m == 4 || m == 6 || m == 9 || m == 11 then 30
    else 31
  }

  predicate Valid(d: Date) {
    1 <= d.year && 1 <= d.month <= 12 && 1 <= d.day <= DaysInMonth(d.year, d.month)
  }

  /** A date that names a real day: what a `DateField` holds. */
  type CalendarDate = d: Date | Valid(d) witness Date(1, 1, 1)

  /** Number of days in the years before `y` (Python's `_days_before_year`). */
  function DaysBeforeYear(y: int): int
    requires 1 <= y
  {
    var p := y - 1;
    p * 365 + p / 4 - p / 100 + p / 400
  }

  /** Number of days in year `y` before the first of month `m` (Python's `_days_before_month`). */
  function DaysBeforeMonth(y: int, m: int): int
    requires 1 <= m <= 12
  {
    [0, 31, 59, 90, 120, 151, 181, 212, 243, 273, 304, 334][m - 1]
      + (if m > 2 && IsLeap(y) then 1 else 0)
  }

  /** `date.toordinal()`: 0001-01-01 is day 1. */
  function Ordinal(d: Date): int
    requires Valid(d)
  {
    DaysBeforeYear(d.year) + DaysBeforeMonth(d.year, d.month) + d.day
  }

  /** `a <= b` on dates. */
  predicate OnOrBefore(a: CalendarDate, b: CalendarDate) {
    Ordinal(a) <= Ordinal(b)
  }

  /** `date.weekday()` on an ordinal: Monday = 0 … Sunday = 6 (day 1 was a Monday). */
  function Weekday(n: int): (w: int)
    ensures 0 <= w < 7
  {
    (n - 1) % 7
  }

  /** `k` days after a day of weekday `w` (`k < 7`) is weekday `(w + k) % 7`. */
  lemma WeekdayShift(n: int, k: int)
    requires 0 <= k < 7
    ensures Weekday(n + k) == (Weekday(n) + k) % 7
  {
  }

  /** The last day of the month that `d` lies in. */
  function LastOfMonth(d: Date): (r: Date)
    requires Valid(d)
    ensures Valid(r) && r.year == d.year && r.month == d.month && d.day <= r.day
  {
    Date(d.year, d.month, DaysInMonth(d.year, d.month))
  }

  /** The first day of the month after month `m` of year `y`; December rolls into January. */
  function FirstOfNextMonth(y: int, m: int): (r: Date)
    requires 1 <= y && 1 <= m <= 12
    ensures Valid(r) && r.day == 1
    ensures m < 12 ==> r.year == y && r.month == m + 1
    ensures m == 12 ==> r.year == y + 1 && r.month == 1
  {
    if m == 12 then Date(y + 1, 1, 1) else Date(y, m + 1, 1)
  }

  /** Going from `a - 1` to `a` raises `a / k` by one exactly when `k` divides `a` (k = 4, 100, 400). */
  lemma DivSteps(a: int)
    requires 1 <= a
    ensures a / 4 - (a - 1) / 4 == if a % 4 == 0 then 1 else 0
    ensures a / 100 - (a - 1) / 100 == if a % 100 == 0 then 1 else 0
    ensures a / 400 - (a - 1) / 400 == if a % 400 == 0 then 1 else 0
  {
  }

  /** Consecutive years differ by the length of the earlier one. */
  lemma DaysBeforeNextYear(y: int)
    requires 1 <= y
    ensures DaysBeforeYear(y + 1) == DaysBeforeYear(y) + DaysInYear(y)
  {
    DivSteps(y);
    LeapDivisors(y);
    var p := y - 1;
    var d4, d100, d400 := y / 4 - p / 4, y / 100 - p / 100, y / 400 - p / 400;
    assert DaysBeforeYear(y + 1) - DaysBeforeYear(y) == 365 + d4 - d100 + d400;
  }

  /** A multiple of 400 is a multiple of 100, and a multiple of 100 a multiple of 4. */
  lemma LeapDivisors(y: int)
    ensures y % 400 == 0 ==> y % 100 == 0
    ensures y % 100 == 0 ==> y % 4 == 0
  {
    if y % 400 == 0 {
      var j := 4 * (y / 400);
      assert y == 100 * j;
      var t := j - y / 100;
      assert y % 100 == 100 * t;
    }
    if y % 100 == 0 {
      var j := 25 * (y / 100);
      assert y == 4 * j;
      var t := j - y / 4;
      assert y % 4 == 4 * t;
    }
  }

  /** The day before the first of the next month is the last day of this month. */
  lemma NextMonthFollowsLastDay(y: int, m: int)
    requires 1 <= y && 1 <= m <= 12
    ensures Ordinal(FirstOfNextMonth(y, m)) - 1 == Ordinal(LastOfMonth(Date(y, m, 1)))
  {
    if m == 12 {
      DaysBeforeNextYear(y);
    }
  }
}
