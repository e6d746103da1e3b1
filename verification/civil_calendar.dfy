/** Calendar dates as the standard library's `datetime.date` counts them: a date
    is its proleptic Gregorian ordinal, and day 1 is Monday 1 January of year 1. */
module CivilCalendar {

  type Day = int

  predicate IsLeap(y: int) {
    y % 4 == 0 && (y % 100 != 0 || y % 400 == 0)
  }

  function YearLength(y: int): int {
    if IsLeap(y) then 366 else 365
  }

  function MonthLength(y: int, m: int): int
    requires 1 <= m <= 12
  {
    if m == 2 then (if IsLeap(y) then 29 else 28)
    else if m == 4 || m == 6 || m == 9 || m == 11 then 30
    else 31
  }

  /** Days before 1 January of year `y`. */
  function DaysBeforeYear(y: int): int {
    365 * (y - 1) + (y - 1) / 4 - (y - 1) / 100 + (y - 1) / 400
  }

  /** Days of year `y` before the first of month `m`; month 13 is the next January. */
  function DaysBeforeMonth(y: int, m: int): int
    requires 1 <= m <= 13
  {
    (367 * m - 362) / 12 - (if m <= 2 then 0 else if IsLeap(y) then 1 else 2)
  }

  predicate IsCivil(y: int, m: int, d: int) {
    1 <= m <= 12 && 1 <= d <= MonthLength(y, m)
  }

  function ToDay(y: int, m: int, d: int): Day
    requires IsCivil(y, m, d)
  {
    DaysBeforeYear(y) + DaysBeforeMonth(y, m) + d
  }

  function YearOf(n: Day): (y: int)
    ensures DaysBeforeYear(y) < n <= DaysBeforeYear(y + 1)
  {
    var guess := (n - 1) * 400 / 146097 + 1;
    if n <= DaysBeforeYear(guess) then guess - 1
    else if n > DaysBeforeYear(guess + 1) then guess + 1
    else guess
  }

  lemma QuarterStep(y: int)
    ensures y / 4 == (y - 1) / 4 + (if y % 4 == 0 then 1 else 0)
  {
  }

  lemma CenturyStep(y: int)
    ensures y / 100 == (y - 1) / 100 + (if y % 100 == 0 then 1 else 0)
  {
  }

  lemma CycleStep(y: int)
    ensures y / 400 == (y - 1) / 400 + (if y % 400 == 0 then 1 else 0)
  {
  }

  lemma LeapByHundreds(y: int)
    ensures (y % 400 == 0 ==> y % 100 == 0) && (y % 100 == 0 ==> y % 4 == 0)
  {
  }

  lemma YearStep(y: int)
    ensures DaysBeforeYear(y + 1) == DaysBeforeYear(y) + YearLength(y)
  {
    QuarterStep(y);
    CenturyStep(y);
    CycleStep(y);
    LeapByHundreds(y);
  }

  lemma MonthStep(y: int, m: int)
    requires 1 <= m <= 12
    ensures DaysBeforeMonth(y, m + 1) == DaysBeforeMonth(y, m) + MonthLength(y, m)
    ensures DaysBeforeMonth(y, 1) == 0 && DaysBeforeMonth(y, 13) == YearLength(y)
  {
  }

  lemma {:induction false} YearsApart(a: int, b: int)
    requires a <= b
    ensures 365 * (b - a) <= DaysBeforeYear(b) - DaysBeforeYear(a) <= 366 * (b - a)
    decreases b - a
  {
    if a < b {
      YearStep(b - 1);
      YearsApart(a, b - 1);
    }
  }

  lemma YearUnique(n: Day, y: int)
    requires DaysBeforeYear(y) < n <= DaysBeforeYear(y + 1)
    ensures YearOf(n) == y
  {
    if YearOf(n) < y {
      YearsApart(YearOf(n) + 1, y);
    } else if YearOf(n) > y {
      YearsApart(y + 1, YearOf(n));
    }
  }

  lemma YearMonotone(a: Day, b: Day)
    requires a <= b
    ensures YearOf(a) <= YearOf(b)
  {
    hide DaysBeforeYear, YearOf;
    if YearOf(b) < YearOf(a) {
      YearsApart(YearOf(b) + 1, YearOf(a));
    }
  }

  function DayOfYear(n: Day): (k: int)
    ensures 1 <= k <= YearLength(YearOf(n))
  {
    YearStep(YearOf(n));
    n - DaysBeforeYear(YearOf(n))
  }

  function MonthOf(n: Day): (m: int)
    ensures 1 <= m <= 12
    ensures DaysBeforeMonth(YearOf(n), m) < DayOfYear(n) <= DaysBeforeMonth(YearOf(n), m + 1)
  {
    var y, k := YearOf(n), DayOfYear(n);
    var shift := if k <= DaysBeforeMonth(y, 3) then 0 else if IsLeap(y) then 1 else 2;
    (12 * (k - 1 + shift) + 373) / 367
  }

  function DayOfMonth(n: Day): (d: int)
    ensures 1 <= d <= MonthLength(YearOf(n), MonthOf(n))
  {
    MonthStep(YearOf(n), MonthOf(n));
    DayOfYear(n) - DaysBeforeMonth(YearOf(n), MonthOf(n))
  }

  /** The day of the week; 0 is Monday. */
  function Weekday(n: Day): (w: int)
    ensures 0 <= w <= 6
  {
    (n - 1) % 7
  }

  lemma {:induction false} MonthsInOrder(y: int, a: int, b: int)
    requires 1 <= a <= b <= 13
    ensures 28 * (b - a) <= DaysBeforeMonth(y, b) - DaysBeforeMonth(y, a)
    decreases b - a
  {
    if a < b {
      MonthStep(y, b - 1);
      MonthsInOrder(y, a, b - 1);
    }
  }

  /** Splitting an ordinal into year, month and day and putting it back together is the
      identity, in both directions. */
  lemma CivilRoundTrip(n: Day)
    ensures IsCivil(YearOf(n), MonthOf(n), DayOfMonth(n))
    ensures ToDay(YearOf(n), MonthOf(n), DayOfMonth(n)) == n
  {
  }

  lemma CivilUnique(y: int, m: int, d: int)
    requires IsCivil(y, m, d)
    ensures YearOf(ToDay(y, m, d)) == y
    ensures MonthOf(ToDay(y, m, d)) == m
    ensures DayOfMonth(ToDay(y, m, d)) == d
  {
    var n := ToDay(y, m, d);
    MonthStep(y, m);
    MonthsInOrder(y, 1, m);
    MonthsInOrder(y, m + 1, 13);
    MonthStep(y, 12);
    YearStep(y);
    YearUnique(n, y);
    if MonthOf(n) < m {
      MonthsInOrder(y, MonthOf(n) + 1, m);
    } else if MonthOf(n) > m {
      MonthsInOrder(y, m + 1, MonthOf(n));
    }
  }
}
