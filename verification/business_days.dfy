/** Greek business days: Monday to Friday, minus the national public holidays. */
module BusinessDays {
  import opened CivilCalendar
  import opened OrthodoxEaster
  import opened MonthArithmetic

  /** The public holidays of year `y`: eight fixed days, then Clean Monday, Good Friday,
      Easter Monday and Whit Monday. */
  function GreekHolidays(y: int): set<Day> {
    {ToDay(y, 1, 1), ToDay(y, 1, 6), ToDay(y, 3, 25), ToDay(y, 5, 1), ToDay(y, 8, 15),
     ToDay(y, 10, 28), ToDay(y, 12, 25), ToDay(y, 12, 26)} +
    {Easter(y) - 48, Easter(y) - 2, Easter(y) + 1, Easter(y) + 50}
  }

  predicate IsBusinessDay(n: Day) {
    Weekday(n) < 5 && n !in GreekHolidays(YearOf(n))
  }

  /** The eight holidays with a date of their own, and the four that move with Easter: what keeps
      a Monday to Friday from being a business day. */
  lemma BusinessDayMeans(n: Day)
    ensures IsBusinessDay(n) <==>
      && Weekday(n) < 5
      && (MonthOf(n), DayOfMonth(n)) !in
           {(1, 1), (1, 6), (3, 25), (5, 1), (8, 15), (10, 28), (12, 25), (12, 26)}
      && n - Easter(YearOf(n)) !in {-48, -2, 1, 50}
  {
    hide YearOf, MonthOf, DayOfMonth, Easter, ToDay, Weekday;
    OnDate(n, 1, 1);
    OnDate(n, 1, 6);
    OnDate(n, 3, 25);
    OnDate(n, 5, 1);
    OnDate(n, 8, 15);
    OnDate(n, 10, 28);
    OnDate(n, 12, 25);
    OnDate(n, 12, 26);
  }

  lemma OnDate(n: Day, m: int, d: int)
    requires IsCivil(YearOf(n), m, d)
    ensures n == ToDay(YearOf(n), m, d) <==> MonthOf(n) == m && DayOfMonth(n) == d
  {
    hide YearOf, MonthOf, DayOfMonth, ToDay;
    CivilUnique(YearOf(n), m, d);
    CivilRoundTrip(n);
  }

  // ---- No run of free days is longer than five ----

  /** The holidays of a year as days of the year (1 January is 1), with `leap` 1 in a leap
      year and `shift` the days from 28 March to Easter; the next year's first two follow. */
  ghost predicate Festive(x: int, leap: int, shift: int) {
    || x == 1 || x == 6
    || x == 84 + leap || x == 121 + leap || x == 227 + leap || x == 301 + leap
    || x == 359 + leap || x == 360 + leap
    || x == 39 + leap + shift || x == 85 + leap + shift
    || x == 88 + leap + shift || x == 137 + leap + shift
    || x == 366 + leap || x == 371 + leap
  }

  lemma NoThreeFestiveInARow(x: int, leap: int, shift: int)
    requires 0 <= leap <= 1 && 4 <= shift <= 63
    ensures !(Festive(x, leap, shift) && Festive(x + 1, leap, shift) && Festive(x + 2, leap, shift))
  {
  }

  lemma NoFestivePairsAroundWeekend(x: int, leap: int, shift: int)
    requires 0 <= leap <= 1 && 4 <= shift <= 63
    ensures !(Festive(x, leap, shift) && Festive(x + 1, leap, shift) &&
              Festive(x + 4, leap, shift) && Festive(x + 5, leap, shift))
  {
  }

  lemma HolidayIsFestive(n: Day, y: int)
    requires DaysBeforeYear(y) < n <= DaysBeforeYear(y + 1) + 6
    requires n in GreekHolidays(YearOf(n))
    ensures Festive(n - DaysBeforeYear(y), YearLength(y) - 365, SundayShift(y))
  {
    YearStep(y);
    YearStep(y + 1);
    FromLateMarch(y);
    FromLateMarch(y + 1);
    SundayShiftBound(y + 1);
    hide Easter, SundayShift, DaysBeforeYear, YearOf;
    if n <= DaysBeforeYear(y + 1) {
      YearUnique(n, y);
    } else {
      YearUnique(n, y + 1);
    }
  }

  lemma FreeDayIsWeekendOrFestive(n: Day, y: int)
    requires DaysBeforeYear(y) < n <= DaysBeforeYear(y + 1) + 6
    requires !IsBusinessDay(n)
    ensures Weekday(n) >= 5 || Festive(n - DaysBeforeYear(y), YearLength(y) - 365, SundayShift(y))
  {
    hide GreekHolidays, Festive, SundayShift, DaysBeforeYear, YearOf, YearLength;
    if Weekday(n) < 5 {
      HolidayIsFestive(n, y);
    }
  }

  lemma YearLengthBound(y: int)
    ensures 365 <= YearLength(y) <= 366
  {
  }

  lemma WeekendsApart(n: Day)
    ensures Weekday(n) < 5 || Weekday(n + 1) < 5 || Weekday(n + 2) < 5
    ensures Weekday(n) >= 5 ==> Weekday(n + 2) < 5 && Weekday(n + 3) < 5 && Weekday(n + 4) < 5 && Weekday(n + 5) < 5
    ensures Weekday(n + 1) >= 5 ==> Weekday(n + 3) < 5 && Weekday(n + 4) < 5 && Weekday(n + 5) < 5
    ensures Weekday(n + 5) >= 5 ==> Weekday(n) < 5 && Weekday(n + 1) < 5 && Weekday(n + 2) < 5
    ensures Weekday(n + 4) >= 5 ==> Weekday(n) < 5 && Weekday(n + 1) < 5 && Weekday(n + 2) < 5
  {
    WeekdayOfNext(n);
    WeekdayOfNext(n + 1);
    WeekdayOfNext(n + 2);
    WeekdayOfNext(n + 3);
    WeekdayOfNext(n + 4);
    hide Weekday;
  }

  lemma WeekdayOfNext(n: Day)
    ensures Weekday(n + 1) == if Weekday(n) == 6 then 0 else Weekday(n) + 1
  {
  }

  /** Six consecutive days always contain a business day. */
  lemma SixDaysHaveABusinessDay(n: Day)
    ensures exists b :: n <= b <= n + 5 && IsBusinessDay(b)
  {
    hide *;
    if !exists b :: n <= b <= n + 5 && IsBusinessDay(b) {
      assert !IsBusinessDay(n) && !IsBusinessDay(n + 1) && !IsBusinessDay(n + 2);
      assert !IsBusinessDay(n + 3) && !IsBusinessDay(n + 4) && !IsBusinessDay(n + 5);
      var y := YearOf(n);
      YearLengthBound(y);
      SundayShiftBound(y);
      var x, leap, shift := n - DaysBeforeYear(y), YearLength(y) - 365, SundayShift(y);
      FreeDayIsWeekendOrFestive(n, y);
      FreeDayIsWeekendOrFestive(n + 1, y);
      FreeDayIsWeekendOrFestive(n + 2, y);
      FreeDayIsWeekendOrFestive(n + 3, y);
      FreeDayIsWeekendOrFestive(n + 4, y);
      FreeDayIsWeekendOrFestive(n + 5, y);
      NoFestivePairsAroundWeekend(x, leap, shift);
      NoThreeFestiveInARow(x, leap, shift);
      NoThreeFestiveInARow(x + 1, leap, shift);
      NoThreeFestiveInARow(x + 2, leap, shift);
      NoThreeFestiveInARow(x + 3, leap, shift);
      WeekendsApart(n);
    }
  }

  // ---- The searches ----

  /** `r` is the last business day up to `n`. */
  ghost predicate IsPrevious(n: Day, r: Day) {
    r <= n && IsBusinessDay(r) && forall x :: r < x <= n ==> !IsBusinessDay(x)
  }

  /** `r` is the first business day from `n` on. */
  ghost predicate IsNext(n: Day, r: Day) {
    n <= r && IsBusinessDay(r) && forall x :: n <= x < r ==> !IsBusinessDay(x)
  }

  lemma PreviousExists(n: Day)
    ensures exists r :: n - 5 <= r && IsPrevious(n, r)
  {
    hide IsBusinessDay;
    SixDaysHaveABusinessDay(n - 5);
    var b :| n - 5 <= b <= n && IsBusinessDay(b);
    LastUpTo(b, n);
  }

  lemma {:induction false} LastUpTo(b: Day, n: Day)
    requires b <= n && IsBusinessDay(b)
    ensures exists r :: b <= r && IsPrevious(n, r)
    decreases n - b
  {
    hide IsBusinessDay;
    if x :| b < x <= n && IsBusinessDay(x) {
      LastUpTo(x, n);
      var r :| x <= r && IsPrevious(n, r);
      assert b <= r;
    } else {
      assert IsPrevious(n, b);
    }
  }

  lemma NextExists(n: Day)
    ensures exists r :: r <= n + 5 && IsNext(n, r)
  {
    hide IsBusinessDay;
    SixDaysHaveABusinessDay(n);
    var b :| n <= b <= n + 5 && IsBusinessDay(b);
    FirstFrom(n, b);
  }

  lemma {:induction false} FirstFrom(n: Day, b: Day)
    requires n <= b && IsBusinessDay(b)
    ensures exists r :: r <= b && IsNext(n, r)
    decreases b - n
  {
    hide IsBusinessDay;
    if x :| n <= x < b && IsBusinessDay(x) {
      FirstFrom(n, x);
      var r :| r <= x && IsNext(n, r);
      assert r <= b;
    } else {
      assert IsNext(n, b);
    }
  }

  ghost function PreviousBusinessDay(n: Day): (r: Day)
    ensures IsPrevious(n, r) && n - 5 <= r
  {
    PreviousExists(n);
    var r :| n - 5 <= r && IsPrevious(n, r);
    r
  }

  ghost function NextBusinessDay(n: Day): (r: Day)
    ensures IsNext(n, r) && r <= n + 5
  {
    NextExists(n);
    var r :| r <= n + 5 && IsNext(n, r);
    r
  }

  method FindPreviousBusinessDay(n: Day) returns (d: Day)
    ensures d == PreviousBusinessDay(n)
  {
    hide IsBusinessDay;
    d := n;
    while !IsBusinessDay(d)
      invariant PreviousBusinessDay(n) <= d <= n
      decreases d - PreviousBusinessDay(n)
    {
      d := d - 1;
    }
  }

  method FindNextBusinessDay(n: Day) returns (d: Day)
    ensures d == NextBusinessDay(n)
  {
    hide IsBusinessDay;
    d := n;
    while !IsBusinessDay(d)
      invariant n <= d <= NextBusinessDay(n)
      decreases NextBusinessDay(n) - d
    {
      d := d + 1;
    }
  }

  // ---- Adjusting a date ----

  datatype Adjust = NoAdjust | ToPrevious | ToNext

  ghost function AdjustDate(n: Day, how: Adjust): Day {
    match how
    case NoAdjust => n
    case ToPrevious => PreviousBusinessDay(n)
    case ToNext => NextBusinessDay(n)
  }

  method Adjusted(n: Day, how: Adjust) returns (d: Day)
    ensures d == AdjustDate(n, how)
  {
    match how
    case NoAdjust => d := n;
    case ToPrevious => d := FindPreviousBusinessDay(n);
    case ToNext => d := FindNextBusinessDay(n);
  }

  /** An adjustment keeps the order of dates, changes nothing when repeated, moves a date
      by at most five days in its own direction, and ends on a business day. */
  lemma AdjustLaws(a: Day, b: Day, how: Adjust)
    requires a <= b
    ensures AdjustDate(a, how) <= AdjustDate(b, how)
    ensures AdjustDate(AdjustDate(a, how), how) == AdjustDate(a, how)
    ensures how == NoAdjust ==> AdjustDate(a, how) == a
    ensures how == ToPrevious ==> a - 5 <= AdjustDate(a, how) <= a
    ensures how == ToNext ==> a <= AdjustDate(a, how) <= a + 5
    ensures how != NoAdjust ==> IsBusinessDay(AdjustDate(a, how))
    ensures IsBusinessDay(a) ==> AdjustDate(a, how) == a
  {
    hide IsBusinessDay;
  }

  /** The last business day of month `mi`. */
  ghost function LastBusinessDay(mi: int): Day {
    PreviousBusinessDay(MonthStart(mi + 1) - 1)
  }

  /** It always stays in its own month. */
  lemma LastBusinessDayInMonth(mi: int)
    ensures MonthStart(mi) + 22 <= LastBusinessDay(mi) < MonthStart(mi + 1)
    ensures MonthIndex(LastBusinessDay(mi)) == mi
    ensures forall x :: LastBusinessDay(mi) < x < MonthStart(mi + 1) ==> !IsBusinessDay(x)
  {
    hide IsBusinessDay, MonthStart, MonthIndex;
    MonthFollows(mi);
    MonthIndexUnique(LastBusinessDay(mi), mi);
  }
}
