/** `dateutil.easter.easter(year, EASTER_ORTHODOX)`: the Julian paschal full moon, the
    Sunday after it, and the shift from the Julian to the Gregorian calendar. */
module OrthodoxEaster {
  import opened CivilCalendar

  /** Days from the Julian to the Gregorian calendar. Held at 35 from year 5000 on, so
      that the month and day below are a date in every year; `dateutil` itself starts
      to compute a 31 June from year 5000. */
  function JulianShift(y: int): int {
    var c := y / 100;
    if y <= 1600 then 10
    else if c >= 50 then 35
    else 10 + c - 16 - (c - 16) / 4
  }

  /** Days from 21 March (Julian) to the paschal full moon. */
  function FullMoon(y: int): int {
    (19 * (y % 19) + 15) % 30
  }

  /** Weekday of the paschal full moon, 0 for Sunday. */
  function FullMoonWeekday(y: int): int {
    (y + y / 4 + FullMoon(y)) % 7
  }

  function SundayShift(y: int): int {
    FullMoon(y) - FullMoonWeekday(y) + JulianShift(y)
  }

  function EasterMonth(y: int): int {
    3 + (SundayShift(y) + 26) / 30
  }

  function EasterDay(y: int): int {
    1 + (SundayShift(y) + 27 + (SundayShift(y) + 6) / 40) % 31
  }

  lemma FullMoonBound(y: int)
    ensures 0 <= FullMoon(y) <= 28
  {
    var g := y % 19;
    assert g == 0 || g == 1 || g == 2 || g == 3 || g == 4 || g == 5 || g == 6 || g == 7 || g == 8 || g == 9
        || g == 10 || g == 11 || g == 12 || g == 13 || g == 14 || g == 15 || g == 16 || g == 17 || g == 18;
  }

  lemma SundayShiftBound(y: int)
    ensures 4 <= SundayShift(y) <= 63
    ensures 1900 <= y ==> 7 <= SundayShift(y)
    ensures 1900 <= y <= 2199 ==> SundayShift(y) <= 42
  {
    FullMoonBound(y);
  }

  lemma MonthAndDay(y: int)
    ensures EasterMonth(y) == (if SundayShift(y) <= 33 then 4 else 5)
    ensures EasterDay(y) == SundayShift(y) - (if SundayShift(y) <= 33 then 3 else 33)
    ensures 1 <= EasterDay(y) <= 30
  {
    SundayShiftBound(y);
    hide SundayShift;
  }

  /** Orthodox Easter Sunday of year `y`. */
  function Easter(y: int): Day {
    MonthAndDay(y);
    SundayShiftBound(y);
    ToDay(y, EasterMonth(y), EasterDay(y))
  }

  lemma FromLateMarch(y: int)
    ensures Easter(y) == ToDay(y, 3, 28) + SundayShift(y)
  {
    MonthAndDay(y);
    hide SundayShift, EasterMonth, EasterDay, DaysBeforeYear, IsLeap;
  }

  /** The two facts the calendar relies on: Easter stays in the spring ... */
  lemma EasterInSpring(y: int)
    ensures ToDay(y, 4, 1) <= Easter(y) <= ToDay(y, 5, 30)
    ensures 1900 <= y ==> ToDay(y, 4, 4) <= Easter(y)
    ensures 1900 <= y <= 2199 ==> Easter(y) <= ToDay(y, 5, 9)
    ensures YearOf(Easter(y)) == y
  {
    FromLateMarch(y);
    SundayShiftBound(y);
    MonthAndDay(y);
    CivilUnique(y, EasterMonth(y), EasterDay(y));
    hide SundayShift, EasterMonth, EasterDay, DaysBeforeYear, IsLeap, Easter, YearOf;
  }

  lemma CenturyShift(y: int)
    requires 1500 <= y <= 4999
    ensures JulianShift(y) == y / 100 - 2 - y / 100 / 4
  {
  }

  lemma CenturiesInCycle(y: int)
    ensures y / 400 == y / 100 / 4
  {
  }

  /** ... and is a Sunday, from the first year the Gregorian shift is right for. */
  lemma EasterIsSunday(y: int)
    requires 1500 <= y <= 4999
    ensures Weekday(Easter(y)) == 6
  {
    var quarter, century, moon := y / 4, y / 100, FullMoon(y);
    assert moon - FullMoonWeekday(y) + JulianShift(y) == SundayShift(y);
    assert FullMoonWeekday(y) == (y + quarter + moon) % 7;
    assert DaysBeforeYear(y + 1) == 365 * y + quarter - century + y / 400;
    assert ToDay(y, 3, 28) == DaysBeforeYear(y) + YearLength(y) - 278;
    hide *;
    CenturyShift(y);
    CenturiesInCycle(y);
    YearStep(y);
    FromLateMarch(y);
    WeeksAway(Easter(y), 52 * y + (y + quarter + moon) / 7 - 40);
  }

  lemma WeeksAway(n: Day, weeks: int)
    requires n == 7 * weeks
    ensures Weekday(n) == 6
  {
  }

  // ---- What the computus finds: the Sunday after the paschal full moon of the Julian calendar ----

  /** Day `d` of March of year `y` by the Julian calendar, in which every fourth year is a leap
      year; its 1 January of year 1 is the day numbered -1. */
  function JulianMarch(y: int, d: int): Day {
    -1 + 365 * (y - 1) + (y - 1) / 4 + 31 + (if y % 4 == 0 then 29 else 28) + d - 1
  }

  /** The paschal full moons of the 19 years of the lunar cycle, as days after 21 March. */
  const PASCHAL_MOONS := [15, 4, 23, 12, 1, 20, 9, 28, 17, 6, 25, 14, 3, 22, 11, 0, 19, 8, 27]

  lemma MoonsRepeat(y: int)
    ensures FullMoon(y) == PASCHAL_MOONS[y % 19]
  {
    var g := y % 19;
    assert g == 0 || g == 1 || g == 2 || g == 3 || g == 4 || g == 5 || g == 6 || g == 7 || g == 8 || g == 9
        || g == 10 || g == 11 || g == 12 || g == 13 || g == 14 || g == 15 || g == 16 || g == 17 || g == 18;
  }

  lemma JulianAhead(y: int)
    requires 1500 <= y <= 4999
    ensures JulianMarch(y, 21) == ToDay(y, 3, 21) + JulianShift(y)
  {
    QuarterStep(y);
    CenturyStep(y);
    CycleStep(y);
    LeapByHundreds(y);
    CenturyShift(y);
    CenturiesInCycle(y);
    assert DaysBeforeYear(y) == 365 * (y - 1) + (y - 1) / 4 - (y - 1) / 100 + (y - 1) / 400;
    assert DaysBeforeMonth(y, 3) == if IsLeap(y) then 60 else 59;
    hide JulianShift, DaysBeforeYear, DaysBeforeMonth;
  }

  /** Easter is the first Sunday after the paschal full moon of its year: the full moon of the
      Julian calendar that repeats every 19 years from 5 April, 25 March, 13 April ... on. */
  lemma EasterFollowsTheMoon(y: int)
    requires 1500 <= y <= 4999
    ensures var moon := JulianMarch(y, 21) + PASCHAL_MOONS[y % 19];
      moon < Easter(y) <= moon + 7 && Weekday(Easter(y)) == 6
  {
    MoonsRepeat(y);
    JulianAhead(y);
    FromLateMarch(y);
    EasterIsSunday(y);
    assert 0 <= FullMoonWeekday(y) <= 6;
    assert ToDay(y, 3, 28) == ToDay(y, 3, 21) + 7;
    hide FullMoon, FullMoonWeekday, JulianShift, JulianMarch, Easter, ToDay, Weekday;
  }
}
