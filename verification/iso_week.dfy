/** `date.isocalendar()`. Section 4.1.4 of ISO 8601:2004 gives a week to the year its
    Thursday falls in and numbers weeks by their Thursdays; the standard library counts
    from the Monday of week 1 instead. */
module IsoWeek {
  import opened CivilCalendar

  /** The Monday week 1 of year `y` starts on. */
  function WeekOneMonday(y: int): Day {
    var newYear := ToDay(y, 1, 1);
    newYear - Weekday(newYear) + (if Weekday(newYear) > 3 then 7 else 0)
  }

  /** (ISO year, ISO week). */
  function YearAndWeek(n: Day): (int, int) {
    var y := YearOf(n);
    var week := (n - WeekOneMonday(y)) / 7;
    if week < 0 then (y - 1, (n - WeekOneMonday(y - 1)) / 7 + 1)
    else if week >= 52 && n >= WeekOneMonday(y + 1) then (y + 1, 1)
    else (y, week + 1)
  }

  /** The week `n` is in, counted from day 1, which is a Monday. */
  function WeekCount(n: Day): int {
    (n - 1) / 7
  }

  function ThursdayOf(n: Day): Day {
    7 * WeekCount(n) + 4
  }

  lemma WeekOneThursday(y: int)
    ensures (WeekOneMonday(y) - 1) % 7 == 0
    ensures DaysBeforeYear(y) < WeekOneMonday(y) + 3 <= DaysBeforeYear(y) + 7
  {
    hide DaysBeforeYear, IsLeap;
  }

  lemma WeeksFrom(n: Day, monday: Day)
    requires (monday - 1) % 7 == 0
    ensures (n - monday) / 7 == WeekCount(n) - WeekCount(monday)
    ensures monday == 7 * WeekCount(monday) + 1
    ensures n >= monday <==> WeekCount(n) >= WeekCount(monday)
  {
    assert monday == 7 * WeekCount(monday) + 1;
    assert n - monday == n - 1 - 7 * WeekCount(monday);
  }

  /** The number of the week that starts the ISO year. */
  function WeekOne(y: int): int {
    WeekCount(WeekOneMonday(y))
  }

  lemma WeekOneBounds(y: int)
    ensures DaysBeforeYear(y) < 7 * WeekOne(y) + 4 <= DaysBeforeYear(y) + 7
    ensures 52 <= WeekOne(y + 1) - WeekOne(y) <= 53
  {
    hide DaysBeforeYear, WeekOneMonday, IsLeap;
    WeekOneThursday(y);
    WeekOneThursday(y + 1);
    WeeksFrom(0, WeekOneMonday(y));
    WeeksFrom(0, WeekOneMonday(y + 1));
    YearStep(y);
  }

  lemma ByWeekCount(n: Day)
    ensures var y, w := YearOf(n), WeekCount(n);
      YearAndWeek(n) ==
        if w < WeekOne(y) then (y - 1, w - WeekOne(y - 1) + 1)
        else if w >= WeekOne(y) + 52 && w >= WeekOne(y + 1) then (y + 1, 1)
        else (y, w - WeekOne(y) + 1)
  {
    hide YearOf, WeekOneMonday, WeekCount;
    var y := YearOf(n);
    WeekOneThursday(y - 1);
    WeekOneThursday(y);
    WeekOneThursday(y + 1);
    WeeksFrom(n, WeekOneMonday(y - 1));
    WeeksFrom(n, WeekOneMonday(y));
    WeeksFrom(n, WeekOneMonday(y + 1));
  }

  lemma ThursdayBounds(n: Day)
    ensures 7 * WeekCount(n) + 1 <= n <= 7 * WeekCount(n) + 7
    ensures ThursdayOf(n) == 7 * WeekCount(n) + 4 && WeekCount(ThursdayOf(n)) == WeekCount(n)
  {
  }

  lemma YearFromWeekCount(t: Day, y: int)
    requires WeekOne(y) <= WeekCount(t) < WeekOne(y + 1) && t == 7 * WeekCount(t) + 4
    ensures YearOf(t) == y && (DayOfYear(t) - 1) / 7 == WeekCount(t) - WeekOne(y)
  {
    hide YearOf, DaysBeforeYear, WeekOne, WeekCount;
    WeekOneBounds(y);
    WeekOneBounds(y + 1);
    YearUnique(t, y);
  }

  /** The standard library's arithmetic is the standard's rule. */
  lemma IsThursdayRule(n: Day)
    ensures YearAndWeek(n).0 == YearOf(ThursdayOf(n))
    ensures YearAndWeek(n).1 == (DayOfYear(ThursdayOf(n)) - 1) / 7 + 1
    ensures 1 <= YearAndWeek(n).1 <= 53
    ensures WeekOne(YearAndWeek(n).0) + YearAndWeek(n).1 - 1 == WeekCount(n)
  {
    hide *;
    var y, t := YearOf(n), ThursdayOf(n);
    ByWeekCount(n);
    ThursdayBounds(n);
    WeekOneBounds(y - 1);
    WeekOneBounds(y);
    WeekOneBounds(y + 1);
    YearFromWeekCount(t, YearAndWeek(n).0);
  }

  /** Two days have the same ISO year and week only if they are in the same week. */
  lemma LabelsAreInjective(a: Day, b: Day)
    ensures YearAndWeek(a) == YearAndWeek(b) <==> WeekCount(a) == WeekCount(b)
  {
    IsThursdayRule(a);
    IsThursdayRule(b);
    hide YearOf, DaysBeforeYear, YearAndWeek, WeekOne, WeekCount;
  }
}
