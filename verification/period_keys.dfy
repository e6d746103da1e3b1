/** The period key of an entry, and when the keys of one rule differ. */
module PeriodKeys {
  import opened CivilCalendar
  import opened MonthArithmetic
  import opened OrthodoxEaster
  import opened BusinessDays
  import opened ScheduleRules
  import opened DecimalText
  import IsoWeek

  /** The key under which a date counts for rule `s`, taken before any adjustment: the ISO week
      of a weekly rule, the year of a yearly or Easter rule, the month of any other. */
  function PeriodKey(s: Schedule, nominal: Day): string {
    if s.Weekly? then
      IsoWeek.IsThursdayRule(nominal);
      IntText(IsoWeek.YearAndWeek(nominal).0) + "-W" + TwoDigits(IsoWeek.YearAndWeek(nominal).1)
    else if s.Yearly? || s.EasterOffset? then IntText(YearOf(nominal))
    else IntText(YearOf(nominal)) + "-" + TwoDigits(MonthOf(nominal))
  }

  ghost function KeyAt(s: Schedule, start: Day, k: nat): string {
    PeriodKey(s, Nominal(s, start, k))
  }

  /** Two dates of one rule share a key exactly when they share the month, the year or the
      week the kind of rule counts in. */
  ghost predicate SamePeriod(s: Schedule, a: Day, b: Day) {
    if s.Weekly? then IsoWeek.WeekCount(a) == IsoWeek.WeekCount(b)
    else if s.Yearly? || s.EasterOffset? then YearOf(a) == YearOf(b)
    else MonthIndex(a) == MonthIndex(b)
  }

  lemma KeyMeansPeriod(s: Schedule, a: Day, b: Day)
    ensures PeriodKey(s, a) == PeriodKey(s, b) <==> SamePeriod(s, a, b)
  {
    hide YearOf, MonthOf, IntText, TwoDigits, IsoWeek.YearAndWeek, IsoWeek.WeekCount;
    if s.Weekly? {
      IsoWeek.IsThursdayRule(a);
      IsoWeek.IsThursdayRule(b);
      IsoWeek.LabelsAreInjective(a, b);
      var p, q := IsoWeek.YearAndWeek(a), IsoWeek.YearAndWeek(b);
      if PeriodKey(s, a) == PeriodKey(s, b) {
        LabelInjective(p.0, "-W", p.1, q.0, q.1);
      }
    } else if s.Yearly? || s.EasterOffset? {
      if PeriodKey(s, a) == PeriodKey(s, b) {
        IntTextInjective(YearOf(a), YearOf(b));
      }
    } else {
      if PeriodKey(s, a) == PeriodKey(s, b) {
        LabelInjective(YearOf(a), "-", MonthOf(a), YearOf(b), MonthOf(b));
      } else {
        assert MonthIndex(a) == MonthIndex(b) ==> YearOf(a) == YearOf(b) && MonthOf(a) == MonthOf(b);
      }
    }
  }

  /** What month, year or week the k-th date of a rule falls in, up to where it starts. */
  ghost function PeriodStep(s: Schedule): int {
    match s
    case MonthlyInterval(months) => months
    case MonthlyDay(months, _, _) => months
    case LastBusiness(months) => months
    case Yearly(_, _, _) => 1
    case EasterOffset(_, _) => 1
    case Weekly(_, weeks) => weeks
  }

  lemma MonthOfNominal(s: Schedule, start: Day, k: nat)
    requires s.Valid() && (s.MonthlyInterval? || s.MonthlyDay? || s.LastBusiness?)
    ensures MonthIndex(Nominal(s, start, k)) == MonthIndex(start) + k * PeriodStep(s)
  {
    hide MonthIndex, OnDay, LastBusinessDay, Cumulative, MonthStart, DayOfMonth;
    match s
    case MonthlyInterval(months) => CumulativeClosedForm(start, months, k);
    case MonthlyDay(months, day, _) => OnDayInMonth(MonthIndex(start) + k * months, day);
    case LastBusiness(months) => LastBusinessDayInMonth(MonthIndex(start) + k * months);
  }

  lemma YearOfNominal(s: Schedule, start: Day, k: nat)
    requires s.Valid() && s.Yearly?
    ensures YearOf(Nominal(s, start, k)) == YearOf(start) + k
  {
    hide YearOf, OnDay, MonthOf, MonthStart, DayOfMonth;
    OnDayInMonth(12 * (YearOf(start) + k) + s.month - 1, s.day);
  }

  lemma WeekOfNominal(s: Schedule, start: Day, k: nat)
    requires s.Valid() && s.Weekly?
    ensures IsoWeek.WeekCount(Nominal(s, start, k)) == IsoWeek.WeekCount(Nominal(s, start, 0)) + k * PeriodStep(s)
  {
    hide IsoWeek.WeekCount, Weekday;
    WeeksLater(Nominal(s, start, 0), s.weeks * k);
  }

  lemma WeeksLater(n: Day, weeks: nat)
    ensures IsoWeek.WeekCount(n + 7 * weeks) == IsoWeek.WeekCount(n) + weeks
  {
  }

  /** For every kind but easter_offset, the keys of any two dates differ. */
  lemma KeysDistinct(s: Schedule, start: Day, i: nat, j: nat)
    requires s.Valid() && !s.EasterOffset? && i < j
    ensures KeyAt(s, start, i) != KeyAt(s, start, j)
  {
    hide PeriodKey, Nominal, MonthIndex, YearOf, IsoWeek.WeekCount;
    KeyMeansPeriod(s, Nominal(s, start, i), Nominal(s, start, j));
    Multiples(PeriodStep(s), i, j);
    if s.Weekly? {
      WeekOfNominal(s, start, i);
      WeekOfNominal(s, start, j);
    } else if s.Yearly? {
      YearOfNominal(s, start, i);
      YearOfNominal(s, start, j);
    } else {
      MonthOfNominal(s, start, i);
      MonthOfNominal(s, start, j);
    }
  }

  lemma Multiples(n: int, i: nat, j: nat)
    requires n >= 1 && i < j
    ensures i * n + 1 <= j * n
  {
  }

  // ---- Easter offsets ----

  lemma YearOfEasterOffset(s: Schedule, start: Day, k: nat)
    requires s.Valid() && s.EasterOffset? && s.days >= -93 && 1900 <= YearOf(start)
    ensures YearOf(Nominal(s, start, k)) == YearOf(start) + k
  {
    hide YearOf, Easter, DaysBeforeYear, IsLeap;
    var y := YearOf(start) + k;
    EasterInSpring(y);
    YearStep(y);
    YearUnique(Nominal(s, start, k), y);
  }

  lemma EasterShifts()
    ensures SundayShift(2009) == 22 && SundayShift(2010) == 7
    ensures SundayShift(2016) == 34 && SundayShift(2017) == 19
  {
    assert FullMoon(2009) == 11 && FullMoon(2010) == 0 && FullMoon(2016) == 23 && FullMoon(2017) == 12;
    assert JulianShift(2009) == 13 && JulianShift(2010) == 13 && JulianShift(2016) == 13 && JulianShift(2017) == 13;
    hide FullMoon, JulianShift;
  }

  /** An offset before -93 reaches back over New Year for the earliest Easters, so some
      two dates of the rule land in one year. */
  lemma EarlyOffsetsCollide(s: Schedule) returns (start: Day)
    requires s.Valid() && s.EasterOffset? && s.days < -93
    ensures 1900 <= YearOf(start) && KeyAt(s, start, 0) == KeyAt(s, start, 1)
  {
    hide PeriodKey, YearOf, Easter, SundayShift, DaysBeforeYear;
    var y := if s.days < -108 then 2016 else 2009;
    start := ToDay(y, 1, 1);
    EasterShifts();
    FromLateMarch(y);
    FromLateMarch(y + 1);
    YearStep(y);
    YearUnique(start, y);
    YearUnique(Nominal(s, start, 0), y);
    YearUnique(Nominal(s, start, 1), y);
    KeyMeansPeriod(s, Nominal(s, start, 0), Nominal(s, start, 1));
  }

  /** The same two dates as the second and the third of a rule that starts a year earlier, so
      that both are due after its start; they are past by 2018. */
  lemma LaterDatesCollide(s: Schedule) returns (start: Day)
    requires s.Valid() && s.EasterOffset? && s.days < -93
    ensures 1900 <= YearOf(start) && KeyAt(s, start, 1) == KeyAt(s, start, 2)
    ensures start <= Due(s, start, 1) && Due(s, start, 2) <= DaysBeforeYear(2018)
  {
    hide PeriodKey, YearOf, Easter, SundayShift, DaysBeforeYear, AdjustDate;
    var y := if s.days < -108 then 2016 else 2009;
    start := ToDay(y - 1, 1, 1);
    EasterShifts();
    FromLateMarch(y);
    FromLateMarch(y + 1);
    YearStep(y - 1);
    YearStep(y);
    YearsApart(y + 1, 2018);
    YearUnique(start, y - 1);
    YearUnique(Nominal(s, start, 1), y);
    YearUnique(Nominal(s, start, 2), y);
    KeyMeansPeriod(s, Nominal(s, start, 1), Nominal(s, start, 2));
    AdjustLaws(Nominal(s, start, 1), Nominal(s, start, 1), s.adjust);
    AdjustLaws(Nominal(s, start, 2), Nominal(s, start, 2), s.adjust);
  }

  /** The keys of an Easter rule are pairwise distinct, whatever its start from 1900 on,
      exactly when the offset is at least -93. */
  lemma EasterKeysDistinctIff(s: Schedule)
    requires s.Valid() && s.EasterOffset?
    ensures s.days >= -93 <==>
      forall start: Day, i: nat, j: nat :: i < j && 1900 <= YearOf(start) ==> KeyAt(s, start, i) != KeyAt(s, start, j)
  {
    hide KeyAt, YearOf;
    if s.days >= -93 {
      forall start: Day, i: nat, j: nat | i < j && 1900 <= YearOf(start)
        ensures KeyAt(s, start, i) != KeyAt(s, start, j)
      {
        EasterKeysDistinct(s, start, i, j);
      }
    } else {
      var start := EarlyOffsetsCollide(s);
    }
  }

  lemma EasterKeysDistinct(s: Schedule, start: Day, i: nat, j: nat)
    requires s.Valid() && s.EasterOffset? && s.days >= -93 && i < j && 1900 <= YearOf(start)
    ensures KeyAt(s, start, i) != KeyAt(s, start, j)
  {
    hide PeriodKey, YearOf, Nominal;
    YearOfEasterOffset(s, start, i);
    YearOfEasterOffset(s, start, j);
    KeyMeansPeriod(s, Nominal(s, start, i), Nominal(s, start, j));
  }
}
