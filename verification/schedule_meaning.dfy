/** What the dates of a rule are, in calendar terms. */
module ScheduleMeaning {
  import opened Options
  import opened CivilCalendar
  import opened MonthArithmetic
  import opened OrthodoxEaster
  import opened BusinessDays
  import opened ScheduleRules
  import opened PeriodKeys
  import opened EntryWindow
  import opened ScheduleEntries
  import opened DecimalText
  import IsoWeek

  // ---- The dates before adjustment ----

  /** Months from the month of `a` to the month of `b`. */
  function MonthsBetween(a: Day, b: Day): int {
    12 * (YearOf(b) - YearOf(a)) + MonthOf(b) - MonthOf(a)
  }

  /** `n` is in start's month or a whole number of intervals of `months` later. */
  predicate OnInterval(start: Day, months: int, n: Day)
    requires months >= 1
  {
    MonthsBetween(start, n) >= 0 && MonthsBetween(start, n) % months == 0
  }

  /** Day `day` of its month, or its last day if it has fewer. */
  predicate OnDayOrLast(n: Day, day: int) {
    DayOfMonth(n) == day || (DayOfMonth(n) < day && DayOfMonth(n) == MonthLength(YearOf(n), MonthOf(n)))
  }

  /** The last business day of its month. */
  ghost predicate LastOfItsMonth(n: Day) {
    && IsBusinessDay(n)
    && forall x :: n < x && YearOf(x) == YearOf(n) && MonthOf(x) == MonthOf(n) ==> !IsBusinessDay(x)
  }

  /** Day `d` is start's day of the month, or the length of the shortest month of those `months`
      apart from start's next one up to the `k`-th, if that is less. */
  ghost predicate ShortestMet(start: Day, months: int, k: nat, d: int) {
    && d <= DayOfMonth(start)
    && (forall j :: 1 <= j <= k ==> d <= LengthOf(MonthIndex(start) + j * months))
    && (d == DayOfMonth(start) || exists j :: 1 <= j <= k && d == LengthOf(MonthIndex(start) + j * months))
  }

  /** `n` is `start` or a whole number of intervals later, on the shortest day met. */
  ghost predicate KeepsShortest(start: Day, months: int, n: Day)
    requires months >= 1
  {
    OnInterval(start, months, n) && ShortestMet(start, months, MonthsBetween(start, n) / months, DayOfMonth(n))
  }

  /** `n` is on the weekday, from `start` on and every `weeks` weeks from the week that starts then. */
  predicate OnWeekday(start: Day, weekday: int, weeks: int, n: Day)
    requires weeks >= 1
  {
    start <= n && Weekday(n) == weekday && (n - start) / 7 % weeks == 0
  }

  /** `n` is a date of rule `s` with first day `start`, before adjustment. */
  ghost predicate Fits(s: Schedule, start: Day, n: Day)
    requires s.Valid()
  {
    match s
    case MonthlyInterval(months) => KeepsShortest(start, months, n)
    case MonthlyDay(months, day, _) => OnInterval(start, months, n) && OnDayOrLast(n, day)
    case LastBusiness(months) => OnInterval(start, months, n) && LastOfItsMonth(n)
    case Yearly(month, day, _) => YearOf(start) <= YearOf(n) && MonthOf(n) == month && OnDayOrLast(n, day)
    case EasterOffset(days, _) => YearOf(start) <= YearOf(n - days) && n - days == Easter(YearOf(n - days))
    case Weekly(weekday, weeks) => OnWeekday(start, weekday, weeks, n)
  }

  lemma IndexDifference(a: Day, b: Day)
    ensures MonthIndex(b) - MonthIndex(a) == MonthsBetween(a, b)
    ensures MonthIndex(a) == MonthIndex(b) <==> YearOf(a) == YearOf(b) && MonthOf(a) == MonthOf(b)
    ensures LengthOf(MonthIndex(a)) == MonthLength(YearOf(a), MonthOf(a))
  {
    hide YearOf, MonthOf, MonthLength;
    MonthIndexParts(a);
  }

  lemma WholeIntervals(x: int, step: int)
    requires x >= 0 && step >= 1 && x % step == 0
    ensures x == x / step * step && x / step >= 0
  {
  }

  lemma IntervalsOf(k: nat, step: int)
    requires step >= 1
    ensures k * step >= 0 && k * step % step == 0 && k * step / step == k
  {
    var x := k * step;
    AtLeastOne(k - x / step, step, x % step);
    AtLeastOne(x / step - k, step, -(x % step));
  }

  lemma AtLeastOne(n: int, step: int, rest: int)
    requires step >= 1 && n * step == rest < step
    ensures n <= 0
  {
  }

  lemma SameDate(a: Day, b: Day)
    requires MonthIndex(a) == MonthIndex(b) && DayOfMonth(a) == DayOfMonth(b)
    ensures a == b
  {
    hide MonthIndex, DayOfMonth, MonthStart, OnDay;
    InItsMonth(a);
    InItsMonth(b);
  }

  // ---- Every date the rule runs through fits ... ----

  lemma IntervalFits(start: Day, months: int, k: nat, n: Day)
    requires months >= 1 && MonthIndex(n) == MonthIndex(start) + k * months
    ensures OnInterval(start, months, n) && MonthsBetween(start, n) / months == k
  {
    hide MonthIndex, MonthsBetween;
    IndexDifference(start, n);
    IntervalsOf(k, months);
  }

  lemma ClampedDayFits(mi: int, day: int)
    requires day >= 1
    ensures MonthIndex(OnDay(mi, day)) == mi && OnDayOrLast(OnDay(mi, day), day)
  {
    hide MonthIndex, OnDay, DayOfMonth, YearOf, MonthOf, LengthOf, MonthLength;
    OnDayInMonth(mi, day);
    IndexDifference(OnDay(mi, day), OnDay(mi, day));
  }

  lemma LastBusinessFits(mi: int)
    ensures MonthIndex(LastBusinessDay(mi)) == mi && LastOfItsMonth(LastBusinessDay(mi))
  {
    hide MonthIndex, YearOf, MonthOf, IsBusinessDay, LastBusinessDay, MonthStart;
    var n := LastBusinessDay(mi);
    LastBusinessDayInMonth(mi);
    LastIsBusiness(mi);
    forall x | n < x && YearOf(x) == YearOf(n) && MonthOf(x) == MonthOf(n)
      ensures !IsBusinessDay(x)
    {
      IndexDifference(x, n);
      InItsMonth(x);
    }
  }

  lemma LastIsBusiness(mi: int)
    ensures IsBusinessDay(LastBusinessDay(mi))
  {
    hide IsBusinessDay, MonthStart;
  }

  lemma YearlyIndex(n: Day, y: int, month: int)
    requires 1 <= month <= 12
    ensures MonthIndex(n) == 12 * y + month - 1 <==> YearOf(n) == y && MonthOf(n) == month
  {
    hide YearOf, MonthOf;
  }

  lemma WeeklyFits(start: Day, weekday: int, weeks: int, k: nat)
    requires 0 <= weekday <= 6 && weeks >= 1
    ensures var n := start + (weekday - Weekday(start)) % 7 + 7 * (weeks * k);
      start <= n && Weekday(n) == weekday && (n - start) / 7 == weeks * k
  {
    var first := start + (weekday - Weekday(start)) % 7;
    assert Weekday(first) == weekday;
    WeeksOn(first, weeks * k);
  }

  lemma WeeksOn(n: Day, weeks: nat)
    ensures Weekday(n + 7 * weeks) == Weekday(n)
  {
  }

  lemma MonthlyNominalFits(s: Schedule, start: Day, k: nat)
    requires s.Valid() && (s.MonthlyInterval? || s.MonthlyDay? || s.LastBusiness?)
    ensures Fits(s, start, Nominal(s, start, k))
  {
    hide MonthIndex, OnDay, DayOfMonth, LastBusinessDay, LastOfItsMonth, MonthsBetween, ShortestMet,
         Easter, Weekday, Cumulative, OnInterval, OnDayOrLast, ShortestSoFar;
    var n := Nominal(s, start, k);
    match s
    case MonthlyInterval(months) =>
      CumulativeClosedForm(start, months, k);
      MeetsShortest(start, months, k);
      IntervalFits(start, months, k, n);
    case MonthlyDay(months, day, _) =>
      ClampedDayFits(MonthIndex(start) + k * months, day);
      IntervalFits(start, months, k, n);
    case LastBusiness(months) =>
      LastBusinessFits(MonthIndex(start) + k * months);
      IntervalFits(start, months, k, n);
  }

  lemma MeetsShortest(start: Day, months: int, k: nat)
    ensures ShortestMet(start, months, k, ShortestSoFar(start, months, k))
  {
    hide MonthIndex, DayOfMonth, LengthOf, ShortestSoFar;
    ShortestIsLeast(start, months, k);
  }

  lemma NominalFits(s: Schedule, start: Day, k: nat)
    requires s.Valid()
    ensures Fits(s, start, Nominal(s, start, k))
  {
    hide MonthIndex, OnDay, DayOfMonth, YearOf, MonthOf, Easter, Weekday, OnDayOrLast, OnInterval;
    match s
    case Yearly(month, day, _) =>
      ClampedDayFits(12 * (YearOf(start) + k) + month - 1, day);
      YearlyIndex(Nominal(s, start, k), YearOf(start) + k, month);
    case EasterOffset(days, _) =>
      EasterInSpring(YearOf(start) + k);
    case Weekly(weekday, weeks) =>
      WeeklyFits(start, weekday, weeks, k);
      IntervalsOf(k, weeks);
    case _ =>
      MonthlyNominalFits(s, start, k);
  }

  // ---- ... and every date that fits is one the rule runs through ----

  /** Where among the dates of the rule a fitting date stands. */
  function Position(s: Schedule, start: Day, n: Day): int
    requires s.Valid()
  {
    match s
    case MonthlyInterval(months) => MonthsBetween(start, n) / months
    case MonthlyDay(months, _, _) => MonthsBetween(start, n) / months
    case LastBusiness(months) => MonthsBetween(start, n) / months
    case Yearly(_, _, _) => YearOf(n) - YearOf(start)
    case EasterOffset(days, _) => YearOf(n - days) - YearOf(start)
    case Weekly(_, weeks) => (n - start) / 7 / weeks
  }

  lemma OnIntervalIndex(start: Day, months: int, n: Day)
    requires months >= 1 && OnInterval(start, months, n)
    ensures var k := MonthsBetween(start, n) / months; k >= 0 && MonthIndex(n) == MonthIndex(start) + k * months
  {
    hide MonthIndex, MonthsBetween;
    IndexDifference(start, n);
    WholeIntervals(MonthsBetween(start, n), months);
  }

  lemma OnlyClampedDay(n: Day, day: int)
    requires day >= 1 && OnDayOrLast(n, day)
    ensures n == OnDay(MonthIndex(n), day)
  {
    hide MonthIndex, OnDay, DayOfMonth, YearOf, MonthOf, LengthOf, MonthLength;
    InItsMonth(n);
    IndexDifference(n, n);
    OnDayInMonth(MonthIndex(n), day);
    SameDate(n, OnDay(MonthIndex(n), day));
  }

  lemma OnlyLastBusiness(n: Day)
    requires LastOfItsMonth(n)
    ensures n == LastBusinessDay(MonthIndex(n))
  {
    hide MonthIndex, YearOf, MonthOf, IsBusinessDay, LastBusinessDay, MonthStart;
    var last := LastBusinessDay(MonthIndex(n));
    LastBusinessDayInMonth(MonthIndex(n));
    LastIsBusiness(MonthIndex(n));
    InItsMonth(n);
    IndexDifference(n, last);
  }

  lemma OnlyShortest(start: Day, months: int, k: nat, n: Day)
    requires months >= 1 && MonthIndex(n) == MonthIndex(start) + k * months
    requires ShortestMet(start, months, k, DayOfMonth(n))
    ensures n == Cumulative(start, months, k)
  {
    hide MonthIndex, DayOfMonth, YearOf, LengthOf, Cumulative, ShortestSoFar;
    CumulativeClosedForm(start, months, k);
    ShortestIsLeast(start, months, k);
    SameDate(n, Cumulative(start, months, k));
  }

  lemma WeekdaysApart(a: Day, b: Day)
    ensures (b - a) % 7 == (Weekday(b) - Weekday(a)) % 7
  {
    var x, y := (a - 1) / 7, (b - 1) / 7;
    assert b - a == Weekday(b) - Weekday(a) + 7 * (y - x);
    hide Weekday;
    SevensOff(Weekday(b) - Weekday(a), y - x);
  }

  lemma SevensOff(n: int, k: int)
    ensures (n + 7 * k) % 7 == n % 7
  {
  }

  lemma OnlyWeekly(start: Day, weekday: int, weeks: int, n: Day)
    requires weeks >= 1 && OnWeekday(start, weekday, weeks, n)
    ensures var k := (n - start) / 7 / weeks;
      k >= 0 && n == start + (weekday - Weekday(start)) % 7 + 7 * (weeks * k)
  {
    hide Weekday;
    WholeIntervals((n - start) / 7, weeks);
    WeekdaysApart(start, n);
  }

  lemma FitIsNominal(s: Schedule, start: Day, n: Day)
    requires s.Valid() && Fits(s, start, n)
    ensures Position(s, start, n) >= 0 && Nominal(s, start, Position(s, start, n)) == n
  {
    hide MonthIndex, OnDay, DayOfMonth, YearOf, MonthOf, LastBusinessDay, LastOfItsMonth, ShortestMet,
         Easter, Weekday, Cumulative, OnInterval, OnDayOrLast, MonthsBetween;
    match s
    case MonthlyInterval(months) =>
      OnIntervalIndex(start, months, n);
      OnlyShortest(start, months, Position(s, start, n), n);
    case MonthlyDay(months, day, _) =>
      OnIntervalIndex(start, months, n);
      OnlyClampedDay(n, day);
    case LastBusiness(months) =>
      OnIntervalIndex(start, months, n);
      OnlyLastBusiness(n);
    case Yearly(month, day, _) =>
      YearlyIndex(n, YearOf(n), month);
      OnlyClampedDay(n, day);
    case EasterOffset(days, _) =>
    case Weekly(weekday, weeks) =>
      OnlyWeekly(start, weekday, weeks, n);
  }

  /** The rule runs through exactly the dates that fit it. */
  lemma RunsThroughWhatFits(s: Schedule, start: Day, n: Day)
    requires s.Valid()
    ensures Fits(s, start, n) <==> exists k: nat :: Nominal(s, start, k) == n
  {
    hide Fits, Nominal, Position;
    if Fits(s, start, n) {
      FitIsNominal(s, start, n);
    } else {
      forall k: nat
        ensures Nominal(s, start, k) != n
      {
        NominalFits(s, start, k);
      }
    }
  }

  // ---- Due dates and entries ----

  function AdjustOf(s: Schedule): Adjust {
    match s
    case MonthlyDay(_, _, adjust) => adjust
    case Yearly(_, _, adjust) => adjust
    case EasterOffset(_, adjust) => adjust
    case _ => NoAdjust
  }

  /** A date `n` of the rule falls due on `due`: on itself, on the last business day up to it or on
      the first one from it on. */
  ghost predicate FallsDue(s: Schedule, n: Day, due: Day) {
    match AdjustOf(s)
    case NoAdjust => due == n
    case ToPrevious => due <= n && IsBusinessDay(due) && forall x :: due < x <= n ==> !IsBusinessDay(x)
    case ToNext => n <= due && IsBusinessDay(due) && forall x :: n <= x < due ==> !IsBusinessDay(x)
  }

  lemma DueIsTheMove(s: Schedule, start: Day, k: nat, due: Day)
    ensures FallsDue(s, Nominal(s, start, k), due) <==> due == Due(s, start, k)
  {
    hide Nominal, IsBusinessDay;
  }

  /** `e` is a date of the rule with its key: the key is taken before the adjustment. */
  ghost predicate IsEntryOf(s: Schedule, start: Day, e: Entry)
    requires s.Valid()
  {
    exists n :: Fits(s, start, n) && FallsDue(s, n, e.due) && e.period == PeriodKey(s, n)
  }

  lemma EntryOfIsCandidate(s: Schedule, start: Day, e: Entry)
    requires s.Valid()
    ensures IsEntryOf(s, start, e) <==> exists k: nat :: Candidates(s, start)(k) == e
  {
    hide Fits, FallsDue, PeriodKey, Nominal, Due, Position;
    if IsEntryOf(s, start, e) {
      var n :| Fits(s, start, n) && FallsDue(s, n, e.due) && e.period == PeriodKey(s, n);
      var k := Position(s, start, n);
      FitIsNominal(s, start, n);
      DueIsTheMove(s, start, k, e.due);
      assert Candidates(s, start)(k) == e;
    } else {
      forall k: nat
        ensures Candidates(s, start)(k) != e
      {
        NominalFits(s, start, k);
        DueIsTheMove(s, start, k, Due(s, start, k));
      }
    }
  }

  /** A window of the rule's entries holds those due from `first` to `last`, in order; one is missing
      only when `total` earlier ones are there. */
  lemma WindowMeans(s: Schedule, start: Day, first: Day, last: Day, total: nat, out: seq<Entry>)
    requires s.Valid() && IsWindow(Candidates(s, start), first, last, total, out)
    ensures forall i, j :: 0 <= i < j < |out| ==> out[i].due < out[j].due
    ensures total > 0 ==> |out| <= total
    ensures forall e :: e in out ==> IsEntryOf(s, start, e) && first <= e.due <= last
    ensures forall e :: IsEntryOf(s, start, e) && first <= e.due <= last && e !in out ==>
      total > 0 && |out| == total && forall x :: x in out ==> x.due < e.due
  {
    hide IsEntryOf, Candidates, EntryWindow.Ascending;
    var c := Candidates(s, start);
    CandidatesAscend(s, start);
    WindowIsExact(c, first, last, total, out);
    forall e
      ensures IsEntryOf(s, start, e) <==> exists k: nat :: c(k) == e
    {
      EntryOfIsCandidate(s, start, e);
    }
    forall e | IsEntryOf(s, start, e) && first <= e.due <= last && e !in out
      ensures total > 0 && |out| == total && forall x :: x in out ==> x.due < e.due
    {
      var k: nat :| c(k) == e;
    }
  }

  predicate InRange(due: Day, start: Day, end: Option<Day>, until: Day) {
    start <= due <= until && (end.Some? ==> due <= end.value)
  }

  /** What `IterEntries` lists: the entries of the dates that fit the rule and fall due from the
      start to the end and the horizon, in order and each once. One is missing only when a total
      other than 0 was asked for and that many earlier ones are there, or the total is negative. */
  lemma EntriesAreWhatFits(s: Schedule, start: Day, end: Option<Day>, total: Option<int>, until: Day, out: seq<Entry>)
    requires s.Valid() && IsEntries(s, start, end, total, until, out)
    ensures forall i, j :: 0 <= i < j < |out| ==> out[i].due < out[j].due
    ensures forall e :: e in out ==> IsEntryOf(s, start, e) && InRange(e.due, start, end, until)
    ensures total.Some? && total.value > 0 ==> |out| <= total.value
    ensures total.Some? && total.value < 0 ==> out == []
    ensures forall e :: IsEntryOf(s, start, e) && InRange(e.due, start, end, until) && e !in out ==>
      total.Some? && (total.value < 0 || (0 < total.value == |out| && forall x :: x in out ==> x.due < e.due))
  {
    hide IsEntryOf, IsWindow, Candidates;
    if OrZero(total) >= 0 {
      WindowMeans(s, start, start, LastDay(end, until), OrZero(total), out);
    }
  }

  // ---- Weekly rules, date by date ----

  /** A weekly rule starts within the week from its start on and then keeps to its weekday. */
  lemma WeeklyDates(s: Schedule, start: Day, k: nat)
    requires s.Valid() && s.Weekly?
    ensures start <= Due(s, start, 0) <= start + 6
    ensures Weekday(Due(s, start, k)) == s.weekday
    ensures Due(s, start, k + 1) == Due(s, start, k) + 7 * s.weeks
  {
    hide Weekday;
    WeeklyFits(start, s.weekday, s.weeks, k);
    MonthsOn(0, s.weeks, k);
  }

  // ---- The text of a key ----

  /** `text` writes the number `n` in decimal digits. */
  predicate Writes(text: string, n: int) {
    text != [] && (forall c :: c in text ==> IsDigit(c)) && Value(text) == n
  }

  /** `text` is the number `a`, the mark and the number `b` in two digits. */
  predicate IsLabel(text: string, a: int, mark: string, b: int) {
    var cut := |text| - |mark| - 2;
    cut >= 0 && Writes(text[..cut], a) && text[cut..|text| - 2] == mark && Writes(text[|text| - 2..], b)
  }

  lemma LabelReads(a: nat, mark: string, b: int)
    requires 0 <= b <= 99
    ensures IsLabel(IntText(a) + mark + TwoDigits(b), a, mark, b)
  {
    var text := IntText(a) + mark + TwoDigits(b);
    var cut := |text| - |mark| - 2;
    assert text[..cut] == IntText(a) && text[cut..|text| - 2] == mark && text[|text| - 2..] == TwoDigits(b);
    DecimalValue(a);
    TwoDigitsValue(b);
  }

  lemma TwoDigitsValue(b: int)
    requires 0 <= b <= 99
    ensures Writes(TwoDigits(b), b)
  {
    var t := TwoDigits(b);
    assert t[..1] == [Digit(b / 10)] && t[..1][..0] == [];
    assert Value(t[..1]) == b / 10;
  }

  lemma YearFromOne(n: Day)
    requires n >= 1
    ensures YearOf(n) >= 1
  {
    YearUnique(1, 1);
    YearMonotone(1, n);
    hide YearOf;
  }

  /** The key of a yearly or Easter date is its year, of a weekly date the year of the week's
      Thursday and the number of that Thursday in it, and of any other date its year and month. */
  lemma KeySpells(s: Schedule, n: Day)
    requires n >= 1
    ensures s.Yearly? || s.EasterOffset? ==> Writes(PeriodKey(s, n), YearOf(n))
    ensures var thursday := n - Weekday(n) + 3;
      s.Weekly? ==> IsLabel(PeriodKey(s, n), YearOf(thursday), "-W", (DayOfYear(thursday) - 1) / 7 + 1)
    ensures s.MonthlyInterval? || s.MonthlyDay? || s.LastBusiness? ==>
      IsLabel(PeriodKey(s, n), YearOf(n), "-", MonthOf(n))
  {
    hide YearOf, MonthOf, IsLabel, IsoWeek.YearAndWeek, DayOfYear;
    YearFromOne(n);
    if s.Weekly? {
      var thursday := n - Weekday(n) + 3;
      assert thursday == IsoWeek.ThursdayOf(n);
      YearFromOne(thursday);
      IsoWeek.IsThursdayRule(n);
      LabelReads(IsoWeek.YearAndWeek(n).0, "-W", IsoWeek.YearAndWeek(n).1);
    } else if s.Yearly? || s.EasterOffset? {
      DecimalValue(YearOf(n));
    } else {
      LabelReads(YearOf(n), "-", MonthOf(n));
    }
  }
}
