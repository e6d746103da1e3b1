/** The preview of a rule's next dates, and how far its horizon has to reach. */
module Preview {
  import opened Options
  import opened CivilCalendar
  import opened MonthArithmetic
  import opened OrthodoxEaster
  import opened BusinessDays
  import opened ScheduleRules
  import opened EntryWindow
  import opened ScheduleEntries
  import opened ScheduleMeaning
  import PeriodKeys

  /** Far enough for `count` dates 120 months apart. */
  function PreviewUntil(first: Day, count: nat): Day {
    AddMonths(first, MAX_INTERVAL_MONTHS * count)
  }

  datatype PreviewResult = Dates(dates: seq<Day>) | RuleRejected(error: RuleError) | EndBeforeStart

  /** `dates` are the first `count` due dates from `first` on, up to the end and the horizon. */
  ghost predicate IsPreview(s: Schedule, start: Day, first: Day, end: Option<Day>, count: nat, dates: seq<Day>) {
    exists e :: ShowsDates(e, dates) &&
                IsWindow(Candidates(s, start), first, LastDay(end, PreviewUntil(first, count)), count, e)
  }

  /** The rule a request body stands for: without a number of weeks it is every week. */
  function FromBody(body: Rule): Rule {
    body.(intervalWeeks := if OrZero(body.intervalWeeks) == 0 then Some(1) else body.intervalWeeks)
  }

  /** The next `count` dates of a rule from today or its start, whichever is later. */
  method NextDates(body: Rule, start: Day, today: Day, end: Option<Day>, count: nat) returns (r: PreviewResult)
    requires count >= 1
    ensures match Validate(FromBody(body))
            case Err(e) => r == RuleRejected(e)
            case Ok(s) =>
              if end.Some? && end.value < start then r == EndBeforeStart
              else r.Dates? && IsPreview(s, start, if start < today then today else start, end, count, r.dates)
  {
    hide Validate, AddMonths, Due, PeriodKeys.KeyAt, EntryWindow.Ascending;
    var rule := FromBody(body);
    var validated := Validate(rule);
    if validated.Err? {
      return RuleRejected(validated.error);
    }
    if end.Some? && end.value < start {
      return EndBeforeStart;
    }
    var first := if start < today then today else start;
    var until := PreviewUntil(first, count);
    var entries := IterEntries(rule, start, end, None, until);
    ghost var c, last := Candidates(validated.value, start), LastDay(end, until);
    CandidatesAscend(validated.value, start);
    var dates := TakeFrom(entries.value, first, count, c, start, last);
    return Dates(dates);
  }

  /** The first `count` due dates from `first` on. */
  method TakeFrom(entries: seq<Entry>, first: Day, count: nat,
                  ghost c: nat -> Entry, ghost start: Day, ghost last: Day)
    returns (dates: seq<Day>)
    requires count >= 1 && start <= first
    requires EntryWindow.Ascending(c) && IsWindow(c, start, last, 0, entries)
    ensures exists e :: ShowsDates(e, dates) && IsWindow(c, first, last, count, e)
  {
    hide EntryWindow.Ascending, Collected;
    dates := [];
    var i := 0;
    ghost var low: nat :| IsBlock(c, start, last, 0, entries, low);
    ghost var e: seq<Entry>, from: nat := [], low;
    SkippedSoFar(c, start, last, first, entries, low);
    while i < |entries| && |dates| < count
      invariant 0 <= i <= |entries| && |dates| <= count
      invariant ShowsDates(e, dates)
      invariant from + |e| == low + i
      invariant Collected(c, first, last, e, from)
    {
      var d := entries[i].due;
      assert entries[i] == c(low + i);
      if e != [] {
        LastCollected(c, first, last, e, from);
        Before(c, from, low + i);
      }
      if d >= first {
        OneCollected(c, first, last, e, from);
        dates := dates + [d];
        e := e + [c(low + i)];
      } else {
        EarlySkipped(c, first, last, from);
        from := from + 1;
      }
      i := i + 1;
    }
    if e == [] {
      var low' := EntryWindow.FirstFrom(c, first, last, from);
      Before(c, from, low');
      AllCollected(c, first, last, count, [], low');
    } else {
      LastCollected(c, first, last, e, from);
      AllCollected(c, first, last, count, e, from);
    }
  }

  /** Entries before `start` are before `first` too. */
  lemma SkippedSoFar(c: nat -> Entry, start: Day, last: Day, first: Day, entries: seq<Entry>, low: nat)
    requires start <= first && IsBlock(c, start, last, 0, entries, low)
    ensures Collected(c, first, last, [], low)
  {
  }

  // ---- When the horizon reaches all `count` dates ----

  /** The rules whose dates are close enough together: all but the ones that place a date
      by business days every 120 months. */
  predicate Dense(s: Schedule) {
    match s
    case MonthlyDay(months, _, adjust) => months < MAX_INTERVAL_MONTHS || adjust == NoAdjust
    case LastBusiness(months) => months < MAX_INTERVAL_MONTHS
    case _ => true
  }

  lemma MonthsGrow(n: Day, k: int, l: int)
    requires k <= l
    ensures AddMonths(n, k) <= AddMonths(n, l)
  {
    hide AddMonths, MonthIndex, DayOfMonth;
    AddMonthsLands(n, k);
    AddMonthsLands(n, l);
    if k < l {
      LaterMonthLater(AddMonths(n, k), AddMonths(n, l));
    }
  }

  /** A date in an earlier month than the horizon's, or in its month but on no later a day,
      is within it. */
  lemma WithinHorizon(n: Day, first: Day, k: int)
    requires MonthIndex(n) < MonthIndex(first) + k ||
             (MonthIndex(n) == MonthIndex(first) + k && DayOfMonth(n) <= DayOfMonth(first))
    ensures n <= AddMonths(first, k)
  {
    hide AddMonths, MonthIndex, DayOfMonth, YearOf, LengthOf, OnDay, MonthStart, ToDay, MonthOf;
    AddMonthsLands(first, k);
    InItsMonth(n);
    if MonthIndex(n) < MonthIndex(first) + k {
      LaterMonthLater(n, AddMonths(first, k));
    } else if AddMonths(first, k) < n {
      EarlierNotLaterMonth(AddMonths(first, k), n);
    }
  }

  lemma {:induction false} ShortestShrinks(start: Day, months: int, k: nat, n: nat)
    ensures ShortestSoFar(start, months, k + n) <= ShortestSoFar(start, months, k)
  {
    hide LengthOf, MonthIndex, DayOfMonth;
    if n > 0 {
      ShortestShrinks(start, months, k, n - 1);
    }
  }

  /** Stepping `n` times loses days on the way that one long step does not. */
  lemma CumulativeBelow(start: Day, months: int, k: nat, n: nat)
    requires 1 <= months <= MAX_INTERVAL_MONTHS
    ensures Cumulative(start, months, k + n) <= AddMonths(Cumulative(start, months, k), MAX_INTERVAL_MONTHS * n)
  {
    hide Cumulative, AddMonths, MonthIndex, DayOfMonth, LengthOf, ShortestSoFar;
    var a, b := Cumulative(start, months, k), Cumulative(start, months, k + n);
    CumulativeClosedForm(start, months, k);
    CumulativeClosedForm(start, months, k + n);
    ShortestShrinks(start, months, k, n);
    assert (k + n) * months == k * months + n * months;
    WithinHorizon(b, a, n * months);
    MonthsGrow(a, n * months, MAX_INTERVAL_MONTHS * n);
  }

  lemma MonthlyIntervalReaches(s: Schedule, start: Day, first: Day, k: nat, n: nat)
    requires s.Valid() && s.MonthlyInterval? && Due(s, start, k) <= first
    ensures Due(s, start, k + n) <= PreviewUntil(first, n)
  {
    hide AddMonths, Cumulative;
    CumulativeBelow(start, s.months, k, n);
    AddMonthsMonotone(Due(s, start, k), first, MAX_INTERVAL_MONTHS * n);
  }

  // The monthly kinds, by the month and day the dates fall on.

  lemma SoonAfter(a: Day, b: Day)
    requires a <= b <= a + 5
    ensures MonthIndex(b) == MonthIndex(a) ||
            (MonthIndex(b) == MonthIndex(a) + 1 && DayOfMonth(b) <= 5 && 24 <= DayOfMonth(a))
  {
    hide MonthIndex, DayOfMonth, LengthOf, MonthStart, YearOf;
    InItsMonth(a);
    InItsMonth(b);
    EarlierNotLaterMonth(a, b);
    MonthFollows(MonthIndex(a));
    if MonthIndex(b) > MonthIndex(a) {
      MonthsApart(MonthIndex(a) + 1, MonthIndex(b));
    }
  }

  lemma MinMonotone(day: int, len: int, len': int)
    ensures Min(day, len') <= day && Min(day, len') <= len'
    ensures Min(day, len) < len ==> Min(day, len) == day
    ensures len >= 28 && Min(day, len') >= 24 ==> Min(day, len) >= 24
  {
  }

  lemma PlainDayReaches(first: Day, m: int, day: int, step: int, reach: int)
    requires 1 <= day <= 31 && step <= reach
    requires OnDay(m, day) < first
    ensures OnDay(m + step, day) <= AddMonths(first, reach)
  {
    hide *;
    MinMonotone(day, LengthOf(m), LengthOf(m + step));
    OnDayInMonth(m, day);
    OnDayInMonth(m + step, day);
    EarlierNotLaterMonth(OnDay(m, day), first);
    InItsMonth(first);
    WithinHorizon(OnDay(m + step, day), first, reach);
  }

  lemma ForwardDayReaches(first: Day, m: int, day: int, step: int, reach: int)
    requires 1 <= day <= 31 && step < reach
    requires AdjustDate(OnDay(m, day), ToNext) < first
    ensures AdjustDate(OnDay(m + step, day), ToNext) <= AddMonths(first, reach)
  {
    hide *;
    var a, b := OnDay(m, day), OnDay(m + step, day);
    AdjustLaws(a, a, ToNext);
    AdjustLaws(b, b, ToNext);
    var d := AdjustDate(b, ToNext);
    MinMonotone(day, LengthOf(m), LengthOf(m + step));
    OnDayInMonth(m, day);
    OnDayInMonth(m + step, day);
    EarlierNotLaterMonth(a, first);
    InItsMonth(first);
    SoonAfter(b, d);
    WithinHorizon(d, first, reach);
  }

  lemma BackwardDayReaches(first: Day, m: int, day: int, step: int, reach: int)
    requires 1 <= day <= 31 && step < reach
    requires AdjustDate(OnDay(m, day), ToPrevious) < first
    ensures AdjustDate(OnDay(m + step, day), ToPrevious) <= AddMonths(first, reach)
  {
    hide *;
    var a, b := OnDay(m, day), OnDay(m + step, day);
    AdjustLaws(a, a, ToPrevious);
    AdjustLaws(b, b, ToPrevious);
    MinMonotone(day, LengthOf(m), LengthOf(m + step));
    MinMonotone(day, LengthOf(m + step), LengthOf(m));
    OnDayInMonth(m, day);
    OnDayInMonth(m + step, day);
    if a <= first {
      EarlierNotLaterMonth(a, first);
    } else {
      SoonAfter(first, a);
    }
    WithinHorizon(b, first, reach);
  }

  lemma LastBusinessDayReaches(first: Day, m: int, step: int, reach: int)
    requires step < reach && LastBusinessDay(m) < first
    ensures LastBusinessDay(m + step) <= AddMonths(first, reach)
  {
    hide *;
    LastBusinessDayInMonth(m);
    LastBusinessDayInMonth(m + step);
    EarlierNotLaterMonth(LastBusinessDay(m), first);
    WithinHorizon(LastBusinessDay(m + step), first, reach);
  }

  // The other kinds, by days.

  lemma HorizonInDays(first: Day, reach: int)
    requires reach >= 0
    ensures first + 28 * reach <= AddMonths(first, reach)
  {
    hide OnDay, MonthIndex, DayOfMonth, YearOf;
    InItsMonth(first);
    OnDayApart(MonthIndex(first), MonthIndex(first) + reach, DayOfMonth(first));
  }

  lemma AdjustStretch(a: Day, b: Day, how: Adjust)
    requires a <= b
    ensures AdjustDate(b, how) <= AdjustDate(a, how) + (b - a) + 10
  {
    hide IsBusinessDay;
  }

  lemma AboutAYear(s: Schedule, start: Day, k: nat)
    requires s.Valid() && (s.Yearly? || s.EasterOffset? || s.Weekly?)
    ensures Due(s, start, k + 1) <= Due(s, start, k) + 440
  {
    hide OnDay, AdjustDate, Easter, YearOf, Weekday;
    Advances(s, start, k);
    var a, b := Nominal(s, start, k), Nominal(s, start, k + 1);
    match s
    case Yearly(month, day, adjust) =>
      var mi := 12 * (YearOf(start) + k) + month - 1;
      OnDayApart(mi, mi + 12, day);
      AdjustStretch(a, b, adjust);
    case EasterOffset(days, adjust) =>
      EastersApart(YearOf(start) + k);
      AdjustStretch(a, b, adjust);
    case Weekly(weekday, weeks) =>
      assert weeks * (k + 1) == weeks * k + weeks;
  }

  lemma {:induction false} AboutYears(s: Schedule, start: Day, k: nat, n: nat)
    requires s.Valid() && (s.Yearly? || s.EasterOffset? || s.Weekly?)
    ensures Due(s, start, k + n) <= Due(s, start, k) + 440 * n
  {
    hide Due;
    if n > 0 {
      AboutYears(s, start, k, n - 1);
      AboutAYear(s, start, k + n - 1);
    }
  }

  lemma FirstWithinAYear(s: Schedule, start: Day)
    requires s.Valid() && (s.Yearly? || s.EasterOffset? || s.Weekly?)
    ensures Due(s, start, 0) <= start + 400
  {
    hide OnDay, AdjustDate, Easter, YearOf, Weekday, DaysBeforeYear, MonthIndex;
    var y, a := YearOf(start), Nominal(s, start, 0);
    YearStep(y);
    match s
    case Yearly(month, day, adjust) =>
      AdjustLaws(a, a, adjust);
      OnDayInMonth(12 * y + month - 1, day);
      InItsMonth(a);
      YearOfMonth(a, y, month);
    case EasterOffset(days, adjust) =>
      AdjustLaws(a, a, adjust);
      EasterInSpring(y);
    case Weekly(weekday, weeks) =>
  }

  lemma YearOfMonth(n: Day, y: int, month: int)
    requires 1 <= month <= 12 && MonthIndex(n) == 12 * y + month - 1
    ensures n <= DaysBeforeYear(y + 1)
  {
    hide YearOf, DaysBeforeYear, MonthOf;
  }

  // ---- All rules together ----

  /** `n` dates after one before `first`, a dense rule is still within the horizon. */
  lemma NextDatesReached(s: Schedule, start: Day, first: Day, k: nat, n: nat)
    requires s.Valid() && Dense(s) && n >= 1 && Due(s, start, k) < first
    ensures Due(s, start, k + n) <= PreviewUntil(first, n)
  {
    hide OnDay, AdjustDate, Easter, YearOf, Weekday, MonthIndex, LastBusinessDay, AddMonths, Cumulative;
    match s
    case MonthlyInterval(_) =>
      MonthlyIntervalReaches(s, start, first, k, n);
    case MonthlyDay(months, day, adjust) =>
      var m := MonthIndex(start) + k * months;
      assert MonthIndex(start) + (k + n) * months == m + n * months;
      StepWithin(months, n);
      match adjust {
        case NoAdjust =>
          AdjustLaws(OnDay(m, day), OnDay(m, day), NoAdjust);
          AdjustLaws(OnDay(m + n * months, day), OnDay(m + n * months, day), NoAdjust);
          PlainDayReaches(first, m, day, n * months, MAX_INTERVAL_MONTHS * n);
        case ToNext => ForwardDayReaches(first, m, day, n * months, MAX_INTERVAL_MONTHS * n);
        case ToPrevious => BackwardDayReaches(first, m, day, n * months, MAX_INTERVAL_MONTHS * n);
      }
    case LastBusiness(months) =>
      var m := MonthIndex(start) + k * months;
      assert MonthIndex(start) + (k + n) * months == m + n * months;
      StepWithin(months, n);
      LastBusinessDayReaches(first, m, n * months, MAX_INTERVAL_MONTHS * n);
    case _ =>
      AboutYears(s, start, k, n);
      HorizonInDays(first, MAX_INTERVAL_MONTHS * n);
  }

  lemma StepWithin(months: int, n: nat)
    requires 1 <= months <= MAX_INTERVAL_MONTHS && n >= 1
    ensures n * months <= MAX_INTERVAL_MONTHS * n
    ensures months < MAX_INTERVAL_MONTHS ==> n * months < MAX_INTERVAL_MONTHS * n
  {
  }

  lemma AdjustedMonth(a: Day, how: Adjust)
    ensures MonthIndex(AdjustDate(a, how)) <= MonthIndex(a) + 1
  {
    hide *;
    AdjustLaws(a, a, how);
    var d := AdjustDate(a, how);
    if how == ToNext {
      SoonAfter(a, d);
    } else {
      EarlierNotLaterMonth(d, a);
    }
  }

  lemma FirstMonthsReached(s: Schedule, start: Day, first: Day, n: nat)
    requires s.Valid() && n >= 1 && start <= first && (s.MonthlyDay? || s.LastBusiness?)
    ensures Due(s, start, n - 1) <= PreviewUntil(first, n)
  {
    hide OnDay, AdjustDate, YearOf, MonthIndex, LastBusinessDay, AddMonths, Cumulative, DayOfMonth, Nominal;
    var a, d, months := Nominal(s, start, n - 1), Due(s, start, n - 1), s.months;
    PeriodKeys.MonthOfNominal(s, start, n - 1);
    EarlierNotLaterMonth(start, first);
    assert (n - 1) * months <= (n - 1) * MAX_INTERVAL_MONTHS;
    if s.MonthlyDay? {
      AdjustedMonth(a, s.adjust);
    }
    WithinHorizon(d, first, MAX_INTERVAL_MONTHS * n);
  }

  lemma StartsAtStart(s: Schedule, start: Day)
    requires s.MonthlyInterval?
    ensures Due(s, start, 0) == start
  {
  }

  /** So are the first dates of the rule when none is before `first`. */
  lemma FirstDatesReached(s: Schedule, start: Day, first: Day, n: nat)
    requires s.Valid() && n >= 1 && start <= first
    ensures Due(s, start, n - 1) <= PreviewUntil(first, n)
  {
    hide AddMonths, Nominal;
    if s.MonthlyInterval? {
      StartsAtStart(s, start);
      MonthlyIntervalReaches(s, start, first, 0, n - 1);
      MonthsGrow(first, MAX_INTERVAL_MONTHS * (n - 1), MAX_INTERVAL_MONTHS * n);
    } else if s.MonthlyDay? || s.LastBusiness? {
      FirstMonthsReached(s, start, first, n);
    } else {
      FirstWithinAYear(s, start);
      AboutYears(s, start, 0, n - 1);
      HorizonInDays(first, MAX_INTERVAL_MONTHS * n);
    }
  }

  /** With no end date, the preview of a dense rule has exactly `count` dates. */
  lemma DensePreviewIsFull(s: Schedule, start: Day, first: Day, count: nat, dates: seq<Day>)
    requires s.Valid() && Dense(s) && count >= 1 && start <= first
    requires IsPreview(s, start, first, None, count, dates)
    ensures |dates| == count
  {
    hide Due, PeriodKeys.KeyAt, AddMonths, Dense, PreviewUntil, EntryWindow.Ascending;
    var c, until := Candidates(s, start), PreviewUntil(first, count);
    var e :| ShowsDates(e, dates) && IsWindow(c, first, LastDay(None, until), count, e);
    var low: nat :| IsBlock(c, first, until, count, e, low);
    if low == 0 {
      FirstDatesReached(s, start, first, count);
    } else {
      assert c(low - 1).due < first;
      NextDatesReached(s, start, first, low - 1, count);
    }
    if |e| < count {
      CandidatesAscend(s, start);
      Before(c, low + |e|, low + count - 1);
    }
  }

  // ---- The other rules can fall short ----

  /** From 29 June to 14 August a day is free only at the weekend. */
  lemma MidSummer(n: Day, y: int)
    requires 1900 <= y <= 2199 && July(y) - 2 <= n <= July(y) + 44
    ensures IsBusinessDay(n) <==> Weekday(n) < 5
  {
    hide Easter, YearOf, DaysBeforeYear, IsLeap, Weekday;
    EasterInSpring(y);
    YearStep(y);
    YearUnique(n, y);
    NoSummerHoliday(n, y);
    hide GreekHolidays, July, ToDay;
  }

  lemma NoSummerHoliday(n: Day, y: int)
    requires 1900 <= y <= 2199 && July(y) - 2 <= n <= July(y) + 44
    ensures n !in GreekHolidays(y)
  {
    hide Easter, DaysBeforeYear, IsLeap;
    EasterInSpring(y);
  }

  function July(y: int): Day {
    ToDay(y, 7, 1)
  }

  /** A year from 2028 to 2041 whose first of July falls on weekday `w`, two leap days
      before its tenth anniversary. */
  function JulyYear(w: int): int {
    if w == 0 then 2041 else if w == 1 then 2036 else if w == 2 then 2037 else if w == 3 then 2032
    else if w == 4 then 2033 else if w == 5 then 2028 else 2029
  }

  lemma JulyFirst(w: int)
    requires 0 <= w <= 6
    ensures Weekday(July(JulyYear(w))) == w
    ensures July(JulyYear(w) + 10) == July(JulyYear(w)) + 3652
    ensures 2028 <= JulyYear(w) <= 2041 && DaysBeforeYear(2028) + 100 < July(JulyYear(w))
  {
    hide DaysBeforeYear, ToDay;
    FirstDays();
    JulyIs(JulyYear(w));
    JulyIs(JulyYear(w) + 10);
    hide July;
  }

  lemma JulyIs(y: int)
    ensures July(y) == DaysBeforeYear(y) + (if IsLeap(y) then 183 else 182)
  {
    hide DaysBeforeYear;
  }

  /** How many days there are before some first of January. */
  lemma FirstDays()
    ensures DaysBeforeYear(2028) == 740346 && DaysBeforeYear(2029) == 740712 && DaysBeforeYear(2032) == 741807
    ensures DaysBeforeYear(2033) == 742173 && DaysBeforeYear(2036) == 743268 && DaysBeforeYear(2037) == 743634
    ensures DaysBeforeYear(2038) == 743999 && DaysBeforeYear(2039) == 744364 && DaysBeforeYear(2041) == 745095
    ensures DaysBeforeYear(2042) == 745460 && DaysBeforeYear(2043) == 745825 && DaysBeforeYear(2046) == 746921
    ensures DaysBeforeYear(2047) == 747286 && DaysBeforeYear(2051) == 748747
  {
  }

  lemma JulyDay(y: int, day: int)
    requires 1 <= day <= 31
    ensures OnDay(12 * y + 6, day) == July(y) + day - 1
    ensures MonthIndex(July(y)) == 12 * y + 6 && MonthStart(12 * y + 6) == July(y)
  {
    hide MonthIndex, DaysBeforeYear, DayOfMonth;
    MonthFollows(12 * y + 6);
    MonthIndexUnique(July(y), 12 * y + 6);
  }

  lemma SummerLengths(y: int)
    ensures LengthOf(12 * y + 5) == 30 && LengthOf(12 * y + 6) == 31 && LengthOf(12 * y + 7) == 31
  {
  }

  lemma AddMonthsUnclamped(n: Day, k: int)
    requires DayOfMonth(n) <= LengthOf(MonthIndex(n) + k)
    ensures AddMonths(n, k) == MonthStart(MonthIndex(n) + k) + DayOfMonth(n) - 1
  {
    hide MonthIndex, DayOfMonth, MonthStart, LengthOf;
  }

  /** Ten years after a day around July, as the horizon counts them. */
  lemma TenYearsOn(w: int, day: int)
    requires 0 <= w <= 6 && 0 <= day <= 32
    ensures var n := July(JulyYear(w)) + day - 1; AddMonths(n, 120) == n + 3652
  {
    hide *;
    var y := JulyYear(w);
    var mi, n := 12 * y + 6, July(y) + day - 1;
    JulyFirst(w);
    JulyDay(y, 1);
    JulyDay(y + 10, 1);
    SummerLengths(y);
    SummerLengths(y + 10);
    MonthFollows(mi - 1);
    MonthFollows(mi);
    MonthFollows(mi + 1);
    MonthFollows(mi + 119);
    MonthFollows(mi + 120);
    MonthIndexUnique(n, if day == 0 then mi - 1 else if day == 32 then mi + 1 else mi);
    AddMonthsUnclamped(n, 120);
  }

  /** A rule that is not dense, a start and a day from 2028 on to look ahead from, such that the
      one date asked for is missing. */
  lemma SparsePreviewFallsShort(s: Schedule) returns (start: Day, first: Day)
    requires s.Valid() && !Dense(s)
    ensures start <= first && DaysBeforeYear(2028) < first && IsPreview(s, start, first, None, 1, [])
  {
    hide AddMonths, OnDay, Due;
    var day, how := SparseDay(s);
    if how == ToNext {
      start, first := ForwardShort(s, day);
    } else {
      start, first := BackwardShort(s, day);
    }
  }

  /** What a rule that is not dense runs through: one day of the month, every 120 months,
      moved to a business day. */
  ghost predicate EveryTenYears(s: Schedule, day: int, how: Adjust) {
    && 1 <= day <= 31
    && forall start: Day, k: nat :: Due(s, start, k) == AdjustDate(OnDay(MonthIndex(start) + 120 * k, day), how)
  }

  lemma SparseDay(s: Schedule) returns (day: int, how: Adjust)
    requires s.Valid() && !Dense(s)
    ensures how != NoAdjust && EveryTenYears(s, day, how)
  {
    hide OnDay, AdjustDate, MonthIndex, Due, Nominal;
    day, how := if s.MonthlyDay? then s.day else 31, if s.MonthlyDay? then s.adjust else ToPrevious;
    forall start: Day, k: nat
      ensures Due(s, start, k) == AdjustDate(OnDay(MonthIndex(start) + 120 * k, day), how)
    {
      if s.MonthlyDay? {
        SparseMonthlyDay(s, start, k);
      } else {
        SparseLastBusiness(s, start, k);
      }
    }
  }

  lemma SparseMonthlyDay(s: Schedule, start: Day, k: nat)
    requires s.MonthlyDay? && s.months == 120
    ensures Due(s, start, k) == AdjustDate(OnDay(MonthIndex(start) + 120 * k, s.day), s.adjust)
  {
    hide OnDay, AdjustDate, MonthIndex;
  }

  lemma SparseLastBusiness(s: Schedule, start: Day, k: nat)
    requires s.LastBusiness? && s.months == 120
    ensures Due(s, start, k) == AdjustDate(OnDay(MonthIndex(start) + 120 * k, 31), ToPrevious)
  {
    hide OnDay, AdjustDate, MonthIndex, LastBusinessDay;
    LastDayOfMonth(MonthIndex(start) + 120 * k);
  }

  lemma LastDayOfMonth(mi: int)
    ensures LastBusinessDay(mi) == AdjustDate(OnDay(mi, 31), ToPrevious)
  {
    hide PreviousBusinessDay, MonthStart, LengthOf;
    MonthFollows(mi);
  }

  /** When the first date after all those before `first` is past the horizon, nothing is shown. */
  lemma NothingShown(s: Schedule, start: Day, first: Day, low: nat)
    requires s.Valid() && Due(s, start, low) > PreviewUntil(first, 1) && first <= PreviewUntil(first, 1)
    requires low == 0 || Due(s, start, low - 1) < first
    ensures IsPreview(s, start, first, None, 1, [])
  {
    hide Due, PeriodKeys.KeyAt, PreviewUntil, EntryWindow.Ascending;
    var c := Candidates(s, start);
    CandidatesAscend(s, start);
    forall k: nat | k < low
      ensures c(k).due < first
    {
      Before(c, k, low - 1);
    }
    assert IsBlock(c, first, PreviewUntil(first, 1), 1, [], low);
    assert ShowsDates([], []);
  }

  lemma WeekdayPlus(n: Day, k: int, w: int)
    requires 0 <= w <= 6 && (Weekday(n) + k - w) % 7 == 0
    ensures Weekday(n + k) == w
  {
  }

  lemma PreviewUntilOne(first: Day)
    ensures PreviewUntil(first, 1) == AddMonths(first, 120)
  {
    hide AddMonths;
  }

  /** The day is a Monday this time and a Saturday ten years later, so it is moved past the
      anniversary of the day after it. */
  lemma ForwardShort(s: Schedule, day: int) returns (start: Day, first: Day)
    requires s.Valid() && 1 <= day <= 31 && EveryTenYears(s, day, ToNext)
    ensures start <= first && DaysBeforeYear(2028) < first && IsPreview(s, start, first, None, 1, [])
  {
    hide *;
    var w := (36 - day) % 7;
    var y := JulyYear(w);
    start := July(y);
    var due, again := start + day - 1, July(y + 10) + day - 1;
    first := due + 1;
    JulyFirst(w);
    WeekdayPlus(start, day - 1, 0);
    WeekdayPlus(start, 3652 + day - 1, 5);
    WeekdayPlus(start, 3652 + day, 6);
    TenYearsOn(w, day + 1);
    PreviewUntilOne(first);
    MidSummer(due, y);
    MidSummer(again, y + 10);
    MidSummer(again + 1, y + 10);
    AdjustLaws(due, due, ToNext);
    AdjustLaws(again, again, ToNext);
    DueEveryTenYears(s, day, ToNext, y, 0);
    DueEveryTenYears(s, day, ToNext, y, 1);
    NothingShown(s, start, first, 1);
  }

  lemma DueEveryTenYears(s: Schedule, day: int, how: Adjust, y: int, k: nat)
    requires EveryTenYears(s, day, how)
    ensures Due(s, July(y), k) == AdjustDate(July(y + 10 * k) + day - 1, how)
  {
    hide MonthIndex, OnDay, AdjustDate, Due, July;
    JulyDay(y, day);
    JulyDay(y + 10 * k, day);
  }

  /** The day is a Sunday this time, moved back to Friday, and a Friday ten years later, so
      it is past the anniversary of the Saturday in between. */
  lemma BackwardShort(s: Schedule, day: int) returns (start: Day, first: Day)
    requires s.Valid() && 1 <= day <= 31 && EveryTenYears(s, day, ToPrevious)
    ensures start <= first && DaysBeforeYear(2028) < first && IsPreview(s, start, first, None, 1, [])
  {
    hide *;
    var w := (42 - day) % 7;
    var y := JulyYear(w);
    start := July(y - 10);
    var july := July(y);
    var due, again := july + day - 1, July(y + 10) + day - 1;
    first := due - 1;
    JulyFirst(w);
    TenYearsApart(y - 10);
    WeekdayPlus(july, day - 1, 6);
    WeekdayPlus(july, day - 2, 5);
    WeekdayPlus(july, 3652 + day - 1, 4);
    TenYearsOn(w, day - 1);
    PreviewUntilOne(first);
    MidSummer(due, y);
    MidSummer(due - 1, y);
    MidSummer(again, y + 10);
    AdjustLaws(due, due, ToPrevious);
    AdjustLaws(again, again, ToPrevious);
    DueEveryTenYears(s, day, ToPrevious, y - 10, 1);
    DueEveryTenYears(s, day, ToPrevious, y - 10, 2);
    NothingShown(s, start, first, 2);
  }

  lemma TenYearsApart(y: int)
    ensures July(y) + 3000 <= July(y + 10)
  {
    hide DaysBeforeYear;
    YearsApart(y, y + 10);
  }

  /** Whatever the start, the day and the number of dates asked for, the preview shows that
      many exactly when the rule is dense. */
  lemma PreviewIsFullIff(s: Schedule)
    requires s.Valid()
    ensures Dense(s) <==>
      forall start: Day, first: Day, count: nat, dates: seq<Day> ::
        count >= 1 && start <= first && IsPreview(s, start, first, None, count, dates) ==> |dates| == count
  {
    hide IsPreview, Dense;
    if Dense(s) {
      forall start: Day, first: Day, count: nat, dates: seq<Day>
        | count >= 1 && start <= first && IsPreview(s, start, first, None, count, dates)
        ensures |dates| == count
      {
        DensePreviewIsFull(s, start, first, count, dates);
      }
    } else {
      var start, first := SparsePreviewFallsShort(s);
      var none: seq<Day> := [];
      assert IsPreview(s, start, first, None, 1, none);
    }
  }

  // ---- What the preview shows ----

  ghost predicate IsDueDate(s: Schedule, start: Day, due: Day)
    requires s.Valid()
  {
    exists n :: Fits(s, start, n) && FallsDue(s, n, due)
  }

  /** The preview shows the due dates of the dates that fit the rule, from `first` to the end and ten
      years on for each date asked for, in order; one is missing only when `count` earlier ones are
      shown. */
  lemma PreviewIsWhatFits(s: Schedule, start: Day, first: Day, end: Option<Day>, count: nat, dates: seq<Day>)
    requires s.Valid() && count >= 1 && IsPreview(s, start, first, end, count, dates)
    ensures forall i, j :: 0 <= i < j < |dates| ==> dates[i] < dates[j]
    ensures |dates| <= count
    ensures forall d :: d in dates ==> IsDueDate(s, start, d) && InRange(d, first, end, AddMonths(first, 120 * count))
    ensures forall d :: IsDueDate(s, start, d) && InRange(d, first, end, AddMonths(first, 120 * count)) && d !in dates ==>
      |dates| == count && forall x :: x in dates ==> x < d
  {
    hide Fits, FallsDue, Candidates, IsWindow, AddMonths, PeriodKeys.PeriodKey;
    var last := LastDay(end, PreviewUntil(first, count));
    var out :| ShowsDates(out, dates) && IsWindow(Candidates(s, start), first, last, count, out);
    WindowMeans(s, start, first, last, count, out);
    forall i | 0 <= i < |dates|
      ensures IsDueDate(s, start, dates[i]) && first <= dates[i] <= last
    {
      assert out[i] in out && IsEntryOf(s, start, out[i]);
    }
    forall d | IsDueDate(s, start, d) && first <= d <= last && d !in dates
      ensures |dates| == count && forall x :: x in dates ==> x < d
    {
      var n :| Fits(s, start, n) && FallsDue(s, n, d);
      var e := Entry(d, PeriodKeys.PeriodKey(s, n));
      assert IsEntryOf(s, start, e);
      assert e !in out;
    }
  }

  /** A request names a schedule exactly when its fields say it, with every week meant by a missing
      number of weeks or 0. */
  lemma BodyNames(body: Rule, s: Schedule)
    ensures Validate(FromBody(body)) == Ok(s) <==>
      || Describes(body, s)
      || (s.Weekly? && s.weeks == 1 && (body.intervalWeeks == None || body.intervalWeeks == Some(0))
          && Describes(body.(intervalWeeks := Some(1)), s))
  {
    hide Validate;
    AcceptedExactly(FromBody(body), s);
  }
}
