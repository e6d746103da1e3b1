/** The rules of a recurring item and the dates each one runs through. */
module ScheduleRules {
  import opened Options
  import opened CivilCalendar
  import opened MonthArithmetic
  import opened OrthodoxEaster
  import opened BusinessDays

  const MAX_INTERVAL_MONTHS := 120
  const MAX_INTERVAL_WEEKS := 52
  const MAX_EASTER_OFFSET := 120

  datatype Result<T> = Ok(value: T) | Err(error: RuleError)

  datatype RuleError =
    | UnknownSchedule | UnknownAdjustment | BadIntervalMonths | BadDay
    | BadMonth | BadEasterOffset | BadWeekday | BadIntervalWeeks

  /** A rule as it is stored or sent in: free text and optional numbers. */
  datatype Rule = Rule(kind: string, intervalMonths: Option<int>, day: Option<int>, month: Option<int>,
                       adjust: string, days: Option<int>, weekday: Option<int>, intervalWeeks: Option<int>)

  /** A rule `Validate` accepts: what each kind uses of it. */
  datatype Schedule =
    | MonthlyInterval(months: int)
    | MonthlyDay(months: int, day: int, adjust: Adjust)
    | LastBusiness(months: int)
    | Yearly(month: int, day: int, adjust: Adjust)
    | EasterOffset(days: int, adjust: Adjust)
    | Weekly(weekday: int, weeks: int)
  {
    predicate Valid() {
      match this
      case MonthlyInterval(months) => 1 <= months <= MAX_INTERVAL_MONTHS
      case MonthlyDay(months, day, _) => 1 <= months <= MAX_INTERVAL_MONTHS && 1 <= day <= 31
      case LastBusiness(months) => 1 <= months <= MAX_INTERVAL_MONTHS
      case Yearly(month, day, _) => 1 <= month <= 12 && 1 <= day <= 31
      case EasterOffset(days, _) => -MAX_EASTER_OFFSET <= days <= MAX_EASTER_OFFSET
      case Weekly(weekday, weeks) => 0 <= weekday <= 6 && 1 <= weeks <= MAX_INTERVAL_WEEKS
    }
  }

  /** A missing number counts as 0. */
  function OrZero(x: Option<int>): int {
    if x.Some? then x.value else 0
  }

  function ParseAdjust(how: string): Option<Adjust> {
    if how == "none" then Some(NoAdjust)
    else if how == "previous_business_day" then Some(ToPrevious)
    else if how == "next_business_day" then Some(ToNext)
    else None
  }

  predicate KnownKind(kind: string) {
    || kind == "monthly_interval" || kind == "monthly_day" || kind == "last_business_day"
    || kind == "yearly" || kind == "easter_offset" || kind == "weekly"
  }

  function Validate(rule: Rule): (r: Result<Schedule>)
    ensures r.Ok? ==> r.value.Valid()
  {
    var kind, adjust := rule.kind, ParseAdjust(rule.adjust);
    if !KnownKind(kind) then Err(UnknownSchedule)
    else if adjust.None? then Err(UnknownAdjustment)
    else if !(1 <= OrZero(rule.intervalMonths) <= MAX_INTERVAL_MONTHS) then Err(BadIntervalMonths)
    else if (kind == "monthly_day" || kind == "yearly") && !(1 <= OrZero(rule.day) <= 31) then Err(BadDay)
    else if kind == "yearly" && !(1 <= OrZero(rule.month) <= 12) then Err(BadMonth)
    else if kind == "easter_offset" &&
            (rule.days.None? || !(-MAX_EASTER_OFFSET <= rule.days.value <= MAX_EASTER_OFFSET)) then Err(BadEasterOffset)
    else if kind == "weekly" && (rule.weekday.None? || !(0 <= rule.weekday.value <= 6)) then Err(BadWeekday)
    else if kind == "weekly" && !(1 <= OrZero(rule.intervalWeeks) <= MAX_INTERVAL_WEEKS) then Err(BadIntervalWeeks)
    else if kind == "monthly_interval" then Ok(MonthlyInterval(OrZero(rule.intervalMonths)))
    else if kind == "monthly_day" then Ok(MonthlyDay(OrZero(rule.intervalMonths), OrZero(rule.day), adjust.value))
    else if kind == "last_business_day" then Ok(LastBusiness(OrZero(rule.intervalMonths)))
    else if kind == "yearly" then Ok(Yearly(OrZero(rule.month), OrZero(rule.day), adjust.value))
    else if kind == "easter_offset" then Ok(EasterOffset(rule.days.value, adjust.value))
    else Ok(Weekly(rule.weekday.value, OrZero(rule.intervalWeeks)))
  }

  function KindOf(s: Schedule): string {
    match s
    case MonthlyInterval(_) => "monthly_interval"
    case MonthlyDay(_, _, _) => "monthly_day"
    case LastBusiness(_) => "last_business_day"
    case Yearly(_, _, _) => "yearly"
    case EasterOffset(_, _) => "easter_offset"
    case Weekly(_, _) => "weekly"
  }

  /** The word `text` names the adjustment. */
  predicate Names(text: string, adjust: Adjust) {
    match adjust
    case NoAdjust => text == "none"
    case ToPrevious => text == "previous_business_day"
    case ToNext => text == "next_business_day"
  }

  /** The fields of `rule` that its kind uses say `s`. The months and the adjustment must make
      sense for every kind, used or not. */
  predicate Describes(rule: Rule, s: Schedule) {
    && (Names(rule.adjust, NoAdjust) || Names(rule.adjust, ToPrevious) || Names(rule.adjust, ToNext))
    && rule.intervalMonths.Some? && 1 <= rule.intervalMonths.value <= 120
    && match s
       case MonthlyInterval(months) => rule.kind == "monthly_interval" && rule.intervalMonths == Some(months)
       case MonthlyDay(months, day, adjust) =>
         && rule.kind == "monthly_day" && rule.intervalMonths == Some(months)
         && rule.day == Some(day) && 1 <= day <= 31 && Names(rule.adjust, adjust)
       case LastBusiness(months) => rule.kind == "last_business_day" && rule.intervalMonths == Some(months)
       case Yearly(month, day, adjust) =>
         && rule.kind == "yearly" && rule.month == Some(month) && 1 <= month <= 12
         && rule.day == Some(day) && 1 <= day <= 31 && Names(rule.adjust, adjust)
       case EasterOffset(days, adjust) =>
         rule.kind == "easter_offset" && rule.days == Some(days) && -120 <= days <= 120 && Names(rule.adjust, adjust)
       case Weekly(weekday, weeks) =>
         && rule.kind == "weekly" && rule.weekday == Some(weekday) && 0 <= weekday <= 6
         && rule.intervalWeeks == Some(weeks) && 1 <= weeks <= 52
  }

  /** A rule is accepted as `s` exactly when it describes `s`, in range. */
  lemma AcceptedExactly(rule: Rule, s: Schedule)
    ensures Validate(rule) == Ok(s) <==> Describes(rule, s)
  {
    assert "yearly"[0] != "weekly"[0];
  }

  // ---- The dates of a schedule, by position ----

  /** The cumulative generator of monthly_interval: each date from the one before, so a
      day lost to a short month stays lost. */
  ghost function Cumulative(start: Day, months: int, k: nat): Day {
    if k == 0 then start else AddMonths(Cumulative(start, months, k - 1), months)
  }

  /** The k-th date of `s` from start's month (or year, or week) on, before adjustment. */
  ghost function Nominal(s: Schedule, start: Day, k: nat): Day {
    match s
    case MonthlyInterval(months) => Cumulative(start, months, k)
    case MonthlyDay(months, day, _) => OnDay(MonthIndex(start) + k * months, day)
    case LastBusiness(months) => LastBusinessDay(MonthIndex(start) + k * months)
    case Yearly(month, day, _) => OnDay(12 * (YearOf(start) + k) + month - 1, day)
    case EasterOffset(days, _) => Easter(YearOf(start) + k) + days
    case Weekly(weekday, weeks) => start + (weekday - Weekday(start)) % 7 + 7 * (weeks * k)
  }

  ghost function Due(s: Schedule, start: Day, k: nat): Day {
    match s
    case MonthlyDay(_, _, adjust) => AdjustDate(Nominal(s, start, k), adjust)
    case Yearly(_, _, adjust) => AdjustDate(Nominal(s, start, k), adjust)
    case EasterOffset(_, adjust) => AdjustDate(Nominal(s, start, k), adjust)
    case _ => Nominal(s, start, k)
  }

  // ---- Every schedule moves forward ----

  lemma OnDayApart(a: int, b: int, day: int)
    requires a <= b && day >= 1
    ensures OnDay(a, day) + 28 * (b - a) <= OnDay(b, day) <= OnDay(a, day) + 31 * (b - a) + 3
  {
    hide MonthStart, LengthOf;
    MonthsApart(a, b);
    if a < b {
      MonthsApart(a + 1, b);
      MonthsApart(a + 1, b + 1);
      MonthFollows(a);
      MonthFollows(b);
    }
  }

  lemma LastBusinessDaysApart(a: int, b: int)
    requires a < b
    ensures LastBusinessDay(a) + 23 <= LastBusinessDay(b)
  {
    hide MonthStart, IsBusinessDay;
    MonthsApart(a + 1, b + 1);
  }

  lemma EastersApart(y: int)
    ensures Easter(y) + 305 <= Easter(y + 1) <= Easter(y) + 426
  {
    FromLateMarch(y);
    FromLateMarch(y + 1);
    SundayShiftBound(y);
    SundayShiftBound(y + 1);
    YearStep(y);
    hide Easter, SundayShift, DaysBeforeYear;
  }

  lemma AdjustApart(a: Day, b: Day, how: Adjust)
    requires a + 12 <= b
    ensures AdjustDate(a, how) + 7 <= AdjustDate(b, how)
  {
    hide IsBusinessDay;
  }

  /** Whatever the rule, the next date is at least a week after this one. */
  lemma Advances(s: Schedule, start: Day, k: nat)
    requires s.Valid()
    ensures Due(s, start, k) + 7 <= Due(s, start, k + 1)
  {
    hide OnDay, AdjustDate, LastBusinessDay, Easter, MonthIndex, YearOf, Weekday, AddMonths;
    match s
    case MonthlyInterval(months) =>
      StepsApart(Nominal(s, start, k), months);
    case MonthlyDay(months, day, adjust) =>
      MonthsOn(MonthIndex(start), months, k);
      AdjustedDayAdvances(MonthIndex(start) + k * months, months, day, adjust);
    case LastBusiness(months) =>
      MonthsOn(MonthIndex(start), months, k);
      LastBusinessDaysApart(MonthIndex(start) + k * months, MonthIndex(start) + k * months + months);
    case Yearly(month, day, adjust) =>
      AdjustedDayAdvances(12 * (YearOf(start) + k) + month - 1, 12, day, adjust);
    case EasterOffset(days, adjust) =>
      EastersApart(YearOf(start) + k);
      AdjustApart(Nominal(s, start, k), Nominal(s, start, k + 1), adjust);
    case Weekly(weekday, weeks) =>
      MonthsOn(0, weeks, k);
  }

  lemma MonthsOn(first: int, step: int, k: nat)
    ensures first + (k + 1) * step == first + k * step + step
    ensures step * (k + 1) == step * k + step
  {
  }

  lemma AdjustedDayAdvances(mi: int, months: int, day: int, how: Adjust)
    requires months >= 1 && day >= 1
    ensures AdjustDate(OnDay(mi, day), how) + 7 <= AdjustDate(OnDay(mi + months, day), how)
  {
    hide *;
    OnDayApart(mi, mi + months, day);
    AdjustApart(OnDay(mi, day), OnDay(mi + months, day), how);
  }

  lemma StepsApart(n: Day, months: int)
    requires months >= 1
    ensures n + 28 * months <= AddMonths(n, months)
  {
    hide OnDay, MonthIndex, DayOfMonth, YearOf;
    InItsMonth(n);
    OnDayApart(MonthIndex(n), MonthIndex(n) + months, DayOfMonth(n));
  }

  lemma {:induction false} Ascending(s: Schedule, start: Day, i: nat, j: nat)
    requires s.Valid() && i <= j
    ensures Due(s, start, i) + 7 * (j - i) <= Due(s, start, j)
    decreases j
  {
    hide Due;
    if i < j {
      Ascending(s, start, i, j - 1);
      Advances(s, start, j - 1);
    }
  }

  /** The closed form of the cumulative generator: the k-th date is k intervals after the
      start, on the start's day or the shortest length of any month passed through. */
  ghost function ShortestSoFar(start: Day, months: int, k: nat): int {
    if k == 0 then DayOfMonth(start)
    else Min(ShortestSoFar(start, months, k - 1), LengthOf(MonthIndex(start) + k * months))
  }

  lemma {:induction false} CumulativeClosedForm(start: Day, months: int, k: nat)
    requires months >= 1
    ensures MonthIndex(Cumulative(start, months, k)) == MonthIndex(start) + k * months
    ensures DayOfMonth(Cumulative(start, months, k)) == ShortestSoFar(start, months, k)
  {
    hide MonthIndex, DayOfMonth, LengthOf, AddMonths, YearOf;
    if k > 0 {
      CumulativeClosedForm(start, months, k - 1);
      AddMonthsLands(Cumulative(start, months, k - 1), months);
      assert (k - 1) * months + months == k * months;
    }
  }

  /** `ShortestSoFar` is the least of start's day and the lengths of the months visited. */
  lemma {:induction false} ShortestIsLeast(start: Day, months: int, k: nat)
    ensures ShortestSoFar(start, months, k) <= DayOfMonth(start)
    ensures forall j :: 1 <= j <= k ==> ShortestSoFar(start, months, k) <= LengthOf(MonthIndex(start) + j * months)
    ensures ShortestSoFar(start, months, k) == DayOfMonth(start) ||
            exists j :: 1 <= j <= k && ShortestSoFar(start, months, k) == LengthOf(MonthIndex(start) + j * months)
  {
    hide MonthIndex, DayOfMonth, LengthOf, YearOf;
    if k > 0 {
      ShortestIsLeast(start, months, k - 1);
    }
  }
}
