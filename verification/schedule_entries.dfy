/** The generators of the schedule engine: the endless candidates of a rule, and the
    entries cut from them. */
module ScheduleEntries {
  import opened Options
  import opened CivilCalendar
  import opened MonthArithmetic
  import opened OrthodoxEaster
  import opened BusinessDays
  import opened ScheduleRules
  import opened PeriodKeys
  import opened EntryWindow

  ghost function Candidates(s: Schedule, start: Day): nat -> Entry {
    (k: nat) => Entry(Due(s, start, k), KeyAt(s, start, k))
  }

  lemma CandidatesAscend(s: Schedule, start: Day)
    requires s.Valid()
    ensures EntryWindow.Ascending(Candidates(s, start))
  {
    hide Due, KeyAt;
    forall i: nat, j: nat | i < j
      ensures Candidates(s, start)(i).due < Candidates(s, start)(j).due
    {
      ScheduleRules.Ascending(s, start, i, j);
    }
  }

  /** The candidate generator: the variables its loops update, whichever loop it is in. */
  class CandidateStream {
    const schedule: Schedule
    const start: Day
    var current: Day  // monthly_interval and weekly
    var k: nat        // monthly_day and last_business_day
    var year: int     // yearly and easter_offset
    ghost var position: nat

    ghost predicate Valid()
      reads this
    {
      && schedule.Valid()
      && match schedule
         case MonthlyInterval(_) => current == Nominal(schedule, start, position)
         case Weekly(_, _) => current == Nominal(schedule, start, position)
         case MonthlyDay(_, _, _) => k == position
         case LastBusiness(_) => k == position
         case Yearly(_, _, _) => year == YearOf(start) + position
         case EasterOffset(_, _) => year == YearOf(start) + position
    }

    constructor (schedule: Schedule, start: Day)
      requires schedule.Valid()
      ensures Valid() && position == 0 && this.schedule == schedule && this.start == start
    {
      this.schedule, this.start := schedule, start;
      current := if schedule.Weekly? then start + (schedule.weekday - Weekday(start)) % 7 else start;
      k, year, position := 0, YearOf(start), 0;
      new;
      hide YearOf, Weekday;
    }

    /** The next (nominal, due) pair. */
    method Next() returns (nominal: Day, due: Day)
      requires Valid()
      modifies this
      ensures Valid() && position == old(position) + 1
      ensures nominal == Nominal(schedule, start, old(position))
      ensures due == Due(schedule, start, old(position))
    {
      hide YearOf, MonthIndex, OnDay, AddMonths, Easter, LastBusinessDay, AdjustDate, MonthStart, Weekday;
      match schedule {
        case MonthlyInterval(months) =>
          nominal, due := current, current;
          current := AddMonths(current, months);
        case MonthlyDay(months, day, adjust) =>
          var month := AddMonths(MonthStart(MonthIndex(start)), k * months);
          FirstOfMonthPlus(MonthIndex(start), k * months);
          nominal := OnDay(MonthIndex(month), day);
          due := Adjusted(nominal, adjust);
          k := k + 1;
        case LastBusiness(months) =>
          var month := AddMonths(MonthStart(MonthIndex(start)), k * months);
          FirstOfMonthPlus(MonthIndex(start), k * months);
          due := FindLastBusinessDay(MonthIndex(month));
          nominal := due;
          k := k + 1;
        case Yearly(month, day, adjust) =>
          nominal := OnDay(12 * year + month - 1, day);
          due := Adjusted(nominal, adjust);
          year := year + 1;
        case EasterOffset(days, adjust) =>
          nominal := Easter(year) + days;
          due := Adjusted(nominal, adjust);
          year := year + 1;
        case Weekly(weekday, weeks) =>
          nominal, due := current, current;
          current := current + 7 * weeks;
          assert weeks * (position + 1) == weeks * position + weeks;
      }
      position := position + 1;
    }
  }

  lemma FirstOfMonthPlus(mi: int, k: int)
    ensures MonthIndex(AddMonths(MonthStart(mi), k)) == mi + k
  {
    hide MonthIndex, AddMonths, MonthStart, DayOfMonth;
    MonthFollows(mi);
    MonthIndexUnique(MonthStart(mi), mi);
    AddMonthsLands(MonthStart(mi), k);
  }

  method FindLastBusinessDay(mi: int) returns (d: Day)
    ensures d == LastBusinessDay(mi)
  {
    hide MonthStart, PreviousBusinessDay;
    d := FindPreviousBusinessDay(MonthStart(mi + 1) - 1);
  }

  /** The last day an entry may be due: the horizon, or the rule's end if that is earlier. */
  function LastDay(end: Option<Day>, until: Day): Day {
    if end.Some? && end.value < until then end.value else until
  }

  /** What `iter_entries` yields: no limit for a `total` of None or 0, nothing for a
      negative one. */
  ghost predicate IsEntries(s: Schedule, start: Day, end: Option<Day>, total: Option<int>, until: Day,
                            out: seq<Entry>) {
    if OrZero(total) < 0 then out == []
    else IsWindow(Candidates(s, start), start, LastDay(end, until), OrZero(total), out)
  }

  method IterEntries(rule: Rule, start: Day, end: Option<Day>, total: Option<int>, until: Day)
    returns (r: Result<seq<Entry>>)
    ensures match Validate(rule)
            case Err(e) => r == Err(e)
            case Ok(s) => r.Ok? && IsEntries(s, start, end, total, until, r.value)
  {
    hide Due, Nominal, PeriodKey, Collected, IsBlock, YearOf;
    var validated := Validate(rule);
    if validated.Err? {
      return Err(validated.error);
    }
    var s := validated.value;
    var stream := new CandidateStream(s, start);
    var out: seq<Entry>, count, previous: Option<Day> := [], 0, None;
    ghost var c, low, last := Candidates(s, start), 0, LastDay(end, until);
    NothingCollected(c, start, last);
    while true
      invariant stream.Valid() && stream.schedule == s && stream.start == start && fresh(stream)
      invariant count == |out| && (OrZero(total) > 0 ==> count <= OrZero(total)) && (OrZero(total) < 0 ==> count == 0)
      invariant previous == if out == [] then None else Some(out[|out| - 1].due)
      invariant stream.position == low + |out|
      invariant Collected(c, start, last, out, low)
      decreases (if last > start then last else start) - Due(s, start, stream.position)
    {
      ghost var p := stream.position;
      Advances(s, start, p);
      if p > 0 {
        Advances(s, start, p - 1);
      }
      ScheduleRules.Ascending(s, start, low, p);
      var nominal, d := stream.Next();
      assert c(p) == Entry(d, PeriodKey(s, nominal));
      if out != [] {
        LastCollected(c, start, last, out, low);
      }
      assert previous.Some? ==> previous.value < d;  // the skip below only drops dates before start
      if d < start || (previous.Some? && d <= previous.value) {
        EarlySkipped(c, start, last, low);
        low := low + 1;
        continue;
      }
      if OrZero(total) != 0 && count >= OrZero(total) {
        if OrZero(total) > 0 {
          AllCollected(c, start, last, OrZero(total), out, low);
        }
        return Ok(out);
      }
      if end.Some? && d > end.value {
        AllCollected(c, start, last, OrZero(total), out, low);
        return Ok(out);
      }
      if d > until {
        AllCollected(c, start, last, OrZero(total), out, low);
        return Ok(out);
      }
      OneCollected(c, start, last, out, low);
      out := out + [Entry(d, PeriodKey(s, nominal))];
      count := count + 1;
      previous := Some(d);
    }
  }
}
