/** What the entries of a rule are, in terms of its dates alone. */
module ScheduleTheorems {
  import opened Options
  import opened CivilCalendar
  import opened MonthArithmetic
  import opened ScheduleRules
  import opened PeriodKeys
  import opened EntryWindow
  import opened ScheduleEntries

  /** The entries are exactly the dates of the rule due from `start` to the last day, each
      with its own period key, strictly ascending; a date is missing only when `total`
      earlier ones are there. */
  lemma EntriesExact(s: Schedule, start: Day, end: Option<Day>, total: Option<int>, until: Day, out: seq<Entry>)
    requires s.Valid() && OrZero(total) >= 0 && IsEntries(s, start, end, total, until, out)
    ensures forall i, j :: 0 <= i < j < |out| ==> out[i].due < out[j].due
    ensures forall e :: e in out ==>
      start <= e.due <= LastDay(end, until) && exists k: nat :: e == Entry(Due(s, start, k), KeyAt(s, start, k))
    ensures forall k: nat :: start <= Due(s, start, k) <= LastDay(end, until) ==>
      Entry(Due(s, start, k), KeyAt(s, start, k)) in out ||
      (|out| == OrZero(total) && forall e :: e in out ==> e.due < Due(s, start, k))
  {
    hide Due, KeyAt, EntryWindow.Ascending, IsWindow;
    var c := Candidates(s, start);
    CandidatesAscend(s, start);
    WindowIsExact(c, start, LastDay(end, until), OrZero(total), out);
    forall e | e in out
      ensures exists k: nat :: e == Entry(Due(s, start, k), KeyAt(s, start, k))
    {
      var k: nat :| c(k) == e;
      assert e == Entry(Due(s, start, k), KeyAt(s, start, k));
    }
    forall k: nat | start <= Due(s, start, k) <= LastDay(end, until)
      ensures Entry(Due(s, start, k), KeyAt(s, start, k)) in out ||
        (|out| == OrZero(total) && forall e :: e in out ==> e.due < Due(s, start, k))
    {
      assert c(k) == Entry(Due(s, start, k), KeyAt(s, start, k));
    }
  }

  lemma EntriesAscend(s: Schedule, start: Day, end: Option<Day>, total: Option<int>, until: Day, out: seq<Entry>,
                      i: int, j: int)
    requires s.Valid() && IsEntries(s, start, end, total, until, out) && 0 <= i < j < |out|
    ensures out[i].due < out[j].due
  {
    EntriesExact(s, start, end, total, until, out);
    hide IsEntries;
  }

  /** Generating up to a later horizon only adds entries after the earlier ones. */
  lemma LaterHorizonExtends(s: Schedule, start: Day, end: Option<Day>, total: Option<int>,
                            until: Day, later: Day, out: seq<Entry>, longer: seq<Entry>)
    requires until <= later
    requires IsEntries(s, start, end, total, until, out) && IsEntries(s, start, end, total, later, longer)
    ensures out <= longer
  {
    hide IsWindow, Candidates;
    if OrZero(total) >= 0 {
      LaterOnlyExtends(Candidates(s, start), start, LastDay(end, until), LastDay(end, later),
                       OrZero(total), OrZero(total), out, longer);
    }
  }

  /** Two entries of one list and where they stand among all the dates of the rule. */
  lemma PositionsOf(s: Schedule, start: Day, end: Option<Day>, total: Option<int>, until: Day,
                    out: seq<Entry>, i: int, j: int)
    returns (k: nat, n: nat)
    requires s.Valid() && IsEntries(s, start, end, total, until, out) && 0 <= i < j < |out|
    ensures k < n && out[i].period == KeyAt(s, start, k) && out[j].period == KeyAt(s, start, n)
  {
    hide Due, KeyAt, YearOf, Nominal;
    var c := Candidates(s, start);
    var low: nat :| IsBlock(c, start, LastDay(end, until), OrZero(total), out, low);
    assert out[i] == c(low + i) && out[j] == c(low + j);
    k, n := low + i, low + j;
  }

  /** No two dates of one list share a key, for every kind; for Easter rules from an offset of -93
      on, with a start in 1900 or later. */
  lemma EntriesHaveDistinctKeys(s: Schedule, start: Day, end: Option<Day>, total: Option<int>, until: Day,
                                out: seq<Entry>, i: int, j: int)
    requires s.Valid() && IsEntries(s, start, end, total, until, out)
    requires 0 <= i < j < |out|
    requires s.EasterOffset? ==> s.days >= -93 && 1900 <= YearOf(start)
    ensures out[i].period != out[j].period
  {
    hide IsEntries, Due, KeyAt, YearOf, Nominal;
    var k, n := PositionsOf(s, start, end, total, until, out, i, j);
    if s.EasterOffset? {
      EasterKeysDistinct(s, start, k, n);
    } else {
      KeysDistinct(s, start, k, n);
    }
  }

  // ---- The rule every bill had before the redesign ----

  const OLD_ROW_CAP := 600

  /** How many dates the old generator stops after. */
  function OldLimit(total: Option<int>): int {
    if 0 < OrZero(total) < OLD_ROW_CAP then OrZero(total) else OLD_ROW_CAP
  }

  /** The dates of the old loop: the rule's own, cut at the smaller of `total` and the cap. */
  ghost predicate OldDates(months: int, start: Day, end: Option<Day>, total: Option<int>, horizon: Day, dates: seq<Day>) {
    var c := Candidates(MonthlyInterval(months), start);
    exists e :: ShowsDates(e, dates) && IsWindow(c, start, LastDay(end, horizon), OldLimit(total), e)
  }

  /** The date loop of the generator the rule engine replaced. */
  method OldGeneratorDates(start: Day, months: int, end: Option<Day>, total: Option<int>, horizon: Day)
    returns (out: seq<Day>)
    requires 1 <= months <= MAX_INTERVAL_MONTHS && OrZero(total) >= 0
    ensures OldDates(months, start, end, total, horizon, out)
  {
    hide AddMonths, KeyAt;
    var current, count := start, 0;
    out := [];
    ghost var c, entries := Candidates(MonthlyInterval(months), start), [];
    while count < OLD_ROW_CAP
      invariant 0 <= count <= OldLimit(total) && count == |out|
      invariant current == Cumulative(start, months, count)
      invariant ShowsDates(entries, out)
      invariant forall i :: 0 <= i < |entries| ==> entries[i] == c(i) && entries[i].due <= LastDay(end, horizon)
    {
      assert c(count).due == current;
      if OrZero(total) != 0 && count >= OrZero(total) {
        break;
      }
      if end.Some? && current > end.value {
        break;
      }
      if current > horizon {
        break;
      }
      out := out + [current];
      entries := entries + [c(count)];
      count := count + 1;
      current := AddMonths(current, months);
    }
    assert c(0).due == start;
    assert c(count).due == current;
    assert IsBlock(c, start, LastDay(end, horizon), OldLimit(total), entries, 0);
  }

  /** The monthly_interval rule reproduces the old generator: whatever the old loop gave is
      what the new one gives, up to the old cap of 600 rows. */
  lemma LegacyRuleUnchanged(months: int, start: Day, end: Option<Day>, total: Option<int>, horizon: Day,
                            out: seq<Entry>, dates: seq<Day>)
    requires 1 <= months <= MAX_INTERVAL_MONTHS && OrZero(total) >= 0
    requires IsEntries(MonthlyInterval(months), start, end, total, horizon, out)
    requires OldDates(months, start, end, total, horizon, dates)
    ensures |dates| == Min(600, |out|)
    ensures forall i :: 0 <= i < |dates| ==> dates[i] == out[i].due
  {
    hide Candidates;
    var c, last := Candidates(MonthlyInterval(months), start), LastDay(end, horizon);
    var e :| ShowsDates(e, dates) && IsWindow(c, start, last, OldLimit(total), e);
    var low: nat :| IsBlock(c, start, last, OrZero(total), out, low);
    var low': nat :| IsBlock(c, start, last, OldLimit(total), e, low');
    SameLow(c, start, last, last, OrZero(total), OldLimit(total), out, e, low, low');
    LaterOnlyExtends(c, start, last, last, OldLimit(total), OrZero(total), e, out);
    if |e| < |out| {
      DueByLast(c, start, last, OrZero(total), out, low, |e|);
    }
  }
}
