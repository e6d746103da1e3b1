/** Turning a rule's dates into the entries of an item: one row per date, none for a period that
    already has one. */
module Generation {
  import opened Options
  import opened CivilCalendar
  import opened MonthArithmetic
  import opened ScheduleRules
  import opened PeriodKeys
  import opened DecimalText
  import opened EntryWindow
  import opened ScheduleEntries
  import opened ScheduleMeaning
  import IsoWeek
  import ScheduleTheorems

  const HORIZON_MONTHS := 13
  const MAX_OCCURRENCES := 600

  /** What becomes of a date before today. */
  datatype Past = PastUnpaid | PastSkipped | PastNone

  /** An entry of the item. Rows from before periods were stored have none. */
  datatype Occurrence = Occurrence(due: Day, period: Option<string>, skipped: bool)

  function HorizonEnd(today: Day): Day {
    AddMonths(today, HORIZON_MONTHS)
  }

  /** The rule an item stores, with its gaps filled and its months brought into range. */
  function FromItem(item: Rule): Rule {
    var months := OrZero(item.intervalMonths);
    item.(kind := if item.kind == "" then "monthly_interval" else item.kind,
    intervalMonths := Some(if months < 1 then 1 else Min(months, MAX_INTERVAL_MONTHS)),
    adjust := if item.adjust == "" then "none" else item.adjust,
    intervalWeeks := if OrZero(item.intervalWeeks) == 0 then Some(1) else item.intervalWeeks)
  }

  datatype Format = WeekFormat | YearFormat | MonthFormat

  predicate HasWeekMark(text: string) {
    exists i :: 0 <= i < |text| - 1 && text[i] == '-' && text[i + 1] == 'W'
  }

  predicate AllDigits(text: string) {
    text != [] && forall c :: c in text ==> IsDigit(c)
  }

  /** The format of a key, or of the keys a kind of rule makes. */
  function KeyFormat(text: string): Format {
    if text == "weekly" || HasWeekMark(text) then WeekFormat
    else if text == "yearly" || text == "easter_offset" || (|text| == 4 && AllDigits(text)) then YearFormat
    else MonthFormat
  }

  /** The period a row keeps for itself under rule `s`: none if its key has another format. */
  function RowPeriod(s: Schedule, row: Occurrence): Option<string> {
    var key := if row.period.Some? && row.period.value != "" then row.period.value
               else PeriodKey(MonthlyInterval(1), row.due);
    if KeyFormat(key) == KeyFormat(KindOf(s)) then Some(key) else None
  }

  function Taken(s: Schedule, rows: seq<Occurrence>): set<string> {
    set row | row in rows && RowPeriod(s, row).Some? :: RowPeriod(s, row).value
  }

  function Dues(rows: seq<Occurrence>): set<Day> {
    set row | row in rows :: row.due
  }

  predicate Unwanted(e: Entry, today: Day, past: Past) {
    e.due < today && past == PastNone
  }

  function RowFor(e: Entry, today: Day, past: Past): Occurrence {
    Occurrence(e.due, Some(e.period), e.due < today && past == PastSkipped)
  }

  /** The rows made for `entries`, at most `room`: a taken period and an unwanted date make none,
      and a day that has a row only uses up its period. */
  function Generated(entries: seq<Entry>, taken: set<string>, days: set<Day>, today: Day, past: Past, room: nat)
    : seq<Occurrence>
  {
    if entries == [] || room == 0 then []
    else
      var e, rest := entries[0], entries[1..];
      if e.period in taken || Unwanted(e, today, past) then Generated(rest, taken, days, today, past, room)
      else if e.due in days then Generated(rest, taken + {e.period}, days, today, past, room)
      else [RowFor(e, today, past)] + Generated(rest, taken + {e.period}, days + {e.due}, today, past, room - 1)
  }

  method GenerateOccurrences(item: Rule, start: Day, end: Option<Day>, total: Option<int>, existing: seq<Occurrence>,
                             today: Day, past: Past)
    returns (r: Result<seq<Occurrence>>)
    ensures match Validate(FromItem(item))
            case Err(e) => r == Err(e)
            case Ok(s) =>
              r.Ok? && exists entries ::
                IsEntries(s, start, end, total, HorizonEnd(today), entries)
                && r.value == Generated(entries, Taken(s, existing), Dues(existing), today, past, MAX_OCCURRENCES)
  {
    hide Validate, FromItem, IsEntries, HorizonEnd, RowPeriod, Taken, Dues, Generated, RowFor;
    var rule := FromItem(item);
    var validated := Validate(rule);
    if validated.Err? {
      return Err(validated.error);
    }
    var s := validated.value;
    var found := IterEntries(rule, start, end, total, HorizonEnd(today));
    var entries := found.value;
    var taken, days, rows := Taken(s, existing), Dues(existing), [];
    var i := 0;
    assert entries[0..] == entries;
    while i < |entries| && |rows| < MAX_OCCURRENCES
      invariant 0 <= i <= |entries| && |rows| <= MAX_OCCURRENCES
      invariant Generated(entries, Taken(s, existing), Dues(existing), today, past, MAX_OCCURRENCES)
             == rows + Generated(entries[i..], taken, days, today, past, MAX_OCCURRENCES - |rows|)
    {
      var e := entries[i];
      NextMade(entries, i, taken, days, today, past, MAX_OCCURRENCES - |rows|);
      i := i + 1;
      if e.period in taken {
        continue;
      }
      if e.due < today && past == PastNone {
        continue;
      }
      if e.due !in days {
        rows := rows + [RowFor(e, today, past)];
        days := days + {e.due};
      }
      taken := taken + {e.period};
    }
    NoRoom(entries[i..], taken, days, today, past);
    return Ok(rows);
  }

  lemma NoRoom(entries: seq<Entry>, taken: set<string>, days: set<Day>, today: Day, past: Past)
    ensures Generated(entries, taken, days, today, past, 0) == []
    ensures entries == [] ==> forall room: nat :: Generated(entries, taken, days, today, past, room) == []
  {
  }

  lemma NextMade(entries: seq<Entry>, i: nat, taken: set<string>, days: set<Day>, today: Day, past: Past, room: nat)
    requires i < |entries| && room > 0
    ensures var e, rest := entries[i], entries[i + 1..];
      Generated(entries[i..], taken, days, today, past, room) ==
        if e.period in taken || Unwanted(e, today, past) then Generated(rest, taken, days, today, past, room)
        else if e.due in days then Generated(rest, taken + {e.period}, days, today, past, room)
        else [RowFor(e, today, past)] + Generated(rest, taken + {e.period}, days + {e.due}, today, past, room - 1)
  {
    assert entries[i..][0] == entries[i] && entries[i..][1..] == entries[i + 1..];
  }

  // ---- An item never gets two entries for one period ----

  /** Whatever the rule and the rows there are, every new row has a period of its own that no
      other new row and no earlier row has taken, and a day of its own. */
  lemma {:induction false} OneRowPerPeriod(entries: seq<Entry>, taken: set<string>, days: set<Day>, today: Day, past: Past,
                                           room: nat)
    ensures var rows := Generated(entries, taken, days, today, past, room);
      && |rows| <= room
      && (forall row :: row in rows ==> row.period.Some? && row.period.value !in taken && row.due !in days)
      && (forall i, j :: 0 <= i < j < |rows| ==> rows[i].period != rows[j].period && rows[i].due != rows[j].due)
  {
    if entries != [] && room > 0 {
      var e, rest := entries[0], entries[1..];
      if e.period in taken || Unwanted(e, today, past) {
        OneRowPerPeriod(rest, taken, days, today, past, room);
      } else if e.due in days {
        OneRowPerPeriod(rest, taken + {e.period}, days, today, past, room);
      } else {
        OneRowPerPeriod(rest, taken + {e.period}, days + {e.due}, today, past, room - 1);
      }
    }
  }

  // ---- When every date gets its entry ----

  /** The rows of all dates that are wanted. */
  function WantedRows(entries: seq<Entry>, today: Day, past: Past): seq<Occurrence> {
    if entries == [] then []
    else (if Unwanted(entries[0], today, past) then [] else [RowFor(entries[0], today, past)])
         + WantedRows(entries[1..], today, past)
  }

  function First(rows: seq<Occurrence>, n: nat): seq<Occurrence> {
    if |rows| <= n then rows else rows[..n]
  }

  lemma FirstOfCons(row: Occurrence, rows: seq<Occurrence>, n: nat)
    requires n > 0
    ensures First([row] + rows, n) == [row] + First(rows, n - 1)
  {
  }

  ghost predicate FreshEntries(entries: seq<Entry>, taken: set<string>, days: set<Day>) {
    && (forall i, j :: 0 <= i < j < |entries| ==>
          entries[i].period != entries[j].period && entries[i].due != entries[j].due)
    && (forall i :: 0 <= i < |entries| ==> entries[i].period !in taken && entries[i].due !in days)
  }

  lemma FreshRest(entries: seq<Entry>, taken: set<string>, days: set<Day>)
    requires FreshEntries(entries, taken, days) && entries != []
    ensures entries[0].period !in taken && entries[0].due !in days
    ensures FreshEntries(entries[1..], taken, days)
    ensures FreshEntries(entries[1..], taken + {entries[0].period}, days + {entries[0].due})
  {
  }

  lemma {:induction false} FreshEntriesAllMade(entries: seq<Entry>, taken: set<string>, days: set<Day>, today: Day, past: Past,
                                               room: nat)
    requires FreshEntries(entries, taken, days)
    ensures Generated(entries, taken, days, today, past, room) == First(WantedRows(entries, today, past), room)
  {
    if entries != [] && room > 0 {
      var e, rest := entries[0], entries[1..];
      FreshRest(entries, taken, days);
      hide FreshEntries, First;
      if Unwanted(e, today, past) {
        FreshEntriesAllMade(rest, taken, days, today, past, room);
      } else {
        FreshEntriesAllMade(rest, taken + {e.period}, days + {e.due}, today, past, room - 1);
        FirstOfCons(RowFor(e, today, past), WantedRows(rest, today, past), room);
      }
    }
  }

  lemma {:induction false} AllWanted(entries: seq<Entry>, today: Day, past: Past)
    requires past != PastNone
    ensures |WantedRows(entries, today, past)| == |entries|
    ensures forall i :: 0 <= i < |entries| ==> WantedRows(entries, today, past)[i] == RowFor(entries[i], today, past)
  {
    if entries != [] {
      AllWanted(entries[1..], today, past);
    }
  }

  /** A new item gets a row for every wanted date of the rule, up to the ceiling. */
  ghost predicate Complete(s: Schedule, start: Day, end: Option<Day>, total: Option<int>, today: Day, past: Past,
                           entries: seq<Entry>)
  {
    IsEntries(s, start, end, total, HorizonEnd(today), entries) ==>
      Generated(entries, {}, {}, today, past, MAX_OCCURRENCES) == First(WantedRows(entries, today, past), MAX_OCCURRENCES)
  }

  ghost predicate EveryDateGetsItsEntry(s: Schedule, today: Day) {
    forall start: Day, end: Option<Day>, total: Option<int>, past: Past, entries: seq<Entry> ::
      1900 <= YearOf(start) ==> Complete(s, start, end, total, today, past, entries)
  }

  lemma DistinctKeysComplete(s: Schedule, start: Day, end: Option<Day>, total: Option<int>, today: Day, past: Past,
                             entries: seq<Entry>)
    requires s.Valid() && 1900 <= YearOf(start) && (s.EasterOffset? ==> s.days >= -93)
    ensures Complete(s, start, end, total, today, past, entries)
  {
    hide IsEntries, Generated, WantedRows, First, HorizonEnd, YearOf;
    if IsEntries(s, start, end, total, HorizonEnd(today), entries) {
      forall i, j | 0 <= i < j < |entries|
        ensures entries[i].period != entries[j].period && entries[i].due != entries[j].due
      {
        ScheduleTheorems.EntriesHaveDistinctKeys(s, start, end, total, HorizonEnd(today), entries, i, j);
        ScheduleTheorems.EntriesAscend(s, start, end, total, HorizonEnd(today), entries, i, j);
      }
      FreshEntriesAllMade(entries, {}, {}, today, past, MAX_OCCURRENCES);
    }
  }

  /** An Easter rule with an earlier offset and a start such that, from 2018 on, one of the rule's
      dates finds its period taken by the date before it and gets no entry. */
  lemma EarlyOffsetLosesADate(s: Schedule, today: Day) returns (start: Day, entries: seq<Entry>)
    requires s.Valid() && s.EasterOffset? && s.days < -93 && 2018 <= YearOf(today)
    ensures 1900 <= YearOf(start) && !Complete(s, start, None, None, today, PastUnpaid, entries)
  {
    hide Due, KeyAt, YearOf, DaysBeforeYear, AddMonths, Generated, WantedRows;
    start := LaterDatesCollide(s);
    var c, last := Candidates(s, start), HorizonEnd(today);
    CandidatesAscend(s, start);
    BeforeHorizon(today);
    entries := WindowExists(c, start, last);
    var low: nat :| IsBlock(c, start, last, 0, entries, low);
    hide IsBlock, EntryWindow.Ascending;
    InBlock(c, start, last, entries, low);
    assert c(1).period == c(2).period;
    SharedPeriodLosesADate(entries, today, 1 - low, 2 - low);
  }

  lemma SharedPeriodLosesADate(entries: seq<Entry>, today: Day, i: nat, j: nat)
    requires i < j < |entries| && j < MAX_OCCURRENCES && entries[i].period == entries[j].period
    ensures Generated(entries, {}, {}, today, PastUnpaid, MAX_OCCURRENCES)
         != First(WantedRows(entries, today, PastUnpaid), MAX_OCCURRENCES)
  {
    var wanted := First(WantedRows(entries, today, PastUnpaid), MAX_OCCURRENCES);
    OneRowPerPeriod(entries, {}, {}, today, PastUnpaid, MAX_OCCURRENCES);
    AllWanted(entries, today, PastUnpaid);
    assert wanted[i].period == wanted[j].period;
    hide Generated, WantedRows, First;
  }

  lemma BeforeHorizon(today: Day)
    requires 2018 <= YearOf(today)
    ensures DaysBeforeYear(2018) < HorizonEnd(today)
  {
    hide YearOf, DaysBeforeYear, AddMonths, MonthIndex;
    YearsApart(2018, YearOf(today));
    AddMonthsLands(today, HORIZON_MONTHS);
    LaterMonthLater(today, HorizonEnd(today));
  }

  /** Positions 1 and 2 of a stream, if due from the start to the last day, are in its window. */
  lemma InBlock(c: nat -> Entry, start: Day, last: Day, entries: seq<Entry>, low: nat)
    requires EntryWindow.Ascending(c) && IsBlock(c, start, last, 0, entries, low)
    requires start <= c(1).due && c(2).due <= last
    ensures low <= 1 && 2 - low < |entries| && entries[1 - low] == c(1) && entries[2 - low] == c(2)
  {
    Before(c, if low + |entries| < 2 then low + |entries| else 2, 2);
  }

  /** For every day from 2018 on, every wanted date of a rule gets its entry, from every start in
      1900 or later, exactly when the rule is no Easter rule with an offset below -93. */
  lemma EveryDateGetsItsEntryIff(s: Schedule, today: Day)
    requires s.Valid() && 2018 <= YearOf(today)
    ensures EveryDateGetsItsEntry(s, today) <==> !(s.EasterOffset? && s.days < -93)
  {
    hide Complete, YearOf;
    if s.EasterOffset? && s.days < -93 {
      var start, entries := EarlyOffsetLosesADate(s, today);
    } else {
      forall start: Day, end: Option<Day>, total: Option<int>, past: Past, entries: seq<Entry> | 1900 <= YearOf(start)
        ensures Complete(s, start, end, total, today, past, entries)
      {
        DistinctKeysComplete(s, start, end, total, today, past, entries);
      }
    }
  }

  // ---- Generating again ----

  function Periods(rows: seq<Occurrence>): set<string> {
    set row | row in rows && row.period.Some? :: row.period.value
  }

  lemma {:induction false} AgainMakesNothing(entries: seq<Entry>, taken: set<string>, days: set<Day>, today: Day, past: Past,
                                             room: nat, more: set<string>, moreDays: set<Day>, again: nat)
    requires |Generated(entries, taken, days, today, past, room)| < room
    requires taken + Periods(Generated(entries, taken, days, today, past, room)) <= more
    requires days + Dues(Generated(entries, taken, days, today, past, room)) <= moreDays
    ensures Generated(entries, more, moreDays, today, past, again) == []
  {
    if entries != [] {
      var e, rest := entries[0], entries[1..];
      if e.period in taken || Unwanted(e, today, past) {
        AgainMakesNothing(rest, taken, days, today, past, room, more, moreDays, again);
      } else if e.due in days {
        AgainMakesNothing(rest, taken + {e.period}, days, today, past, room, more + {e.period}, moreDays, again);
        if e.period in more {
          assert more + {e.period} == more;
        }
      } else {
        RowsCons(RowFor(e, today, past), Generated(rest, taken + {e.period}, days + {e.due}, today, past, room - 1));
        hide Periods, Dues;
        AgainMakesNothing(rest, taken + {e.period}, days + {e.due}, today, past, room - 1, more, moreDays, again);
      }
    }
  }

  lemma RowsCons(row: Occurrence, rows: seq<Occurrence>)
    requires row.period.Some?
    ensures Periods([row] + rows) == {row.period.value} + Periods(rows)
    ensures Dues([row] + rows) == {row.due} + Dues(rows)
  {
    assert row in [row] + rows;
    assert forall x :: x in [row] + rows <==> x == row || x in rows;
  }

  lemma RowsTaken(s: Schedule, existing: seq<Occurrence>, rows: seq<Occurrence>)
    requires forall row :: row in rows ==> row.period.Some? && RowPeriod(s, row) == row.period
    ensures Taken(s, existing) + Periods(rows) <= Taken(s, existing + rows)
    ensures Dues(existing) + Dues(rows) <= Dues(existing + rows)
  {
    hide RowPeriod;
    var all := existing + rows;
    assert forall row :: row in existing || row in rows ==> row in all;
    forall p | p in Taken(s, existing) + Periods(rows)
      ensures p in Taken(s, all)
    {
      if p in Periods(rows) {
        var row :| row in rows && row.period.Some? && row.period.value == p;
        assert row in all && RowPeriod(s, row) == Some(p);
      } else {
        var row :| row in existing && RowPeriod(s, row).Some? && RowPeriod(s, row).value == p;
        assert row in all;
      }
    }
  }

  /** What a new row says: a date of the rule that was wanted, under that date's key, and skipped
      exactly when it is past and past dates are to be skipped. */
  ghost predicate RowSays(row: Occurrence, e: Entry, today: Day, past: Past) {
    && row.due == e.due && row.period == Some(e.period)
    && (row.skipped <==> e.due < today && past == PastSkipped)
    && !(e.due < today && past == PastNone)
  }

  lemma {:induction false} RowsSay(entries: seq<Entry>, taken: set<string>, days: set<Day>, today: Day, past: Past,
                                   room: nat)
    ensures forall row :: row in Generated(entries, taken, days, today, past, room) ==>
      exists e :: e in entries && RowSays(row, e, today, past)
  {
    if entries != [] && room > 0 {
      var e, rest := entries[0], entries[1..];
      assert e in entries && forall x :: x in rest ==> x in entries;
      if e.period in taken || Unwanted(e, today, past) {
        RowsSay(rest, taken, days, today, past, room);
      } else if e.due in days {
        RowsSay(rest, taken + {e.period}, days, today, past, room);
      } else {
        RowsSay(rest, taken + {e.period}, days + {e.due}, today, past, room - 1);
        assert RowSays(RowFor(e, today, past), e, today, past);
      }
    }
  }

  /** Day `due` has a row, an earlier one or a new one. */
  ghost predicate HasRow(due: Day, days: set<Day>, rows: seq<Occurrence>) {
    due in days || exists row :: row in rows && row.due == due
  }

  /** The period of `e` was taken, or a date of that period has a row on its day. */
  ghost predicate Accounted(e: Entry, entries: seq<Entry>, taken: set<string>, days: set<Day>, rows: seq<Occurrence>) {
    e.period in taken || exists x :: x in entries && x.period == e.period && HasRow(x.due, days, rows)
  }

  lemma AccountedAfter(e: Entry, entries: seq<Entry>, taken: set<string>, days: set<Day>, rows: seq<Occurrence>,
                       newTaken: set<string>, newDays: set<Day>, newRows: seq<Occurrence>)
    requires entries != [] && Accounted(e, entries[1..], newTaken, newDays, newRows)
    requires newTaken <= taken + {entries[0].period}
    requires e.period in newTaken && e.period !in taken ==> HasRow(entries[0].due, days, rows)
    requires forall d :: HasRow(d, newDays, newRows) ==> HasRow(d, days, rows)
    ensures Accounted(e, entries, taken, days, rows)
  {
    hide HasRow;
    assert entries[0] in entries && forall x :: x in entries[1..] ==> x in entries;
  }

  /** Until the ceiling is reached, a date goes without a row only because its period is accounted
      for, or because it is past and past dates are left out. */
  lemma {:induction false} NoneMissed(entries: seq<Entry>, taken: set<string>, days: set<Day>, today: Day, past: Past,
                                      room: nat, e: Entry)
    requires e in entries && |Generated(entries, taken, days, today, past, room)| < room
    requires today <= e.due || past != PastNone
    ensures Accounted(e, entries, taken, days, Generated(entries, taken, days, today, past, room))
  {
    hide Accounted;
    var first, rest := entries[0], entries[1..];
    var rows := Generated(entries, taken, days, today, past, room);
    if e == first {
      FirstAccounted(entries, taken, days, today, past, room);
    } else if first.period in taken || Unwanted(first, today, past) {
      NoneMissed(rest, taken, days, today, past, room, e);
      AccountedAfter(e, entries, taken, days, rows, taken, days, rows);
    } else if first.due in days {
      NoneMissed(rest, taken + {first.period}, days, today, past, room, e);
      AccountedAfter(e, entries, taken, days, rows, taken + {first.period}, days, rows);
    } else {
      NoneMissed(rest, taken + {first.period}, days + {first.due}, today, past, room - 1, e);
      assert rows[0] in rows && forall row :: row in rows[1..] ==> row in rows;
      AccountedAfter(e, entries, taken, days, rows, taken + {first.period}, days + {first.due}, rows[1..]);
    }
  }

  lemma FirstAccounted(entries: seq<Entry>, taken: set<string>, days: set<Day>, today: Day, past: Past, room: nat)
    requires entries != [] && room > 0 && (today <= entries[0].due || past != PastNone)
    ensures Accounted(entries[0], entries, taken, days, Generated(entries, taken, days, today, past, room))
  {
    var e, rows := entries[0], Generated(entries, taken, days, today, past, room);
    if e.period !in taken && e.due !in days {
      assert rows[0].due == e.due && rows[0] in rows;
    }
    assert e.period in taken || HasRow(e.due, days, rows);
  }

  /** Generating a second time on the same day makes nothing, whatever rows there were before, if
      the first time did not stop at the ceiling. */
  lemma SecondTimeMakesNothing(s: Schedule, entries: seq<Entry>, existing: seq<Occurrence>, today: Day, past: Past)
    requires forall e :: e in entries ==> e.period != "" && KeyFormat(e.period) == KeyFormat(KindOf(s))
    requires |Generated(entries, Taken(s, existing), Dues(existing), today, past, MAX_OCCURRENCES)| < MAX_OCCURRENCES
    ensures var rows := Generated(entries, Taken(s, existing), Dues(existing), today, past, MAX_OCCURRENCES);
      Generated(entries, Taken(s, existing + rows), Dues(existing + rows), today, past, MAX_OCCURRENCES) == []
  {
    hide Generated, KeyFormat, Taken, Dues, Periods;
    var rows := Generated(entries, Taken(s, existing), Dues(existing), today, past, MAX_OCCURRENCES);
    RowsSay(entries, Taken(s, existing), Dues(existing), today, past, MAX_OCCURRENCES);
    RowsTaken(s, existing, rows);
    AgainMakesNothing(entries, Taken(s, existing), Dues(existing), today, past, MAX_OCCURRENCES,
                      Taken(s, existing + rows), Dues(existing + rows), MAX_OCCURRENCES);
  }

  predicate DigitsAndDashes(text: string) {
    forall c :: c in text ==> IsDigit(c) || c == '-'
  }

  lemma NoWeekMark(text: string)
    requires '-' !in text || 'W' !in text
    ensures !HasWeekMark(text)
  {
  }

  lemma FormatOfKind(s: Schedule)
    ensures KeyFormat(KindOf(s)) ==
      if s.Weekly? then WeekFormat else if s.Yearly? || s.EasterOffset? then YearFormat else MonthFormat
  {
    var kind := KindOf(s);
    assert '-' !in kind;
    NoWeekMark(kind);
    assert "yearly"[0] != "weekly"[0];
  }

  lemma FormatOfNumbers(key: string)
    requires key != [] && DigitsAndDashes(key) && IsDigit(key[|key| - 1])
    ensures KeyFormat(key) == if |key| == 4 && '-' !in key then YearFormat else MonthFormat
  {
    NoWeekMark(key);
    assert "weekly"[5] == "yearly"[5] == 'y' && "easter_offset"[12] == 't';
  }

  lemma IntTextShape(n: int)
    ensures IntText(n) != [] && DigitsAndDashes(IntText(n)) && IsDigit(IntText(n)[|IntText(n)| - 1])
    ensures 1000 <= n <= 9999 ==> |IntText(n)| == 4 && '-' !in IntText(n)
  {
    var digits := Decimal(if n < 0 then -n else n);
    assert digits[|digits| - 1] in digits;
    if 1000 <= n <= 9999 {
      assert |Decimal(n / 10 / 10 / 10)| == 1;
      assert |Decimal(n / 10 / 10)| == 2;
      assert |Decimal(n / 10)| == 3;
    }
  }

  /** The keys a rule makes have the format of its kind; for the keys that are years, in years of
      four digits. */
  lemma KeyHasItsFormat(s: Schedule, nominal: Day)
    requires s.Yearly? || s.EasterOffset? ==> 1000 <= YearOf(nominal) <= 9999
    ensures PeriodKey(s, nominal) != "" && KeyFormat(PeriodKey(s, nominal)) == KeyFormat(KindOf(s))
  {
    hide YearOf, MonthOf, IsoWeek.YearAndWeek, IntText, KindOf, IsDigit;
    FormatOfKind(s);
    var key := PeriodKey(s, nominal);
    if s.Weekly? {
      IsoWeek.IsThursdayRule(nominal);
      var mark := |IntText(IsoWeek.YearAndWeek(nominal).0)|;
      assert key[mark] == '-' && key[mark + 1] == 'W';
    } else if s.Yearly? || s.EasterOffset? {
      IntTextShape(YearOf(nominal));
      FormatOfNumbers(key);
    } else {
      IntTextShape(YearOf(nominal));
      var dash := |IntText(YearOf(nominal))|;
      assert key[dash] == '-' && key[dash] in key;
      assert key[|key| - 1] == TwoDigits(MonthOf(nominal))[1];
      FormatOfNumbers(key);
    }
  }

  // ---- What the rows of an item are ----

  /** Every row made for an item is of a date that fits its rule, falls due from the start to the
      rule's end and thirteen months from today, and carries its key; a past one is skipped or left
      out as asked for. No more than 600 are made. */
  lemma RowsAreOfFittingDates(s: Schedule, start: Day, end: Option<Day>, total: Option<int>, today: Day, past: Past,
                              entries: seq<Entry>, taken: set<string>, days: set<Day>, row: Occurrence)
    requires s.Valid() && IsEntries(s, start, end, total, HorizonEnd(today), entries)
    requires row in Generated(entries, taken, days, today, past, MAX_OCCURRENCES)
    ensures exists n :: Fits(s, start, n) && FallsDue(s, n, row.due) && row.period == Some(PeriodKey(s, n))
    ensures InRange(row.due, start, end, AddMonths(today, 13))
    ensures row.skipped <==> row.due < today && past == PastSkipped
    ensures row.due >= today || past != PastNone
    ensures |Generated(entries, taken, days, today, past, MAX_OCCURRENCES)| <= 600
  {
    hide Generated, IsEntries, Fits, FallsDue, PeriodKey, AddMonths;
    RowsSay(entries, taken, days, today, past, MAX_OCCURRENCES);
    OneRowPerPeriod(entries, taken, days, today, past, MAX_OCCURRENCES);
    EntriesAreWhatFits(s, start, end, total, HorizonEnd(today), entries);
    var e :| e in entries && RowSays(row, e, today, past);
    assert IsEntryOf(s, start, e);
    var n :| Fits(s, start, n) && FallsDue(s, n, e.due) && e.period == PeriodKey(s, n);
  }

  /** Rules whose keys have one format. */
  predicate CountAlike(s: Schedule, t: Schedule) {
    (s.Weekly? <==> t.Weekly?) && (s.Yearly? || s.EasterOffset? <==> t.Yearly? || t.EasterOffset?)
  }

  /** A row with a key blocks that period under the rules that count like the one it came from and
      nothing under the others; a row without one is of a monthly rule, on its due date. */
  lemma RowBlocks(s: Schedule, t: Schedule, row: Occurrence, n: Day)
    requires || row.period == Some(PeriodKey(t, n))
             || ((row.period == None || row.period == Some("")) && t == MonthlyInterval(1) && n == row.due)
    requires t.Yearly? || t.EasterOffset? ==> 1000 <= YearOf(n) <= 9999
    ensures RowPeriod(s, row) == if CountAlike(s, t) then Some(PeriodKey(t, n)) else None
  {
    hide PeriodKey, KeyFormat, YearOf, KindOf;
    KeyHasItsFormat(t, n);
    FormatOfKind(s);
    FormatOfKind(t);
  }

  /** `full` is the rule of `item` with its gaps filled: a missing kind, adjustment or number of weeks,
      and months outside 1 to 120. */
  predicate FillsGaps(item: Rule, full: Rule) {
    && full.kind == (if item.kind == "" then "monthly_interval" else item.kind)
    && full.adjust == (if item.adjust == "" then "none" else item.adjust)
    && full.day == item.day && full.month == item.month && full.days == item.days && full.weekday == item.weekday
    && full.intervalMonths.Some? && 1 <= full.intervalMonths.value <= 120
    && (item.intervalMonths.None? ==> full.intervalMonths.value == 1)
    && (item.intervalMonths.Some? ==>
          && (item.intervalMonths.value < 1 ==> full.intervalMonths.value == 1)
          && (item.intervalMonths.value > 120 ==> full.intervalMonths.value == 120)
          && (1 <= item.intervalMonths.value <= 120 ==> full.intervalMonths == item.intervalMonths))
    && full.intervalWeeks ==
       (if item.intervalWeeks == None || item.intervalWeeks == Some(0) then Some(1) else item.intervalWeeks)
  }

  /** An item follows exactly the schedule its fields say once the gaps are filled. */
  lemma ItemFollows(item: Rule, full: Rule, s: Schedule)
    requires FillsGaps(item, full)
    ensures Validate(FromItem(item)) == Ok(s) <==> Describes(full, s)
  {
    hide Validate, Describes;
    assert FromItem(item) == full;
    AcceptedExactly(full, s);
  }
}
