/** Cutting an unbounded ascending stream of entries to a window of dates and a number
    of entries. */
module EntryWindow {

  datatype Entry = Entry(due: int, period: string)

  /** `dates` are the due dates of `entries`. */
  ghost predicate ShowsDates(entries: seq<Entry>, dates: seq<int>) {
    |entries| == |dates| && forall i :: 0 <= i < |dates| ==> dates[i] == entries[i].due
  }

  ghost predicate Ascending(c: nat -> Entry) {
    forall i: nat, j: nat :: i < j ==> c(i).due < c(j).due
  }

  /** `out` is the block of `c` that starts at position `low`, the first due from `start`
      on, and stops before the first due after `last` or after `total` entries (0: no limit). */
  ghost predicate IsBlock(c: nat -> Entry, start: int, last: int, total: nat, out: seq<Entry>, low: nat) {
    && (forall k: nat :: k < low ==> c(k).due < start)
    && start <= c(low).due
    && (forall i :: 0 <= i < |out| ==> out[i] == c(low + i) && out[i].due <= last)
    && (total > 0 ==> |out| <= total)
    && (c(low + |out|).due > last || (total > 0 && |out| == total))
  }

  /** What is known of such a block while it is being collected. */
  ghost predicate Collected(c: nat -> Entry, start: int, last: int, out: seq<Entry>, low: nat) {
    && (forall k: nat :: k < low ==> c(k).due < start)
    && (out != [] ==> start <= c(low).due)
    && (forall i :: 0 <= i < |out| ==> out[i] == c(low + i) && out[i].due <= last)
  }

  lemma NothingCollected(c: nat -> Entry, start: int, last: int)
    ensures Collected(c, start, last, [], 0)
  {
  }

  lemma EarlySkipped(c: nat -> Entry, start: int, last: int, low: nat)
    requires Collected(c, start, last, [], low) && c(low).due < start
    ensures Collected(c, start, last, [], low + 1)
  {
  }

  lemma OneCollected(c: nat -> Entry, start: int, last: int, out: seq<Entry>, low: nat)
    requires Collected(c, start, last, out, low) && start <= c(low + |out|).due <= last
    ensures Collected(c, start, last, out + [c(low + |out|)], low)
  {
  }

  lemma AllCollected(c: nat -> Entry, start: int, last: int, total: nat, out: seq<Entry>, low: nat)
    requires Collected(c, start, last, out, low) && start <= c(low).due
    requires total > 0 ==> |out| <= total
    requires c(low + |out|).due > last || (total > 0 && |out| == total)
    ensures IsBlock(c, start, last, total, out, low)
  {
  }

  lemma LastCollected(c: nat -> Entry, start: int, last: int, out: seq<Entry>, low: nat)
    requires Collected(c, start, last, out, low) && out != []
    ensures start <= c(low).due && out[|out| - 1] == c(low + |out| - 1)
  {
  }

  ghost predicate IsWindow(c: nat -> Entry, start: int, last: int, total: nat, out: seq<Entry>) {
    exists low: nat :: IsBlock(c, start, last, total, out, low)
  }

  lemma SameLow(c: nat -> Entry, start: int, last: int, later: int, total: nat, more: nat,
                out: seq<Entry>, longer: seq<Entry>, low: nat, low': nat)
    requires IsBlock(c, start, last, total, out, low) && IsBlock(c, start, later, more, longer, low')
    ensures low == low'
  {
  }

  lemma DueByLast(c: nat -> Entry, start: int, last: int, total: nat, out: seq<Entry>, low: nat, i: nat)
    requires IsBlock(c, start, last, total, out, low) && i < |out|
    ensures c(low + i).due <= last
  {
    assert out[i] == c(low + i);
  }

  /** Moving the last day later, or letting more entries through, only adds entries at the end. */
  lemma LaterOnlyExtends(c: nat -> Entry, start: int, last: int, later: int, total: nat, more: nat,
                         out: seq<Entry>, longer: seq<Entry>)
    requires IsWindow(c, start, last, total, out) && IsWindow(c, start, later, more, longer)
    requires last <= later && (more == 0 || (total > 0 && total <= more))
    ensures out <= longer
  {
    var low: nat :| IsBlock(c, start, last, total, out, low);
    var low': nat :| IsBlock(c, start, later, more, longer, low');
    SameLow(c, start, last, later, total, more, out, longer, low, low');
    if |longer| < |out| {
      DueByLast(c, start, last, total, out, low, |longer|);
    }
  }

  /** The stream and the limits determine the window. */
  lemma WindowUnique(c: nat -> Entry, start: int, last: int, total: nat, a: seq<Entry>, b: seq<Entry>)
    requires IsWindow(c, start, last, total, a) && IsWindow(c, start, last, total, b)
    ensures a == b
  {
    LaterOnlyExtends(c, start, last, last, total, total, a, b);
    LaterOnlyExtends(c, start, last, last, total, total, b, a);
  }

  lemma Before(c: nat -> Entry, i: nat, j: nat)
    requires Ascending(c) && i <= j
    ensures c(i).due <= c(j).due && (i < j ==> c(i).due < c(j).due)
  {
  }

  lemma {:induction false} FirstFrom(c: nat -> Entry, first: int, last: int, from: nat) returns (low: nat)
    requires Ascending(c) && Collected(c, first, last, [], from)
    ensures from <= low && first <= c(low).due && Collected(c, first, last, [], low)
    decreases first - c(from).due
  {
    hide Ascending, Collected;
    if first <= c(from).due {
      low := from;
    } else {
      Before(c, from, from + 1);
      EarlySkipped(c, first, last, from);
      low := FirstFrom(c, first, last, from + 1);
    }
  }

  /** Every stream has its window. */
  lemma WindowExists(c: nat -> Entry, start: int, last: int) returns (out: seq<Entry>)
    requires Ascending(c)
    ensures IsWindow(c, start, last, 0, out)
  {
    NothingCollected(c, start, last);
    var low := FirstFrom(c, start, last, 0);
    out := RestOfWindow(c, start, last, [], low);
  }

  lemma {:induction false} RestOfWindow(c: nat -> Entry, start: int, last: int, some: seq<Entry>, low: nat)
    returns (out: seq<Entry>)
    requires Ascending(c) && Collected(c, start, last, some, low) && start <= c(low).due
    ensures IsBlock(c, start, last, 0, out, low)
    decreases last - c(low + |some|).due
  {
    hide Ascending, Collected, IsBlock;
    if last < c(low + |some|).due {
      out := some;
      AllCollected(c, start, last, 0, some, low);
    } else {
      Before(c, low, low + |some|);
      Before(c, low + |some|, low + |some| + 1);
      OneCollected(c, start, last, some, low);
      out := RestOfWindow(c, start, last, some + [c(low + |some|)], low);
    }
  }

  /** What a window holds, entry by entry: it is strictly ascending, every entry comes from
      the stream and is due from `start` to `last`, and an entry of the stream that is due
      then is missing only because `total` earlier ones are present. */
  lemma WindowIsExact(c: nat -> Entry, start: int, last: int, total: nat, out: seq<Entry>)
    requires Ascending(c) && IsWindow(c, start, last, total, out)
    ensures forall i, j :: 0 <= i < j < |out| ==> out[i].due < out[j].due
    ensures forall e :: e in out ==> start <= e.due <= last && exists k: nat :: c(k) == e
    ensures forall k: nat :: start <= c(k).due <= last ==>
      c(k) in out || (total > 0 && |out| == total && forall e :: e in out ==> e.due < c(k).due)
  {
    hide Ascending;
    var low: nat :| IsBlock(c, start, last, total, out, low);
    forall i, j | 0 <= i < j < |out|
      ensures out[i].due < out[j].due
    {
      Before(c, low + i, low + j);
    }
    forall e | e in out
      ensures start <= e.due <= last && exists k: nat :: c(k) == e
    {
      var i :| 0 <= i < |out| && out[i] == e;
      assert c(low + i) == e;
      Before(c, low, low + i);
    }
    forall k: nat | start <= c(k).due <= last
      ensures c(k) in out || (total > 0 && |out| == total && forall e :: e in out ==> e.due < c(k).due)
    {
      DueIsPresent(c, start, last, total, out, low, k);
    }
  }

  lemma DueIsPresent(c: nat -> Entry, start: int, last: int, total: nat, out: seq<Entry>, low: nat, k: nat)
    requires Ascending(c) && IsBlock(c, start, last, total, out, low)
    requires start <= c(k).due <= last
    ensures c(k) in out || (total > 0 && |out| == total && forall e :: e in out ==> e.due < c(k).due)
  {
    hide Ascending;
    assert low <= k;
    if k < low + |out| {
      assert out[k - low] == c(k);
    } else {
      Before(c, low + |out|, k);
      forall e | e in out
        ensures e.due < c(k).due
      {
        var i :| 0 <= i < |out| && out[i] == e;
        Before(c, low + i, k);
      }
    }
  }
}
