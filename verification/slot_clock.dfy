/** The slot clock over any run of requests: how far apart the granted slots are, and how
    many fit in a minute. */
module SlotClock {
  import opened LookupClient

  const MIN_INTERVAL_SECONDS := 0.7

  /** The slots granted to callers that ask at the times `nows`, in turn. */
  ghost function Granted(cfg: Config, nextSlot: real, nows: seq<real>): seq<real>
    decreases |nows|
  {
    if nows == [] then []
    else if Grants(nextSlot, nows[0])
    then [Slot(nextSlot, nows[0])] + Granted(cfg, AfterReserve(nextSlot, cfg, nows[0]), nows[1..])
    else Granted(cfg, nextSlot, nows[1..])
  }

  /** A refused caller leaves no trace: the others get the slots they would have got. */
  lemma RefusalChangesNothing(cfg: Config, nextSlot: real, nows: seq<real>)
    requires nows != [] && !Grants(nextSlot, nows[0])
    ensures AfterReserve(nextSlot, cfg, nows[0]) == nextSlot
    ensures Granted(cfg, nextSlot, nows) == Granted(cfg, nextSlot, nows[1..])
  {
  }

  ghost predicate Spaced(slots: seq<real>, interval: real) {
    forall i, j :: 0 <= i < j < |slots| ==> slots[j] >= slots[i] + interval
  }

  lemma {:induction false} GrantedSpaced(cfg: Config, nextSlot: real, nows: seq<real>)
    requires cfg.minInterval >= 0.0
    ensures Spaced(Granted(cfg, nextSlot, nows), cfg.minInterval)
    ensures forall i :: 0 <= i < |Granted(cfg, nextSlot, nows)| ==> Granted(cfg, nextSlot, nows)[i] >= nextSlot
    decreases |nows|
  {
    if nows != [] {
      GrantedSpaced(cfg, AfterReserve(nextSlot, cfg, nows[0]), nows[1..]);
    }
  }

  /** How many of `slots` fall in [from, to). */
  ghost function CountIn(slots: seq<real>, from: real, to: real): nat {
    if slots == [] then 0
    else (if from <= slots[0] < to then 1 else 0) + CountIn(slots[1..], from, to)
  }

  lemma {:induction false} CountFromLater(slots: seq<real>, from: real, later: real, to: real)
    requires from <= later && forall i :: 0 <= i < |slots| ==> slots[i] >= later
    ensures CountIn(slots, from, to) == CountIn(slots, later, to)
  {
    if slots != [] {
      CountFromLater(slots[1..], from, later, to);
    }
  }

  /** `n` intervals end to end. */
  ghost function Span(n: nat, interval: real): real {
    if n == 0 then 0.0 else Span(n - 1, interval) + interval
  }

  lemma {:induction false} SpanIsProduct(n: nat, interval: real)
    ensures Span(n, interval) == n as real * interval
  {
    if n > 0 {
      SpanIsProduct(n - 1, interval);
    }
  }

  lemma {:induction false} WindowFits(slots: seq<real>, interval: real, from: real, to: real)
    requires interval >= 0.0 && Spaced(slots, interval)
    ensures CountIn(slots, from, to) >= 1 ==> Span(CountIn(slots, from, to) - 1, interval) < to - from
  {
    if slots != [] {
      var x, rest := slots[0], slots[1..];
      assert Spaced(rest, interval);
      AllLater(slots, interval);
      if from <= x < to {
        CountFromLater(rest, from, x + interval, to);
        WindowFits(rest, interval, x + interval, to);
      } else {
        WindowFits(rest, interval, from, to);
      }
      CountFirst(slots, from, to);
      hide CountIn, Spaced;
    }
  }

  lemma AllLater(slots: seq<real>, interval: real)
    requires Spaced(slots, interval) && slots != []
    ensures forall i :: 0 <= i < |slots[1..]| ==> slots[1..][i] >= slots[0] + interval
  {
  }

  lemma CountFirst(slots: seq<real>, from: real, to: real)
    requires slots != []
    ensures CountIn(slots, from, to) == (if from <= slots[0] < to then 1 else 0) + CountIn(slots[1..], from, to)
  {
  }

  function Ceiling(x: real): int {
    if x == x.Floor as real then x.Floor else x.Floor + 1
  }

  /** Any half-open window of length `length` holds at most ceil(length / interval) slots. */
  lemma WindowBound(cfg: Config, nextSlot: real, nows: seq<real>, from: real, length: real)
    requires cfg.minInterval > 0.0 && length >= 0.0
    ensures CountIn(Granted(cfg, nextSlot, nows), from, from + length) <= Ceiling(length / cfg.minInterval)
  {
    hide *;
    var slots := Granted(cfg, nextSlot, nows);
    GrantedSpaced(cfg, nextSlot, nows);
    WindowFits(slots, cfg.minInterval, from, from + length);
    var n := CountIn(slots, from, from + length);
    if n >= 1 {
      SpanIsProduct(n - 1, cfg.minInterval);
      Quotient(length, cfg.minInterval);
      Cancel(n as real - 1.0, length / cfg.minInterval, cfg.minInterval);
      BelowCeiling(n, length / cfg.minInterval);
    } else {
      NonNegativeCeiling(length, cfg.minInterval);
    }
  }

  lemma Quotient(a: real, k: real)
    requires k > 0.0
    ensures a / k * k == a
  {
  }

  lemma AtMost(a: real, b: real, k: real)
    requires k > 0.0 && a * k <= b * k
    ensures a <= b
  {
  }

  lemma CeilingIs(x: real, c: int)
    requires (c - 1) as real < x <= c as real
    ensures Ceiling(x) == c
  {
  }

  lemma BelowCeiling(n: int, x: real)
    requires n as real - 1.0 < x
    ensures n <= Ceiling(x)
  {
  }

  lemma NonNegativeCeiling(a: real, k: real)
    requires a >= 0.0 && k > 0.0
    ensures Ceiling(a / k) >= 0
  {
    assert a / k >= 0.0;
  }

  lemma Cancel(a: real, b: real, k: real)
    requires k > 0.0 && a * k < b * k
    ensures a < b
  {
  }

  /** Callers that ask one interval apart. */
  ghost function Steady(from: real, interval: real, n: nat): seq<real>
    decreases n
  {
    if n == 0 then [] else [from] + Steady(from + interval, interval, n - 1)
  }

  lemma {:induction false} SteadyGranted(cfg: Config, nextSlot: real, from: real, n: nat)
    requires nextSlot <= from
    ensures Granted(cfg, nextSlot, Steady(from, cfg.minInterval, n)) == Steady(from, cfg.minInterval, n)
    decreases n
  {
    if n > 0 {
      SteadyGranted(cfg, from + cfg.minInterval, from + cfg.minInterval, n - 1);
    }
  }

  lemma {:induction false} SteadyCount(start: real, from: real, interval: real, n: nat, to: real)
    requires interval > 0.0 && start <= from && (n == 0 || from + (n - 1) as real * interval < to)
    ensures CountIn(Steady(from, interval, n), start, to) == n
    decreases n
  {
    if n > 0 {
      assert (n - 1) as real * interval >= 0.0;
      assert n >= 2 ==> (n - 2) as real * interval + interval == (n - 1) as real * interval;
      SteadyCount(start, from + interval, interval, n - 1, to);
    }
  }

  lemma SteadyFills(cfg: Config, length: real)
    requires cfg.minInterval > 0.0 && length > 0.0
    ensures Ceiling(length / cfg.minInterval) >= 0
    ensures CountIn(Steady(0.0, cfg.minInterval, Ceiling(length / cfg.minInterval)), 0.0, length)
         == Ceiling(length / cfg.minInterval)
  {
    var q := length / cfg.minInterval;
    var n := Ceiling(q);
    assert q * cfg.minInterval == length;
    assert q > 0.0;
    assert (n - 1) as real < q;
    assert (q - (n - 1) as real) * cfg.minInterval > 0.0;
    SteadyCount(0.0, 0.0, cfg.minInterval, n, length);
  }

  /** The bound is attained: callers one interval apart fill the window. */
  lemma WindowBoundAttained(cfg: Config, length: real)
    requires cfg.minInterval > 0.0 && length > 0.0
    ensures exists nows :: CountIn(Granted(cfg, 0.0, nows), 0.0, length) == Ceiling(length / cfg.minInterval)
  {
    hide Granted, CountIn, Steady;
    SteadyFills(cfg, length);
    var nows := Steady(0.0, cfg.minInterval, Ceiling(length / cfg.minInterval));
    SteadyGranted(cfg, 0.0, 0.0, Ceiling(length / cfg.minInterval));
    assert CountIn(Granted(cfg, 0.0, nows), 0.0, length) == Ceiling(length / cfg.minInterval);
  }

  // ---- Several workers ----

  /** The requests each worker's callers make; every worker keeps its own slot clock. */
  ghost function CombinedCount(cfg: Config, workers: seq<seq<real>>, from: real, to: real): nat {
    if workers == [] then 0
    else CountIn(Granted(cfg, 0.0, workers[0]), from, to) + CombinedCount(cfg, workers[1..], from, to)
  }

  function PeakPerMinute(w: int): int
    requires w >= 1
  {
    w * Ceiling(60.0 / (MIN_INTERVAL_SECONDS * w as real))
  }

  lemma {:induction false} CombinedBound(cfg: Config, workers: seq<seq<real>>, from: real)
    requires cfg.minInterval > 0.0
    ensures CombinedCount(cfg, workers, from, from + 60.0) <= |workers| * Ceiling(60.0 / cfg.minInterval)
  {
    if workers != [] {
      WindowBound(cfg, 0.0, workers[0], from, 60.0);
      CombinedBound(cfg, workers[1..], from);
    }
  }

  ghost function Replicated(nows: seq<real>, w: nat): seq<seq<real>> {
    if w == 0 then [] else [nows] + Replicated(nows, w - 1)
  }

  lemma {:induction false} ReplicatedCount(cfg: Config, nows: seq<real>, w: nat, to: real)
    ensures |Replicated(nows, w)| == w
    ensures CombinedCount(cfg, Replicated(nows, w), 0.0, to) == w * CountIn(Granted(cfg, 0.0, nows), 0.0, to)
  {
    if w > 0 {
      ReplicatedCount(cfg, nows, w - 1, to);
      assert Replicated(nows, w)[1..] == Replicated(nows, w - 1);
    }
  }

  /** `w` workers spaced 0.7 * w seconds each never have more than `PeakPerMinute(w)` slots in a
      minute together, and can have that many. */
  lemma WorkersPeak(cfg: Config, workers: seq<seq<real>>, from: real)
    requires |workers| >= 1 && cfg.minInterval == MIN_INTERVAL_SECONDS * |workers| as real
    ensures CombinedCount(cfg, workers, from, from + 60.0) <= PeakPerMinute(|workers|)
    ensures exists busy :: |busy| == |workers| && CombinedCount(cfg, busy, 0.0, 60.0) == PeakPerMinute(|workers|)
  {
    CombinedBound(cfg, workers, from);
    WindowBoundAttained(cfg, 60.0);
    var nows :| CountIn(Granted(cfg, 0.0, nows), 0.0, 60.0) == Ceiling(60.0 / cfg.minInterval);
    ReplicatedCount(cfg, nows, |workers|, 60.0);
  }

  ghost predicate SlotsWithin(cfg: Config, workers: seq<seq<real>>, from: real, limit: int) {
    CombinedCount(cfg, workers, from, from + 60.0) <= limit
  }

  /** Whatever their callers do, `w` workers keep to `limit` slots in every minute. */
  ghost predicate KeepsTo(w: nat, limit: int) {
    forall cfg: Config, workers: seq<seq<real>>, from: real ::
      |workers| == w && cfg.minInterval == MIN_INTERVAL_SECONDS * w as real ==>
        SlotsWithin(cfg, workers, from, limit)
  }

  /** The peak is exact: a limit is kept exactly when the peak is within it. */
  lemma KeepsToIff(w: nat, limit: int)
    requires w >= 1
    ensures KeepsTo(w, limit) <==> PeakPerMinute(w) <= limit
  {
    hide PeakPerMinute, CombinedCount, Granted;
    forall cfg: Config, workers: seq<seq<real>>, from: real
      | |workers| == w && cfg.minInterval == MIN_INTERVAL_SECONDS * w as real
      ensures PeakPerMinute(w) <= limit ==> SlotsWithin(cfg, workers, from, limit)
    {
      WorkersPeak(cfg, workers, from);
    }
    if KeepsTo(w, limit) {
      var cfg := Config(MIN_INTERVAL_SECONDS * w as real, 1, 0.0, 0);
      var idle := Replicated([], w);
      ReplicatedCount(cfg, [], w, 60.0);
      WorkersPeak(cfg, idle, 0.0);
      var busy :| |busy| == |idle| && CombinedCount(cfg, busy, 0.0, 60.0) == PeakPerMinute(|idle|);
      assert SlotsWithin(cfg, busy, 0.0, limit);
    }
  }

  /** Each of `w` workers has `c` slots in a full minute. */
  lemma PeakIs(w: int, c: int)
    requires w >= 1 && 7 * ((c - 1) * w) < 600 <= 7 * (c * w)
    ensures PeakPerMinute(w) == w * c
  {
    hide PeakPerMinute, Ceiling;
    var k := MIN_INTERVAL_SECONDS * w as real;
    var x := 60.0 / k;
    Quotient(60.0, k);
    Scaled(w, c - 1, k);
    Scaled(w, c, k);
    Bracket((c - 1) as real, x, c as real, k, 60.0, 0.7 * ((c - 1) * w) as real, 0.7 * (c * w) as real);
    CeilingIs(x, c);
    PeakOf(w, k, x);
  }

  lemma PeakOf(w: int, k: real, x: real)
    requires w >= 1 && k == MIN_INTERVAL_SECONDS * w as real && x == 60.0 / k
    ensures PeakPerMinute(w) == w * Ceiling(x)
  {
    hide Ceiling;
  }

  lemma Scaled(w: int, c: int, k: real)
    requires k == MIN_INTERVAL_SECONDS * w as real
    ensures c as real * k == 0.7 * (c * w) as real
  {
    assert c as real * w as real == (c * w) as real;
  }

  lemma Bracket(a: real, x: real, b: real, k: real, s: real, low: real, high: real)
    requires k > 0.0 && a * k == low < s <= high == b * k && x * k == s
    ensures a < x <= b
  {
    Cancel(a, x, k);
    AtMost(x, b, k);
  }

  /** Slots per worker and minute, by the number of workers. */
  function PerWorker(w: int): int
    requires w >= 1
  {
    if w >= 86 then 1 else if w >= 43 then 2 else if w >= 29 then 3 else if w >= 22 then 4
    else if w >= 18 then 5 else if w >= 15 then 6 else if w >= 13 then 7 else if w >= 11 then 8
    else if w == 10 then 9 else if w == 9 then 10 else if w == 8 then 11 else if w == 7 then 13
    else if w == 6 then 15 else if w == 5 then 18 else if w == 4 then 22 else if w == 3 then 29
    else if w == 2 then 43 else 86
  }

  lemma PeakTable(w: int)
    requires w >= 1
    ensures PeakPerMinute(w) == w * PerWorker(w)
  {
    PeakIs(w, PerWorker(w));
  }

  /** The worker counts whose combined slots stay within the upstream's limit of 100 a minute. */
  predicate WithinUpstreamLimit(w: int) {
    1 <= w <= 16 || 18 <= w <= 20 || 22 <= w <= 25 || 29 <= w <= 33 || 43 <= w <= 50 || 86 <= w <= 100
  }
}
