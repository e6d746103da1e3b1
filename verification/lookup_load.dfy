/** Callers that keep the client as busy as its slots allow: one lookup after the other, each of a
    new product and each finished before the next begins. */
module LookupLoad {
  import opened Options
  import opened OrderedDicts
  import opened LookupClient
  import opened LookupProtocol
  import opened LookupRuns
  import opened DecimalText
  import SlotClock

  /** When the exchanges with the upstream happen. */
  ghost function Reads<V>(events: seq<Event<V>>): seq<real>
    decreases |events|
  {
    if events == [] then []
    else (if events[0].action.Fetch? then [events[0].at] else []) + Reads(events[1..])
  }

  /** The n-th product looked up, a barcode of its own. */
  function Barcode(n: nat): string {
    Decimal(1000000 + n)
  }

  lemma BarcodesDiffer(m: nat, n: nat)
    requires Barcode(m) == Barcode(n)
    ensures m == n
  {
    DecimalValue(1000000 + m);
    DecimalValue(1000000 + n);
  }

  /** A whole call at one moment: let in, given a permit and the present slot, answered "not in the
      database", and done. */
  function WholeCall<V>(n: nat, at: real): seq<Event<V>> {
    [Event(n, Enter(Barcode(n)), at), Event(n, Acquire, at), Event(n, Action.Reserve, at),
     Event(n, Fetch(Fetched(None)), at), Event(n, Action.RecordSuccess, at), Event(n, Action.Store, at),
     Event(n, Action.Release, at), Event(n, End, at)]
  }

  /** `n` calls are done, none failed, and the next one at `at` will have its slot at once. */
  ghost predicate Resting<V>(cfg: Config, s: System<V>, n: nat, at: real) {
    && WellFormed(s, cfg) && s.now <= at && s.client.nextSlot <= at
    && s.client.failed.items == map[] && !s.client.breakerOpen && !s.client.probing && s.client.failures == 0
    && s.client.permits == cfg.maxInFlight
    && (forall id :: id in s.calls ==> id < n)
    && (forall k :: k in s.client.cache.items ==> exists m :: 0 <= m < n && k == Barcode(m))
  }

  lemma LetIn<V>(cfg: Config, s: System<V>, n: nat, at: real)
    requires Resting(cfg, s, n, at)
    ensures var e := Event(n, Enter(Barcode(n)), at);
      && Enabled(s, e)
      && Next(cfg, s, e) == System(s.client, s.calls[n := Call(Barcode(n), false, Acquiring)], at)
  {
    if Barcode(n) in s.client.cache.items {
      var m :| 0 <= m < n && Barcode(n) == Barcode(m);
      BarcodesDiffer(m, n);
    }
    hide Barcode, Consistent;
  }

  /** The state of the client and of call `n` among the others, between two steps of the call. */
  ghost function During<V>(c: ClientState<V>, calls: map<nat, Call<V>>, n: nat, pc: Pc<V>, at: real): System<V> {
    System(c, calls[n := Call(Barcode(n), false, pc)], at)
  }

  lemma TakesAPermit<V>(cfg: Config, c: ClientState<V>, calls: map<nat, Call<V>>, n: nat, at: real)
    requires Consistent(c, cfg) && c.permits > 0
    ensures var s, e := During(c, calls, n, Acquiring, at), Event(n, Acquire, at);
      var d := c.(permits := c.permits - 1);
      Consistent(d, cfg) && Enabled(s, e) && Next(cfg, s, e) == During(d, calls, n, Reserving, at)
  {
    hide Barcode;
    assert calls[n := Call(Barcode(n), false, Acquiring)][n := Call(Barcode(n), false, Reserving)]
        == calls[n := Call(Barcode(n), false, Reserving)];
  }

  lemma TakesItsSlot<V>(cfg: Config, c: ClientState<V>, calls: map<nat, Call<V>>, n: nat, at: real)
    requires Consistent(c, cfg) && c.nextSlot <= at
    ensures var s, e := During(c, calls, n, Reserving, at), Event(n, Action.Reserve, at);
      var d := c.(nextSlot := at + cfg.minInterval);
      && Consistent(d, cfg) && Enabled(s, e) && CallAfter(s, e).pc.Fetching? && Slot(c.nextSlot, at) == at
      && Next(cfg, s, e) == During(d, calls, n, Fetching, at)
  {
    hide Barcode;
    assert calls[n := Call(Barcode(n), false, Reserving)][n := Call(Barcode(n), false, Fetching)]
        == calls[n := Call(Barcode(n), false, Fetching)];
  }

  lemma IsAnswered<V>(cfg: Config, c: ClientState<V>, calls: map<nat, Call<V>>, n: nat, at: real)
    requires Consistent(c, cfg) && !c.breakerOpen && c.failures == 0
    ensures var s, e := During(c, calls, n, Fetching, at), Event(n, Fetch(Fetched(None)), at);
      Enabled(s, e) && Next(cfg, s, e) == During(c, calls, n, RecordingSuccess(None), at)
    ensures var s, e := During(c, calls, n, RecordingSuccess(None), at), Event(n, Action.RecordSuccess, at);
      Enabled(s, e) && Next(cfg, s, e) == During(c, calls, n, Storing(None), at)
  {
    hide Barcode, Consistent;
    assert calls[n := Call(Barcode(n), false, Fetching)][n := Call(Barcode(n), false, RecordingSuccess(None))]
        == calls[n := Call(Barcode(n), false, RecordingSuccess(None))];
    assert calls[n := Call(Barcode(n), false, RecordingSuccess(None))][n := Call(Barcode(n), false, Storing(None))]
        == calls[n := Call(Barcode(n), false, Storing(None))];
  }

  lemma StoresTheAnswer<V>(cfg: Config, c: ClientState<V>, calls: map<nat, Call<V>>, n: nat, at: real)
    requires Consistent(c, cfg)
    ensures var s, e := During(c, calls, n, Storing(None), at), Event(n, Action.Store, at);
      var d := c.(cache := AfterPut(c.cache, cfg, Barcode(n), at, None));
      && Consistent(d, cfg) && Enabled(s, e) && Next(cfg, s, e) == During(d, calls, n, Releasing, at)
    ensures forall k :: k in AfterPut(c.cache, cfg, Barcode(n), at, None).items ==> k == Barcode(n) || k in c.cache.items
  {
    hide Barcode, AfterPut;
    PutFits(cfg, c.cache, Barcode(n), at);
    assert calls[n := Call(Barcode(n), false, Storing(None))][n := Call(Barcode(n), false, Releasing)]
        == calls[n := Call(Barcode(n), false, Releasing)];
  }

  lemma PutFits<V>(cfg: Config, cache: OrderedDict<Cached<V>>, key: string, at: real)
    requires cache.Valid()
    ensures var d := AfterPut(cache, cfg, key, at, None);
      && d.Valid() && |d.order| <= cfg.maxEntries
      && (forall k :: k in d.items ==> k == key || k in cache.items)
  {
    hide NoDuplicates, Without, Newest;
    var entry := Cached(at + cfg.cacheTtl, None);
    NewestAssigned(cache, key, entry);
    NewestKept(cache.Assign(key, entry).MoveToEnd(key), cfg.maxEntries);
  }

  lemma NewestAssigned<V>(cache: OrderedDict<Cached<V>>, key: string, entry: Cached<V>)
    requires cache.Valid()
    ensures var d := cache.Assign(key, entry).MoveToEnd(key);
      d.Valid() && forall k :: k in d.items ==> k == key || k in cache.items
  {
    hide NoDuplicates, Without;
    cache.AssignValid(key, entry);
    cache.Assign(key, entry).MoveToEndValid(key);
  }

  lemma GivesItBack<V>(cfg: Config, c: ClientState<V>, calls: map<nat, Call<V>>, n: nat, at: real)
    requires Consistent(c, cfg) && c.permits < cfg.maxInFlight
    ensures var s, e := During(c, calls, n, Releasing, at), Event(n, Action.Release, at);
      var d := c.(permits := c.permits + 1);
      Consistent(d, cfg) && Enabled(s, e) && Next(cfg, s, e) == During(d, calls, n, Ending, at)
  {
    hide Barcode;
    assert calls[n := Call(Barcode(n), false, Releasing)][n := Call(Barcode(n), false, Ending)]
        == calls[n := Call(Barcode(n), false, Ending)];
  }

  lemma Ends<V>(cfg: Config, c: ClientState<V>, calls: map<nat, Call<V>>, n: nat, at: real)
    requires Consistent(c, cfg)
    ensures var s, e := During(c, calls, n, Ending, at), Event(n, End, at);
      Enabled(s, e) && Next(cfg, s, e) == During(c, calls, n, Done, at)
  {
    hide Barcode, Consistent;
    assert calls[n := Call(Barcode(n), false, Ending)][n := Call(Barcode(n), false, Done)]
        == calls[n := Call(Barcode(n), false, Done)];
  }

  /** A run from `s` to `t` that has these slots and these exchanges. */
  ghost predicate Goes<V>(cfg: Config, s: System<V>, events: seq<Event<V>>, t: System<V>, slots: seq<real>, fetched: seq<real>) {
    && IsRun(cfg, s, events) && Final(cfg, s, events) == t
    && Slots(cfg, s, events) == slots && Reads(events) == fetched
  }

  /** The slot and the exchange a step itself brings. */
  ghost function FirstSlot<V>(s: System<V>, e: Event<V>): seq<real>
    requires Enabled(s, e)
  {
    if e.action.Reserve? && CallAfter(s, e).pc.Fetching? then [Slot(s.client.nextSlot, e.at)] else []
  }

  ghost function FirstRead<V>(e: Event<V>): seq<real> {
    if e.action.Fetch? then [e.at] else []
  }

  lemma FirstThen<V>(cfg: Config, s: System<V>, e: Event<V>, rest: seq<Event<V>>, t: System<V>, slots: seq<real>,
                     fetched: seq<real>)
    requires WellFormed(s, cfg) && Enabled(s, e) && Goes(cfg, Next(cfg, s, e), rest, t, slots, fetched)
    ensures Goes(cfg, s, [e] + rest, t, FirstSlot(s, e) + slots, FirstRead(e) + fetched)
    ensures FirstSlot(s, e) == [] ==> FirstSlot(s, e) + slots == slots
    ensures FirstRead(e) == [] ==> FirstRead(e) + fetched == fetched
  {
    hide Enabled, Next, WellFormed, CallAfter, Slot;
    var events := [e] + rest;
    assert events[0] == e && events[1..] == rest;
  }

  lemma NoMore<V>(cfg: Config, s: System<V>)
    ensures Goes(cfg, s, [], s, [], [])
  {
  }

  /** From the exchange to the end of the call. */
  lemma SecondHalf<V>(cfg: Config, c: ClientState<V>, calls: map<nat, Call<V>>, n: nat, at: real)
    requires Consistent(c, cfg) && !c.breakerOpen && c.failures == 0 && c.permits < cfg.maxInFlight
    ensures var d := c.(cache := AfterPut(c.cache, cfg, Barcode(n), at, None), permits := c.permits + 1);
      && Consistent(d, cfg)
      && Goes(cfg, During(c, calls, n, Fetching, at), WholeCall(n, at)[3..], During(d, calls, n, Done, at), [], [at])
    ensures forall k :: k in AfterPut(c.cache, cfg, Barcode(n), at, None).items ==> k == Barcode(n) || k in c.cache.items
  {
    hide Barcode, AfterPut, Consistent, Goes, Next, Enabled, CallAfter;
    var d := c.(cache := AfterPut(c.cache, cfg, Barcode(n), at, None));
    var f := d.(permits := d.permits + 1);
    IsAnswered(cfg, c, calls, n, at);
    StoresTheAnswer(cfg, c, calls, n, at);
    GivesItBack(cfg, d, calls, n, at);
    LeavesThen(cfg, d, calls, n, at);
    hide WholeCall;
    var events: seq<Event<V>> := WholeCall(n, at);
    var done := During(f, calls, n, Done, at);
    FirstThen(cfg, During(c, calls, n, Storing(None), at), events[5], events[6..], done, [], []);
    FirstThen(cfg, During(c, calls, n, RecordingSuccess(None), at), events[4], [events[5]] + events[6..], done, [], []);
    FirstThen(cfg, During(c, calls, n, Fetching, at), events[3], [events[4]] + ([events[5]] + events[6..]), done, [], []);
    assert [events[3]] + ([events[4]] + ([events[5]] + events[6..])) == events[3..];
    assert [at] + [] == [at];
  }

  /** The permit goes back and the call ends. */
  lemma LeavesThen<V>(cfg: Config, d: ClientState<V>, calls: map<nat, Call<V>>, n: nat, at: real)
    requires Consistent(d, cfg) && d.permits < cfg.maxInFlight
    ensures var f := d.(permits := d.permits + 1);
      Goes(cfg, During(d, calls, n, Releasing, at), WholeCall(n, at)[6..], During(f, calls, n, Done, at), [], [])
  {
    hide Barcode, Consistent, Goes, Next, Enabled, CallAfter;
    var f := d.(permits := d.permits + 1);
    GivesItBack(cfg, d, calls, n, at);
    Ends(cfg, f, calls, n, at);
    var events: seq<Event<V>> := WholeCall(n, at);
    var done := During(f, calls, n, Done, at);
    NoMore(cfg, done);
    FirstThen(cfg, During(f, calls, n, Ending, at), events[7], [], done, [], []);
    assert [events[7]] + [] == [events[7]];
    FirstThen(cfg, During(d, calls, n, Releasing, at), events[6], [events[7]], done, [], []);
    assert [events[6]] + [events[7]] == events[6..];
  }

  /** The call keeps the client resting: one slot and one exchange, both at `at`. */
  lemma OneCall<V>(cfg: Config, s: System<V>, n: nat, at: real) returns (t: System<V>)
    requires Resting(cfg, s, n, at) && cfg.maxInFlight > 0 && cfg.minInterval >= 0.0
    ensures Goes(cfg, s, WholeCall(n, at), t, [at], [at])
    ensures Resting(cfg, t, n + 1, at + cfg.minInterval) && t.client.nextSlot == at + cfg.minInterval
  {
    hide AfterPut, Barcode, Consistent;
    var c := s.client;
    var c1 := c.(permits := c.permits - 1);
    var c2 := c1.(nextSlot := at + cfg.minInterval);
    var c3 := c2.(cache := AfterPut(c2.cache, cfg, Barcode(n), at, None), permits := c2.permits + 1);
    t := During(c3, s.calls, n, Done, at);
    FirstHalf(cfg, s, n, at);
    TakesAPermit(cfg, c, s.calls, n, at);
    TakesItsSlot(cfg, c1, s.calls, n, at);
    SecondHalf(cfg, c2, s.calls, n, at);
    RestsAgain(cfg, s, c3, n, at);
    hide Goes, Resting, WholeCall;
    var events: seq<Event<V>> := WholeCall(n, at);
    RunsJoin(cfg, s, events[..3], During(c2, s.calls, n, Fetching, at), [at], [], events[3..], t, [], [at]);
    assert events[..3] + events[3..] == events && [at] + [] == [at] && [] + [at] == [at];
  }

  /** From the entry to the exchange. */
  lemma FirstHalf<V>(cfg: Config, s: System<V>, n: nat, at: real)
    requires Resting(cfg, s, n, at) && cfg.maxInFlight > 0
    ensures var c := s.client.(permits := s.client.permits - 1, nextSlot := at + cfg.minInterval);
      Goes(cfg, s, WholeCall(n, at)[..3], During(c, s.calls, n, Fetching, at), [at], [])
  {
    hide Barcode, Consistent;
    var c := s.client;
    var c1 := c.(permits := c.permits - 1);
    var c2 := c1.(nextSlot := at + cfg.minInterval);
    LetIn(cfg, s, n, at);
    TakesAPermit(cfg, c, s.calls, n, at);
    TakesItsSlot(cfg, c1, s.calls, n, at);
    hide Goes, Next, Enabled, CallAfter, Slot, Resting;
    var events: seq<Event<V>> := WholeCall(n, at);
    var t := During(c2, s.calls, n, Fetching, at);
    NoMore(cfg, t);
    FirstThen(cfg, During(c1, s.calls, n, Reserving, at), events[2], [], t, [], []);
    FirstThen(cfg, During(c, s.calls, n, Acquiring, at), events[1], [events[2]] + [], t, [at] + [], []);
    FirstThen(cfg, s, events[0], [events[1]] + ([events[2]] + []), t, [at] + [], []);
    assert [events[0]] + ([events[1]] + ([events[2]] + [])) == events[..3] && [at] + [] == [at];
  }

  lemma RestsAgain<V>(cfg: Config, s: System<V>, d: ClientState<V>, n: nat, at: real)
    requires Resting(cfg, s, n, at) && cfg.minInterval >= 0.0 && Consistent(d, cfg)
    requires d == s.client.(nextSlot := at + cfg.minInterval, cache := d.cache)
    requires forall k :: k in d.cache.items ==> k == Barcode(n) || k in s.client.cache.items
    ensures Resting(cfg, During(d, s.calls, n, Done, at), n + 1, at + cfg.minInterval)
  {
    hide Barcode, Consistent;
  }

  lemma {:induction false} RunsJoin<V>(cfg: Config, s: System<V>, a: seq<Event<V>>, t: System<V>, x: seq<real>, p: seq<real>,
                                       b: seq<Event<V>>, u: System<V>, y: seq<real>, q: seq<real>)
    requires Goes(cfg, s, a, t, x, p) && Goes(cfg, t, b, u, y, q)
    ensures Goes(cfg, s, a + b, u, x + y, p + q)
    decreases |a|
  {
    hide *;
    if a == [] {
      Stays(cfg, s, t, x, p);
      assert a + b == b && x + y == y && p + q == q;
    } else {
      var next, slot, fetch, x', p' := Split(cfg, s, a, t, x, p);
      RunsJoin(cfg, next, a[1..], t, x', p', b, u, y, q);
      FirstThen(cfg, s, a[0], a[1..] + b, u, x' + y, p' + q);
      assert [a[0]] + (a[1..] + b) == a + b;
      assert slot + (x' + y) == x + y && fetch + (p' + q) == p + q;
    }
  }

  lemma Stays<V>(cfg: Config, s: System<V>, t: System<V>, slots: seq<real>, fetched: seq<real>)
    requires Goes(cfg, s, [], t, slots, fetched)
    ensures t == s && slots == [] && fetched == []
  {
  }

  /** The first step of a run and the rest of it. */
  lemma Split<V>(cfg: Config, s: System<V>, a: seq<Event<V>>, t: System<V>, x: seq<real>, p: seq<real>)
    returns (next: System<V>, slot: seq<real>, fetch: seq<real>, x': seq<real>, p': seq<real>)
    requires Goes(cfg, s, a, t, x, p) && a != []
    ensures WellFormed(s, cfg) && Enabled(s, a[0]) && next == Next(cfg, s, a[0]) && Goes(cfg, next, a[1..], t, x', p')
    ensures slot == FirstSlot(s, a[0]) && fetch == FirstRead(a[0]) && slot + x' == x && fetch + p' == p
  {
    hide Enabled, Next, WellFormed, CallAfter, Slot;
    next := Next(cfg, s, a[0]);
    slot, fetch := FirstSlot(s, a[0]), FirstRead(a[0]);
    x', p' := Slots(cfg, next, a[1..]), Reads(a[1..]);
  }

  /** `n` calls one interval apart, from `at` on: each has its slot and its exchange at once. */
  lemma {:induction false} BusyFrom<V>(cfg: Config, s: System<V>, k: nat, at: real, n: nat)
    returns (events: seq<Event<V>>, t: System<V>)
    requires Resting(cfg, s, k, at) && cfg.maxInFlight > 0 && cfg.minInterval >= 0.0
    ensures Goes(cfg, s, events, t, SlotClock.Steady(at, cfg.minInterval, n), SlotClock.Steady(at, cfg.minInterval, n))
    decreases n
  {
    hide Goes, Resting, WholeCall;
    if n == 0 {
      events, t := [], s;
      NoMore(cfg, s);
    } else {
      var u := OneCall(cfg, s, k, at);
      var rest: seq<Event<V>>;
      rest, t := BusyFrom(cfg, u, k + 1, at + cfg.minInterval, n - 1);
      var later := SlotClock.Steady(at + cfg.minInterval, cfg.minInterval, n - 1);
      RunsJoin(cfg, s, WholeCall(k, at), u, [at], [at], rest, t, later, later);
      events := WholeCall(k, at) + rest;
    }
  }

  /** A whole run of one client, with at least one permit, whose slots and exchanges fill a window
      of any length to the bound. */
  lemma BusyRun<V>(cfg: Config, length: real) returns (events: seq<Event<V>>)
    requires cfg.minInterval > 0.0 && length > 0.0 && cfg.maxInFlight > 0
    ensures IsRun(cfg, Fresh(cfg, 0.0), events)
    ensures Reads(events) == Slots(cfg, Fresh(cfg, 0.0), events)
    ensures SlotClock.CountIn(Reads(events), 0.0, length) == SlotClock.Ceiling(length / cfg.minInterval)
  {
    hide IsRun, Final, Slots, Reads, SlotClock.Steady, SlotClock.CountIn, SlotClock.Ceiling;
    SlotClock.SteadyFills(cfg, length);
    var s: System<V>;
    events, s := BusyFrom(cfg, Fresh(cfg, 0.0), 0, 0.0, SlotClock.Ceiling(length / cfg.minInterval));
  }

  // ---- Several worker processes ----

  /** A process with its own client: when it starts and the run its callers make. */
  datatype Process<V> = Process(start: real, events: seq<Event<V>>)

  ghost predicate AreRuns<V>(cfg: Config, processes: seq<Process<V>>) {
    forall p :: p in processes ==> IsRun(cfg, Fresh(cfg, p.start), p.events)
  }

  /** The slots all processes together give out in [from, to). */
  ghost function CombinedSlots<V>(cfg: Config, processes: seq<Process<V>>, from: real, to: real): nat
    requires AreRuns(cfg, processes)
  {
    if processes == [] then 0
    else SlotClock.CountIn(Slots(cfg, Fresh(cfg, processes[0].start), processes[0].events), from, to)
         + CombinedSlots(cfg, processes[1..], from, to)
  }

  /** The exchanges they make in [from, to). */
  ghost function CombinedReads<V>(processes: seq<Process<V>>, from: real, to: real): nat {
    if processes == [] then 0
    else SlotClock.CountIn(Reads(processes[0].events), from, to) + CombinedReads(processes[1..], from, to)
  }

  lemma {:induction false} CombinedSlotsBound<V>(cfg: Config, processes: seq<Process<V>>, from: real)
    requires cfg.minInterval > 0.0 && AreRuns(cfg, processes)
    ensures CombinedSlots(cfg, processes, from, from + 60.0) <= |processes| * SlotClock.Ceiling(60.0 / cfg.minInterval)
  {
    hide IsRun, Slots, SlotClock.CountIn, SlotClock.Ceiling, Fresh;
    if processes != [] {
      assert processes[0] in processes && forall p :: p in processes[1..] ==> p in processes;
      EveryRunSpacesSlots(cfg, processes[0].start, processes[0].events, from, 60.0);
      CombinedSlotsBound(cfg, processes[1..], from);
      OneMore(|processes[1..]|, SlotClock.Ceiling(60.0 / cfg.minInterval));
    }
  }

  lemma OneMore(n: nat, c: int)
    ensures (n + 1) * c == c + n * c
  {
  }

  function Copies<V>(p: Process<V>, w: nat): seq<Process<V>> {
    if w == 0 then [] else [p] + Copies(p, w - 1)
  }

  lemma {:induction false} CopiesCount<V>(cfg: Config, p: Process<V>, w: nat, to: real)
    requires IsRun(cfg, Fresh(cfg, p.start), p.events) && Reads(p.events) == Slots(cfg, Fresh(cfg, p.start), p.events)
    ensures |Copies(p, w)| == w && AreRuns(cfg, Copies(p, w))
    ensures CombinedReads(Copies(p, w), 0.0, to) == w * SlotClock.CountIn(Reads(p.events), 0.0, to)
    ensures CombinedSlots(cfg, Copies(p, w), 0.0, to) == CombinedReads(Copies(p, w), 0.0, to)
  {
    hide IsRun, Slots, Reads, SlotClock.CountIn, Fresh;
    if w > 0 {
      CopiesCount(cfg, p, w - 1, to);
      assert Copies(p, w)[1..] == Copies(p, w - 1);
    }
  }

  ghost predicate MinuteWithin<V>(cfg: Config, processes: seq<Process<V>>, from: real, limit: int) {
    AreRuns(cfg, processes) ==> CombinedSlots(cfg, processes, from, from + 60.0) <= limit
  }

  /** Whatever their callers do, `w` processes spaced by their number keep to `limit` slots in every
      minute. */
  ghost predicate RunsKeepTo<V(!new)>(cfg: Config, w: nat, limit: int) {
    forall processes: seq<Process<V>>, from: real ::
      |processes| == w ==> MinuteWithin(cfg, processes, from, limit)
  }

  /** Processes that reach the peak, exchange by exchange. */
  lemma BusyMinute<V>(cfg: Config, w: nat) returns (busy: seq<Process<V>>)
    requires w >= 1 && cfg.maxInFlight > 0 && cfg.minInterval == SlotClock.MIN_INTERVAL_SECONDS * w as real
    ensures |busy| == w && AreRuns(cfg, busy)
    ensures CombinedReads(busy, 0.0, 60.0) == CombinedSlots(cfg, busy, 0.0, 60.0) == SlotClock.PeakPerMinute(w)
  {
    hide IsRun, Slots, Reads, AreRuns, CombinedSlots, CombinedReads, SlotClock.CountIn, SlotClock.Ceiling;
    var events: seq<Event<V>> := BusyRun(cfg, 60.0);
    busy := Copies(Process(0.0, events), w);
    CopiesCount(cfg, Process(0.0, events), w, 60.0);
  }

  /** The limits `w` processes keep to over every run of their calls are exactly those from the peak
      on. */
  lemma RunsKeepToIff<V(!new)>(cfg: Config, w: nat, limit: int)
    requires w >= 1 && cfg.maxInFlight > 0 && cfg.minInterval == SlotClock.MIN_INTERVAL_SECONDS * w as real
    ensures RunsKeepTo<V>(cfg, w, limit) <==> SlotClock.PeakPerMinute(w) <= limit
  {
    hide IsRun, Slots, Reads, AreRuns, CombinedSlots, CombinedReads, SlotClock.Ceiling;
    forall processes: seq<Process<V>>, from: real | |processes| == w
      ensures SlotClock.PeakPerMinute(w) <= limit ==> MinuteWithin(cfg, processes, from, limit)
    {
      if AreRuns(cfg, processes) {
        CombinedSlotsBound(cfg, processes, from);
      }
    }
    var busy: seq<Process<V>> := BusyMinute(cfg, w);
    assert MinuteWithin(cfg, busy, 0.0, limit) <==> SlotClock.PeakPerMinute(w) <= limit;
  }

  /** The documented budget, for every number of processes and over every run of their calls: 100
      slots a minute are kept exactly by the counts of `WithinUpstreamLimit`, 86 only by 1, 2, 43
      and 86 processes, and 85 by none. */
  lemma DocumentedBudget<V(!new)>(cfg: Config, w: nat)
    requires w >= 1 && cfg.maxInFlight > 0 && cfg.minInterval == SlotClock.MIN_INTERVAL_SECONDS * w as real
    ensures RunsKeepTo<V>(cfg, w, 100) <==> SlotClock.WithinUpstreamLimit(w)
    ensures RunsKeepTo<V>(cfg, w, 86) <==> w == 1 || w == 2 || w == 43 || w == 86
    ensures !RunsKeepTo<V>(cfg, w, 85)
  {
    hide RunsKeepTo, SlotClock.PeakPerMinute;
    RunsKeepToIff<V>(cfg, w, 100);
    RunsKeepToIff<V>(cfg, w, 86);
    RunsKeepToIff<V>(cfg, w, 85);
    SlotClock.PeakTable(w);
  }
}
