/** Any number of `by_barcode` calls running at once, one atomic step per critical section,
    permit operation or upstream exchange, in any order. */
module LookupProtocol {
  import opened Options
  import opened OrderedDicts
  import opened LookupClient
  import LookupCache

  /** How an exchange with the upstream ends. `Crash` is an exception the caller does not
      record, such as a thread that cannot be started. */
  datatype Outcome<V> = Fetched(answer: Option<V>) | Outage | Unusable | Crash

  /** Where a call is: what it will do next. */
  datatype Pc<V> =
    | Acquiring
    | Reserving
    | Fetching
    | RecordingFailure(outage: bool)
    | RecordingSuccess(answer: Option<V>)
    | Storing(answer: Option<V>)
    | Releasing
    | Ending
    | Done

  datatype Call<V> = Call(key: string, probe: bool, pc: Pc<V>)

  datatype System<V> = System(client: ClientState<V>, calls: map<nat, Call<V>>, now: real)

  datatype Action<V> =
    | Enter(key: string)
    | Acquire
    | Reserve
    | Fetch(outcome: Outcome<V>)
    | RecordFailure
    | RecordSuccess
    | Store
    | Release
    | End

  /** Call `id` takes `action` at time `at`. */
  datatype Event<V> = Event(id: nat, action: Action<V>, at: real)

  predicate Enabled<V>(s: System<V>, e: Event<V>) {
    && s.now <= e.at
    && match e.action
       case Enter(_) => e.id !in s.calls
       case Acquire => e.id in s.calls && s.calls[e.id].pc.Acquiring?
       case Reserve => e.id in s.calls && s.calls[e.id].pc.Reserving?
       case Fetch(_) => e.id in s.calls && s.calls[e.id].pc.Fetching?
       case RecordFailure => e.id in s.calls && s.calls[e.id].pc.RecordingFailure?
       case RecordSuccess => e.id in s.calls && s.calls[e.id].pc.RecordingSuccess?
       case Store => e.id in s.calls && s.calls[e.id].pc.Storing?
       case Release => e.id in s.calls && s.calls[e.id].pc.Releasing?
       case End => e.id in s.calls && s.calls[e.id].pc.Ending?
  }

  ghost predicate WellFormed<V>(s: System<V>, cfg: Config) {
    Consistent(s.client, cfg)
  }

  /** What the step does to the client. */
  ghost function ClientAfter<V>(cfg: Config, s: System<V>, e: Event<V>): ClientState<V>
    requires WellFormed(s, cfg) && Enabled(s, e)
  {
    var c := s.client;
    match e.action
    case Enter(key) => AfterAdmit(c, key, e.at)
    case Acquire => if c.permits > 0 then c.(permits := c.permits - 1) else c
    case Reserve => c.(nextSlot := AfterReserve(c.nextSlot, cfg, e.at))
    case Fetch(_) => c
    case RecordFailure =>
      var call := s.calls[e.id];
      AfterRecordFailure(c, cfg, call.key, call.pc.outage, call.probe, e.at)
    case RecordSuccess => AfterRecordSuccess(c)
    case Store => c.(cache := AfterPut(c.cache, cfg, s.calls[e.id].key, e.at, s.calls[e.id].pc.answer))
    case Release => c.(permits := c.permits + 1)
    case End => if s.calls[e.id].probe then c.(probing := false) else c
  }

  /** Where the step leaves the call. */
  ghost function CallAfter<V>(s: System<V>, e: Event<V>): Call<V>
    requires Enabled(s, e)
  {
    match e.action
    case Enter(key) =>
      var a := Admit(s.client, key, e.at);
      Call(key, a == Admitted(true), if a.Admitted? then Acquiring else Done)
    case Acquire => s.calls[e.id].(pc := if s.client.permits > 0 then Reserving else Ending)
    case Reserve => s.calls[e.id].(pc := if Grants(s.client.nextSlot, e.at) then Fetching else Releasing)
    case Fetch(outcome) =>
      s.calls[e.id].(pc := match outcome
                           case Fetched(answer) => RecordingSuccess(answer)
                           case Outage => RecordingFailure(true)
                           case Unusable => RecordingFailure(false)
                           case Crash => Releasing)
    case RecordFailure => s.calls[e.id].(pc := Releasing)
    case RecordSuccess => s.calls[e.id].(pc := Storing(s.calls[e.id].pc.answer))
    case Store => s.calls[e.id].(pc := Releasing)
    case Release => s.calls[e.id].(pc := Ending)
    case End => s.calls[e.id].(pc := Done)
  }

  ghost function Next<V>(cfg: Config, s: System<V>, e: Event<V>): System<V>
    requires WellFormed(s, cfg) && Enabled(s, e)
  {
    System(ClientAfter(cfg, s, e), s.calls[e.id := CallAfter(s, e)], e.at)
  }

  // ---- The invariant ----

  predicate HoldsPermit<V>(call: Call<V>) {
    !call.pc.Acquiring? && !call.pc.Ending? && !call.pc.Done?
  }

  /** An admitted probe that has not finished. */
  predicate IsProber<V>(call: Call<V>) {
    call.probe && !call.pc.Done?
  }

  ghost function Holders<V>(calls: map<nat, Call<V>>): set<nat> {
    set id | id in calls && HoldsPermit(calls[id])
  }

  ghost function Probers<V>(calls: map<nat, Call<V>>): set<nat> {
    set id | id in calls && IsProber(calls[id])
  }

  function One(b: bool): int {
    if b then 1 else 0
  }

  /** The failure cache and the breaker never block for longer than a minute from now. */
  ghost predicate BlocksAMinuteAtMost<V>(c: ClientState<V>, now: real) {
    && c.breakerUntil <= now + BREAKER_OPEN_SECONDS
    && forall k :: k in c.failed.items ==> c.failed.items[k] <= now + FAILURE_TTL_SECONDS
  }

  ghost predicate Invariant<V>(s: System<V>, cfg: Config) {
    && WellFormed(s, cfg)
    && s.client.permits + |Holders(s.calls)| == cfg.maxInFlight
    && |Probers(s.calls)| == One(s.client.probing)
    && BlocksAMinuteAtMost(s.client, s.now)
  }

  lemma HoldersChange<V>(calls: map<nat, Call<V>>, id: nat, call: Call<V>)
    ensures |Holders(calls[id := call])| ==
      |Holders(calls)| + One(HoldsPermit(call)) - One(id in calls && HoldsPermit(calls[id]))
  {
    hide HoldsPermit;
    if HoldsPermit(call) {
      assert Holders(calls[id := call]) == Holders(calls) + {id};
    } else {
      assert Holders(calls[id := call]) == Holders(calls) - {id};
    }
  }

  lemma ProbersChange<V>(calls: map<nat, Call<V>>, id: nat, call: Call<V>)
    ensures |Probers(calls[id := call])| ==
      |Probers(calls)| + One(IsProber(call)) - One(id in calls && IsProber(calls[id]))
  {
    hide IsProber;
    if IsProber(call) {
      assert Probers(calls[id := call]) == Probers(calls) + {id};
    } else {
      assert Probers(calls[id := call]) == Probers(calls) - {id};
    }
  }

  /** A step moves a permit exactly when it moves its call in or out of the holders. */
  lemma PermitMoves<V>(cfg: Config, s: System<V>, e: Event<V>)
    requires WellFormed(s, cfg) && Enabled(s, e)
    ensures ClientAfter(cfg, s, e).permits + One(HoldsPermit(CallAfter(s, e)))
         == s.client.permits + One(e.id in s.calls && HoldsPermit(s.calls[e.id]))
  {
    hide AfterFailure, AfterPut, AfterGet, Consistent;
  }

  /** A step raises or lowers the probing flag exactly when a probe starts or finishes. */
  lemma ProbeMoves<V>(cfg: Config, s: System<V>, e: Event<V>)
    requires WellFormed(s, cfg) && Enabled(s, e)
    requires e.id in s.calls && IsProber(s.calls[e.id]) ==> s.client.probing
    ensures One(ClientAfter(cfg, s, e).probing) - One(IsProber(CallAfter(s, e)))
         == One(s.client.probing) - One(e.id in s.calls && IsProber(s.calls[e.id]))
  {
    hide AfterFailure, AfterPut, AfterGet, Consistent;
  }

  lemma PurgedValid(d: OrderedDict<real>, now: real)
    requires d.Valid()
    ensures Purged(d, now).Valid()
    ensures forall k :: k in Purged(d, now).items ==> k in d.items && Purged(d, now).items[k] == d.items[k]
  {
    LiveKeysDistinct(d.order, d.items, now);
    hide NoDuplicates;
  }

  lemma {:induction false} LiveKeysDistinct(order: seq<string>, until: map<string, real>, now: real)
    requires NoDuplicates(order) && forall k :: k in order ==> k in until
    ensures NoDuplicates(LiveKeys(order, until, now))
  {
    if order != [] {
      var p, x := order[..|order| - 1], order[|order| - 1];
      assert order == p + [x];
      hide NoDuplicates;
      DistinctSnoc(p, x);
      LiveKeysDistinct(p, until, now);
      DistinctSnoc(LiveKeys(p, until, now), x);
    }
  }

  lemma FailureKept(failed: OrderedDict<real>, cfg: Config, key: string, now: real)
    requires failed.Valid()
    ensures var r := AfterFailure(failed, cfg, key, now);
      && r.Valid() && |r.order| <= cfg.maxEntries
      && (forall k :: k in r.items ==>
            ((k == key && r.items[k] == now + FAILURE_TTL_SECONDS) ||
             (k in failed.items && r.items[k] == failed.items[k])))
  {
    hide NoDuplicates, Purged, Newest, LastN, LiveKeys, Restrict;
    var d := failed.Assign(key, now + FAILURE_TTL_SECONDS);
    failed.AssignValid(key, now + FAILURE_TTL_SECONDS);
    PurgedValid(d, now);
    NewestKept(Purged(d, now), cfg.maxEntries);
  }

  lemma NewestKept<V>(d: OrderedDict<V>, n: nat)
    requires d.Valid()
    ensures Newest(d, n).Valid() && |Newest(d, n).order| <= n
    ensures forall k :: k in Newest(d, n).items ==> k in d.items && Newest(d, n).items[k] == d.items[k]
  {
    LookupCache.NewestValid(d, n);
    LookupCache.LastNFits(d.order, n);
    hide NoDuplicates;
  }

  lemma ConsistentStep<V>(cfg: Config, s: System<V>, e: Event<V>)
    requires Invariant(s, cfg) && Enabled(s, e)
    ensures ClientAfter(cfg, s, e).permits <= cfg.maxInFlight ==> Consistent(ClientAfter(cfg, s, e), cfg)
    ensures BlocksAMinuteAtMost(ClientAfter(cfg, s, e), e.at)
  {
    hide NoDuplicates, AfterFailure, AfterPut, AfterGet, Without, Holders, Probers;
    var c := s.client;
    match e.action
    case Enter(key) =>
      LookupCache.GetOrder(c.cache, key, e.at);
      GetSize(c.cache, key, e.at);
    case RecordFailure =>
      FailureKept(c.failed, cfg, s.calls[e.id].key, e.at);
    case Store =>
      LookupCache.PutOrder(c.cache, cfg, s.calls[e.id].key, e.at, s.calls[e.id].pc.answer);
      LookupCache.LastNFits(Without(c.cache.order, s.calls[e.id].key) + [s.calls[e.id].key], cfg.maxEntries);
    case _ =>
  }

  lemma GetSize<V>(cache: OrderedDict<Cached<V>>, key: string, now: real)
    requires cache.Valid()
    ensures |AfterGet(cache, key, now).order| == |cache.order|
  {
    WithoutKeepsDistinct(cache.order, key);
    hide NoDuplicates, Without;
  }

  lemma StepKeepsInvariant<V>(cfg: Config, s: System<V>, e: Event<V>)
    requires Invariant(s, cfg) && Enabled(s, e)
    ensures Invariant(Next(cfg, s, e), cfg)
  {
    hide ClientAfter, CallAfter, Holders, Probers, HoldsPermit, IsProber, BlocksAMinuteAtMost, Consistent, Enabled;
    var call := CallAfter(s, e);
    ProberMeansProbing(s, cfg, e.id);
    PermitMoves(cfg, s, e);
    HoldersChange(s.calls, e.id, call);
    ProbeMoves(cfg, s, e);
    ProbersChange(s.calls, e.id, call);
    ConsistentStep(cfg, s, e);
  }

  lemma ProberMeansProbing<V>(s: System<V>, cfg: Config, id: nat)
    requires Invariant(s, cfg)
    ensures id in s.calls && IsProber(s.calls[id]) ==> s.client.probing
  {
    hide WellFormed, BlocksAMinuteAtMost, IsProber;
    if id in s.calls && IsProber(s.calls[id]) {
      assert id in Probers(s.calls);
    }
  }

  // ---- Every run ----

  ghost predicate IsRun<V>(cfg: Config, s: System<V>, events: seq<Event<V>>)
    decreases |events|
  {
    events == [] ||
    (WellFormed(s, cfg) && Enabled(s, events[0]) && IsRun(cfg, Next(cfg, s, events[0]), events[1..]))
  }

  ghost function Final<V>(cfg: Config, s: System<V>, events: seq<Event<V>>): System<V>
    requires IsRun(cfg, s, events)
    decreases |events|
  {
    if events == [] then s else Final(cfg, Next(cfg, s, events[0]), events[1..])
  }

  ghost function Fresh<V>(cfg: Config, now: real): System<V> {
    System(Initial(cfg), map[], now)
  }

  lemma {:induction false} RunKeepsInvariant<V>(cfg: Config, s: System<V>, events: seq<Event<V>>)
    requires Invariant(s, cfg) && IsRun(cfg, s, events)
    ensures Invariant(Final(cfg, s, events), cfg)
    decreases |events|
  {
    hide Invariant, Next, WellFormed, Enabled;
    if events != [] {
      StepKeepsInvariant(cfg, s, events[0]);
      RunKeepsInvariant(cfg, Next(cfg, s, events[0]), events[1..]);
    }
  }

  /** In every state any interleaving of lookups can reach: permits are conserved, so at most
      `maxInFlight` calls hold one; the probing flag is up exactly while one probe, and only
      one, is unfinished; the failure count is below the threshold; both caches are within
      bounds. With no call in progress the flag is down and every permit is free. */
  lemma EveryRunIsSafe<V>(cfg: Config, start: real, events: seq<Event<V>>)
    requires start >= 0.0 && IsRun(cfg, Fresh(cfg, start), events)
    ensures var s := Final(cfg, Fresh(cfg, start), events);
      && s.client.permits + |Holders(s.calls)| == cfg.maxInFlight
      && (s.client.probing <==> Probers(s.calls) != {})
      && |Probers(s.calls)| <= 1
      && s.client.failures < 3
      && |s.client.cache.order| <= cfg.maxEntries && |s.client.failed.order| <= cfg.maxEntries
      && ((forall id :: id in s.calls ==> s.calls[id].pc.Done?) ==>
            !s.client.probing && s.client.permits == cfg.maxInFlight)
  {
    var s0: System<V> := Fresh(cfg, start);
    assert Holders(s0.calls) == {} && Probers(s0.calls) == {};
    assert Invariant(s0, cfg);
    RunKeepsInvariant(cfg, s0, events);
    hide IsRun, Final, Fresh;
    var s := Final(cfg, s0, events);
    if forall id :: id in s.calls ==> s.calls[id].pc.Done? {
      assert Holders(s.calls) == {} && Probers(s.calls) == {};
    }
  }

  /** A call let in while the breaker is open is the probe: the open period has run out and
      no other probe is unfinished. */
  lemma AdmittedWhileOpenIsTheProbe<V>(cfg: Config, s: System<V>, e: Event<V>)
    requires Invariant(s, cfg) && Enabled(s, e) && e.action.Enter? && s.client.breakerOpen
    requires Admit(s.client, e.action.key, e.at).Admitted?
    ensures CallAfter(s, e).probe && s.client.breakerUntil <= e.at && Probers(s.calls) == {}
    ensures Probers(Next(cfg, s, e).calls) == {e.id} && Next(cfg, s, e).client.probing
  {
    hide Consistent, BlocksAMinuteAtMost;
    assert Probers(s.calls) == {};
  }

  /** Does the step close an open breaker? */
  ghost predicate Closes<V>(s: System<V>, e: Event<V>)
    requires Enabled(s, e)
  {
    || e.action.RecordSuccess?
    || (e.action.RecordFailure? && !s.calls[e.id].pc.outage && s.calls[e.id].probe)
  }

  ghost predicate NeverCloses<V>(cfg: Config, s: System<V>, events: seq<Event<V>>)
    requires IsRun(cfg, s, events)
    decreases |events|
  {
    events == [] || (!Closes(s, events[0]) && NeverCloses(cfg, Next(cfg, s, events[0]), events[1..]))
  }

  /** Every call the run lets in is a probe, no earlier than `until`. */
  ghost predicate LetsInOnlyProbes<V>(cfg: Config, s: System<V>, events: seq<Event<V>>, until: real)
    requires IsRun(cfg, s, events)
    decreases |events|
  {
    events == [] ||
    (&& (events[0].action.Enter? ==>
           (Admit(s.client, events[0].action.key, events[0].at).Admitted? ==>
              CallAfter(s, events[0]).probe && until <= events[0].at))
     && LetsInOnlyProbes(cfg, Next(cfg, s, events[0]), events[1..], until))
  }

  lemma OpenStays<V>(cfg: Config, s: System<V>, e: Event<V>)
    requires Invariant(s, cfg) && Enabled(s, e) && s.client.breakerOpen && !Closes(s, e)
    ensures Next(cfg, s, e).client.breakerOpen && s.client.breakerUntil <= Next(cfg, s, e).client.breakerUntil
  {
    hide AfterFailure, AfterPut, AfterGet, Holders, Probers, Consistent;
  }

  /** Until a success, or a probe the upstream answered, closes it, an open breaker lets no
      call through before its time, and after it only probes. */
  lemma {:induction false} OpenBreakerBlocks<V>(cfg: Config, s: System<V>, events: seq<Event<V>>, until: real)
    requires Invariant(s, cfg) && IsRun(cfg, s, events) && NeverCloses(cfg, s, events)
    requires s.client.breakerOpen && until <= s.client.breakerUntil
    ensures LetsInOnlyProbes(cfg, s, events, until)
    ensures Final(cfg, s, events).client.breakerOpen
    decreases |events|
  {
    if events != [] {
      var e := events[0];
      hide Invariant, Next, WellFormed, Closes;
      OpenStays(cfg, s, e);
      StepKeepsInvariant(cfg, s, e);
      OpenBreakerBlocks(cfg, Next(cfg, s, e), events[1..], until);
    }
  }

  /** No failure locks lookups out for good: a minute after all calls are done, any lookup is
      answered from the cache or let through, with a permit to go with it. */
  lemma RecoversInAMinute<V>(cfg: Config, s: System<V>, key: string, at: real)
    requires Invariant(s, cfg) && s.now + 60.0 <= at
    requires forall id :: id in s.calls ==> s.calls[id].pc.Done?
    ensures Admit(s.client, key, at).Answered? || Admit(s.client, key, at).Admitted?
    ensures cfg.maxInFlight > 0 ==> s.client.permits > 0
  {
    hide Consistent;
    assert Holders(s.calls) == {} && Probers(s.calls) == {};
  }

  /** A release never exceeds the bound of the semaphore. */
  lemma ReleaseWithinBound<V>(cfg: Config, s: System<V>, e: Event<V>)
    requires Invariant(s, cfg) && Enabled(s, e) && e.action.Release?
    ensures s.client.permits < cfg.maxInFlight
  {
    hide Consistent, BlocksAMinuteAtMost;
    assert e.id in Holders(s.calls);
  }
}
