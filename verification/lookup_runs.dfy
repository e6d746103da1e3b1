/** The cache and the slot clock inside any interleaving of lookups: what each run of the protocol
    does to them is a run of the operations their own laws are about. */
module LookupRuns {
  import opened LookupClient
  import opened LookupProtocol
  import LookupCache
  import SlotClock

  // ---- The cache ----

  /** The cache operation of a step: entering looks the key up, storing puts the answer in. */
  ghost function CacheOp<V>(s: System<V>, e: Event<V>): seq<LookupCache.Op<V>>
    requires Enabled(s, e)
  {
    match e.action
    case Enter(key) => [LookupCache.Get(key, e.at)]
    case Store => [LookupCache.Put(s.calls[e.id].key, e.at, s.calls[e.id].pc.answer)]
    case _ => []
  }

  ghost function CacheOps<V>(cfg: Config, s: System<V>, events: seq<Event<V>>): seq<LookupCache.Op<V>>
    requires IsRun(cfg, s, events)
    decreases |events|
  {
    if events == [] then [] else CacheOp(s, events[0]) + CacheOps(cfg, Next(cfg, s, events[0]), events[1..])
  }

  lemma StepIsCacheOp<V>(cfg: Config, s: System<V>, e: Event<V>, ops: seq<LookupCache.Op<V>>)
    requires WellFormed(s, cfg) && Enabled(s, e) && s.client.cache == LookupCache.Run(cfg, ops)
    ensures Next(cfg, s, e).client.cache == LookupCache.Run(cfg, ops + CacheOp(s, e))
  {
    hide AfterFailure, AfterPut, AfterGet, Consistent, LookupCache.Run, Admit;
    match e.action
    case Enter(key) => LookupCache.RunSnoc(cfg, ops, LookupCache.Get(key, e.at));
    case Store => LookupCache.RunSnoc(cfg, ops, LookupCache.Put(s.calls[e.id].key, e.at, s.calls[e.id].pc.answer));
    case _ => assert ops + [] == ops;
  }

  lemma {:induction false} RunIsCacheOps<V>(cfg: Config, s: System<V>, events: seq<Event<V>>, ops: seq<LookupCache.Op<V>>)
    requires IsRun(cfg, s, events) && s.client.cache == LookupCache.Run(cfg, ops)
    ensures Final(cfg, s, events).client.cache == LookupCache.Run(cfg, ops + CacheOps(cfg, s, events))
    decreases |events|
  {
    hide Next, Enabled, WellFormed, LookupCache.Run, CacheOp;
    if events == [] {
      assert ops + [] == ops;
    } else {
      var op, t := CacheOp(s, events[0]), Next(cfg, s, events[0]);
      StepIsCacheOp(cfg, s, events[0], ops);
      RunIsCacheOps(cfg, t, events[1..], ops + op);
      assert ops + op + CacheOps(cfg, t, events[1..]) == ops + (op + CacheOps(cfg, t, events[1..]));
    }
  }

  /** So in every reachable state of the client a lookup hits exactly when the last answer stored
      for its key is younger than the time to live and fewer than `maxEntries` other keys were
      used since, over all the calls together; and it is given that answer. */
  lemma EveryRunAgreesWithUnboundedMap<V>(cfg: Config, start: real, events: seq<Event<V>>, key: string, now: real)
    requires IsRun(cfg, Fresh(cfg, start), events)
    ensures var cache, ops := Final(cfg, Fresh(cfg, start), events).client.cache, CacheOps(cfg, Fresh(cfg, start), events);
      var put := LookupCache.LatestPut(ops, key);
      && (IsHit(cache, key, now) <==>
            put.Some? && now < put.value.now + cfg.cacheTtl
            && |LookupCache.UsedSince(LookupCache.Uses(cfg, ops), key)| < cfg.maxEntries)
      && (IsHit(cache, key, now) ==> put.value.Put? && cache.items[key].answer == put.value.answer)
  {
    hide IsRun, Final, CacheOps, IsHit, LookupCache.LatestPut, LookupCache.UsedSince, LookupCache.Uses;
    var s0: System<V> := Fresh(cfg, start);
    assert s0.client.cache == LookupCache.Run(cfg, []);
    RunIsCacheOps(cfg, s0, events, []);
    var ops := CacheOps(cfg, s0, events);
    assert [] + ops == ops;
    LookupCache.CacheAgreesWithUnboundedMap(cfg, ops, key, now);
  }

  // ---- The slot clock ----

  /** When the calls of a run ask for a slot. */
  ghost function Asks<V>(events: seq<Event<V>>): seq<real>
    decreases |events|
  {
    if events == [] then []
    else (if events[0].action.Reserve? then [events[0].at] else []) + Asks(events[1..])
  }

  /** The slots the calls of a run are given; each sends its call on to the exchange. */
  ghost function Slots<V>(cfg: Config, s: System<V>, events: seq<Event<V>>): seq<real>
    requires IsRun(cfg, s, events)
    decreases |events|
  {
    if events == [] then []
    else
      var e := events[0];
      (if e.action.Reserve? && CallAfter(s, e).pc.Fetching? then [Slot(s.client.nextSlot, e.at)] else [])
      + Slots(cfg, Next(cfg, s, e), events[1..])
  }

  lemma StepIsReserve<V>(cfg: Config, s: System<V>, e: Event<V>)
    requires WellFormed(s, cfg) && Enabled(s, e)
    ensures Next(cfg, s, e).client.nextSlot ==
      if e.action.Reserve? then AfterReserve(s.client.nextSlot, cfg, e.at) else s.client.nextSlot
    ensures e.action.Reserve? ==> (CallAfter(s, e).pc.Fetching? <==> Grants(s.client.nextSlot, e.at))
  {
    hide AfterFailure, AfterPut, AfterGet, Consistent, Admit, AfterReserve, Grants;
  }

  lemma {:induction false} SlotsAreGranted<V>(cfg: Config, s: System<V>, events: seq<Event<V>>)
    requires IsRun(cfg, s, events)
    ensures Slots(cfg, s, events) == SlotClock.Granted(cfg, s.client.nextSlot, Asks(events))
    decreases |events|
  {
    hide Next, Enabled, WellFormed, CallAfter, Grants, Slot;
    if events != [] {
      var e := events[0];
      StepIsReserve(cfg, s, e);
      SlotsAreGranted(cfg, Next(cfg, s, e), events[1..]);
      var later, slots := Asks(events[1..]), Slots(cfg, Next(cfg, s, e), events[1..]);
      if e.action.Reserve? {
        assert Asks(events)[1..] == later;
        assert [] + slots == slots;
      } else {
        assert [] + later == later && [] + slots == slots;
      }
    }
  }

  /** So over every interleaving any two slots are at least the interval apart, and a half-open
      window of length `length` holds at most ceil(length / interval) of them. */
  lemma EveryRunSpacesSlots<V>(cfg: Config, start: real, events: seq<Event<V>>, from: real, length: real)
    requires cfg.minInterval > 0.0 && length >= 0.0 && IsRun(cfg, Fresh(cfg, start), events)
    ensures var slots := Slots(cfg, Fresh(cfg, start), events);
      && SlotClock.Spaced(slots, cfg.minInterval)
      && SlotClock.CountIn(slots, from, from + length) <= SlotClock.Ceiling(length / cfg.minInterval)
  {
    hide IsRun, Slots, Asks, SlotClock.Granted, SlotClock.CountIn, SlotClock.Spaced, SlotClock.Ceiling;
    SlotsAreGranted(cfg, Fresh(cfg, start), events);
    SlotClock.GrantedSpaced(cfg, 0.0, Asks(events));
    SlotClock.WindowBound(cfg, 0.0, Asks(events), from, length);
  }
}
