/** One `by_barcode` call from start to end, and the steps of the protocol it goes through. */
module LookupCall {
  import opened Options
  import opened OrderedDicts
  import opened LookupClient
  import opened LookupProtocol
  import LookupCache

  /** What the caller gets: an answer, the one exception the client raises itself, or an
      exception it lets pass. */
  datatype Reply<V> = Answer(product: Option<V>) | Unavailable | Raised

  predicate IsBarcode(key: string) {
    6 <= |key| <= 14 && forall i :: 0 <= i < |key| ==> '0' <= key[i] <= '9'
  }

  /** When the call passes its critical sections. */
  datatype Times = Times(admit: real, reserve: real, record: real, store: real)

  predicate Ordered(t: Times) {
    t.admit <= t.reserve <= t.record <= t.store
  }

  function OutcomeReply<V>(outcome: Outcome<V>): Reply<V> {
    match outcome
    case Fetched(answer) => Answer(answer)
    case Outage => Unavailable
    case Unusable => Unavailable
    case Crash => Raised
  }

  /** The reply to a call, by what stops it first. */
  function ReplyTo<V>(s: ClientState<V>, key: string, t: Times, outcome: Outcome<V>): Reply<V> {
    match Admit(s, key, t.admit)
    case Answered(answer) => Answer(answer)
    case RecentlyFailed => Unavailable
    case CircuitOpen => Unavailable
    case Admitted(_) =>
      if s.permits == 0 || !Grants(s.nextSlot, t.reserve) then Unavailable
      else OutcomeReply(outcome)
  }

  /** The reply, from the fields the call meets: a live answer, else a recent failure, else an open
      breaker, else a missing permit or a slot more than two seconds away, else the exchange. */
  lemma ReplyMeans<V>(s: ClientState<V>, key: string, t: Times, outcome: Outcome<V>)
    ensures var cached := key in s.cache.items && t.admit < s.cache.items[key].expiry;
      var recent := key in s.failed.items && t.admit < s.failed.items[key];
      var blocked := s.breakerOpen && (t.admit < s.breakerUntil || s.probing);
      var reply := ReplyTo(s, key, t, outcome);
      && (cached ==> reply == Answer(s.cache.items[key].answer))
      && (!cached && (recent || blocked || s.permits == 0 || t.reserve + 2.0 < s.nextSlot) ==> reply == Unavailable)
      && (!cached && !recent && !blocked && s.permits > 0 && s.nextSlot <= t.reserve + 2.0 ==>
            && (outcome.Fetched? ==> reply == Answer(outcome.answer))
            && (outcome.Outage? || outcome.Unusable? ==> reply == Unavailable)
            && (outcome.Crash? ==> reply == Raised))
  {
  }

  lemma {:induction false} Extend<V>(cfg: Config, s: System<V>, events: seq<Event<V>>, e: Event<V>)
    requires IsRun(cfg, s, events) && WellFormed(Final(cfg, s, events), cfg) && Enabled(Final(cfg, s, events), e)
    ensures IsRun(cfg, s, events + [e])
    ensures Final(cfg, s, events + [e]) == Next(cfg, Final(cfg, s, events), e)
    decreases |events|
  {
    hide Enabled, Next, WellFormed;
    var longer := events + [e];
    if events == [] {
      assert longer[0] == e && longer[1..] == [];
    } else {
      assert longer[0] == events[0] && longer[1..] == events[1..] + [e];
      Extend(cfg, Next(cfg, s, events[0]), events[1..], e);
    }
  }

  /** The run `events` from a lone client ends with the client in `now` and call 0 at `call`. */
  ghost predicate Stands<V>(cfg: Config, s: System<V>, events: seq<Event<V>>, client: ClientState<V>, call: Call<V>, now: real) {
    IsRun(cfg, s, events) && Final(cfg, s, events) == System(client, map[0 := call], now)
  }

  lemma Take<V>(cfg: Config, s: System<V>, events: seq<Event<V>>, client: ClientState<V>, call: Call<V>, now: real, e: Event<V>)
    returns (longer: seq<Event<V>>)
    requires Stands(cfg, s, events, client, call, now)
    requires Consistent(client, cfg) && Enabled(System(client, map[0 := call], now), e) && e.id == 0
    ensures Stands(cfg, s, longer, ClientAfter(cfg, System(client, map[0 := call], now), e),
                   CallAfter(System(client, map[0 := call], now), e), e.at)
  {
    hide Enabled, ClientAfter, CallAfter, Consistent;
    Extend(cfg, s, events, e);
    longer := events + [e];
    assert map[0 := call][0 := CallAfter(System(client, map[0 := call], now), e)]
        == map[0 := CallAfter(System(client, map[0 := call], now), e)];
  }

  // Each critical section as a step of the run.

  lemma TakeReserve<V>(cfg: Config, s: System<V>, events: seq<Event<V>>, c: ClientState<V>, call: Call<V>, now: real, at: real)
    returns (longer: seq<Event<V>>)
    requires Stands(cfg, s, events, c, call, now) && Consistent(c, cfg) && call.pc.Reserving? && now <= at
    ensures Stands(cfg, s, longer, c.(nextSlot := AfterReserve(c.nextSlot, cfg, at)),
                   call.(pc := if Grants(c.nextSlot, at) then Fetching else Releasing), at)
  {
    hide Stands, Consistent, AfterReserve, Grants;
    longer := Take(cfg, s, events, c, call, now, Event(0, Action.Reserve, at));
  }

  /** Where the upstream's answer sends the call. */
  function Fetches<V>(outcome: Outcome<V>): Pc<V> {
    match outcome
    case Fetched(answer) => RecordingSuccess(answer)
    case Outage => RecordingFailure(true)
    case Unusable => RecordingFailure(false)
    case Crash => Releasing
  }

  lemma TakeFetch<V>(cfg: Config, s: System<V>, events: seq<Event<V>>, c: ClientState<V>, call: Call<V>, now: real,
                     outcome: Outcome<V>)
    returns (longer: seq<Event<V>>)
    requires Stands(cfg, s, events, c, call, now) && Consistent(c, cfg) && call.pc.Fetching?
    ensures Stands(cfg, s, longer, c, call.(pc := Fetches(outcome)), now)
  {
    hide Stands, Consistent;
    longer := Take(cfg, s, events, c, call, now, Event(0, Fetch(outcome), now));
  }

  lemma TakeFailure<V>(cfg: Config, s: System<V>, events: seq<Event<V>>, c: ClientState<V>, call: Call<V>, now: real, at: real)
    returns (longer: seq<Event<V>>)
    requires Stands(cfg, s, events, c, call, now) && Consistent(c, cfg) && call.pc.RecordingFailure? && now <= at
    ensures c.failed.Valid()
    ensures Stands(cfg, s, longer, AfterRecordFailure(c, cfg, call.key, call.pc.outage, call.probe, at),
                   call.(pc := Releasing), at)
  {
    hide Stands, AfterRecordFailure;
    longer := Take(cfg, s, events, c, call, now, Event(0, Action.RecordFailure, at));
  }

  lemma TakeSuccess<V>(cfg: Config, s: System<V>, events: seq<Event<V>>, c: ClientState<V>, call: Call<V>, now: real, at: real)
    returns (longer: seq<Event<V>>)
    requires Stands(cfg, s, events, c, call, now) && Consistent(c, cfg) && call.pc.RecordingSuccess? && now <= at
    ensures Stands(cfg, s, longer, AfterRecordSuccess(c), call.(pc := Storing(call.pc.answer)), at)
    ensures Consistent(AfterRecordSuccess(c), cfg)
  {
    hide Stands;
    longer := Take(cfg, s, events, c, call, now, Event(0, Action.RecordSuccess, at));
  }

  lemma TakeStore<V>(cfg: Config, s: System<V>, events: seq<Event<V>>, c: ClientState<V>, call: Call<V>, now: real, at: real)
    returns (longer: seq<Event<V>>)
    requires Stands(cfg, s, events, c, call, now) && Consistent(c, cfg) && call.pc.Storing? && now <= at
    ensures c.cache.Valid()
    ensures Stands(cfg, s, longer, c.(cache := AfterPut(c.cache, cfg, call.key, at, call.pc.answer)), call.(pc := Releasing), at)
  {
    hide Stands, AfterPut;
    longer := Take(cfg, s, events, c, call, now, Event(0, Action.Store, at));
  }

  /** Which fields a section may change without upsetting the others. */
  lemma FieldsKeepConsistent<V>(c: ClientState<V>, cfg: Config, nextSlot: real, cache: OrderedDict<Cached<V>>)
    requires Consistent(c, cfg) && cache.Valid() && |cache.order| <= cfg.maxEntries
    ensures Consistent(c.(nextSlot := nextSlot, cache := cache), cfg)
  {
  }

  lemma CacheFits<V>(c: ClientState<V>, cfg: Config)
    requires Consistent(c, cfg)
    ensures c.cache.Valid() && |c.cache.order| <= cfg.maxEntries
  {
  }

  /** What the upstream's answer does, from the exchange to just before the permit goes back. */
  method Settle<V>(client: OpenFoodFactsClient<V>, call: Call<V>, outcome: Outcome<V>, t: Times,
                   ghost s: System<V>, ghost before: seq<Event<V>>)
    returns (reply: Reply<V>, ghost events: seq<Event<V>>, ghost end: real)
    requires Consistent(client.Snapshot(), client.cfg) && Ordered(t) && call.pc.Fetching?
    requires Stands(client.cfg, s, before, client.Snapshot(), call, t.reserve)
    modifies client
    ensures Consistent(client.Snapshot(), client.cfg) && end <= t.store
    ensures Stands(client.cfg, s, events, client.Snapshot(), call.(pc := Releasing), end)
    ensures client.permits == old(client.permits) && client.probing == old(client.probing)
    ensures reply == OutcomeReply(outcome)
  {
    hide Stands, Consistent, AfterRecordFailure, AfterPut, ClientAfter, CallAfter;
    events := TakeFetch(client.cfg, s, before, client.Snapshot(), call, t.reserve, outcome);
    end := t.reserve;
    match outcome {
      case Fetched(answer) =>
        events := TakeSuccess(client.cfg, s, events, client.Snapshot(), call.(pc := RecordingSuccess(answer)), end, t.record);
        client.RecordSuccess();
        events := TakeStore(client.cfg, s, events, client.Snapshot(), call.(pc := Storing(answer)), t.record, t.store);
        ghost var recorded := client.Snapshot();
        client.Store(call.key, answer, t.store);
        FieldsKeepConsistent(recorded, client.cfg, recorded.nextSlot, client.cache);
        end := t.store;
        reply := Answer(answer);
      case Outage =>
        events := TakeFailure(client.cfg, s, events, client.Snapshot(), call.(pc := RecordingFailure(true)), end, t.record);
        client.RecordFailure(call.key, true, call.probe, t.record);
        end := t.record;
        reply := Unavailable;
      case Unusable =>
        events := TakeFailure(client.cfg, s, events, client.Snapshot(), call.(pc := RecordingFailure(false)), end, t.record);
        client.RecordFailure(call.key, false, call.probe, t.record);
        end := t.record;
        reply := Unavailable;
      case Crash =>
        reply := Raised;
    }
  }

  lemma TakeEnter<V>(cfg: Config, c: ClientState<V>, key: string, at: real) returns (events: seq<Event<V>>)
    requires Consistent(c, cfg)
    ensures var a := Admit(c, key, at);
      Stands(cfg, System(c, map[], at), events, AfterAdmit(c, key, at),
             Call(key, a == Admitted(true), if a.Admitted? then Acquiring else Done), at)
  {
    hide Consistent, Admit, AfterAdmit;
    var s, e := System(c, map[], at), Event(0, Enter(key), at);
    Extend(cfg, s, [], e);
    events := [] + [e];
    assert map[][0 := CallAfter(s, e)] == map[0 := CallAfter(s, e)];
  }

  lemma TakeAcquire<V>(cfg: Config, s: System<V>, events: seq<Event<V>>, c: ClientState<V>, call: Call<V>, now: real)
    returns (longer: seq<Event<V>>)
    requires Stands(cfg, s, events, c, call, now) && Consistent(c, cfg) && call.pc.Acquiring?
    ensures c.permits > 0 ==> Stands(cfg, s, longer, c.(permits := c.permits - 1), call.(pc := Reserving), now)
    ensures c.permits > 0 ==> Consistent(c.(permits := c.permits - 1), cfg)
    ensures c.permits == 0 ==> Stands(cfg, s, longer, c, call.(pc := Ending), now)
  {
    hide Stands;
    longer := Take(cfg, s, events, c, call, now, Event(0, Acquire, now));
  }

  lemma TakeRelease<V>(cfg: Config, s: System<V>, events: seq<Event<V>>, c: ClientState<V>, call: Call<V>, now: real)
    returns (longer: seq<Event<V>>)
    requires Stands(cfg, s, events, c, call, now) && Consistent(c, cfg) && call.pc.Releasing?
    ensures Stands(cfg, s, longer, c.(permits := c.permits + 1), call.(pc := Ending), now)
    ensures c.permits < cfg.maxInFlight ==> Consistent(c.(permits := c.permits + 1), cfg)
  {
    hide Stands;
    longer := Take(cfg, s, events, c, call, now, Event(0, Action.Release, now));
  }

  lemma TakeEnd<V>(cfg: Config, s: System<V>, events: seq<Event<V>>, c: ClientState<V>, call: Call<V>, now: real)
    returns (longer: seq<Event<V>>)
    requires Stands(cfg, s, events, c, call, now) && Consistent(c, cfg) && call.pc.Ending?
    ensures Stands(cfg, s, longer, if call.probe then c.(probing := false) else c, call.(pc := Done), now)
    ensures Consistent(c.(probing := false), cfg)
  {
    hide Stands;
    longer := Take(cfg, s, events, c, call, now, Event(0, End, now));
  }

  lemma AdmitKeepsConsistent<V>(c: ClientState<V>, cfg: Config, key: string, at: real)
    requires Consistent(c, cfg)
    ensures c.cache.Valid() && Consistent(AfterAdmit(c, key, at), cfg)
    ensures Admit(c, key, at).Admitted? ==> AfterAdmit(c, key, at) == c.(probing := c.probing || c.breakerOpen)
    ensures Admit(c, key, at) == Admitted(true) ==> c.breakerOpen && !c.probing
    ensures Admit(c, key, at) == Admitted(false) ==> !c.breakerOpen
    ensures !Admit(c, key, at).Admitted? ==> AfterAdmit(c, key, at).probing == c.probing
  {
    LookupCache.GetOrder(c.cache, key, at);
    GetSize(c.cache, key, at);
    hide NoDuplicates, Without, AfterGet;
  }

  /** The permit, taken and given back around the slot and the exchange. */
  method UnderPermit<V>(client: OpenFoodFactsClient<V>, call: Call<V>, outcome: Outcome<V>, t: Times,
                        ghost s: System<V>, ghost before: seq<Event<V>>)
    returns (reply: Reply<V>, ghost events: seq<Event<V>>, ghost end: real)
    requires Consistent(client.Snapshot(), client.cfg) && Ordered(t) && call.pc.Acquiring?
    requires Stands(client.cfg, s, before, client.Snapshot(), call, t.admit)
    modifies client
    ensures Consistent(client.Snapshot(), client.cfg) && end <= t.store
    ensures Stands(client.cfg, s, events, client.Snapshot(), call.(pc := Ending), end)
    ensures client.permits == old(client.permits) && client.probing == old(client.probing)
    ensures reply ==
      if old(client.permits) == 0 || !Grants(old(client.nextSlot), t.reserve) then Unavailable else OutcomeReply(outcome)
  {
    hide Stands, Consistent, AfterReserve, Grants, ClientAfter, CallAfter, Slot;
    events, end := before, t.admit;
    events := TakeAcquire(client.cfg, s, events, client.Snapshot(), call, end);
    if client.permits == 0 {
      return Unavailable, events, end;
    }
    client.permits := client.permits - 1;
    ghost var acquired := client.Snapshot();
    events := TakeReserve(client.cfg, s, events, acquired, call.(pc := Reserving), end, t.reserve);
    CacheFits(acquired, client.cfg);
    var wait := client.Reserve(t.reserve);
    end := t.reserve;
    FieldsKeepConsistent(acquired, client.cfg, client.nextSlot, client.cache);
    if wait == None {
      reply := Unavailable;
    } else {
      reply, events, end := Settle(client, call.(pc := Fetching), outcome, t, s, events);
    }
    PermitsBounded(old(client.Snapshot()), client.cfg);
    events := TakeRelease(client.cfg, s, events, client.Snapshot(), call.(pc := Releasing), end);
    client.permits := client.permits + 1;
  }

  lemma PermitsBounded<V>(c: ClientState<V>, cfg: Config)
    requires Consistent(c, cfg)
    ensures c.permits <= cfg.maxInFlight
  {
  }

  /** A call alone: a run of the protocol from where the client stands. It gives back its permit
      and its probe on every path, and its reply is the one that its first obstacle, or else the
      upstream's answer, calls for. */
  method ByBarcode<V>(client: OpenFoodFactsClient<V>, enabled: bool, key: string, outcome: Outcome<V>, t: Times)
    returns (reply: Reply<V>, ghost probe: bool, ghost events: seq<Event<V>>, ghost end: real)
    requires Consistent(client.Snapshot(), client.cfg) && Ordered(t)
    modifies client
    ensures Consistent(client.Snapshot(), client.cfg)
    ensures client.permits == old(client.permits) && client.probing == old(client.probing)
    ensures !enabled ==> reply == Unavailable && client.Snapshot() == old(client.Snapshot())
    ensures enabled && !IsBarcode(key) ==> reply == Answer(None) && client.Snapshot() == old(client.Snapshot())
    ensures enabled && !(6 <= |key| <= 14 && forall c :: c in key ==> '0' <= c <= '9') ==> reply == Answer(None)
    ensures enabled && IsBarcode(key) ==>
      && reply == ReplyTo(old(client.Snapshot()), key, t, outcome) && end <= t.store
      && Stands(client.cfg, System(old(client.Snapshot()), map[], t.admit), events,
                client.Snapshot(), Call(key, probe, Done), end)
  {
    probe, events, end := false, [], t.admit;
    if !enabled {
      return Unavailable, probe, events, end;
    }
    if !IsBarcode(key) {
      return Answer(None), probe, events, end;
    }
    hide Stands, Consistent, Admit, AfterAdmit, AfterReserve, Grants, ClientAfter, CallAfter, IsBarcode, Slot;
    ghost var s := System(client.Snapshot(), map[], t.admit);
    AdmitKeepsConsistent(client.Snapshot(), client.cfg, key, t.admit);
    events := TakeEnter(client.cfg, client.Snapshot(), key, t.admit);
    var a := client.AdmitLookup(key, t.admit);
    match a {
      case Answered(answer) =>
        return Answer(answer), probe, events, end;
      case RecentlyFailed =>
        return Unavailable, probe, events, end;
      case CircuitOpen =>
        return Unavailable, probe, events, end;
      case Admitted(isProbe) =>
        probe := isProbe;
        reply, events, end := UnderPermit(client, Call(key, isProbe, Acquiring), outcome, t, s, events);
        events := TakeEnd(client.cfg, s, events, client.Snapshot(), Call(key, probe, Ending), end);
        if isProbe {
          client.probing := false;
        }
    }
  }
}
