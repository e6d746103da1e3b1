/** What the circuit breaker and the failure cache do over a whole run, told by the outcomes that
    were recorded. */
module LookupBreaker {
  import opened Options
  import opened OrderedDicts
  import opened LookupClient
  import opened LookupProtocol

  /** A recorded outcome: the upstream was out, it gave an answer that could not be used, or it
      gave one that could. */
  datatype Record = Out(probe: bool, at: real) | Unusable(probe: bool, at: real) | Success(at: real)

  function RecordOf<V>(s: System<V>, e: Event<V>): seq<Record>
    requires Enabled(s, e)
  {
    match e.action
    case RecordFailure =>
      var call := s.calls[e.id];
      [if call.pc.outage then Out(call.probe, e.at) else Record.Unusable(call.probe, e.at)]
    case RecordSuccess => [Success(e.at)]
    case _ => []
  }

  /** The outcomes recorded in a run, in order. */
  ghost function Log<V>(cfg: Config, s: System<V>, events: seq<Event<V>>): seq<Record>
    requires IsRun(cfg, s, events)
    decreases |events|
  {
    if events == [] then [] else RecordOf(s, events[0]) + Log(cfg, Next(cfg, s, events[0]), events[1..])
  }

  /** A success, or any answer to a probe. */
  predicate Closing(r: Record) {
    r.Success? || (r.Unusable? && r.probe)
  }

  // ---- The fields of the breaker, from the log ----

  /** Outages recorded since the last success, closing or opening. */
  ghost function OutagesSince(log: seq<Record>): nat {
    if log == [] || Closing(Last(log)) || Opens(log) then 0
    else OutagesSince(Before(log)) + (if Last(log).Out? then 1 else 0)
  }

  /** The last record opens the breaker: the outage of a probe, or the third one. */
  ghost predicate Opens(log: seq<Record>)
    decreases log, 0
  {
    log != [] && Last(log).Out? && (Last(log).probe || OutagesSince(Before(log)) == 2)
  }

  function Last(log: seq<Record>): Record
    requires log != []
  {
    log[|log| - 1]
  }

  function Before(log: seq<Record>): seq<Record>
    requires log != []
  {
    log[..|log| - 1]
  }

  /** When the breaker that is still open after `log` was last opened. */
  ghost function OpenedAt(log: seq<Record>): Option<real> {
    if log == [] || Closing(Last(log)) then None
    else if Opens(log) then Some(Last(log).at)
    else OpenedAt(Before(log))
  }

  ghost predicate Tells<V>(log: seq<Record>, c: ClientState<V>) {
    && c.failures == OutagesSince(log)
    && (c.breakerOpen <==> OpenedAt(log).Some?)
    && (c.breakerOpen ==> c.breakerUntil == OpenedAt(log).value + 60.0)
  }

  lemma OneMoreRecord(log: seq<Record>, r: Record)
    ensures Opens(log + [r]) <==> r.Out? && (r.probe || OutagesSince(log) == 2)
    ensures OutagesSince(log + [r]) ==
      if Closing(r) || Opens(log + [r]) then 0 else OutagesSince(log) + (if r.Out? then 1 else 0)
    ensures OpenedAt(log + [r]) == if Closing(r) then None else if Opens(log + [r]) then Some(r.at) else OpenedAt(log)
  {
    assert Before(log + [r]) == log && Last(log + [r]) == r;
  }

  lemma StepTells<V>(cfg: Config, s: System<V>, e: Event<V>, log: seq<Record>)
    requires WellFormed(s, cfg) && Enabled(s, e) && Tells(log, s.client)
    ensures Tells(log + RecordOf(s, e), Next(cfg, s, e).client)
  {
    hide AfterFailure, AfterPut, AfterGet, OutagesSince, Opens, OpenedAt;
    if RecordOf(s, e) == [] {
      assert log + RecordOf(s, e) == log;
    } else {
      OneMoreRecord(log, RecordOf(s, e)[0]);
      assert s.client.failures < 3;
    }
  }

  lemma {:induction false} RunTells<V>(cfg: Config, s: System<V>, events: seq<Event<V>>, log: seq<Record>)
    requires IsRun(cfg, s, events) && Tells(log, s.client)
    ensures Tells(log + Log(cfg, s, events), Final(cfg, s, events).client)
    decreases |events|
  {
    hide Next, Enabled, WellFormed, Tells;
    if events == [] {
      assert log + [] == log;
    } else {
      StepTells(cfg, s, events[0], log);
      RunTells(cfg, Next(cfg, s, events[0]), events[1..], log + RecordOf(s, events[0]));
      assert log + Log(cfg, s, events)
          == log + RecordOf(s, events[0]) + Log(cfg, Next(cfg, s, events[0]), events[1..]);
    }
  }

  /** Over every run the failure count is the number of outages recorded since the last success, closing
      or opening, and the breaker is open exactly from an opening to the next closing, for sixty seconds
      from the last opening before it lets a probe in. */
  lemma LogTellsBreaker<V>(cfg: Config, start: real, events: seq<Event<V>>)
    requires IsRun(cfg, Fresh(cfg, start), events)
    ensures var c, log := Final(cfg, Fresh(cfg, start), events).client, Log(cfg, Fresh(cfg, start), events);
      && c.failures == OutagesSince(log)
      && (c.breakerOpen <==> OpenedAt(log).Some?)
      && (c.breakerOpen ==> c.breakerUntil == OpenedAt(log).value + 60.0)
  {
    hide IsRun, Final;
    var log := Log(cfg, Fresh(cfg, start), events);
    RunTells(cfg, Fresh(cfg, start), events, []);
    assert [] + log == log;
  }

  // ---- What is recorded of an exchange ----

  lemma {:induction false} CallWaits<V>(cfg: Config, s: System<V>, events: seq<Event<V>>, id: nat)
    requires IsRun(cfg, s, events) && id in s.calls && forall e :: e in events ==> e.id != id
    ensures id in Final(cfg, s, events).calls && Final(cfg, s, events).calls[id] == s.calls[id]
    decreases |events|
  {
    hide ClientAfter, CallAfter, Enabled, WellFormed;
    if events != [] {
      assert events[0] in events && forall e :: e in events[1..] ==> e in events;
      CallWaits(cfg, Next(cfg, s, events[0]), events[1..], id);
    }
  }

  /** Whatever other calls do meanwhile, the next step of a call after its exchange records how the
      exchange ended, under the call's own standing as probe; only a crash goes unrecorded. */
  lemma ExchangeIsRecorded<V>(cfg: Config, s: System<V>, id: nat, outcome: Outcome<V>, at: real,
                              others: seq<Event<V>>, e: Event<V>)
    requires WellFormed(s, cfg) && Enabled(s, Event(id, Fetch(outcome), at))
    requires IsRun(cfg, Next(cfg, s, Event(id, Fetch(outcome), at)), others) && forall x :: x in others ==> x.id != id
    requires e.id == id && Enabled(Final(cfg, Next(cfg, s, Event(id, Fetch(outcome), at)), others), e)
    ensures var record := RecordOf(Final(cfg, Next(cfg, s, Event(id, Fetch(outcome), at)), others), e);
      && (outcome.Outage? ==> record == [Out(s.calls[id].probe, e.at)])
      && (outcome.Unusable? ==> record == [Record.Unusable(s.calls[id].probe, e.at)])
      && (outcome.Fetched? ==> record == [Success(e.at)])
      && (outcome.Crash? ==> record == [] && e.action.Release?)
  {
    var t := Next(cfg, s, Event(id, Fetch(outcome), at));
    CallWaits(cfg, t, others, id);
    hide ClientAfter, Consistent, IsRun, Final;
  }

  // ---- What an opening does ----

  /** Every lookup that enters the run before `until` is over at once: answered from the cache or
      refused. */
  ghost predicate NoneLetIn<V>(cfg: Config, s: System<V>, events: seq<Event<V>>, until: real)
    requires IsRun(cfg, s, events)
    decreases |events|
  {
    events != [] ==>
      && (events[0].action.Enter? && events[0].at < until ==> Next(cfg, s, events[0]).calls[events[0].id].pc.Done?)
      && NoneLetIn(cfg, Next(cfg, s, events[0]), events[1..], until)
  }

  ghost predicate NoClosing(log: seq<Record>) {
    forall r :: r in log ==> !Closing(r)
  }

  lemma {:induction false} NoClosingNeverCloses<V>(cfg: Config, s: System<V>, events: seq<Event<V>>)
    requires IsRun(cfg, s, events) && NoClosing(Log(cfg, s, events))
    ensures NeverCloses(cfg, s, events)
    decreases |events|
  {
    hide Next, WellFormed;
    if events != [] {
      var now, later := RecordOf(s, events[0]), Log(cfg, Next(cfg, s, events[0]), events[1..]);
      assert forall r :: r in now || r in later ==> r in now + later;
      assert now != [] ==> now[0] in now;
      hide Closes, Enabled;
      NoClosingNeverCloses(cfg, Next(cfg, s, events[0]), events[1..]);
    }
  }

  lemma {:induction false} OnlyProbesNoneEarly<V>(cfg: Config, s: System<V>, events: seq<Event<V>>, until: real)
    requires IsRun(cfg, s, events) && LetsInOnlyProbes(cfg, s, events, until)
    ensures NoneLetIn(cfg, s, events, until)
    decreases |events|
  {
    if events != [] {
      hide WellFormed, ClientAfter, Admit;
      OnlyProbesNoneEarly(cfg, Next(cfg, s, events[0]), events[1..], until);
    }
  }

  lemma FreshIsInvariant<V>(cfg: Config, start: real)
    requires start >= 0.0
    ensures Invariant<V>(Fresh(cfg, start), cfg)
  {
    var s: System<V> := Fresh(cfg, start);
    assert Holders(s.calls) == {} && Probers(s.calls) == {};
  }

  /** After any run, while the breaker is open since an opening at `since` and nothing closes it, no
      lookup that misses the cache is let in before `since + 60`, and from then on only probes are. */
  lemma OpenKeepsOut<V>(cfg: Config, start: real, before: seq<Event<V>>, after: seq<Event<V>>, since: real)
    requires start >= 0.0 && IsRun(cfg, Fresh(cfg, start), before)
    requires IsRun(cfg, Final(cfg, Fresh(cfg, start), before), after)
    requires OpenedAt(Log(cfg, Fresh(cfg, start), before)) == Some(since)
    requires NoClosing(Log(cfg, Final(cfg, Fresh(cfg, start), before), after))
    ensures NoneLetIn(cfg, Final(cfg, Fresh(cfg, start), before), after, since + 60.0)
    ensures LetsInOnlyProbes(cfg, Final(cfg, Fresh(cfg, start), before), after, since + 60.0)
  {
    hide *;
    var s := Final(cfg, Fresh(cfg, start), before);
    FreshIsInvariant<V>(cfg, start);
    RunKeepsInvariant(cfg, Fresh(cfg, start), before);
    LogTellsBreaker(cfg, start, before);
    NoClosingNeverCloses(cfg, s, after);
    OpenBreakerBlocks(cfg, s, after, since + 60.0);
    OnlyProbesNoneEarly(cfg, s, after, since + 60.0);
  }

  /** The third outage since the last success, closing or opening, or the outage of a probe, recorded at
      `at`: until a success or an answered probe, no lookup that misses the cache is let in before
      `at + 60`. */
  lemma OutageKeepsOut<V>(cfg: Config, start: real, before: seq<Event<V>>, after: seq<Event<V>>,
                          log: seq<Record>, probe: bool, at: real)
    requires start >= 0.0 && IsRun(cfg, Fresh(cfg, start), before)
    requires IsRun(cfg, Final(cfg, Fresh(cfg, start), before), after)
    requires Log(cfg, Fresh(cfg, start), before) == log + [Out(probe, at)]
    requires probe || OutagesSince(log) == 2
    requires NoClosing(Log(cfg, Final(cfg, Fresh(cfg, start), before), after))
    ensures NoneLetIn(cfg, Final(cfg, Fresh(cfg, start), before), after, at + 60.0)
  {
    OneMoreRecord(log, Out(probe, at));
    hide IsRun, Final, Log, NoClosing, OutagesSince, Opens, OpenedAt;
    OpenKeepsOut(cfg, start, before, after, at);
  }

  /** How many of the records are outages. */
  function Outages(log: seq<Record>): nat {
    if log == [] then 0 else Outages(Before(log)) + (if Last(log).Out? then 1 else 0)
  }

  /** Among the records after `first` one opened the breaker, which is open since, or they are at most
      two outages, all still counted. */
  lemma {:induction false} OpenedOrFew(first: seq<Record>, rest: seq<Record>)
    requires NoClosing(rest) && OutagesSince(first) <= 2
    ensures OutagesSince(first + rest) <= 2
    ensures (exists r :: r in rest && r.Out? && OpenedAt(first + rest) == Some(r.at))
         || OutagesSince(first + rest) == OutagesSince(first) + Outages(rest)
    decreases |rest|
  {
    if rest == [] {
      assert first + rest == first;
    } else {
      var r := Last(rest);
      assert r in rest && forall x :: x in Before(rest) ==> x in rest;
      assert first + rest == (first + Before(rest)) + [r];
      OpenedOrFew(first, Before(rest));
      OneMoreRecord(first + Before(rest), r);
    }
  }

  lemma {:induction false} FewCounted(log: seq<Record>)
    ensures OutagesSince(log) <= 2
  {
    if log != [] {
      assert log == Before(log) + [Last(log)];
      FewCounted(Before(log));
      OneMoreRecord(Before(log), Last(log));
    }
  }

  /** Any three outages with no success and no answered probe among or after them: one of them opened the
      breaker, and no lookup that misses the cache is let in for sixty seconds from it. */
  lemma ThreeOutagesKeepOut<V>(cfg: Config, start: real, before: seq<Event<V>>, after: seq<Event<V>>,
                               first: seq<Record>, rest: seq<Record>)
    requires start >= 0.0 && IsRun(cfg, Fresh(cfg, start), before)
    requires IsRun(cfg, Final(cfg, Fresh(cfg, start), before), after)
    requires Log(cfg, Fresh(cfg, start), before) == first + rest && NoClosing(rest) && Outages(rest) >= 3
    requires NoClosing(Log(cfg, Final(cfg, Fresh(cfg, start), before), after))
    ensures exists r :: r in rest && r.Out? && NoneLetIn(cfg, Final(cfg, Fresh(cfg, start), before), after, r.at + 60.0)
  {
    hide *;
    FewCounted(first);
    OpenedOrFew(first, rest);
    var r :| r in rest && r.Out? && OpenedAt(first + rest) == Some(r.at);
    OpenKeepsOut(cfg, start, before, after, r.at);
  }

  // ---- What a failure of one barcode does ----

  /** The other barcodes that are refused for a failure at time `at`. */
  ghost function OthersRefused(failed: map<string, real>, key: string, at: real): set<string> {
    set k | k in failed && k != key && at < failed[k]
  }

  /** The step records a failure when as many other barcodes are refused as the bound allows. */
  ghost predicate Overflows<V>(cfg: Config, s: System<V>, e: Event<V>)
    requires Enabled(s, e)
  {
    e.action.RecordFailure? && |OthersRefused(s.client.failed.items, s.calls[e.id].key, e.at)| >= cfg.maxEntries
  }

  ghost predicate NeverOverflows<V>(cfg: Config, s: System<V>, events: seq<Event<V>>)
    requires IsRun(cfg, s, events)
    decreases |events|
  {
    events != [] ==> !Overflows(cfg, s, events[0]) && NeverOverflows(cfg, Next(cfg, s, events[0]), events[1..])
  }

  /** Every lookup of `key` that enters the run before `until` is over at once. */
  ghost predicate KeyNotLetIn<V>(cfg: Config, s: System<V>, events: seq<Event<V>>, key: string, until: real)
    requires IsRun(cfg, s, events)
    decreases |events|
  {
    events != [] ==>
      && (events[0].action == Enter(key) && events[0].at < until ==> Next(cfg, s, events[0]).calls[events[0].id].pc.Done?)
      && KeyNotLetIn(cfg, Next(cfg, s, events[0]), events[1..], key, until)
  }

  lemma {:induction false} DistinctSize(s: seq<string>)
    requires NoDuplicates(s)
    ensures |set k | k in s| == |s|
  {
    if s != [] {
      var p, x := s[..|s| - 1], s[|s| - 1];
      assert s == p + [x];
      DistinctSnoc(p, x);
      hide NoDuplicates;
      DistinctSize(p);
      assert (set k | k in s) == (set k | k in p) + {x};
    }
  }

  lemma PurgedSize(d: OrderedDict<real>, now: real)
    requires d.Valid()
    ensures |Purged(d, now).order| == |set k | k in d.items && d.items[k] > now|
  {
    var live := Purged(d, now).order;
    LiveKeysDistinct(d.order, d.items, now);
    DistinctSize(live);
    hide NoDuplicates, LiveKeys;
    assert (set k | k in live) == set k | k in d.items && d.items[k] > now;
  }

  lemma RefusedAfter(failed: map<string, real>, after: map<string, real>, key: string, now: real)
    requires after == failed[key := now + 60.0]
    ensures |set k | k in after && after[k] > now| == |OthersRefused(failed, key, now)| + 1
  {
    assert (set k | k in after && after[k] > now) == OthersRefused(failed, key, now) + {key};
  }

  /** With the new failure one more barcode is refused than the others. */
  lemma LiveCount(failed: OrderedDict<real>, key: string, now: real)
    requires failed.Valid()
    ensures var d := failed.Assign(key, now + FAILURE_TTL_SECONDS);
      d.Valid() && |OthersRefused(failed.items, key, now)| + 1 == |LiveKeys(d.order, d.items, now)| <= |d.order|
  {
    var d := failed.Assign(key, now + FAILURE_TTL_SECONDS);
    failed.AssignValid(key, now + FAILURE_TTL_SECONDS);
    hide NoDuplicates, OthersRefused, LiveKeys;
    PurgedSize(d, now);
    RefusedAfter(failed.items, d.items, key, now);
    LiveIsFewer(d.order, d.items, now);
  }

  /** Below the bound a recorded failure is remembered for a minute and drops none that still counts. */
  lemma FailureRemembered(failed: OrderedDict<real>, cfg: Config, key: string, now: real)
    requires failed.Valid() && |OthersRefused(failed.items, key, now)| < cfg.maxEntries
    ensures var r := AfterFailure(failed, cfg, key, now);
      && key in r.items && r.items[key] == now + 60.0
      && forall k :: k in failed.items && k != key && now < failed.items[k] ==> k in r.items && r.items[k] == failed.items[k]
  {
    var d := failed.Assign(key, now + FAILURE_TTL_SECONDS);
    LiveCount(failed, key, now);
    hide NoDuplicates, OthersRefused;
    NewestOfFew(Purged(d, now), cfg.maxEntries);
    if |d.order| > cfg.maxEntries {
      assert AfterFailure(failed, cfg, key, now) == Purged(d, now);
      assert forall k :: k in d.items && d.items[k] > now ==> k in LiveKeys(d.order, d.items, now);
    }
  }

  /** At the bound only the oldest of the failures that still count are dropped. */
  lemma OldestFailuresDropped(failed: OrderedDict<real>, cfg: Config, key: string, now: real)
    requires failed.Valid() && |OthersRefused(failed.items, key, now)| >= cfg.maxEntries
    ensures var d, r := failed.Assign(key, now + 60.0), AfterFailure(failed, cfg, key, now);
      && d.Valid() && |LiveKeys(d.order, d.items, now)| > |r.order| == cfg.maxEntries
      && r.order == LiveKeys(d.order, d.items, now)[|LiveKeys(d.order, d.items, now)| - cfg.maxEntries..]
      && forall k :: k in r.order ==> k in r.items && r.items[k] == d.items[k]
  {
    hide NoDuplicates, OthersRefused, LiveKeys, Newest, Purged;
    LiveCount(failed, key, now);
    NewestLive(failed.Assign(key, now + FAILURE_TTL_SECONDS), now, cfg.maxEntries);
  }

  lemma NewestLive(d: OrderedDict<real>, now: real, n: nat)
    requires d.Valid() && |LiveKeys(d.order, d.items, now)| > n
    ensures var live, r := LiveKeys(d.order, d.items, now), Newest(Purged(d, now), n);
      && r.order == live[|live| - n..]
      && forall k :: k in r.order ==> k in r.items && r.items[k] == d.items[k]
  {
    var live := LiveKeys(d.order, d.items, now);
    assert forall k :: k in live[|live| - n..] ==> k in live;
    hide NoDuplicates, LiveKeys;
  }

  lemma {:induction false} LiveIsFewer(order: seq<string>, until: map<string, real>, now: real)
    requires forall k :: k in order ==> k in until
    ensures |LiveKeys(order, until, now)| <= |order|
  {
    if order != [] {
      LiveIsFewer(order[..|order| - 1], until, now);
    }
  }

  ghost predicate Remembers<V>(c: ClientState<V>, key: string, until: real) {
    key in c.failed.items && until <= c.failed.items[key]
  }

  lemma StillRemembered<V>(cfg: Config, s: System<V>, e: Event<V>, key: string, at: real)
    requires WellFormed(s, cfg) && Enabled(s, e) && !Overflows(cfg, s, e)
    requires at <= e.at < at + 60.0 && Remembers(s.client, key, at + 60.0)
    ensures Remembers(Next(cfg, s, e).client, key, at + 60.0)
  {
    hide NoDuplicates, AfterFailure, AfterPut, AfterGet;
    if e.action.RecordFailure? {
      FailureRemembered(s.client.failed, cfg, s.calls[e.id].key, e.at);
    }
  }

  lemma RememberedIsRefused<V>(cfg: Config, s: System<V>, e: Event<V>, until: real)
    requires WellFormed(s, cfg) && Enabled(s, e) && e.action.Enter?
    requires Remembers(s.client, e.action.key, until) && e.at < until
    ensures Next(cfg, s, e).calls[e.id].pc.Done?
  {
    hide NoDuplicates, AfterFailure, AfterPut, AfterGet;
  }

  lemma {:induction false} RefusedWhileRemembered<V>(cfg: Config, s: System<V>, events: seq<Event<V>>, key: string, at: real)
    requires IsRun(cfg, s, events) && NeverOverflows(cfg, s, events) && at <= s.now
    requires s.now < at + 60.0 ==> Remembers(s.client, key, at + 60.0)
    ensures KeyNotLetIn(cfg, s, events, key, at + 60.0)
    decreases |events|
  {
    hide ClientAfter, CallAfter, WellFormed, Overflows, Remembers;
    if events != [] {
      var e := events[0];
      if e.at < at + 60.0 {
        StillRemembered(cfg, s, e, key, at);
        if e.action == Enter(key) {
          RememberedIsRefused(cfg, s, e, at + 60.0);
        }
      }
      RefusedWhileRemembered(cfg, Next(cfg, s, e), events[1..], key, at);
    }
  }

  lemma NowRemembered<V>(cfg: Config, s: System<V>, e: Event<V>)
    requires WellFormed(s, cfg) && Enabled(s, e) && !Overflows(cfg, s, e) && e.action.RecordFailure?
    ensures Remembers(Next(cfg, s, e).client, s.calls[e.id].key, e.at + 60.0)
  {
    hide NoDuplicates, AfterFailure, OthersRefused;
    FailureRemembered(s.client.failed, cfg, s.calls[e.id].key, e.at);
  }

  /** A barcode whose failure is recorded at some time is not let in again for sixty seconds, over any
      run in which no failure is recorded while `maxEntries` other barcodes are being refused. */
  lemma FailureKeepsKeyOut<V>(cfg: Config, s: System<V>, events: seq<Event<V>>)
    requires IsRun(cfg, s, events) && NeverOverflows(cfg, s, events)
    requires events != [] && events[0].action.RecordFailure?
    ensures KeyNotLetIn(cfg, Next(cfg, s, events[0]), events[1..], s.calls[events[0].id].key, events[0].at + 60.0)
  {
    hide ClientAfter, WellFormed, Overflows, Remembers;
    NowRemembered(cfg, s, events[0]);
    RefusedWhileRemembered(cfg, Next(cfg, s, events[0]), events[1..], s.calls[events[0].id].key, events[0].at);
  }
}
