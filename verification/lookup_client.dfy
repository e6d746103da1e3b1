/** The Open Food Facts client: its caches, slot clock, in-flight permits and circuit
    breaker. Each method is one critical section of the original; `Snapshot` gathers the
    fields into a value and the functions on states say what each section does. */
module LookupClient {
  import opened Options
  import opened OrderedDicts

  const MAX_WAIT_SECONDS := 2.0
  const FAILURE_TTL_SECONDS := 60.0
  const BREAKER_THRESHOLD := 3
  const BREAKER_OPEN_SECONDS := 60.0

  datatype Config = Config(minInterval: real, maxInFlight: nat, cacheTtl: real, maxEntries: nat)

  /** A cached answer: a product, or None for "not in their database". */
  datatype Cached<V> = Cached(expiry: real, answer: Option<V>)

  datatype ClientState<V> = ClientState(
    cache: OrderedDict<Cached<V>>,
    failed: OrderedDict<real>,
    failures: nat,
    breakerOpen: bool,
    breakerUntil: real,
    probing: bool,
    nextSlot: real,
    permits: nat)

  /** How the first critical section of a lookup ends. */
  datatype Admission<V> = Answered(answer: Option<V>) | RecentlyFailed | CircuitOpen | Admitted(probe: bool)

  // ---- The caches ----

  predicate IsHit<V>(cache: OrderedDict<Cached<V>>, key: string, now: real) {
    key in cache.items && cache.items[key].expiry > now
  }

  function AfterGet<V>(cache: OrderedDict<Cached<V>>, key: string, now: real): OrderedDict<Cached<V>> {
    if IsHit(cache, key, now) then cache.MoveToEnd(key) else cache
  }

  /** Only the last `n` keys, oldest dropped first. */
  function Newest<V>(d: OrderedDict<V>, n: nat): OrderedDict<V> {
    if |d.order| <= n then d else OrderedDict(LastN(d.order, n), Restrict(d.items, LastN(d.order, n)))
  }

  function AfterPut<V>(cache: OrderedDict<Cached<V>>, cfg: Config, key: string, now: real, answer: Option<V>)
    : OrderedDict<Cached<V>>
  {
    Newest(cache.Assign(key, Cached(now + cfg.cacheTtl, answer)).MoveToEnd(key), cfg.maxEntries)
  }

  /** The keys of `order` whose entry has not run out. */
  function LiveKeys(order: seq<string>, until: map<string, real>, now: real): (r: seq<string>)
    requires forall k :: k in order ==> k in until
    ensures forall k :: k in r <==> k in order && until[k] > now
  {
    if order == [] then []
    else
      var rest := LiveKeys(order[..|order| - 1], until, now);
      if until[order[|order| - 1]] > now then rest + [order[|order| - 1]] else rest
  }

  function Purged(d: OrderedDict<real>, now: real): OrderedDict<real>
    requires forall k :: k in d.order ==> k in d.items
  {
    OrderedDict(LiveKeys(d.order, d.items, now), Restrict(d.items, LiveKeys(d.order, d.items, now)))
  }

  function AfterFailure(failed: OrderedDict<real>, cfg: Config, key: string, now: real): OrderedDict<real>
    requires forall k :: k in failed.order ==> k in failed.items
  {
    var d := failed.Assign(key, now + FAILURE_TTL_SECONDS);
    if |d.order| <= cfg.maxEntries then d else Newest(Purged(d, now), cfg.maxEntries)
  }

  // ---- The critical sections ----

  function Admit<V>(s: ClientState<V>, key: string, now: real): Admission<V> {
    if IsHit(s.cache, key, now) then Answered(s.cache.items[key].answer)
    else if key in s.failed.items && s.failed.items[key] > now then RecentlyFailed
    else if s.breakerOpen && (now < s.breakerUntil || s.probing) then CircuitOpen
    else Admitted(s.breakerOpen)
  }

  function AfterAdmit<V>(s: ClientState<V>, key: string, now: real): ClientState<V> {
    var a := Admit(s, key, now);
    s.(cache := AfterGet(s.cache, key, now), probing := s.probing || a == Admitted(true))
  }

  function AfterRecordFailure<V>(s: ClientState<V>, cfg: Config, key: string, outage: bool, probe: bool, now: real)
    : ClientState<V>
    requires forall k :: k in s.failed.order ==> k in s.failed.items
  {
    var t := s.(failed := AfterFailure(s.failed, cfg, key, now));
    if outage then
      if probe || s.failures + 1 >= BREAKER_THRESHOLD
      then t.(failures := 0, breakerOpen := true, breakerUntil := now + BREAKER_OPEN_SECONDS)
      else t.(failures := s.failures + 1)
    else if probe then t.(failures := 0, breakerOpen := false)
    else t
  }

  function AfterRecordSuccess<V>(s: ClientState<V>): ClientState<V> {
    s.(failures := 0, breakerOpen := false)
  }

  function Slot(nextSlot: real, now: real): real {
    if now < nextSlot then nextSlot else now
  }

  /** Is the next slot near enough to wait for? */
  predicate Grants(nextSlot: real, now: real) {
    Slot(nextSlot, now) - now <= MAX_WAIT_SECONDS
  }

  function AfterReserve(nextSlot: real, cfg: Config, now: real): real {
    if Grants(nextSlot, now) then Slot(nextSlot, now) + cfg.minInterval else nextSlot
  }

  /** What holds of the fields between critical sections. */
  ghost predicate Consistent<V>(s: ClientState<V>, cfg: Config) {
    && s.cache.Valid() && |s.cache.order| <= cfg.maxEntries
    && s.failed.Valid() && |s.failed.order| <= cfg.maxEntries
    && s.failures < BREAKER_THRESHOLD
    && s.permits <= cfg.maxInFlight
  }

  class OpenFoodFactsClient<V> {
    const cfg: Config
    var cache: OrderedDict<Cached<V>>
    var failed: OrderedDict<real>
    var failures: nat
    var breakerOpen: bool
    var breakerUntil: real
    var probing: bool
    var nextSlot: real
    var permits: nat

    function Snapshot(): ClientState<V>
      reads this
    {
      ClientState(cache, failed, failures, breakerOpen, breakerUntil, probing, nextSlot, permits)
    }

    constructor (cfg: Config)
      ensures this.cfg == cfg && Snapshot() == Initial(cfg)
    {
      this.cfg := cfg;
      cache, failed := OrderedDict([], map[]), OrderedDict([], map[]);
      failures, breakerOpen, breakerUntil, probing := 0, false, 0.0, false;
      nextSlot, permits := 0.0, cfg.maxInFlight;
    }

    method CachedAnswer(key: string, now: real) returns (found: bool, answer: Option<V>)
      requires cache.Valid()
      modifies this`cache
      ensures found == IsHit(old(cache), key, now)
      ensures found ==> answer == old(cache).items[key].answer
      ensures cache == AfterGet(old(cache), key, now) && cache.Valid()
    {
      if key in cache.items && cache.items[key].expiry > now {
        cache.MoveToEndValid(key);
        answer := cache.items[key].answer;
        cache := cache.MoveToEnd(key);
        return true, answer;
      }
      return false, None;
    }

    method Store(key: string, answer: Option<V>, now: real)
      requires cache.Valid()
      modifies this`cache
      ensures cache == AfterPut(old(cache), cfg, key, now, answer)
      ensures cache.Valid() && |cache.order| <= cfg.maxEntries
    {
      hide NoDuplicates, Without, Newest;
      cache.AssignValid(key, Cached(now + cfg.cacheTtl, answer));
      cache := cache.Assign(key, Cached(now + cfg.cacheTtl, answer));
      cache.MoveToEndValid(key);
      cache := cache.MoveToEnd(key);
      cache := DropOldest(cache, cfg.maxEntries);
    }

    method RememberFailure(key: string, now: real)
      requires failed.Valid()
      modifies this`failed
      ensures failed == AfterFailure(old(failed), cfg, key, now)
      ensures failed.Valid() && |failed.order| <= cfg.maxEntries
    {
      failed.AssignValid(key, now + FAILURE_TTL_SECONDS);
      failed := failed.Assign(key, now + FAILURE_TTL_SECONDS);
      if |failed.order| > cfg.maxEntries {
        failed := DropExpired(failed, now);
        failed := DropOldest(failed, cfg.maxEntries);
      }
    }

    /** The first critical section of `by_barcode`: the caches and the breaker. */
    method AdmitLookup(key: string, now: real) returns (a: Admission<V>)
      requires cache.Valid()
      modifies this`cache, this`probing
      ensures a == Admit(old(Snapshot()), key, now)
      ensures Snapshot() == AfterAdmit(old(Snapshot()), key, now) && cache.Valid()
      ensures a.Answered? <==> key in old(cache).items && now < old(cache).items[key].expiry
      ensures a.Answered? ==> a.answer == old(cache).items[key].answer
      ensures a.Admitted? ==> !(key in failed.items && now < failed.items[key])
      ensures a.Admitted? && !breakerOpen ==> !a.probe && probing == old(probing)
      ensures a.Admitted? && breakerOpen ==> a.probe && breakerUntil <= now && !old(probing) && probing
      ensures a == RecentlyFailed ==> key in failed.items && now < failed.items[key]
      ensures a == CircuitOpen ==> breakerOpen && (now < breakerUntil || probing)
    {
      var found, answer := CachedAnswer(key, now);
      if found {
        return Answered(answer);
      }
      if key in failed.items && failed.items[key] > now {
        return RecentlyFailed;
      }
      var probe := false;
      if breakerOpen {
        if now < breakerUntil || probing {
          return CircuitOpen;
        }
        probing, probe := true, true;
      }
      return Admitted(probe);
    }

    method RecordFailure(key: string, outage: bool, probe: bool, now: real)
      requires Consistent(Snapshot(), cfg)
      modifies this`failed, this`failures, this`breakerOpen, this`breakerUntil
      ensures Snapshot() == AfterRecordFailure(old(Snapshot()), cfg, key, outage, probe, now)
      ensures Consistent(Snapshot(), cfg)
      ensures outage && (probe || old(failures) == 2) ==> breakerOpen && breakerUntil == now + 60.0 && failures == 0
      ensures outage && !probe && old(failures) < 2 ==>
        breakerOpen == old(breakerOpen) && breakerUntil == old(breakerUntil) && failures == old(failures) + 1
      ensures !outage && probe ==> !breakerOpen && failures == 0
      ensures !outage && !probe ==> breakerOpen == old(breakerOpen) && failures == old(failures)
    {
      hide AfterFailure, NoDuplicates;
      RememberFailure(key, now);
      if outage {
        failures := failures + 1;
        if probe || failures >= BREAKER_THRESHOLD {
          breakerOpen := true;
          breakerUntil := now + BREAKER_OPEN_SECONDS;
          failures := 0;
        }
      } else if probe {
        breakerOpen := false;
        failures := 0;
      }
    }

    method RecordSuccess()
      modifies this`failures, this`breakerOpen
      ensures Snapshot() == AfterRecordSuccess(old(Snapshot()))
      ensures !breakerOpen && failures == 0
    {
      failures := 0;
      breakerOpen := false;
    }

    /** Claims the next request slot and says how long to wait for it, or refuses and
        leaves the slot clock alone. */
    method Reserve(now: real) returns (wait: Option<real>)
      modifies this`nextSlot
      ensures nextSlot == AfterReserve(old(nextSlot), cfg, now)
      ensures wait.Some? <==> Grants(old(nextSlot), now)
      ensures wait.Some? ==> 0.0 <= wait.value <= MAX_WAIT_SECONDS && now + wait.value == Slot(old(nextSlot), now)
      ensures wait.Some? <==> old(nextSlot) <= now + 2.0
      ensures wait.Some? && old(nextSlot) <= now ==> wait.value == 0.0 && nextSlot == now + cfg.minInterval
      ensures wait.Some? && now < old(nextSlot) ==>
        now + wait.value == old(nextSlot) && nextSlot == old(nextSlot) + cfg.minInterval
      ensures wait == None ==> nextSlot == old(nextSlot)
    {
      var slot := if now < nextSlot then nextSlot else now;
      if slot - now > MAX_WAIT_SECONDS {
        return None;
      }
      nextSlot := slot + cfg.minInterval;
      return Some(slot - now);
    }
  }

  /** Forgets keys from the front until at most `n` are left. */
  method DropOldest<V>(d: OrderedDict<V>, n: nat) returns (r: OrderedDict<V>)
    requires d.Valid()
    ensures r == Newest(d, n) && r.Valid() && |r.order| <= n
  {
    hide NoDuplicates, Newest;
    r := d;
    while |r.order| > n
      invariant r.Valid()
      invariant Newest(r, n) == Newest(d, n)
      decreases |r.order|
    {
      NewestOfRest(r, n);
      r.DeleteValid(r.order[0]);
      r := r.Delete(r.order[0]);
    }
    NewestOfFew(r, n);
  }

  lemma NewestOfFew<V>(d: OrderedDict<V>, n: nat)
    requires |d.order| <= n
    ensures Newest(d, n) == d
  {
  }

  /** Forgets every key whose time is up. */
  method DropExpired(d: OrderedDict<real>, now: real) returns (r: OrderedDict<real>)
    requires d.Valid()
    ensures r == Purged(d, now) && r.Valid()
  {
    hide NoDuplicates, Without, LiveKeys, Restrict, PurgedUpTo, Purged;
    var i := 0;
    r := d;
    PurgeBounds(d, now);
    while i < |d.order|
      invariant 0 <= i <= |d.order|
      invariant r.Valid() && r == PurgedUpTo(d, now, i)
    {
      var k := d.order[i];
      PurgeNext(d, now, i);
      if d.items[k] <= now {
        r.DeleteValid(k);
        r := r.Delete(k);
      }
      i := i + 1;
    }
  }

  /** `d` with the first `i` keys purged. */
  ghost function PurgedUpTo(d: OrderedDict<real>, now: real, i: nat): OrderedDict<real>
    requires i <= |d.order| && forall k :: k in d.order ==> k in d.items
  {
    var order := LiveKeys(d.order[..i], d.items, now) + d.order[i..];
    OrderedDict(order, Restrict(d.items, order))
  }

  lemma PurgeBounds(d: OrderedDict<real>, now: real)
    requires d.Valid()
    ensures PurgedUpTo(d, now, 0) == d && PurgedUpTo(d, now, |d.order|) == Purged(d, now)
  {
    hide LiveKeys, Restrict, NoDuplicates;
    NothingDropped(d, now);
    assert d.order[0..] == d.order && d.order[..|d.order|] == d.order && d.order[|d.order|..] == [];
    assert LiveKeys(d.order, d.items, now) + [] == LiveKeys(d.order, d.items, now);
  }

  lemma PurgeNext(d: OrderedDict<real>, now: real, i: nat)
    requires d.Valid() && i < |d.order|
    ensures var r := PurgedUpTo(d, now, i);
      PurgedUpTo(d, now, i + 1) == if d.items[d.order[i]] <= now then r.Delete(d.order[i]) else r
  {
    hide LiveKeys, Restrict, NoDuplicates, Without;
    KeepStep(d.order, d.items, now, i);
    if d.items[d.order[i]] <= now {
      PurgeStep(d, now, i);
      RestrictWithout(d.items, PurgedUpTo(d, now, i).order, d.order[i]);
    }
  }

  lemma NothingDropped(d: OrderedDict<real>, now: real)
    requires d.Valid()
    ensures LiveKeys(d.order[..0], d.items, now) == [] && Restrict(d.items, d.order) == d.items
  {
    hide NoDuplicates;
  }

  lemma RestrictWithout(items: map<string, real>, order: seq<string>, k: string)
    ensures Restrict(items, order) - {k} == Restrict(items, Without(order, k))
  {
    hide Without;
  }

  lemma KeepStep(order: seq<string>, until: map<string, real>, now: real, i: nat)
    requires i < |order| && forall k :: k in order ==> k in until
    ensures until[order[i]] > now ==>
      LiveKeys(order[..i], until, now) + order[i..] == LiveKeys(order[..i + 1], until, now) + order[i + 1..]
    ensures until[order[i]] <= now ==> LiveKeys(order[..i + 1], until, now) == LiveKeys(order[..i], until, now)
  {
    assert order[..i + 1][..i] == order[..i];
    assert order[i..] == [order[i]] + order[i + 1..];
  }

  function Initial<V>(cfg: Config): ClientState<V> {
    ClientState(OrderedDict([], map[]), OrderedDict([], map[]), 0, false, 0.0, false, 0.0, cfg.maxInFlight)
  }

  lemma NewestOfRest<V>(d: OrderedDict<V>, n: nat)
    requires d.Valid() && |d.order| > n
    ensures Newest(d.Delete(d.order[0]), n) == Newest(d, n)
  {
    DropFirst(d);
    LastNOfRest(d.order, n);
    RestrictTwice(d.items, d.order[1..], LastN(d.order, n));
    hide NoDuplicates, Without, LastN, Restrict;
  }

  lemma WithoutMiddle(live: seq<string>, k: string, rest: seq<string>)
    requires k !in live && k !in rest
    ensures Without(live + ([k] + rest), k) == live + rest
  {
    hide Without;
    WithoutConcat(live, [k] + rest, k);
    WithoutConcat([k], rest, k);
    WithoutItself(k);
  }

  lemma WithoutItself(k: string)
    ensures Without([k], k) == []
  {
    assert [k][..0] == [];
  }

  lemma NotLater(s: seq<string>, i: nat)
    requires NoDuplicates(s) && i < |s|
    ensures s[i] !in s[i + 1..] && s[i] !in s[..i]
  {
  }

  lemma PurgeStep(d: OrderedDict<real>, now: real, i: nat)
    requires d.Valid() && i < |d.order| && d.items[d.order[i]] <= now
    ensures Without(LiveKeys(d.order[..i], d.items, now) + d.order[i..], d.order[i])
         == LiveKeys(d.order[..i + 1], d.items, now) + d.order[i + 1..]
  {
    var k, rest := d.order[i], d.order[i + 1..];
    NotLater(d.order, i);
    hide NoDuplicates, LiveKeys, Without;
    KeepStep(d.order, d.items, now, i);
    assert d.order[i..] == [k] + rest;
    WithoutMiddle(LiveKeys(d.order[..i], d.items, now), k, rest);
  }
}
