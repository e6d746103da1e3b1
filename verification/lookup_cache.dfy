/** The lookup cache against a map that never forgets: what a hit returns, and exactly when
    a live answer is missed. */
module LookupCache {
  import opened Options
  import opened OrderedDicts
  import opened LookupClient

  /** The cache operations of a run, in the order their critical sections happen. */
  datatype Op<V> = Get(key: string, now: real) | Put(key: string, now: real, answer: Option<V>)

  ghost function After<V>(cfg: Config, cache: OrderedDict<Cached<V>>, op: Op<V>): OrderedDict<Cached<V>> {
    if op.Get? then AfterGet(cache, op.key, op.now) else AfterPut(cache, cfg, op.key, op.now, op.answer)
  }

  ghost function Run<V>(cfg: Config, ops: seq<Op<V>>): OrderedDict<Cached<V>> {
    if ops == [] then OrderedDict([], map[])
    else After(cfg, Run(cfg, ops[..|ops| - 1]), ops[|ops| - 1])
  }

  /** The keys used, oldest first: every store, and every get that hits. */
  ghost function Uses<V>(cfg: Config, ops: seq<Op<V>>): seq<string> {
    if ops == [] then []
    else
      var before, op := ops[..|ops| - 1], ops[|ops| - 1];
      if op.Put? || IsHit(Run(cfg, before), op.key, op.now) then Uses(cfg, before) + [op.key]
      else Uses(cfg, before)
  }

  /** The unbounded map: the last value stored for `key`, and when. */
  ghost function LatestPut<V>(ops: seq<Op<V>>, key: string): Option<Op<V>> {
    if ops == [] then None
    else if ops[|ops| - 1].Put? && ops[|ops| - 1].key == key then Some(ops[|ops| - 1])
    else LatestPut(ops[..|ops| - 1], key)
  }

  /** The distinct keys used after the last use of `key`. */
  ghost function UsedSince(uses: seq<string>, key: string): set<string> {
    if uses == [] || uses[|uses| - 1] == key then {}
    else UsedSince(uses[..|uses| - 1], key) + {uses[|uses| - 1]}
  }

  // ---- Keys by recency ----

  /** The distinct keys used, least recently used first. */
  ghost function ByRecency(uses: seq<string>): seq<string> {
    if uses == [] then []
    else Without(ByRecency(uses[..|uses| - 1]), uses[|uses| - 1]) + [uses[|uses| - 1]]
  }

  ghost function KeysAfter(s: seq<string>, key: string): seq<string> {
    if s == [] || s[|s| - 1] == key then []
    else KeysAfter(s[..|s| - 1], key) + [s[|s| - 1]]
  }

  ghost function Elements(s: seq<string>): set<string> {
    set x | x in s
  }

  lemma {:induction false} RecencyDistinct(uses: seq<string>)
    ensures NoDuplicates(ByRecency(uses))
    ensures forall k :: k in ByRecency(uses) <==> k in uses
  {
    if uses != [] {
      var p, x := uses[..|uses| - 1], uses[|uses| - 1];
      RecencyDistinct(p);
      assert forall k :: k in uses <==> k in p || k == x;
      hide NoDuplicates, Without;
      WithoutKeepsDistinct(ByRecency(p), x);
      DistinctSnoc(Without(ByRecency(p), x), x);
    }
  }

  lemma KeysAfterSnoc(s: seq<string>, x: string, key: string)
    ensures KeysAfter(s + [x], key) == if x == key then [] else KeysAfter(s, key) + [x]
  {
    assert (s + [x])[..|s|] == s;
  }

  lemma WithoutSnoc(s: seq<string>, x: string, k: string)
    ensures Without(s + [x], k) == if x == k then Without(s, k) else Without(s, k) + [x]
  {
    assert (s + [x])[..|s|] == s;
  }

  lemma {:induction false} KeysAfterWithout(s: seq<string>, x: string, key: string)
    requires x != key
    ensures KeysAfter(Without(s, x), key) == Without(KeysAfter(s, key), x)
  {
    if s != [] {
      var p, y := s[..|s| - 1], s[|s| - 1];
      assert s == p + [y];
      KeysAfterWithout(p, x, key);
      hide Without, KeysAfter;
      WithoutSnoc(p, y, x);
      KeysAfterSnoc(p, y, key);
      KeysAfterSnoc(Without(p, x), y, key);
      WithoutSnoc(KeysAfter(p, key), y, x);
      WithoutEmpty(x);
    }
  }

  lemma WithoutEmpty(x: string)
    ensures Without([], x) == []
  {
  }

  /** The keys after `key` by recency are those used since. */
  lemma {:induction false} AfterIsUsedSince(uses: seq<string>, key: string)
    requires key in uses
    ensures Elements(KeysAfter(ByRecency(uses), key)) == UsedSince(uses, key)
  {
    hide Without, KeysAfter, Elements;
    var p, x := uses[..|uses| - 1], uses[|uses| - 1];
    assert uses == p + [x];
    var r := ByRecency(p);
    KeysAfterSnoc(Without(r, x), x, key);
    if x != key {
      AfterIsUsedSince(p, key);
      KeysAfterWithout(r, x, key);
      ElementsMoved(KeysAfter(r, key), x);
    } else {
      NoElements();
    }
  }

  lemma NoElements()
    ensures Elements([]) == {}
  {
  }

  lemma ElementsMoved(s: seq<string>, x: string)
    ensures Elements(Without(s, x) + [x]) == Elements(s) + {x}
  {
    forall k
      ensures k in Without(s, x) + [x] <==> k in s || k == x
    {
    }
    hide Without;
  }

  lemma {:induction false} SizeOfElements(s: seq<string>)
    requires NoDuplicates(s)
    ensures |Elements(s)| == |s|
  {
    if s != [] {
      var p, x := s[..|s| - 1], s[|s| - 1];
      assert s == p + [x];
      hide NoDuplicates;
      DistinctSnoc(p, x);
      SizeOfElements(p);
      assert Elements(s) == Elements(p) + {x};
    }
  }

  lemma {:induction false} KeysAfterDistinct(s: seq<string>, key: string)
    requires NoDuplicates(s)
    ensures NoDuplicates(KeysAfter(s, key)) && forall k :: k in KeysAfter(s, key) ==> k in s
  {
    if s != [] && s[|s| - 1] != key {
      var p, x := s[..|s| - 1], s[|s| - 1];
      assert s == p + [x];
      hide NoDuplicates;
      DistinctSnoc(p, x);
      KeysAfterDistinct(p, key);
      DistinctSnoc(KeysAfter(p, key), x);
    }
  }

  /** A key is among the last `n` exactly when fewer than `n` come after it. */
  lemma {:induction false} AmongLast(s: seq<string>, key: string, n: nat)
    requires NoDuplicates(s) && key in s
    ensures key in LastN(s, n) <==> |KeysAfter(s, key)| < n
  {
    var p, x := s[..|s| - 1], s[|s| - 1];
    assert s == p + [x];
    assert x !in p;
    if x == key {
      if n > 0 {
        assert LastN(s, n)[|LastN(s, n)| - 1] == x;
      }
    } else if n > 0 {
      DistinctSnoc(p, x);
      AmongLast(p, key, n - 1);
      assert LastN(s, n) == LastN(p, n - 1) + [x];
    }
  }

  lemma LastNOfConcat(a: seq<string>, b: seq<string>, n: nat)
    ensures |b| >= n ==> LastN(a + b, n) == LastN(b, n)
    ensures a == [] ==> LastN(a + b, n) == LastN(b, n)
  {
    assert a == [] ==> a + b == b;
  }

  /** Using a key and keeping the last `n` gives the same whether or not older keys had
      already been dropped. */
  lemma TouchLastN(s: seq<string>, key: string, n: nat)
    requires NoDuplicates(s)
    ensures LastN(Without(LastN(s, n), key) + [key], n) == LastN(Without(s, key) + [key], n)
  {
    var last := LastN(s, n);
    var older := s[..|s| - |last|];
    assert s == older + last;
    WithoutConcat(older, last, key);
    assert older != [] ==> |last| == n;
    assert Without(s, key) + [key] == Without(older, key) + (Without(last, key) + [key]);
    SuffixDistinct(s, |s| - |last|);
    WithoutKeepsDistinct(last, key);
    if older == [] {
      WithoutEmpty(key);
    }
    hide NoDuplicates, Without;
    LastNOfConcat(Without(older, key), Without(last, key) + [key], n);
  }

  lemma SuffixDistinct(s: seq<string>, i: nat)
    requires NoDuplicates(s) && i <= |s|
    ensures NoDuplicates(s[i..])
  {
  }

  lemma LastNFits(s: seq<string>, n: nat)
    ensures |s| <= n ==> LastN(s, n) == s
    ensures |LastN(s, n)| <= n && forall k :: k in LastN(s, n) ==> k in s
  {
  }

  // ---- Every run ----

  /** The entry the unbounded map has for `key`. */
  ghost predicate Agrees<V>(cfg: Config, ops: seq<Op<V>>, key: string, entry: Cached<V>) {
    var put := LatestPut(ops, key);
    put.Some? && put.value.Put? && entry == Cached(put.value.now + cfg.cacheTtl, put.value.answer)
  }

  /** The cache holds the most recently used keys, each with the last value stored for it. */
  ghost predicate HoldsNewest<V>(cfg: Config, ops: seq<Op<V>>) {
    var cache, uses := Run(cfg, ops), Uses(cfg, ops);
    && cache.Valid()
    && cache.order == LastN(ByRecency(uses), cfg.maxEntries)
    && (forall k :: k in cache.items ==> Agrees(cfg, ops, k, cache.items[k]))
    && (forall k :: LatestPut(ops, k).Some? <==> k in uses)
  }

  lemma LatestPutSnoc<V>(ops: seq<Op<V>>, op: Op<V>, key: string)
    ensures LatestPut(ops + [op], key) == if op.Put? && op.key == key then Some(op) else LatestPut(ops, key)
  {
    assert (ops + [op])[..|ops|] == ops;
  }

  lemma RunSnoc<V>(cfg: Config, ops: seq<Op<V>>, op: Op<V>)
    ensures Run(cfg, ops + [op]) == After(cfg, Run(cfg, ops), op)
    ensures Uses(cfg, ops + [op]) == if op.Put? || IsHit(Run(cfg, ops), op.key, op.now)
      then Uses(cfg, ops) + [op.key] else Uses(cfg, ops)
  {
    assert (ops + [op])[..|ops|] == ops;
  }

  lemma RecencySnoc(uses: seq<string>, key: string)
    ensures ByRecency(uses + [key]) == Without(ByRecency(uses), key) + [key]
  {
    assert (uses + [key])[..|uses|] == uses;
  }

  lemma OrderAfterUse(order: seq<string>, uses: seq<string>, key: string, n: nat)
    requires order == LastN(ByRecency(uses), n)
    ensures LastN(Without(order, key) + [key], n) == LastN(ByRecency(uses + [key]), n)
    ensures key in order ==> Without(order, key) + [key] == LastN(ByRecency(uses + [key]), n)
  {
    hide *;
    RecencyDistinct(uses);
    RecencySnoc(uses, key);
    TouchLastN(ByRecency(uses), key, n);
    LastNDistinct(ByRecency(uses), n);
    WithoutKeepsDistinct(order, key);
    LastNFits(ByRecency(uses), n);
    LastNFits(Without(order, key) + [key], n);
  }

  lemma LastNDistinct(s: seq<string>, n: nat)
    requires NoDuplicates(s)
    ensures NoDuplicates(LastN(s, n))
  {
  }

  lemma GetOrder<V>(cache: OrderedDict<Cached<V>>, key: string, now: real)
    requires cache.Valid()
    ensures AfterGet(cache, key, now).Valid() && AfterGet(cache, key, now).items == cache.items
    ensures AfterGet(cache, key, now).order ==
      if IsHit(cache, key, now) then Without(cache.order, key) + [key] else cache.order
  {
    if IsHit(cache, key, now) {
      cache.MoveToEndValid(key);
    }
  }

  lemma PutOrder<V>(cache: OrderedDict<Cached<V>>, cfg: Config, key: string, now: real, answer: Option<V>)
    requires cache.Valid()
    ensures var r := AfterPut(cache, cfg, key, now, answer);
      && r.Valid()
      && r.order == LastN(Without(cache.order, key) + [key], cfg.maxEntries)
      && (key in r.items ==> r.items[key] == Cached(now + cfg.cacheTtl, answer))
      && (forall k :: k in r.items && k != key ==> k in cache.items && r.items[k] == cache.items[k])
  {
    hide *;
    var entry := Cached(now + cfg.cacheTtl, answer);
    AssignAtEnd(cache, key, entry);
    NewestValid(cache.Assign(key, entry).MoveToEnd(key), cfg.maxEntries);
    PutIsNewest(cache, cfg, key, now, answer);
  }

  lemma PutIsNewest<V>(cache: OrderedDict<Cached<V>>, cfg: Config, key: string, now: real, answer: Option<V>)
    ensures AfterPut(cache, cfg, key, now, answer)
         == Newest(cache.Assign(key, Cached(now + cfg.cacheTtl, answer)).MoveToEnd(key), cfg.maxEntries)
  {
  }

  lemma AssignAtEnd<T>(d: OrderedDict<T>, key: string, v: T)
    requires d.Valid()
    ensures d.Assign(key, v).MoveToEnd(key).Valid()
    ensures d.Assign(key, v).MoveToEnd(key).order == Without(d.order, key) + [key]
    ensures d.Assign(key, v).MoveToEnd(key).items == d.items[key := v]
  {
    d.AssignValid(key, v);
    d.Assign(key, v).MoveToEndValid(key);
    WithoutSnoc(d.order, key, key);
    hide Without, NoDuplicates;
  }

  lemma NewestValid<V>(d: OrderedDict<V>, n: nat)
    requires d.Valid()
    ensures Newest(d, n).Valid() && Newest(d, n).order == LastN(d.order, n)
    ensures forall k :: k in Newest(d, n).items ==> k in d.items && Newest(d, n).items[k] == d.items[k]
  {
    LastNDistinct(d.order, n);
    LastNFits(d.order, n);
    hide NoDuplicates, LastN;
  }

  lemma GetKeepsNewest<V>(cfg: Config, ops: seq<Op<V>>, op: Op<V>)
    requires op.Get? && HoldsNewest(cfg, ops)
    ensures HoldsNewest(cfg, ops + [op])
  {
    hide NoDuplicates, Without, LatestPut, Run, Uses, LastN, ByRecency, AfterGet, IsHit;
    RunSnoc(cfg, ops, op);
    GetOrder(Run(cfg, ops), op.key, op.now);
    OrderAfterUse(Run(cfg, ops).order, Uses(cfg, ops), op.key, cfg.maxEntries);
    if IsHit(Run(cfg, ops), op.key, op.now) {
      HitIsUsed(cfg, ops, op);
    }
    forall k
      ensures LatestPut(ops + [op], k) == LatestPut(ops, k)
    {
      LatestPutSnoc(ops, op, k);
    }
  }

  lemma HitIsUsed<V>(cfg: Config, ops: seq<Op<V>>, op: Op<V>)
    requires HoldsNewest(cfg, ops) && IsHit(Run(cfg, ops), op.key, op.now)
    ensures op.key in Run(cfg, ops).order && op.key in Uses(cfg, ops)
  {
    hide NoDuplicates, LatestPut, Run, Uses, LastN, ByRecency;
    LastNFits(ByRecency(Uses(cfg, ops)), cfg.maxEntries);
    RecencyDistinct(Uses(cfg, ops));
  }

  lemma PutKeepsNewest<V>(cfg: Config, ops: seq<Op<V>>, op: Op<V>)
    requires op.Put? && HoldsNewest(cfg, ops)
    ensures HoldsNewest(cfg, ops + [op])
  {
    hide NoDuplicates, Without, LatestPut, Run, Uses, LastN, ByRecency, AfterPut, IsHit;
    RunSnoc(cfg, ops, op);
    PutOrder(Run(cfg, ops), cfg, op.key, op.now, op.answer);
    OrderAfterUse(Run(cfg, ops).order, Uses(cfg, ops), op.key, cfg.maxEntries);
    forall k
      ensures LatestPut(ops + [op], k) == if k == op.key then Some(op) else LatestPut(ops, k)
    {
      LatestPutSnoc(ops, op, k);
    }
  }

  lemma {:induction false} EveryRunHoldsNewest<V>(cfg: Config, ops: seq<Op<V>>)
    ensures HoldsNewest(cfg, ops)
  {
    if ops != [] {
      var before, op := ops[..|ops| - 1], ops[|ops| - 1];
      assert ops == before + [op];
      EveryRunHoldsNewest(cfg, before);
      hide HoldsNewest;
      if op.Get? {
        GetKeepsNewest(cfg, before, op);
      } else {
        PutKeepsNewest(cfg, before, op);
      }
    }
  }

  /** After any run, a get hits exactly when the unbounded map has an answer for the key
      that is younger than the time to live and fewer than `maxEntries` other keys were used
      since; a hit returns that answer. */
  lemma CacheAgreesWithUnboundedMap<V>(cfg: Config, ops: seq<Op<V>>, key: string, now: real)
    ensures var cache, put := Run(cfg, ops), LatestPut(ops, key);
      && |cache.order| <= cfg.maxEntries
      && (IsHit(cache, key, now) <==>
            put.Some? && now < put.value.now + cfg.cacheTtl && |UsedSince(Uses(cfg, ops), key)| < cfg.maxEntries)
      && (IsHit(cache, key, now) ==> put.value.Put? && cache.items[key].answer == put.value.answer)
  {
    hide NoDuplicates, LatestPut, Run, Uses, LastN, ByRecency, KeysAfter, UsedSince;
    var uses := Uses(cfg, ops);
    EveryRunHoldsNewest(cfg, ops);
    RecencyDistinct(uses);
    LastNFits(ByRecency(uses), cfg.maxEntries);
    if key in uses {
      AmongLast(ByRecency(uses), key, cfg.maxEntries);
      AfterIsUsedSince(uses, key);
      KeysAfterDistinct(ByRecency(uses), key);
      SizeOfElements(KeysAfter(ByRecency(uses), key));
    }
  }
}
