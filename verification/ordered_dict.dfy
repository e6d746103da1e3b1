/** A dictionary with text keys that remembers insertion order, as `dict` and `OrderedDict` do. */
module OrderedDicts {

  ghost predicate NoDuplicates(s: seq<string>) {
    forall i, j :: 0 <= i < j < |s| ==> s[i] != s[j]
  }

  /** `s` with every occurrence of `k` taken out. */
  function Without(s: seq<string>, k: string): (r: seq<string>)
    ensures forall x :: x in r <==> x in s && x != k
    ensures k !in s ==> r == s
    ensures |r| <= |s|
  {
    if s == [] then []
    else if s[|s| - 1] == k then Without(s[..|s| - 1], k)
    else Without(s[..|s| - 1], k) + [s[|s| - 1]]
  }

  lemma DistinctSnoc(s: seq<string>, k: string)
    ensures NoDuplicates(s + [k]) <==> NoDuplicates(s) && k !in s
  {
    var t := s + [k];
    if NoDuplicates(t) {
      forall i | 0 <= i < |s|
        ensures s[i] != k
      {
        assert t[i] == s[i] && t[|s|] == k;
      }
      forall i, j | 0 <= i < j < |s|
        ensures s[i] != s[j]
      {
        assert t[i] == s[i] && t[j] == s[j];
      }
    }
  }

  lemma {:induction false} WithoutKeepsDistinct(s: seq<string>, k: string)
    requires NoDuplicates(s)
    ensures NoDuplicates(Without(s, k))
    ensures |Without(s, k)| == (if k in s then |s| - 1 else |s|)
  {
    if s != [] {
      var p, x := s[..|s| - 1], s[|s| - 1];
      assert s == p + [x];
      hide NoDuplicates;
      DistinctSnoc(p, x);
      WithoutKeepsDistinct(p, k);
      DistinctSnoc(Without(p, k), x);
    }
  }

  lemma {:induction false} WithoutConcat(s: seq<string>, t: seq<string>, k: string)
    ensures Without(s + t, k) == Without(s, k) + Without(t, k)
  {
    if t == [] {
      assert s + t == s;
    } else {
      assert (s + t)[..|s + t| - 1] == s + t[..|t| - 1];
      WithoutConcat(s, t[..|t| - 1], k);
    }
  }

  datatype OrderedDict<V> = OrderedDict(order: seq<string>, items: map<string, V>) {

    ghost predicate Valid() {
      && NoDuplicates(order)
      && (forall k :: k in order <==> k in items)
    }

    /** Sets the value of a key; an existing key keeps its place. */
    function Assign(k: string, v: V): OrderedDict<V> {
      OrderedDict(if k in items then order else order + [k], items[k := v])
    }

    function MoveToEnd(k: string): OrderedDict<V> {
      OrderedDict(Without(order, k) + [k], items)
    }

    function Delete(k: string): OrderedDict<V> {
      OrderedDict(Without(order, k), items - {k})
    }

    lemma AssignValid(k: string, v: V)
      requires Valid()
      ensures Assign(k, v).Valid()
    {
    }

    lemma MoveToEndValid(k: string)
      requires Valid() && k in items
      ensures MoveToEnd(k).Valid()
    {
      WithoutKeepsDistinct(order, k);
    }

    lemma DeleteValid(k: string)
      requires Valid()
      ensures Delete(k).Valid()
      ensures k in items ==> |Delete(k).order| == |order| - 1
    {
      WithoutKeepsDistinct(order, k);
    }
  }

  /** The last `n` elements of `s`, or all of it. */
  function LastN(s: seq<string>, n: nat): seq<string> {
    if |s| <= n then s else s[|s| - n..]
  }

  /** `items` for the keys in `order` only. */
  function Restrict<V>(items: map<string, V>, order: seq<string>): map<string, V> {
    map k | k in items && k in order :: items[k]
  }

  lemma {:induction false} WithoutFirst(s: seq<string>)
    requires NoDuplicates(s) && s != []
    ensures Without(s, s[0]) == s[1..]
  {
    var k := s[0];
    assert s == [k] + s[1..] && [k][..0] == [];
    assert k !in s[1..];
    hide NoDuplicates;
    WithoutConcat([k], s[1..], k);
  }

  lemma DropFirst<V>(d: OrderedDict<V>)
    requires d.Valid() && d.order != []
    ensures d.Delete(d.order[0]).order == d.order[1..]
    ensures d.Delete(d.order[0]).items == Restrict(d.items, d.order[1..])
  {
    WithoutFirst(d.order);
    InRest(d.order);
    hide NoDuplicates, Without;
    forall k
      ensures k in d.items && k != d.order[0] <==> k in d.items && k in d.order[1..]
    {
      assert k in d.order <==> k in d.items;
    }
  }

  lemma InRest(s: seq<string>)
    requires NoDuplicates(s) && s != []
    ensures forall k :: k in s && k != s[0] <==> k in s[1..]
  {
    assert s == [s[0]] + s[1..];
  }

  lemma RestrictTwice<V>(items: map<string, V>, a: seq<string>, b: seq<string>)
    requires forall k :: k in b ==> k in a
    ensures Restrict(Restrict(items, a), b) == Restrict(items, b)
  {
  }

  lemma LastNOfRest(s: seq<string>, n: nat)
    requires |s| > n
    ensures LastN(s[1..], n) == LastN(s, n)
    ensures |s| == n + 1 ==> LastN(s, n) == s[1..]
    ensures forall k :: k in LastN(s[1..], n) ==> k in s[1..]
  {
  }
}
