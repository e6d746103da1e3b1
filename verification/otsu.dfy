/** Otsu's threshold: the one-pass search over the histogram, and what it finds in terms of
    the pixels themselves. */
module Otsu {

  const LEVELS := 256
  const DEFAULT_THRESHOLD := 128

  ghost predicate IsGrey(g: seq<int>) {
    forall i :: 0 <= i < |g| ==> 0 <= g[i] < LEVELS
  }

  // ---- The two classes a threshold splits the pixels into ----

  /** Pixels of level `v`. */
  ghost function Count(g: seq<int>, v: int): nat {
    if g == [] then 0 else Count(g[..|g| - 1], v) + (if g[|g| - 1] == v then 1 else 0)
  }

  /** Pixels of the dark class, at most `t`. */
  ghost function CountUpTo(g: seq<int>, t: int): nat {
    if g == [] then 0 else CountUpTo(g[..|g| - 1], t) + (if g[|g| - 1] <= t then 1 else 0)
  }

  ghost function SumUpTo(g: seq<int>, t: int): int {
    if g == [] then 0 else SumUpTo(g[..|g| - 1], t) + (if g[|g| - 1] <= t then g[|g| - 1] else 0)
  }

  ghost function Sum(g: seq<int>): int {
    if g == [] then 0 else Sum(g[..|g| - 1]) + g[|g| - 1]
  }

  /** Are both classes non-empty? */
  ghost predicate Splits(g: seq<int>, t: int) {
    0 < CountUpTo(g, t) < |g|
  }

  ghost function DarkMean(g: seq<int>, t: int): real
    requires Splits(g, t)
  {
    SumUpTo(g, t) as real / CountUpTo(g, t) as real
  }

  ghost function LightMean(g: seq<int>, t: int): real
    requires Splits(g, t)
  {
    (Sum(g) - SumUpTo(g, t)) as real / (|g| - CountUpTo(g, t)) as real
  }

  function Square(x: real): real {
    x * x
  }

  function Spread(wB: int, wF: int, mB: real, mF: real): real {
    wB as real * wF as real * Square(mB - mF)
  }

  /** Between-class variance (times the square of the number of pixels). */
  ghost function Between(g: seq<int>, t: int): real
    requires Splits(g, t)
  {
    Spread(CountUpTo(g, t), |g| - CountUpTo(g, t), DarkMean(g, t), LightMean(g, t))
  }

  /** The least threshold with the greatest between-class variance, if any splits the pixels. */
  ghost predicate IsOtsuThreshold(g: seq<int>, threshold: int) {
    && ((exists t :: 0 <= t < LEVELS && Splits(g, t)) ==>
          && 0 <= threshold < LEVELS && Splits(g, threshold)
          && forall t :: 0 <= t < LEVELS && Splits(g, t) ==>
               Between(g, t) <= Between(g, threshold) &&
               (t < threshold ==> Between(g, t) < Between(g, threshold)))
    && ((forall t :: 0 <= t < LEVELS ==> !Splits(g, t)) ==> threshold == DEFAULT_THRESHOLD)
  }

  // ---- From levels to classes ----

  lemma {:induction false} LevelStep(g: seq<int>, t: int)
    ensures CountUpTo(g, t) == CountUpTo(g, t - 1) + Count(g, t)
    ensures SumUpTo(g, t) == SumUpTo(g, t - 1) + t * Count(g, t)
  {
    if g != [] {
      LevelStep(g[..|g| - 1], t);
    }
  }

  lemma {:induction false} NothingBelowZero(g: seq<int>)
    requires IsGrey(g)
    ensures CountUpTo(g, -1) == 0 && SumUpTo(g, -1) == 0
  {
    if g != [] {
      NothingBelowZero(g[..|g| - 1]);
    }
  }

  lemma {:induction false} EverythingAtTop(g: seq<int>)
    requires IsGrey(g)
    ensures CountUpTo(g, LEVELS - 1) == |g| && SumUpTo(g, LEVELS - 1) == Sum(g)
  {
    if g != [] {
      EverythingAtTop(g[..|g| - 1]);
    }
  }

  lemma {:induction false} CountGrows(g: seq<int>, t: int, u: int)
    requires t <= u
    ensures CountUpTo(g, t) <= CountUpTo(g, u) <= |g|
  {
    if g != [] {
      CountGrows(g[..|g| - 1], t, u);
    }
  }

  lemma {:induction false} NoPixelsNoSum(g: seq<int>, t: int)
    requires CountUpTo(g, t) == 0
    ensures SumUpTo(g, t) == 0
  {
    if g != [] {
      NoPixelsNoSum(g[..|g| - 1], t);
    }
  }

  /** The dark class lies at or below the threshold, the light class above it. */
  lemma {:induction false} ClassSums(g: seq<int>, t: int)
    ensures SumUpTo(g, t) <= t * CountUpTo(g, t)
    ensures Sum(g) - SumUpTo(g, t) >= (t + 1) * (|g| - CountUpTo(g, t))
  {
    if g != [] {
      ClassSums(g[..|g| - 1], t);
    }
  }

  lemma MeansApart(g: seq<int>, t: int)
    requires Splits(g, t)
    ensures DarkMean(g, t) <= t as real && (t + 1) as real <= LightMean(g, t)
    ensures Between(g, t) > 0.0
  {
    ClassSums(g, t);
    var b, f := CountUpTo(g, t) as real, (|g| - CountUpTo(g, t)) as real;
    var sB, sF := SumUpTo(g, t) as real, (Sum(g) - SumUpTo(g, t)) as real;
    assert sB <= t as real * b && sF >= (t + 1) as real * f;
    AtMost(sB, b, t as real);
    AtLeast(sF, f, (t + 1) as real);
    SpreadPositive(CountUpTo(g, t), |g| - CountUpTo(g, t), DarkMean(g, t), LightMean(g, t));
  }

  lemma AtMost(s: real, n: real, m: real)
    requires n > 0.0 && s <= m * n
    ensures s / n <= m
  {
  }

  lemma AtLeast(s: real, n: real, m: real)
    requires n > 0.0 && s >= m * n
    ensures s / n >= m
  {
  }

  lemma SpreadPositive(wB: int, wF: int, mB: real, mF: real)
    requires wB > 0 && wF > 0 && mB < mF
    ensures Spread(wB, wF, mB, mF) > 0.0
  {
    var d := mB - mF;
    SameSignPositive(d, d, Square(d));
    hide Square;
    SameSignPositive(wB as real, wF as real, wB as real * wF as real);
    SameSignPositive(wB as real * wF as real, Square(d), Spread(wB, wF, mB, mF));
  }

  lemma SameSignPositive(a: real, b: real, product: real)
    requires (a > 0.0 && b > 0.0) || (a < 0.0 && b < 0.0)
    requires product == a * b
    ensures product > 0.0
  {
  }

  // ---- The histogram and the search ----

  method Histogram(gray: array<int>) returns (hist: array<int>)
    requires IsGrey(gray[..])
    ensures fresh(hist) && hist.Length == LEVELS
    ensures forall v :: 0 <= v < LEVELS ==> hist[v] == Count(gray[..], v)
  {
    hist := new int[LEVELS](_ => 0);
    for i := 0 to gray.Length
      invariant forall v :: 0 <= v < LEVELS ==> hist[v] == Count(gray[..i], v)
    {
      assert gray[..][i] == gray[i] && gray[..i + 1][..i] == gray[..i];
      hist[gray[i]] := hist[gray[i]] + 1;
    }
    assert gray[..gray.Length] == gray[..];
  }

  method Threshold(hist: array<int>, len: int, ghost g: seq<int>) returns (threshold: int)
    requires IsGrey(g) && len == |g| && hist.Length == LEVELS
    requires forall v :: 0 <= v < LEVELS ==> hist[v] == Count(g, v)
    ensures IsOtsuThreshold(g, threshold) && 0 <= threshold < LEVELS
  {
    hide Count, CountUpTo, SumUpTo, Sum, Spread, BestBefore;
    NoneBefore(g);
    NothingBelowZero(g);
    EverythingAtTop(g);
    var sum := 0;
    for t := 0 to LEVELS
      invariant sum == SumUpTo(g, t - 1)
    {
      LevelStep(g, t);
      sum := sum + t * hist[t];
    }
    var sumB, wB, max := 0, 0, 0.0;
    threshold := DEFAULT_THRESHOLD;
    var t := 0;
    while t < LEVELS
      invariant 0 <= t <= LEVELS && 0 <= threshold < LEVELS
      invariant wB == CountUpTo(g, t - 1) && sumB == SumUpTo(g, t - 1)
      invariant BestBefore(g, t, threshold, max)
    {
      LevelStep(g, t);
      wB := wB + hist[t];
      if wB == 0 {
        NoPixelsNoSum(g, t);
        SkipLevel(g, t, threshold, max);
        t := t + 1;
        continue;
      }
      var wF := len - wB;
      CountGrows(g, t, t);
      if wF == 0 {
        AllDarkFrom(g, t, threshold, max);
        break;
      }
      sumB := sumB + t * hist[t];
      var mB := sumB as real / wB as real;
      var mF := (sum - sumB) as real / wF as real;
      var between := Spread(wB, wF, mB, mF);
      MeansApart(g, t);
      assert between == Between(g, t) by { assert Splits(g, t); }
      TakeLevel(g, t, threshold, max);
      if between > max {
        max := between;
        threshold := t;
      }
      t := t + 1;
    }
    BestIsOtsu(g, threshold, max);
  }

  /** Of the thresholds below `t` that split the pixels, `threshold` is the first with the
      greatest between-class variance `max`; if none does, it is still the default. */
  ghost predicate BestBefore(g: seq<int>, t: int, threshold: int, max: real) {
    if exists u :: 0 <= u < t && Splits(g, u) then
      && 0 <= threshold < t && Splits(g, threshold) && max == Between(g, threshold)
      && forall u :: 0 <= u < t && Splits(g, u) ==>
           Between(g, u) <= max && (u < threshold ==> Between(g, u) < max)
    else threshold == DEFAULT_THRESHOLD && max == 0.0
  }

  lemma NoneBefore(g: seq<int>)
    ensures BestBefore(g, 0, DEFAULT_THRESHOLD, 0.0)
  {
  }

  lemma SkipLevel(g: seq<int>, t: int, threshold: int, max: real)
    requires 0 <= t && !Splits(g, t) && BestBefore(g, t, threshold, max)
    ensures BestBefore(g, t + 1, threshold, max)
  {
    hide Splits, Between;
  }

  lemma TakeLevel(g: seq<int>, t: int, threshold: int, max: real)
    requires 0 <= t && Splits(g, t) && Between(g, t) > 0.0 && BestBefore(g, t, threshold, max)
    ensures Between(g, t) > max ==> BestBefore(g, t + 1, t, Between(g, t))
    ensures Between(g, t) <= max ==> BestBefore(g, t + 1, threshold, max)
  {
    hide Splits, Between;
  }

  lemma AllDarkFrom(g: seq<int>, t: int, threshold: int, max: real)
    requires 0 <= t < LEVELS && CountUpTo(g, t) == |g| && BestBefore(g, t, threshold, max)
    ensures BestBefore(g, LEVELS, threshold, max)
  {
    hide CountUpTo, Between;
    forall u | t <= u < LEVELS
      ensures !Splits(g, u)
    {
      CountGrows(g, t, u);
    }
  }

  lemma BestIsOtsu(g: seq<int>, threshold: int, max: real)
    requires BestBefore(g, LEVELS, threshold, max)
    ensures IsOtsuThreshold(g, threshold)
  {
    hide Splits, Between;
  }

  // ---- The same threshold, seen from the pixels ----

  /** The sum of the squared distances of the pixels from the mean of their class. */
  ghost function Around(g: seq<int>, t: int, dark: real, light: real): real {
    if g == [] then 0.0
    else
      var x := g[|g| - 1];
      Around(g[..|g| - 1], t, dark, light) + Square(x as real - (if x <= t then dark else light))
  }

  ghost function Within(g: seq<int>, t: int): real
    requires Splits(g, t)
  {
    Around(g, t, DarkMean(g, t), LightMean(g, t))
  }

  ghost function Squares(g: seq<int>): real {
    if g == [] then 0.0 else Squares(g[..|g| - 1]) + Square(g[|g| - 1] as real)
  }

  /** What `Around` comes to for given centres: the squares, less twice each centre times its
      class's sum, plus each centre squared times its class's size. */
  ghost function Expanded(q: real, sB: real, sF: real, b: real, f: real, x: real, y: real): real {
    q - 2.0 * (x * sB) - 2.0 * (y * sF) + x * x * b + y * y * f
  }

  /** `Around` for the classes of `g` at `t`. */
  ghost function Centred(g: seq<int>, t: int, x: real, y: real): real {
    Expanded(Squares(g), SumUpTo(g, t) as real, (Sum(g) - SumUpTo(g, t)) as real,
             CountUpTo(g, t) as real, (|g| - CountUpTo(g, t)) as real, x, y)
  }

  lemma {:induction false} AroundExpanded(g: seq<int>, t: int, x: real, y: real)
    ensures Around(g, t, x, y) == Centred(g, t, x, y)
  {
    if g != [] {
      AroundExpanded(g[..|g| - 1], t, x, y);
      CentredStep(g, t, x, y);
    }
  }

  lemma ClassStep(g: seq<int>, t: int)
    requires g != []
    ensures var p, v := g[..|g| - 1], g[|g| - 1];
      && SumUpTo(g, t) == SumUpTo(p, t) + (if v <= t then v else 0)
      && CountUpTo(g, t) == CountUpTo(p, t) + (if v <= t then 1 else 0)
      && Sum(g) == Sum(p) + v
      && Squares(g) == Squares(p) + Square(v as real)
  {
  }

  lemma CentredStep(g: seq<int>, t: int, x: real, y: real)
    requires g != []
    ensures var v := g[|g| - 1];
      Centred(g, t, x, y) == Centred(g[..|g| - 1], t, x, y) + Square(v as real - (if v <= t then x else y))
  {
    hide Expanded, SumUpTo, CountUpTo, Sum, Squares, Square;
    var p, v := g[..|g| - 1], g[|g| - 1];
    ClassStep(g, t);
    var q, s, r, n, m := Squares(p), SumUpTo(p, t) as real, (Sum(p) - SumUpTo(p, t)) as real,
      CountUpTo(p, t) as real, (|p| - CountUpTo(p, t)) as real;
    if v <= t {
      AddToClass(q, s, r, n, m, x, y, v as real);
    } else {
      AddToClass(q, r, s, m, n, y, x, v as real);
      Swapped(q, s, r, n, m, x, y);
      Swapped(q + Square(v as real), s, r + v as real, n, m + 1.0, x, y);
    }
  }

  lemma AddToClass(q: real, sB: real, sF: real, b: real, f: real, x: real, y: real, v: real)
    ensures Expanded(q, sB, sF, b, f, x, y) + Square(v - x) == Expanded(q + Square(v), sB + v, sF, b + 1.0, f, x, y)
  {
    assert (v - x) * (v - x) == v * v - 2.0 * (x * v) + x * x;
    assert x * (sB + v) == x * sB + x * v;
    assert x * x * (b + 1.0) == x * x * b + x * x;
  }

  lemma Swapped(q: real, sB: real, sF: real, b: real, f: real, x: real, y: real)
    ensures Expanded(q, sB, sF, b, f, x, y) == Expanded(q, sF, sB, f, b, y, x)
  {
  }

  lemma MeanTimesCount(s: real, n: real)
    requires n > 0.0
    ensures s / n * n == s
  {
  }

  lemma Huygens(b: real, f: real, x: real, y: real)
    ensures (b + f) * (b * (x * x) + f * (y * y))
         == (b * x + f * y) * (b * x + f * y) + b * f * ((x - y) * (x - y))
  {
    var xx, yy, xy := x * x, y * y, x * y;
    assert (x - y) * (x - y) == xx - 2.0 * xy + yy;
    assert (b * x + f * y) * (b * x + f * y) == b * b * xx + 2.0 * (b * f * xy) + f * f * yy;
    assert b * f * ((x - y) * (x - y)) == b * f * xx - 2.0 * (b * f * xy) + b * f * yy;
    assert (b + f) * (b * xx + f * yy) == b * b * xx + b * f * yy + b * f * xx + f * f * yy;
  }

  lemma ClassMeans(g: seq<int>, t: int)
    requires Splits(g, t)
    ensures SumUpTo(g, t) as real == CountUpTo(g, t) as real * DarkMean(g, t)
    ensures (Sum(g) - SumUpTo(g, t)) as real == (|g| - CountUpTo(g, t)) as real * LightMean(g, t)
  {
    hide SumUpTo, CountUpTo, Sum;
    MeanTimesCount(SumUpTo(g, t) as real, CountUpTo(g, t) as real);
    MeanTimesCount((Sum(g) - SumUpTo(g, t)) as real, (|g| - CountUpTo(g, t)) as real);
  }

  /** Within-class and between-class variance add up to the same total at every threshold. */
  lemma VarianceSplits(g: seq<int>, t: int)
    requires Splits(g, t)
    ensures |g| as real * Within(g, t) + Between(g, t) == |g| as real * Squares(g) - Sum(g) as real * Sum(g) as real
  {
    hide SumUpTo, CountUpTo, Sum, Squares, Around, Expanded, DarkMean, LightMean, Square;
    var b, f := CountUpTo(g, t) as real, (|g| - CountUpTo(g, t)) as real;
    var x, y := DarkMean(g, t), LightMean(g, t);
    AroundExpanded(g, t, x, y);
    ClassMeans(g, t);
    assert Within(g, t) == Centred(g, t, x, y);
    assert SumUpTo(g, t) as real == b * x && (Sum(g) - SumUpTo(g, t)) as real == f * y;
    assert Within(g, t) == Expanded(Squares(g), b * x, f * y, b, f, x, y);
    assert Between(g, t) == b * f * Square(x - y);
    assert Sum(g) as real == b * x + f * y && |g| as real == b + f;
    hide *;
    Combine(Squares(g), b, f, x, y);
  }

  lemma Combine(q: real, b: real, f: real, x: real, y: real)
    ensures (b + f) * Expanded(q, b * x, f * y, b, f, x, y) + b * f * Square(x - y)
         == (b + f) * q - (b * x + f * y) * (b * x + f * y)
  {
    Huygens(b, f, x, y);
    var e := Expanded(q, b * x, f * y, b, f, x, y);
    assert x * (b * x) == b * (x * x) && y * (f * y) == f * (y * y);
    assert x * x * b == b * (x * x) && y * y * f == f * (y * y);
    var w := b * (x * x) + f * (y * y);
    assert e == q - w;
    assert (b + f) * (q - w) == (b + f) * q - (b + f) * w;
  }

  /** So the threshold is the least one that minimises the squared distances of the pixels from their
      class means. */
  lemma OtsuMinimisesWithin(g: seq<int>, threshold: int, t: int)
    requires IsOtsuThreshold(g, threshold) && 0 <= t < LEVELS && Splits(g, t)
    ensures Splits(g, threshold) && Within(g, threshold) <= Within(g, t)
    ensures t < threshold ==> Within(g, threshold) < Within(g, t)
  {
    hide Within, Between, Splits;
    VarianceSplits(g, t);
    VarianceSplits(g, threshold);
    NonEmpty(g, t);
    assert Between(g, t) <= Between(g, threshold);
    assert t < threshold ==> Between(g, t) < Between(g, threshold);
    hide *;
    Tradeoff(|g| as real, Within(g, threshold), Between(g, threshold), Within(g, t), Between(g, t));
  }

  lemma NonEmpty(g: seq<int>, t: int)
    requires Splits(g, t)
    ensures |g| > 0
  {
  }

  lemma Tradeoff(n: real, a: real, b: real, c: real, d: real)
    requires n > 0.0 && n * a + b == n * c + d && d <= b
    ensures a <= c && (d < b ==> a < c)
  {
    assert n * (c - a) == b - d;
    SignOfFactor(n, c - a);
  }

  lemma SignOfFactor(n: real, x: real)
    requires n > 0.0 && n * x >= 0.0
    ensures x >= 0.0
  {
  }

  /** A threshold that splits the pixels exists exactly when they have two grey levels. */
  lemma SplitsIffTwoLevels(g: seq<int>)
    requires IsGrey(g)
    ensures (exists t :: 0 <= t < LEVELS && Splits(g, t)) <==>
            (exists i, j :: 0 <= i < |g| && 0 <= j < |g| && g[i] != g[j])
  {
    if i, j :| 0 <= i < |g| && 0 <= j < |g| && g[i] < g[j] {
      DarkPixel(g, g[i], i);
      LightPixel(g, g[i], j);
      assert Splits(g, g[i]);
    } else if t :| 0 <= t < LEVELS && Splits(g, t) {
      if forall i, j :: 0 <= i < |g| && 0 <= j < |g| ==> g[i] == g[j] {
        OneClass(g, t, g[0]);
      }
    }
  }

  /** An image of one grey level, or without pixels, keeps the threshold 128. */
  lemma OneLevelKeepsDefault(g: seq<int>, threshold: int)
    requires IsGrey(g) && IsOtsuThreshold(g, threshold)
    requires forall i, j :: 0 <= i < |g| && 0 <= j < |g| ==> g[i] == g[j]
    ensures threshold == 128
  {
    hide Splits, Between;
    SplitsIffTwoLevels(g);
  }

  lemma {:induction false} DarkPixel(g: seq<int>, t: int, i: int)
    requires 0 <= i < |g| && g[i] <= t
    ensures CountUpTo(g, t) >= 1
  {
    if i < |g| - 1 {
      DarkPixel(g[..|g| - 1], t, i);
    }
  }

  lemma {:induction false} LightPixel(g: seq<int>, t: int, i: int)
    requires 0 <= i < |g| && g[i] > t
    ensures CountUpTo(g, t) < |g|
  {
    CountGrows(g[..|g| - 1], t, t);
    if i < |g| - 1 {
      LightPixel(g[..|g| - 1], t, i);
    }
  }

  lemma {:induction false} OneClass(g: seq<int>, t: int, v: int)
    requires forall i :: 0 <= i < |g| ==> g[i] == v
    ensures CountUpTo(g, t) == if v <= t then |g| else 0
  {
    if g != [] {
      OneClass(g[..|g| - 1], t, v);
    }
  }
}
