/** The receipt image pipeline on RGBA bytes: greyscale, threshold, black and white, sharpen. */
module ReceiptImage {
  import opened Otsu

  /** Grey level of a pixel; the source's `Math.round` rounds halves up. */
  function Luma(r: int, g: int, b: int): int {
    (0.299 * r as real + 0.587 * g as real + 0.114 * b as real + 0.5).Floor
  }

  ghost predicate IsBytes(data: seq<int>) {
    forall i :: 0 <= i < |data| ==> 0 <= data[i] <= 255
  }

  /** `level` is the whole number nearest to 29.9 % red, 58.7 % green and 11.4 % blue, the upper one
      half-way, in thousandths. */
  predicate IsLevel(level: int, r: int, g: int, b: int) {
    1000 * level <= 299 * r + 587 * g + 114 * b + 500 < 1000 * (level + 1)
  }

  ghost predicate IsGreyOf(gray: seq<int>, data: seq<int>) {
    && |data| == 4 * |gray|
    && forall p :: 0 <= p < |gray| ==> IsLevel(gray[p], data[4 * p], data[4 * p + 1], data[4 * p + 2])
  }

  function Shade(level: int, threshold: int): int {
    if level > threshold then 255 else 0
  }

  ghost predicate PixelIs(data: seq<int>, p: nat, v: int)
    requires 4 * p + 3 < |data|
  {
    data[4 * p] == v && data[4 * p + 1] == v && data[4 * p + 2] == v && data[4 * p + 3] == 255
  }

  /** Every pixel is opaque, white when its grey level is above the threshold and black otherwise. */
  ghost predicate IsThresholdImage(data: seq<int>, gray: seq<int>, threshold: int) {
    && |data| == 4 * |gray|
    && forall p :: 0 <= p < |gray| ==> PixelIs(data, p, Shade(gray[p], threshold))
  }

  lemma LumaIsLevel(r: int, g: int, b: int)
    requires 0 <= r <= 255 && 0 <= g <= 255 && 0 <= b <= 255
    ensures IsLevel(Luma(r, g, b), r, g, b) && 0 <= Luma(r, g, b) <= 255
  {
  }

  /** The grey level of a neutral pixel is its own value, and no channel darkens a pixel by
      growing; black is 0, pure red 76, green 150, blue 29 and white 255. */
  lemma LevelLaws(level: int, r: int, g: int, b: int, level': int, r': int, g': int, b': int)
    requires IsLevel(level, r, g, b) && IsLevel(level', r', g', b')
    ensures r == g == b ==> level == r
    ensures r <= r' && g <= g' && b <= b' ==> level <= level'
    ensures (r, g, b) == (255, 0, 0) ==> level == 76
    ensures (r, g, b) == (0, 255, 0) ==> level == 150
    ensures (r, g, b) == (0, 0, 255) ==> level == 29
  {
  }

  method Greyscale(data: array<int>, len: nat) returns (gray: array<int>)
    requires data.Length == 4 * len && IsBytes(data[..])
    ensures fresh(gray) && gray.Length == len && IsGreyOf(gray[..], data[..]) && IsGrey(gray[..])
    ensures forall p :: 0 <= p < len ==>
      1000 * gray[p] <= 299 * data[4 * p] + 587 * data[4 * p + 1] + 114 * data[4 * p + 2] + 500 < 1000 * (gray[p] + 1)
    ensures forall p :: 0 <= p < len && data[4 * p] == data[4 * p + 1] == data[4 * p + 2] ==> gray[p] == data[4 * p]
  {
    gray := new int[len];
    for i := 0 to len
      invariant forall p :: 0 <= p < i ==> IsLevel(gray[p], data[4 * p], data[4 * p + 1], data[4 * p + 2])
      invariant forall p :: 0 <= p < i ==> 0 <= gray[p] <= 255
    {
      var r, g, b := data[4 * i], data[4 * i + 1], data[4 * i + 2];
      assert r == data[..][4 * i] && g == data[..][4 * i + 1] && b == data[..][4 * i + 2];
      LumaIsLevel(r, g, b);
      hide Luma;
      gray[i] := Luma(r, g, b);
    }
  }

  method Binarise(data: array<int>, gray: array<int>, threshold: int)
    requires data != gray && data.Length == 4 * gray.Length
    modifies data
    ensures IsThresholdImage(data[..], gray[..], threshold)
  {
    for i := 0 to gray.Length
      invariant gray[..] == old(gray[..])
      invariant forall p :: 0 <= p < i ==> PixelIs(data[..], p, Shade(gray[p], threshold))
    {
      var v := if gray[i] > threshold then 255 else 0;
      data[4 * i] := v;
      data[4 * i + 1] := v;
      data[4 * i + 2] := v;
      data[4 * i + 3] := 255;
    }
  }

  lemma PixelInRange(x: int, y: int, w: nat, h: nat)
    requires 0 <= x < w && 0 <= y < h
    ensures 0 <= y * w + x < w * h && y * w + w <= w * h
  {
    assert y * w + w == (y + 1) * w <= h * w;
  }

  /** Twice a black or white value less an average of bytes, clamped, is that value again. */
  lemma SharpeningKeepsExtremes(v: int, sum: int, count: int)
    requires (v == 0 || v == 255) && count >= 1 && 0 <= sum <= 255 * count
    ensures Sharp(v, sum as real / count as real) == v as real
  {
    AtLeast(sum as real, count as real, 0.0);
    AtMost(sum as real, count as real, 255.0);
  }

  function Sharp(v: int, blurred: real): real {
    var s := 2.0 * v as real - blurred;
    if s < 0.0 then 0.0 else if s > 255.0 then 255.0 else s
  }

  predicate Inside(w: nat, h: nat, x: int, y: int) {
    0 <= x < w && 0 <= y < h
  }

  /** The level of a pixel, 0 outside the image. */
  function LevelAt(data: seq<int>, w: nat, h: nat, x: int, y: int): int
    requires |data| == 4 * (w * h)
  {
    if Inside(w, h, x, y) then PixelInRange(x, y, w, h); data[(y * w + x) * 4] else 0
  }

  /** The levels of `n` pixels of row `y` from column `x - 1` on, and how many are in the image. */
  ghost function RowSum(data: seq<int>, w: nat, h: nat, x: int, y: int, n: nat): int
    requires |data| == 4 * (w * h)
  {
    if n == 0 then 0 else RowSum(data, w, h, x, y, n - 1) + LevelAt(data, w, h, x - 2 + n, y)
  }

  ghost function RowCount(w: nat, h: nat, x: int, y: int, n: nat): int {
    if n == 0 then 0 else RowCount(w, h, x, y, n - 1) + (if Inside(w, h, x - 2 + n, y) then 1 else 0)
  }

  /** The same over `n` rows of three from row `y - 1` on. */
  ghost function BoxSum(data: seq<int>, w: nat, h: nat, x: int, y: int, n: nat): int
    requires |data| == 4 * (w * h)
  {
    if n == 0 then 0 else BoxSum(data, w, h, x, y, n - 1) + RowSum(data, w, h, x, y - 2 + n, 3)
  }

  ghost function BoxCount(w: nat, h: nat, x: int, y: int, n: nat): int {
    if n == 0 then 0 else BoxCount(w, h, x, y, n - 1) + RowCount(w, h, x, y - 2 + n, 3)
  }

  lemma RowIsThree(data: seq<int>, w: nat, h: nat, x: int, y: int)
    requires |data| == 4 * (w * h)
    ensures RowSum(data, w, h, x, y, 3)
         == LevelAt(data, w, h, x - 1, y) + LevelAt(data, w, h, x, y) + LevelAt(data, w, h, x + 1, y)
    ensures 0 <= x < w && 0 <= y < h ==>
      RowCount(w, h, x, y, 3) == 1 + (if x > 0 then 1 else 0) + (if x < w - 1 then 1 else 0)
    ensures !(0 <= y < h) ==> RowCount(w, h, x, y, 3) == 0
  {
    hide LevelAt;
    assert RowSum(data, w, h, x, y, 1) == LevelAt(data, w, h, x - 1, y);
    assert RowCount(w, h, x, y, 1) == if Inside(w, h, x - 1, y) then 1 else 0;
  }

  /** The box is the pixel and its eight neighbours; of its three columns and three rows those in the
      image count. */
  lemma BoxIsNine(data: seq<int>, w: nat, h: nat, x: int, y: int)
    requires |data| == 4 * (w * h) && 0 <= x < w && 0 <= y < h
    ensures BoxSum(data, w, h, x, y, 3) ==
      LevelAt(data, w, h, x - 1, y - 1) + LevelAt(data, w, h, x, y - 1) + LevelAt(data, w, h, x + 1, y - 1) +
      LevelAt(data, w, h, x - 1, y) + LevelAt(data, w, h, x, y) + LevelAt(data, w, h, x + 1, y) +
      LevelAt(data, w, h, x - 1, y + 1) + LevelAt(data, w, h, x, y + 1) + LevelAt(data, w, h, x + 1, y + 1)
    ensures BoxCount(w, h, x, y, 3) ==
      (1 + (if x > 0 then 1 else 0) + (if x < w - 1 then 1 else 0)) *
      (1 + (if y > 0 then 1 else 0) + (if y < h - 1 then 1 else 0))
  {
    hide LevelAt, RowSum, RowCount;
    RowIsThree(data, w, h, x, y - 1);
    RowIsThree(data, w, h, x, y);
    RowIsThree(data, w, h, x, y + 1);
    assert BoxSum(data, w, h, x, y, 1) == RowSum(data, w, h, x, y - 1, 3);
    assert BoxCount(w, h, x, y, 1) == RowCount(w, h, x, y - 1, 3);
  }

  /** The sum and the number of the neighbours (the pixel itself included) inside the image. */
  method Neighbourhood(data: array<int>, w: nat, h: nat, x: nat, y: nat) returns (sum3: int, count3: int)
    requires data.Length == 4 * (w * h) && IsBytes(data[..]) && x < w && y < h
    ensures sum3 == BoxSum(data[..], w, h, x, y, 3) && count3 == BoxCount(w, h, x, y, 3)
    ensures 1 <= count3 <= 9 && 0 <= sum3 <= 255 * count3
  {
    sum3, count3 := 0, 0;
    for dy := -1 to 2
      invariant 0 <= count3 <= 3 * (dy + 1) && 0 <= sum3 <= 255 * count3
      invariant dy > 0 ==> count3 >= 1
      invariant sum3 == BoxSum(data[..], w, h, x, y, dy + 1) && count3 == BoxCount(w, h, x, y, dy + 1)
    {
      for dx := -1 to 2
        invariant 0 <= count3 <= 3 * (dy + 1) + dx + 1 && 0 <= sum3 <= 255 * count3
        invariant dy > 0 || (dy == 0 && dx > 0) ==> count3 >= 1
        invariant sum3 == BoxSum(data[..], w, h, x, y, dy + 1) + RowSum(data[..], w, h, x, y + dy, dx + 1)
        invariant count3 == BoxCount(w, h, x, y, dy + 1) + RowCount(w, h, x, y + dy, dx + 1)
      {
        var nx, ny := x + dx, y + dy;
        if nx >= 0 && nx < w && ny >= 0 && ny < h {
          PixelInRange(nx, ny, w, h);
          assert data[(ny * w + nx) * 4] == data[..][(ny * w + nx) * 4];
          sum3 := sum3 + data[(ny * w + nx) * 4];
          count3 := count3 + 1;
        }
      }
    }
  }

  /** The first `n` pixels of `dst` are those of the black and white image `src`, opaque. */
  ghost predicate SameUpTo(src: seq<int>, dst: seq<int>, n: nat) {
    && |src| == |dst| && 4 * n <= |src|
    && forall p :: 0 <= p < n ==> PixelIs(dst, p, src[4 * p])
  }

  /** One pixel of the unsharp mask. */
  method SharpenPixel(data: array<int>, sharpened: array<int>, w: nat, h: nat, x: nat, y: nat, p: nat)
    requires data != sharpened && data.Length == sharpened.Length == 4 * (w * h) && IsBytes(data[..])
    requires x < w && y < h && p == y * w + x && p < w * h
    requires data[4 * p] == 0 || data[4 * p] == 255
    requires SameUpTo(data[..], sharpened[..], p)
    modifies sharpened
    ensures SameUpTo(data[..], sharpened[..], p + 1)
  {
    var idx := p * 4;
    var sum3, count3 := Neighbourhood(data, w, h, x, y);
    var blurred := sum3 as real / count3 as real;
    SharpeningKeepsExtremes(data[idx], sum3, count3);
    var sharp := Sharp(data[idx], blurred);
    var out := if sharp < 128.0 then 0 else 255;
    SetPixel(sharpened, p, out);
  }

  /** The unsharp mask leaves a black and white image as it is. */
  method Sharpen(data: array<int>, w: nat, h: nat) returns (sharpened: array<int>)
    requires data.Length == 4 * (w * h) && IsBytes(data[..])
    requires forall p :: 0 <= p < w * h ==> data[4 * p] == 0 || data[4 * p] == 255
    ensures fresh(sharpened) && SameUpTo(data[..], sharpened[..], w * h)
  {
    sharpened := new int[data.Length];
    hide SameUpTo, IsBytes;
    NothingYet(data[..], sharpened[..]);
    var y := 0;
    while y < h
      invariant 0 <= y <= h && data[..] == old(data[..])
      invariant SameUpTo(data[..], sharpened[..], y * w)
    {
      var x := 0;
      while x < w
        invariant 0 <= x <= w && data[..] == old(data[..])
        invariant SameUpTo(data[..], sharpened[..], y * w + x)
      {
        PixelInRange(x, y, w, h);
        SharpenPixel(data, sharpened, w, h, x, y, y * w + x);
        x := x + 1;
      }
      assert (y + 1) * w == y * w + w;
      y := y + 1;
    }
  }

  lemma NothingYet(src: seq<int>, dst: seq<int>)
    requires |src| == |dst|
    ensures SameUpTo(src, dst, 0)
  {
  }

  method SetPixel(data: array<int>, p: nat, v: int)
    requires 4 * p + 3 < data.Length
    modifies data
    ensures PixelIs(data[..], p, v)
    ensures forall i :: 0 <= i < data.Length && !(4 * p <= i <= 4 * p + 3) ==> data[i] == old(data[i])
  {
    data[4 * p] := v;
    data[4 * p + 1] := v;
    data[4 * p + 2] := v;
    data[4 * p + 3] := 255;
  }

  /** The whole pipeline. Whatever the size of the image, the result is the plain threshold
      image for the Otsu threshold of its grey levels: white above it, black up to it, opaque. */
  method PreprocessCanvas(data: array<int>, w: nat, h: nat) returns (sharpened: array<int>)
    requires data.Length == 4 * (w * h) && IsBytes(data[..])
    modifies data
    ensures sharpened.Length == data.Length
    ensures exists gray, threshold ::
      && IsGreyOf(gray, old(data[..])) && IsOtsuThreshold(gray, threshold) && |gray| == w * h
      && forall p :: 0 <= p < w * h ==>
           && (gray[p] > threshold ==> sharpened[4 * p] == sharpened[4 * p + 1] == sharpened[4 * p + 2] == 255)
           && (gray[p] <= threshold ==> sharpened[4 * p] == sharpened[4 * p + 1] == sharpened[4 * p + 2] == 0)
           && sharpened[4 * p + 3] == 255
  {
    var gray := Greyscale(data, w * h);
    var hist := Histogram(gray);
    ghost var g := gray[..];
    var threshold := Threshold(hist, w * h, g);
    Binarise(data, gray, threshold);
    BlackAndWhite(data[..], g, threshold);
    sharpened := Sharpen(data, w, h);
    StillThresholdImage(data[..], sharpened[..], g, threshold);
    forall p | 0 <= p < w * h
      ensures sharpened[4 * p] == sharpened[4 * p + 1] == sharpened[4 * p + 2] == Shade(g[p], threshold)
      ensures sharpened[4 * p + 3] == 255
    {
      assert PixelIs(sharpened[..], p, Shade(g[p], threshold));
    }
  }

  lemma BlackAndWhite(data: seq<int>, gray: seq<int>, threshold: int)
    requires IsThresholdImage(data, gray, threshold)
    ensures IsBytes(data)
    ensures forall p :: 0 <= p < |gray| ==> data[4 * p] == 0 || data[4 * p] == 255
  {
    forall i | 0 <= i < |data|
      ensures 0 <= data[i] <= 255
    {
      assert PixelIs(data, i / 4, Shade(gray[i / 4], threshold));
    }
    forall p | 0 <= p < |gray|
      ensures data[4 * p] == 0 || data[4 * p] == 255
    {
      assert PixelIs(data, p, Shade(gray[p], threshold));
    }
  }

  lemma StillThresholdImage(data: seq<int>, sharpened: seq<int>, gray: seq<int>, threshold: int)
    requires IsThresholdImage(data, gray, threshold) && SameUpTo(data, sharpened, |gray|)
    ensures IsThresholdImage(sharpened, gray, threshold)
  {
    forall p | 0 <= p < |gray|
      ensures PixelIs(sharpened, p, Shade(gray[p], threshold))
    {
      assert PixelIs(data, p, Shade(gray[p], threshold)) && PixelIs(sharpened, p, data[4 * p]);
    }
  }
}
