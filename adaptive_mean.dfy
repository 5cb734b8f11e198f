/**
 * `applyAdaptiveMeanThreshold`: a summed-area table of luminance, window
 * sums answered with four table lookups, and a threshold at 0.9 of the
 * local mean of the clamped 15 x 15 window.
 */
module AdaptiveMean {
  import opened Pixels
  import opened Windows

  /** `halfK = floor(kSize / 2)` with `kSize = 15`. */
  const HalfWindow: nat := 7

  /** Luminance summed over columns [0, x2) and rows [0, y2): what the `integral` cell (x2 - 1, y2 - 1) holds. */
  function Prefix(s: seq<Byte>, w: int, h: int, x2: int, y2: int): int
    requires ValidImage(s, w, h) && 0 <= x2 <= w && 0 <= y2 <= h
  {
    RectSum(s, w, h, Luma, 0, x2, 0, y2)
  }

  /** The prefix over no column or no row is 0: the source's `: 0` branches. */
  lemma PrefixOnAxes(s: seq<Byte>, w: int, h: int, x2: int, y2: int)
    requires ValidImage(s, w, h) && 0 <= x2 <= w && 0 <= y2 <= h
    ensures Prefix(s, w, h, x2, 0) == 0 && Prefix(s, w, h, 0, y2) == 0
  {
    RectSumBounds(s, w, h, Luma, 0, 0, 0, y2);
  }

  /** The table recurrence `integral[y][x] = gray + left + above - aboveLeft`. */
  lemma PrefixStep(s: seq<Byte>, w: int, h: int, x: int, y: int)
    requires ValidImage(s, w, h) && InImage(w, h, x, y)
    ensures Prefix(s, w, h, x + 1, y + 1) ==
      At(s, w, h, Luma, x, y) + Prefix(s, w, h, x, y + 1) + Prefix(s, w, h, x + 1, y) - Prefix(s, w, h, x, y)
  {
    assert Prefix(s, w, h, x + 1, y + 1) == Prefix(s, w, h, x + 1, y) + RowSum(s, w, h, Luma, y, 0, x + 1);
    assert Prefix(s, w, h, x, y + 1) == Prefix(s, w, h, x, y) + RowSum(s, w, h, Luma, y, 0, x);
  }

  /** The table never decreases along either axis: luminance is never negative. */
  lemma PrefixMonotone(s: seq<Byte>, w: int, h: int, x2: int, y2: int, x3: int, y3: int)
    requires ValidImage(s, w, h) && 0 <= x2 <= x3 <= w && 0 <= y2 <= y3 <= h
    ensures Prefix(s, w, h, x2, y2) <= Prefix(s, w, h, x3, y3)
  {
    RectSplitColumns(s, w, h, Luma, 0, x2, x3, 0, y2);
    RectSplitRows(s, w, h, Luma, 0, x3, 0, y2, y3);
    RectSumBounds(s, w, h, Luma, x2, x3, 0, y2);
    RectSumBounds(s, w, h, Luma, 0, x3, y2, y3);
  }

  /** Every cell of the table holds the prefix sum up to and including it. */
  ghost predicate IntegralTable(s: seq<Byte>, w: int, h: int, integral: array2<int>)
    requires ValidImage(s, w, h)
    reads integral
  {
    integral.Length0 == h && integral.Length1 == w &&
    forall j, i :: 0 <= j < h && 0 <= i < w ==> integral[j, i] == Prefix(s, w, h, i + 1, j + 1)
  }

  /** One cell of the table-building loop, from the three cells already filled above and to its left. */
  method IntegralCell(src: array<Byte>, integral: array2<int>, w: int, h: int, x: int, y: int)
    requires ValidImage(src[..], w, h) && InImage(w, h, x, y)
    requires integral.Length0 == h && integral.Length1 == w
    requires y > 0 ==> integral[y - 1, x] == Prefix(src[..], w, h, x + 1, y)
    requires x > 0 ==> integral[y, x - 1] == Prefix(src[..], w, h, x, y + 1)
    requires y > 0 && x > 0 ==> integral[y - 1, x - 1] == Prefix(src[..], w, h, x, y)
    modifies integral
    ensures integral[y, x] == Prefix(src[..], w, h, x + 1, y + 1)
    ensures forall j, i :: 0 <= j < h && 0 <= i < w && (j != y || i != x) ==> integral[j, i] == old(integral[j, i])
  {
    ghost var s := src[..];
    var idx := (y * w + x) * 4;
    LumaAt(s, w, h, x, y, idx);
    var gray := Gray(src[idx], src[idx + 1], src[idx + 2]);
    var above := if y > 0 then integral[y - 1, x] else 0;
    var left := if x > 0 then integral[y, x - 1] else 0;
    var aboveLeft := if y > 0 && x > 0 then integral[y - 1, x - 1] else 0;
    PrefixStep(s, w, h, x, y);
    PrefixOnAxes(s, w, h, x, y);
    PrefixOnAxes(s, w, h, x + 1, y + 1);
    integral[y, x] := gray + left + above - aboveLeft;
  }

  /** The first loop pair of `applyAdaptiveMeanThreshold`: the table, row by row. */
  method BuildIntegral(src: array<Byte>, w: int, h: int) returns (integral: array2<int>)
    requires ValidImage(src[..], w, h)
    ensures fresh(integral) && IntegralTable(src[..], w, h, integral)
  {
    integral := new int[h, w];
    var y := 0;
    while y < h
      invariant 0 <= y <= h
      invariant forall j, i :: 0 <= j < y && 0 <= i < w ==> integral[j, i] == Prefix(src[..], w, h, i + 1, j + 1)
    {
      var x := 0;
      while x < w
        invariant 0 <= x <= w
        invariant forall j, i :: 0 <= j < y && 0 <= i < w ==> integral[j, i] == Prefix(src[..], w, h, i + 1, j + 1)
        invariant forall i :: 0 <= i < x ==> integral[y, i] == Prefix(src[..], w, h, i + 1, y + 1)
      {
        IntegralCell(src, integral, w, h, x, y);
        x := x + 1;
      }
      y := y + 1;
    }
  }

  /**
   * Inclusion-exclusion on the table: the four lookups of the source give
   * the luminance sum over the window, a missing row or column above or to
   * the left counting 0.
   */
  lemma FourLookup(s: seq<Byte>, w: int, h: int, win: Window)
    requires ValidImage(s, w, h) && WindowIn(w, h, win)
    ensures WindowSum(s, w, h, Luma, win) ==
      Prefix(s, w, h, win.x2 + 1, win.y2 + 1)
      - (if win.y1 > 0 then Prefix(s, w, h, win.x2 + 1, win.y1) else 0)
      - (if win.x1 > 0 then Prefix(s, w, h, win.x1, win.y2 + 1) else 0)
      + (if win.y1 > 0 && win.x1 > 0 then Prefix(s, w, h, win.x1, win.y1) else 0)
  {
    InclusionExclusion(s, w, h, Luma, win.x1, win.x2 + 1, win.y1, win.y2 + 1);
    PrefixOnAxes(s, w, h, win.x2 + 1, win.y2 + 1);
    PrefixOnAxes(s, w, h, win.x1, win.y1);
  }

  /** The window lookup of one output pixel. */
  method WindowLookup(integral: array2<int>, ghost s: seq<Byte>, w: int, h: int, win: Window) returns (sum: int)
    requires ValidImage(s, w, h) && WindowIn(w, h, win) && IntegralTable(s, w, h, integral)
    ensures sum == WindowSum(s, w, h, Luma, win)
  {
    sum := integral[win.y2, win.x2]
      - (if win.y1 > 0 then integral[win.y1 - 1, win.x2] else 0)
      - (if win.x1 > 0 then integral[win.y2, win.x1 - 1] else 0)
      + (if win.y1 > 0 && win.x1 > 0 then integral[win.y1 - 1, win.x1 - 1] else 0);
    FourLookup(s, w, h, win);
  }

  /** The clamped window of pixel (x, y), its pixel count and its luminance sum. */
  method LocalWindow(integral: array2<int>, ghost s: seq<Byte>, w: int, h: int, x: int, y: int) returns (sum: int, count: int)
    requires ValidImage(s, w, h) && InImage(w, h, x, y) && IntegralTable(s, w, h, integral)
    ensures sum == WindowSum(s, w, h, Luma, Clamped(w, h, x, y, HalfWindow))
    ensures count == Count(Clamped(w, h, x, y, HalfWindow))
  {
    var x1 := Max(x - HalfWindow, 0);
    var x2 := Min(x + HalfWindow, w - 1);
    var y1 := Max(y - HalfWindow, 0);
    var y2 := Min(y + HalfWindow, h - 1);
    var win := Window(x1, x2, y1, y2);
    assert win == Clamped(w, h, x, y, HalfWindow);
    count := (x2 - x1 + 1) * (y2 - y1 + 1);
    sum := WindowLookup(integral, s, w, h, win);
  }

  /** `gray >= (sum / count) * 0.9` with exact arithmetic: `10 * gray * count >= 9 * sum`. */
  predicate AboveMean(gray: int, sum: int, count: int)
  {
    10 * gray * count >= 9 * sum
  }

  /** The integer test is the source's comparison with exact decimals. */
  lemma AboveMeanIsReal(gray: int, sum: int, count: int)
    requires count > 0
    ensures AboveMean(gray, sum, count) <==> gray as real >= (sum as real / count as real) * 0.9
  {
    var m := sum as real / count as real;
    assert m * count as real == sum as real;
    assert (10 * gray * count) as real == 10.0 * gray as real * count as real;
    if gray as real >= m * 0.9 {
      assert 10.0 * gray as real * count as real >= 9.0 * m * count as real;
    } else {
      assert 10.0 * gray as real * count as real < 9.0 * m * count as real;
    }
  }

  /** Pixel (x, y) is white: its luminance reaches 0.9 of the mean of its clamped 15 x 15 window. */
  predicate MeanTest(s: seq<Byte>, w: int, h: int, x: int, y: int)
    requires ValidImage(s, w, h) && InImage(w, h, x, y)
  {
    AboveMean(At(s, w, h, Luma, x, y), WindowSum(s, w, h, Luma, Clamped(w, h, x, y, HalfWindow)),
      Count(Clamped(w, h, x, y, HalfWindow)))
  }

  /** Byte i of the output: 255 or 0 by the test of its pixel, or the pixel's own alpha. */
  function MeanByte(s: seq<Byte>, w: int, h: int, i: int): Byte
    requires ValidImage(s, w, h) && 0 <= i < |s|
  {
    if i % 4 == 3 then s[i] else if MeanTest(s, w, h, Column(w, i), Row(w, h, i)) then 255 else 0
  }

  /** The whole output buffer. */
  function MeanImage(s: seq<Byte>, w: int, h: int): (d: seq<Byte>)
    requires ValidImage(s, w, h)
    ensures |d| == |s|
    ensures forall i :: 0 <= i < |d| ==> if i % 4 == 3 then d[i] == s[i] else d[i] == 0 || d[i] == 255
  {
    seq(|s|, i requires 0 <= i < |s| => MeanByte(s, w, h, i))
  }

  /** A buffer whose every byte is given by `MeanByte` is the whole output, and it keeps the alpha bytes. */
  lemma MeanImageOf(s: seq<Byte>, w: int, h: int, d: seq<Byte>)
    requires ValidImage(s, w, h) && |d| == |s|
    requires forall i :: 0 <= i < |s| ==> d[i] == MeanByte(s, w, h, i)
    ensures d == MeanImage(s, w, h)
    ensures forall i :: 0 <= i < |d| && i % 4 == 3 ==> d[i] == s[i]
  {
    assert forall i :: 0 <= i < |s| ==> d[i] == MeanImage(s, w, h)[i];
  }

  /**
   * The window of every pixel holds 1 to 225 pixels, and the pixel is white
   * exactly when its luminance reaches 0.9 times the window's mean.
   */
  lemma MeanTestMeaning(s: seq<Byte>, w: int, h: int, x: int, y: int)
    requires ValidImage(s, w, h) && InImage(w, h, x, y)
    ensures 1 <= Count(Clamped(w, h, x, y, HalfWindow)) <= 225
    ensures MeanTest(s, w, h, x, y) <==>
      At(s, w, h, Luma, x, y) as real >=
        (WindowSum(s, w, h, Luma, Clamped(w, h, x, y, HalfWindow)) as real / Count(Clamped(w, h, x, y, HalfWindow)) as real) * 0.9
  {
    CountRange(w, h, x, y, HalfWindow);
    AboveMeanIsReal(At(s, w, h, Luma, x, y), WindowSum(s, w, h, Luma, Clamped(w, h, x, y, HalfWindow)),
      Count(Clamped(w, h, x, y, HalfWindow)));
  }

  /**
   * The value of the colour bytes of output pixel (x, y): the clamped
   * window, its count, its sum by four lookups, and the test against 0.9
   * of the mean.
   */
  method MeanValue(src: array<Byte>, integral: array2<int>, w: int, h: int, x: int, y: int) returns (value: Byte)
    requires ValidImage(src[..], w, h) && InImage(w, h, x, y)
    requires IntegralTable(src[..], w, h, integral)
    ensures value == if MeanTest(src[..], w, h, x, y) then 255 else 0
  {
    ghost var s := src[..];
    var sum, count := LocalWindow(integral, s, w, h, x, y);
    var idx := (y * w + x) * 4;
    LumaAt(s, w, h, x, y, idx);
    var gray := Gray(src[idx], src[idx + 1], src[idx + 2]);
    MeanDecision(s, w, h, x, y, gray, sum, count);
    value := if AboveMean(gray, sum, count) then 255 else 0;
  }

  /** The test on the locally computed luminance, sum and count is the test of the pixel. */
  lemma MeanDecision(s: seq<Byte>, w: int, h: int, x: int, y: int, gray: int, sum: int, count: int)
    requires ValidImage(s, w, h) && InImage(w, h, x, y)
    requires gray == At(s, w, h, Luma, x, y)
    requires sum == WindowSum(s, w, h, Luma, Clamped(w, h, x, y, HalfWindow))
    requires count == Count(Clamped(w, h, x, y, HalfWindow))
    ensures AboveMean(gray, sum, count) == MeanTest(s, w, h, x, y)
  {
  }

  /** One iteration of the output loop: the four bytes of (x, y) are written and nothing else. */
  method MeanPixel(src: array<Byte>, integral: array2<int>, dst: array<Byte>, w: int, h: int, x: int, y: int)
    requires src != dst && ValidImage(src[..], w, h) && dst.Length == src.Length && InImage(w, h, x, y)
    requires IntegralTable(src[..], w, h, integral)
    modifies dst
    ensures 0 <= Pos(w, x, y, 0) && Pos(w, x, y, 0) + 4 <= dst.Length
    ensures forall i :: 0 <= i < dst.Length && !(Pos(w, x, y, 0) <= i < Pos(w, x, y, 0) + 4) ==> dst[i] == old(dst[i])
    ensures forall i :: Pos(w, x, y, 0) <= i < Pos(w, x, y, 0) + 4 ==> dst[i] == MeanByte(src[..], w, h, i)
  {
    var value := MeanValue(src, integral, w, h, x, y);
    PosInImage(w, h, x, y);
    WritePixel(dst, w, h, x, y, value, src[(y * w + x) * 4 + 3]);
    PixelBytes(w, h, x, y);
  }

  /** One pass of the inner loop: row y is written after the rows above it, and the rows below are left as they were. */
  method MeanRow(src: array<Byte>, integral: array2<int>, dst: array<Byte>, w: int, h: int, y: int)
    requires src != dst && ValidImage(src[..], w, h) && dst.Length == src.Length && 0 <= y < h
    requires IntegralTable(src[..], w, h, integral)
    requires 0 <= Pos(w, 0, y, 0) <= Pos(w, 0, y + 1, 0) <= dst.Length
    requires forall i :: 0 <= i < Pos(w, 0, y, 0) ==> dst[i] == MeanByte(src[..], w, h, i)
    modifies dst
    ensures forall i :: 0 <= i < Pos(w, 0, y + 1, 0) ==> dst[i] == MeanByte(src[..], w, h, i)
    ensures forall i :: Pos(w, 0, y + 1, 0) <= i < dst.Length ==> dst[i] == old(dst[i])
  {
    ghost var s := src[..];
    RowLayout(w, h, 0, y);
    var x := 0;
    while x < w
      invariant 0 <= x <= w && src[..] == s
      invariant Pos(w, x, y, 0) <= |s|
      invariant forall i :: 0 <= i < Pos(w, x, y, 0) ==> dst[i] == MeanByte(s, w, h, i)
      invariant forall i :: Pos(w, 0, y + 1, 0) <= i < dst.Length ==> dst[i] == old(dst[i])
    {
      MeanPixel(src, integral, dst, w, h, x, y);
      x := x + 1;
      RowLayout(w, h, x, y);
    }
  }

  /**
   * `applyAdaptiveMeanThreshold`: a fresh buffer of the source's length whose
   * colour bytes are 255 or 0 by the local-mean test and whose alpha bytes
   * are the source's.
   */
  method ApplyAdaptiveMeanThreshold(src: array<Byte>, w: int, h: int) returns (dst: array<Byte>)
    requires ValidImage(src[..], w, h)
    ensures fresh(dst) && dst.Length == src.Length
    ensures forall i :: 0 <= i < dst.Length && i % 4 == 3 ==> dst[i] == src[i]
    ensures dst[..] == MeanImage(src[..], w, h)
  {
    var integral := BuildIntegral(src, w, h);
    dst := new Byte[src.Length];
    ghost var s := src[..];
    var y := 0;
    while y < h
      modifies dst
      invariant 0 <= y <= h && src[..] == s
      invariant forall i :: 0 <= i < Pos(w, 0, y, 0) ==> dst[i] == MeanByte(s, w, h, i)
    {
      RowLayout(w, h, 0, y);
      MeanRow(src, integral, dst, w, h, y);
      y := y + 1;
    }
    assert Pos(w, 0, h, 0) == |s|;
    MeanImageOf(s, w, h, dst[..]);
  }

  /** In a uniform image every window's mean is the pixel's own luminance, so every pixel is white. */
  lemma MeanUniform(s: seq<Byte>, w: int, h: int, x: int, y: int)
    requires Uniform(s, w, h) && InImage(w, h, x, y)
    ensures MeanTest(s, w, h, x, y)
  {
    var win := Clamped(w, h, x, y, HalfWindow);
    var g := At(s, w, h, Luma, 0, 0);
    WindowSumUniform(s, w, h, Luma, win);
    UniformAt(s, w, h, Luma, x, y);
    assert WindowSum(s, w, h, Luma, win) == Count(win) * g;
    CountRange(w, h, x, y, HalfWindow);
    MeanOfConstant(g, Count(win));
  }

  lemma MeanOfConstant(g: nat, count: nat)
    ensures AboveMean(g, count * g, count)
  {
    assert 10 * g * count == 10 * (count * g);
  }

  /** `applyAdaptiveMeanThreshold` turns a uniform image all white. */
  lemma MeanImageUniform(s: seq<Byte>, w: int, h: int)
    requires Uniform(s, w, h)
    ensures |MeanImage(s, w, h)| == |s|
    ensures forall i :: 0 <= i < |s| && i % 4 != 3 ==> MeanImage(s, w, h)[i] == 255
  {
    forall i | 0 <= i < |s| && i % 4 != 3
      ensures MeanImage(s, w, h)[i] == 255
    {
      MeanUniform(s, w, h, Column(w, i), Row(w, h, i));
    }
  }
}
