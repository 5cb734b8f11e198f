/**
 * `applyAdaptiveThreshold`: for each pixel, a direct scan of its clamped
 * 15 x 15 window for the luminance sum, pixel count, minimum and maximum;
 * flat windows turn white, the others are split at the local mean.
 */
module LocalContrast {
  import opened Pixels
  import opened Windows

  /** `halfK = floor(kSize / 2)` with `kSize = 15`. */
  const HalfWindow: int := 7

  /** `contrastThreshold`: windows whose luminance spans less than this are flat. */
  const ContrastThreshold: int := 15

  /** The window of pixel (x, y). */
  function WindowOf(w: int, h: int, x: int, y: int): Window
    requires w > 0 && h > 0 && InImage(w, h, x, y)
  {
    Clamped(w, h, x, y, HalfWindow)
  }

  /**
   * The scan of one window: its luminance sum, the number of its pixels
   * inside the image, and its least and greatest luminance, running min
   * from 255 and running max from 0 as in the source.
   */
  method WindowStats(src: array<Byte>, w: int, h: int, x: int, y: int) returns (sum: int, count: int, lo: Byte, hi: Byte)
    requires ValidImage(src[..], w, h) && InImage(w, h, x, y)
    ensures sum == WindowSum(src[..], w, h, Luma, WindowOf(w, h, x, y))
    ensures count == Count(WindowOf(w, h, x, y))
    ensures lo == WindowMin(src[..], w, h, WindowOf(w, h, x, y))
    ensures hi == WindowMax(src[..], w, h, WindowOf(w, h, x, y))
  {
    ghost var s := src[..];
    ghost var xa, xb, ya := x - HalfWindow, x + HalfWindow + 1, y - HalfWindow;
    sum, count, lo, hi := 0, 0, 255, 0;
    var ky := -HalfWindow;
    while ky <= HalfWindow
      invariant -HalfWindow <= ky <= HalfWindow + 1
      invariant sum == ScanSum(s, w, h, Luma, xa, xb, ya, y + ky)
      invariant count == ScanCount(w, h, xa, xb, ya, y + ky)
      invariant lo == ScanMin(s, w, h, xa, xb, ya, y + ky)
      invariant hi == ScanMax(s, w, h, xa, xb, ya, y + ky)
    {
      var kx := -HalfWindow;
      ghost var sum0, count0, lo0, hi0 := sum, count, lo, hi;
      while kx <= HalfWindow
        invariant -HalfWindow <= kx <= HalfWindow + 1
        invariant sum == sum0 + RowScanSum(s, w, h, Luma, y + ky, xa, x + kx)
        invariant count == count0 + RowScanCount(w, h, y + ky, xa, x + kx)
        invariant lo == Lesser(lo0, RowScanMin(s, w, h, y + ky, xa, x + kx))
        invariant hi == Greater(hi0, RowScanMax(s, w, h, y + ky, xa, x + kx))
      {
        var ny := y + ky;
        var nx := x + kx;
        if nx >= 0 && nx < w && ny >= 0 && ny < h {
          var idx := (ny * w + nx) * 4;
          LumaAt(s, w, h, nx, ny, idx);
          var gray := Gray(src[idx], src[idx + 1], src[idx + 2]);
          sum := sum + gray;
          count := count + 1;
          if gray < lo {
            lo := gray;
          }
          if gray > hi {
            hi := gray;
          }
        }
        kx := kx + 1;
      }
      ky := ky + 1;
    }
    ScanSumIsWindowSum(s, w, h, Luma, x, y, HalfWindow);
    ScanCountIsCount(w, h, x, y, HalfWindow);
    ScanMinIsWindow(s, w, h, x, y, HalfWindow);
    ScanMaxIsWindow(s, w, h, x, y, HalfWindow);
  }

  /** `gray >= sum / count` with exact arithmetic: `gray * count >= sum`. */
  predicate AtLeastMean(gray: int, sum: int, count: int)
  {
    gray * count >= sum
  }

  /** The integer test is the source's comparison with the exact mean. */
  lemma AtLeastMeanIsReal(gray: int, sum: int, count: int)
    requires count > 0
    ensures AtLeastMean(gray, sum, count) <==> gray as real >= sum as real / count as real
  {
    var m := sum as real / count as real;
    assert m * count as real == sum as real;
    assert (gray * count) as real == gray as real * count as real;
    if gray as real >= m {
      assert gray as real * count as real >= m * count as real;
    } else {
      assert gray as real * count as real < m * count as real;
    }
  }

  /** The luminance in the window of (x, y) spans less than the contrast threshold. */
  predicate Flat(s: seq<Byte>, w: int, h: int, x: int, y: int)
    requires ValidImage(s, w, h) && InImage(w, h, x, y)
  {
    WindowMax(s, w, h, WindowOf(w, h, x, y)) - WindowMin(s, w, h, WindowOf(w, h, x, y)) < ContrastThreshold
  }

  /** Pixel (x, y) turns white: its window is flat, or its luminance reaches the window's mean. */
  predicate ContrastTest(s: seq<Byte>, w: int, h: int, x: int, y: int)
    requires ValidImage(s, w, h) && InImage(w, h, x, y)
  {
    Flat(s, w, h, x, y) ||
    AtLeastMean(At(s, w, h, Luma, x, y), WindowSum(s, w, h, Luma, WindowOf(w, h, x, y)), Count(WindowOf(w, h, x, y)))
  }

  /** Byte i of the output: 255 or 0 by the test of its pixel, or the pixel's own alpha. */
  function ContrastByte(s: seq<Byte>, w: int, h: int, i: int): Byte
    requires ValidImage(s, w, h) && 0 <= i < |s|
  {
    if i % 4 == 3 then s[i] else if ContrastTest(s, w, h, Column(w, i), Row(w, h, i)) then 255 else 0
  }

  /** The whole output buffer. */
  function ContrastImage(s: seq<Byte>, w: int, h: int): (d: seq<Byte>)
    requires ValidImage(s, w, h)
    ensures |d| == |s|
    ensures forall i :: 0 <= i < |d| ==> if i % 4 == 3 then d[i] == s[i] else d[i] == 0 || d[i] == 255
  {
    seq(|s|, i requires 0 <= i < |s| => ContrastByte(s, w, h, i))
  }

  /** A buffer whose every byte is given by `ContrastByte` is the whole output, and it keeps the alpha bytes. */
  lemma ContrastImageOf(s: seq<Byte>, w: int, h: int, d: seq<Byte>)
    requires ValidImage(s, w, h) && |d| == |s|
    requires forall i :: 0 <= i < |s| ==> d[i] == ContrastByte(s, w, h, i)
    ensures d == ContrastImage(s, w, h)
    ensures forall i :: 0 <= i < |d| && i % 4 == 3 ==> d[i] == s[i]
  {
    assert forall i :: 0 <= i < |s| ==> d[i] == ContrastImage(s, w, h)[i];
  }

  /**
   * A pixel is white exactly when the spread of its window is below 15 or
   * its luminance reaches the window's mean, which is well defined because
   * the window holds 1 to 225 pixels.
   */
  lemma ContrastTestMeaning(s: seq<Byte>, w: int, h: int, x: int, y: int)
    requires ValidImage(s, w, h) && InImage(w, h, x, y)
    ensures 1 <= Count(WindowOf(w, h, x, y)) <= 225
    ensures ContrastTest(s, w, h, x, y) <==>
      WindowMax(s, w, h, WindowOf(w, h, x, y)) - WindowMin(s, w, h, WindowOf(w, h, x, y)) < 15 ||
      At(s, w, h, Luma, x, y) as real >=
        WindowSum(s, w, h, Luma, WindowOf(w, h, x, y)) as real / Count(WindowOf(w, h, x, y)) as real
  {
    CountRange(w, h, x, y, HalfWindow);
    AtLeastMeanIsReal(At(s, w, h, Luma, x, y), WindowSum(s, w, h, Luma, WindowOf(w, h, x, y)),
      Count(WindowOf(w, h, x, y)));
  }

  /**
   * The value of the colour bytes of output pixel (x, y): 255 for a flat
   * window, otherwise the test against the window's mean.
   */
  method ContrastValue(src: array<Byte>, w: int, h: int, x: int, y: int) returns (value: Byte)
    requires ValidImage(src[..], w, h) && InImage(w, h, x, y)
    ensures value == if ContrastTest(src[..], w, h, x, y) then 255 else 0
  {
    ghost var s := src[..];
    var sum, count, lo, hi := WindowStats(src, w, h, x, y);
    var contrast := hi - lo;
    if contrast < ContrastThreshold {
      value := 255;
    } else {
      var idx := (y * w + x) * 4;
      LumaAt(s, w, h, x, y, idx);
      var gray := Gray(src[idx], src[idx + 1], src[idx + 2]);
      value := if AtLeastMean(gray, sum, count) then 255 else 0;
    }
  }

  /** One iteration of the pixel loop: the four bytes of (x, y) are written and nothing else. */
  method ContrastPixel(src: array<Byte>, dst: array<Byte>, w: int, h: int, x: int, y: int)
    requires src != dst && ValidImage(src[..], w, h) && dst.Length == src.Length && InImage(w, h, x, y)
    modifies dst
    ensures 0 <= Pos(w, x, y, 0) && Pos(w, x, y, 0) + 4 <= dst.Length
    ensures forall i :: 0 <= i < dst.Length && !(Pos(w, x, y, 0) <= i < Pos(w, x, y, 0) + 4) ==> dst[i] == old(dst[i])
    ensures forall i :: Pos(w, x, y, 0) <= i < Pos(w, x, y, 0) + 4 ==> dst[i] == ContrastByte(src[..], w, h, i)
  {
    var value := ContrastValue(src, w, h, x, y);
    PosInImage(w, h, x, y);
    WritePixel(dst, w, h, x, y, value, src[(y * w + x) * 4 + 3]);
    PixelBytes(w, h, x, y);
  }

  /** One pass of the inner loop: row y is written after the rows above it, and the rows below are left as they were. */
  method ContrastRow(src: array<Byte>, dst: array<Byte>, w: int, h: int, y: int)
    requires src != dst && ValidImage(src[..], w, h) && dst.Length == src.Length && 0 <= y < h
    requires 0 <= Pos(w, 0, y, 0) <= Pos(w, 0, y + 1, 0) <= dst.Length
    requires forall i :: 0 <= i < Pos(w, 0, y, 0) ==> dst[i] == ContrastByte(src[..], w, h, i)
    modifies dst
    ensures forall i :: 0 <= i < Pos(w, 0, y + 1, 0) ==> dst[i] == ContrastByte(src[..], w, h, i)
    ensures forall i :: Pos(w, 0, y + 1, 0) <= i < dst.Length ==> dst[i] == old(dst[i])
  {
    ghost var s := src[..];
    RowLayout(w, h, 0, y);
    var x := 0;
    while x < w
      invariant 0 <= x <= w && src[..] == s
      invariant Pos(w, x, y, 0) <= |s|
      invariant forall i :: 0 <= i < Pos(w, x, y, 0) ==> dst[i] == ContrastByte(s, w, h, i)
      invariant forall i :: Pos(w, 0, y + 1, 0) <= i < dst.Length ==> dst[i] == old(dst[i])
    {
      ContrastPixel(src, dst, w, h, x, y);
      x := x + 1;
      RowLayout(w, h, x, y);
    }
  }

  /**
   * `applyAdaptiveThreshold`: a fresh buffer of the source's length whose
   * colour bytes are 255 or 0 by the local-contrast test and whose alpha
   * bytes are the source's.
   */
  method ApplyAdaptiveThreshold(src: array<Byte>, w: int, h: int) returns (dst: array<Byte>)
    requires ValidImage(src[..], w, h)
    ensures fresh(dst) && dst.Length == src.Length
    ensures forall i :: 0 <= i < dst.Length && i % 4 == 3 ==> dst[i] == src[i]
    ensures dst[..] == ContrastImage(src[..], w, h)
  {
    dst := new Byte[src.Length];
    ghost var s := src[..];
    var y := 0;
    while y < h
      modifies dst
      invariant 0 <= y <= h && src[..] == s
      invariant forall i :: 0 <= i < Pos(w, 0, y, 0) ==> dst[i] == ContrastByte(s, w, h, i)
    {
      RowLayout(w, h, 0, y);
      ContrastRow(src, dst, w, h, y);
      y := y + 1;
    }
    assert Pos(w, 0, h, 0) == |s|;
    ContrastImageOf(s, w, h, dst[..]);
  }

  /** In a uniform image every window has spread 0, so every pixel is white. */
  lemma ContrastUniform(s: seq<Byte>, w: int, h: int, x: int, y: int)
    requires Uniform(s, w, h) && InImage(w, h, x, y)
    ensures Flat(s, w, h, x, y)
  {
    var win := WindowOf(w, h, x, y);
    var g := At(s, w, h, Luma, 0, 0);
    UniformMinMax(s, w, h, win.x1, win.x2 + 1, win.y1, win.y2 + 1);
    WindowMinIs(s, w, h, win, g);
    WindowMaxIs(s, w, h, win, g);
  }

  /** `applyAdaptiveThreshold` turns a uniform image all white. */
  lemma ContrastImageUniform(s: seq<Byte>, w: int, h: int)
    requires Uniform(s, w, h)
    ensures |ContrastImage(s, w, h)| == |s|
    ensures forall i :: 0 <= i < |s| && i % 4 != 3 ==> ContrastImage(s, w, h)[i] == 255
  {
    forall i | 0 <= i < |s| && i % 4 != 3
      ensures ContrastImage(s, w, h)[i] == 255
    {
      ContrastUniform(s, w, h, Column(w, i), Row(w, h, i));
    }
  }
}
