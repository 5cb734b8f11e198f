/** The 3x3 box blur of `applyLowPassFilter`. */
module BoxFilter {
  import opened Pixels
  import opened Windows

  /** `kSize`: the kernel reaches one pixel in each direction. */
  const KernelRadius := 1

  /**
   * The byte a Uint8ClampedArray keeps when assigned sum / 9, for a sum of
   * nine samples at most.
   */
  function Stored(sum: int): (v: Byte)
    requires 0 <= sum <= 9 * 255
    ensures 9 * v - 4 <= sum <= 9 * v + 4
  {
    (2 * sum + 9) / 18
  }

  /** Stored rounds sum / 9 to the nearest integer, which is unique since sum / 9 is never a half. */
  lemma StoredIsNearest(sum: int, v: int)
    requires 0 <= sum <= 9 * 255
    ensures Stored(sum) as real - 0.5 < sum as real / 9.0 < Stored(sum) as real + 0.5
    ensures v as real - 0.5 < sum as real / 9.0 < v as real + 0.5 ==> v == Stored(sum)
  {
    var q := Stored(sum);
    assert 18 * q <= 2 * sum + 9 < 18 * q + 18;
    assert (sum as real / 9.0) * 18.0 == 2.0 * sum as real;
  }

  /** Nine equal samples average to their common value; four of them, over 9, to less. */
  lemma StoredMultiples(v: Byte)
    ensures Stored(9 * v) == v
    ensures v > 0 ==> Stored(4 * v) < v
  {
  }

  /** The 3x3 neighbourhood of (x, y), cut to the image. */
  function Neighbourhood(w: int, h: int, x: int, y: int): (win: Window)
    requires w > 0 && h > 0 && InImage(w, h, x, y)
    ensures WindowIn(w, h, win)
  {
    Clamped(w, h, x, y, KernelRadius)
  }

  /** The in-image neighbours add at most nine samples of at most 255. */
  lemma NeighbourSumBounds(s: seq<Byte>, w: int, h: int, p: Plane, x: int, y: int)
    requires ValidImage(s, w, h) && InImage(w, h, x, y)
    ensures 0 <= WindowSum(s, w, h, p, Neighbourhood(w, h, x, y)) <= 9 * 255
  {
    WindowSumBounds(s, w, h, p, Neighbourhood(w, h, x, y));
    CountRange(w, h, x, y, KernelRadius);
  }

  /**
   * Channel c (0, 1 or 2) of the filtered pixel (x, y): the in-image
   * neighbours are summed with weight 1/9 each, and the sum is divided by 9
   * whatever the number of neighbours.
   */
  function LowPassAt(s: seq<Byte>, w: int, h: int, x: int, y: int, c: int): Byte
    requires ValidImage(s, w, h) && InImage(w, h, x, y) && 0 <= c < 3
  {
    NeighbourSumBounds(s, w, h, ChannelPlane(c), x, y);
    Stored(WindowSum(s, w, h, ChannelPlane(c), Neighbourhood(w, h, x, y)))
  }

  /** Byte i of the filtered buffer: a filtered colour channel, or the pixel's own alpha. */
  function LowPassByte(s: seq<Byte>, w: int, h: int, i: int): Byte
    requires ValidImage(s, w, h) && 0 <= i < |s|
  {
    if i % 4 == 3 then s[i] else LowPassAt(s, w, h, Column(w, i), Row(w, h, i), i % 4)
  }

  /** The whole filtered buffer. */
  function LowPassImage(s: seq<Byte>, w: int, h: int): (d: seq<Byte>)
    requires ValidImage(s, w, h)
    ensures |d| == |s|
    ensures forall i :: 0 <= i < |d| && i % 4 == 3 ==> d[i] == s[i]
  {
    seq(|s|, i requires 0 <= i < |s| => LowPassByte(s, w, h, i))
  }

  /** A buffer whose every byte is given by `LowPassByte` is the whole output, and it keeps the alpha bytes. */
  lemma LowPassImageOf(s: seq<Byte>, w: int, h: int, d: seq<Byte>)
    requires ValidImage(s, w, h) && |d| == |s|
    requires forall i :: 0 <= i < |s| ==> d[i] == LowPassByte(s, w, h, i)
    ensures d == LowPassImage(s, w, h)
    ensures forall i :: 0 <= i < |d| && i % 4 == 3 ==> d[i] == s[i]
  {
    assert forall i :: 0 <= i < |s| ==> d[i] == LowPassImage(s, w, h)[i];
  }

  /**
   * The r, g, b accumulation of one output pixel: the two nested loops over
   * the kernel offsets, skipping neighbours outside the image. The sums are
   * kept as integers, nine times the source's running r, g, b.
   */
  method NeighbourhoodSum(src: array<Byte>, w: int, h: int, x: int, y: int) returns (r: int, g: int, b: int)
    requires ValidImage(src[..], w, h) && InImage(w, h, x, y)
    ensures r == WindowSum(src[..], w, h, Red, Neighbourhood(w, h, x, y))
    ensures g == WindowSum(src[..], w, h, Green, Neighbourhood(w, h, x, y))
    ensures b == WindowSum(src[..], w, h, Blue, Neighbourhood(w, h, x, y))
  {
    ghost var s := src[..];
    ghost var xa, xb, ya := x - KernelRadius, x + KernelRadius + 1, y - KernelRadius;
    r, g, b := 0, 0, 0;
    var ky := -KernelRadius;
    while ky <= KernelRadius
      invariant -KernelRadius <= ky <= KernelRadius + 1
      invariant r == ScanSum(s, w, h, Red, xa, xb, ya, y + ky)
      invariant g == ScanSum(s, w, h, Green, xa, xb, ya, y + ky)
      invariant b == ScanSum(s, w, h, Blue, xa, xb, ya, y + ky)
    {
      var kx := -KernelRadius;
      ghost var r0, g0, b0 := r, g, b;
      while kx <= KernelRadius
        invariant -KernelRadius <= kx <= KernelRadius + 1
        invariant r == r0 + RowScanSum(s, w, h, Red, y + ky, xa, x + kx)
        invariant g == g0 + RowScanSum(s, w, h, Green, y + ky, xa, x + kx)
        invariant b == b0 + RowScanSum(s, w, h, Blue, y + ky, xa, x + kx)
      {
        var ny := y + ky;
        var nx := x + kx;
        if nx >= 0 && nx < w && ny >= 0 && ny < h {
          PosInImage(w, h, nx, ny);
          var pos := Pos(w, nx, ny, 0);
          r := r + src[pos];
          g := g + src[pos + 1];
          b := b + src[pos + 2];
        }
        kx := kx + 1;
      }
      ky := ky + 1;
    }
    ScanSumIsWindowSum(s, w, h, Red, x, y, KernelRadius);
    ScanSumIsWindowSum(s, w, h, Green, x, y, KernelRadius);
    ScanSumIsWindowSum(s, w, h, Blue, x, y, KernelRadius);
  }

  /** Where the four bytes of output pixel (x, y) sit in the filtered buffer, and what they hold. */
  lemma LowPassPixel(s: seq<Byte>, w: int, h: int, x: int, y: int)
    requires ValidImage(s, w, h) && InImage(w, h, x, y)
    ensures 0 <= Pos(w, x, y, 0) && Pos(w, x, y, 3) < |s|
    ensures LowPassByte(s, w, h, Pos(w, x, y, 0)) == LowPassAt(s, w, h, x, y, 0)
    ensures LowPassByte(s, w, h, Pos(w, x, y, 1)) == LowPassAt(s, w, h, x, y, 1)
    ensures LowPassByte(s, w, h, Pos(w, x, y, 2)) == LowPassAt(s, w, h, x, y, 2)
    ensures LowPassByte(s, w, h, Pos(w, x, y, 3)) == s[Pos(w, x, y, 3)]
  {
    PosCoordinates(w, h, x, y, 0);
    PosCoordinates(w, h, x, y, 1);
    PosCoordinates(w, h, x, y, 2);
    PosCoordinates(w, h, x, y, 3);
  }

  /** One iteration of the pixel loop: the four bytes of (x, y) are written and nothing else. */
  method FilterPixel(src: array<Byte>, dst: array<Byte>, w: int, h: int, x: int, y: int)
    requires src != dst && ValidImage(src[..], w, h) && dst.Length == src.Length && InImage(w, h, x, y)
    modifies dst
    ensures 0 <= Pos(w, x, y, 0) && Pos(w, x, y, 0) + 4 <= dst.Length
    ensures forall i :: 0 <= i < dst.Length && !(Pos(w, x, y, 0) <= i < Pos(w, x, y, 0) + 4) ==> dst[i] == old(dst[i])
    ensures forall i :: Pos(w, x, y, 0) <= i < Pos(w, x, y, 0) + 4 ==> dst[i] == LowPassByte(src[..], w, h, i)
  {
    ghost var s := src[..];
    var r, g, b := NeighbourhoodSum(src, w, h, x, y);
    NeighbourSumBounds(s, w, h, Red, x, y);
    NeighbourSumBounds(s, w, h, Green, x, y);
    NeighbourSumBounds(s, w, h, Blue, x, y);
    LowPassPixel(s, w, h, x, y);
    var idx := (y * w + x) * 4;
    dst[idx] := Stored(r);
    dst[idx + 1] := Stored(g);
    dst[idx + 2] := Stored(b);
    dst[idx + 3] := src[idx + 3];
    forall i | idx <= i < idx + 4
      ensures dst[i] == LowPassByte(s, w, h, i)
    {
      if i == idx {
        assert i == Pos(w, x, y, 0);
      } else if i == idx + 1 {
        assert i == Pos(w, x, y, 1);
      } else if i == idx + 2 {
        assert i == Pos(w, x, y, 2);
      } else {
        assert i == Pos(w, x, y, 3);
      }
    }
  }

  /** One pass of the inner loop: row y is written after the rows above it, and the rows below are left as they were. */
  method FilterRow(src: array<Byte>, dst: array<Byte>, w: int, h: int, y: int)
    requires src != dst && ValidImage(src[..], w, h) && dst.Length == src.Length && 0 <= y < h
    requires 0 <= Pos(w, 0, y, 0) <= Pos(w, 0, y + 1, 0) <= dst.Length
    requires forall i :: 0 <= i < Pos(w, 0, y, 0) ==> dst[i] == LowPassByte(src[..], w, h, i)
    modifies dst
    ensures forall i :: 0 <= i < Pos(w, 0, y + 1, 0) ==> dst[i] == LowPassByte(src[..], w, h, i)
    ensures forall i :: Pos(w, 0, y + 1, 0) <= i < dst.Length ==> dst[i] == old(dst[i])
  {
    ghost var s := src[..];
    RowLayout(w, h, 0, y);
    var x := 0;
    while x < w
      invariant 0 <= x <= w && src[..] == s
      invariant Pos(w, x, y, 0) <= |s|
      invariant forall i :: 0 <= i < Pos(w, x, y, 0) ==> dst[i] == LowPassByte(s, w, h, i)
      invariant forall i :: Pos(w, 0, y + 1, 0) <= i < dst.Length ==> dst[i] == old(dst[i])
    {
      FilterPixel(src, dst, w, h, x, y);
      x := x + 1;
      RowLayout(w, h, x, y);
    }
  }

  /**
   * `applyLowPassFilter`: a fresh buffer of the source's length whose colour
   * bytes are the blurred values and whose alpha bytes are the source's.
   */
  method ApplyLowPassFilter(src: array<Byte>, w: int, h: int) returns (dst: array<Byte>)
    requires ValidImage(src[..], w, h)
    ensures fresh(dst) && dst.Length == src.Length
    ensures forall i :: 0 <= i < dst.Length && i % 4 == 3 ==> dst[i] == src[i]
    ensures dst[..] == LowPassImage(src[..], w, h)
  {
    dst := new Byte[src.Length];
    ghost var s := src[..];
    var y := 0;
    while y < h
      modifies dst
      invariant 0 <= y <= h && src[..] == s
      invariant forall i :: 0 <= i < Pos(w, 0, y, 0) ==> dst[i] == LowPassByte(s, w, h, i)
    {
      RowLayout(w, h, 0, y);
      FilterRow(src, dst, w, h, y);
      y := y + 1;
    }
    assert Pos(w, 0, h, 0) == |s|;
    LowPassImageOf(s, w, h, dst[..]);
  }

  /** A uniform image keeps its colour away from the border: nine equal samples over 9. */
  lemma UniformInterior(s: seq<Byte>, w: int, h: int, x: int, y: int)
    requires Uniform(s, w, h) && 1 <= x < w - 1 && 1 <= y < h - 1
    ensures forall c :: 0 <= c < 3 ==>
      0 <= Pos(w, x, y, c) < |s| && LowPassImage(s, w, h)[Pos(w, x, y, c)] == At(s, w, h, ChannelPlane(c), 0, 0)
  {
    LowPassPixel(s, w, h, x, y);
    var win := Neighbourhood(w, h, x, y);
    assert win == Window(x - 1, x + 1, y - 1, y + 1);
    assert Count(win) == 3 * 3;
    forall c | 0 <= c < 3
      ensures LowPassAt(s, w, h, x, y, c) == At(s, w, h, ChannelPlane(c), 0, 0)
    {
      WindowSumUniform(s, w, h, ChannelPlane(c), win);
      StoredMultiples(At(s, w, h, ChannelPlane(c), 0, 0));
    }
  }

  /**
   * Dividing by 9 whatever the number of neighbours darkens the border: on a
   * uniform image of at least 2 x 2 pixels the corner (0, 0) has four
   * neighbours and keeps only 4/9 of each non-zero colour value.
   */
  lemma UniformCorner(s: seq<Byte>, w: int, h: int, c: int)
    requires Uniform(s, w, h) && w >= 2 && h >= 2 && 0 <= c < 3
    ensures 0 <= Pos(w, 0, 0, c) < |s|
    ensures LowPassImage(s, w, h)[Pos(w, 0, 0, c)] == Stored(4 * At(s, w, h, ChannelPlane(c), 0, 0))
    ensures At(s, w, h, ChannelPlane(c), 0, 0) > 0 ==>
      LowPassImage(s, w, h)[Pos(w, 0, 0, c)] < At(s, w, h, ChannelPlane(c), 0, 0)
  {
    LowPassPixel(s, w, h, 0, 0);
    var win := Neighbourhood(w, h, 0, 0);
    assert win == Window(0, 1, 0, 1);
    assert Count(win) == 2 * 2;
    WindowSumUniform(s, w, h, ChannelPlane(c), win);
    StoredMultiples(At(s, w, h, ChannelPlane(c), 0, 0));
  }
}
