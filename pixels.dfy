/** RGBA pixel buffers, the fixed luminance formula and byte clamping. */
module Pixels {

  /** One channel sample as a Uint8ClampedArray stores it. */
  type Byte = x: int | 0 <= x < 256

  /** A width x height image, row-major, four bytes (R, G, B, A) per pixel. */
  predicate ValidImage(s: seq<Byte>, w: int, h: int)
  {
    w > 0 && h > 0 && |s| == w * h * 4
  }

  /** A valid buffer holds exactly W * H whole pixels. */
  lemma PixelCount(s: seq<Byte>, w: int, h: int)
    requires ValidImage(s, w, h)
    ensures |s| % 4 == 0 && |s| / 4 == w * h
  {
    DivModUnique(|s|, 4, w * h, 0);
  }

  predicate InImage(w: int, h: int, x: int, y: int)
  {
    0 <= x < w && 0 <= y < h
  }

  /** Index of channel c of pixel (x, y): `(y * width + x) * 4 + c`. */
  function Pos(w: int, x: int, y: int, c: int): int
  {
    (y * w + x) * 4 + c
  }

  lemma PosInImage(w: int, h: int, x: int, y: int)
    requires w > 0 && h > 0 && InImage(w, h, x, y)
    ensures 0 <= Pos(w, x, y, 0) && Pos(w, x, y, 3) < w * h * 4
  {
    assert 0 <= y * w <= (h - 1) * w == h * w - w;
  }

  /** Pixels are laid out row after row: row y starts where row y - 1 ends. */
  lemma RowLayout(w: int, h: int, x: int, y: int)
    requires w > 0 && h > 0 && 0 <= x <= w && 0 <= y < h
    ensures 0 <= Pos(w, x, y, 0) <= Pos(w, 0, y + 1, 0) <= w * h * 4
    ensures Pos(w, w, y, 0) == Pos(w, 0, y + 1, 0)
  {
    assert Pos(w, 0, y + 1, 0) == (y + 1) * w * 4;
    MulMonotone(y + 1, w, h, w);
  }

  lemma MulAtLeast(a: int, d: int)
    requires a >= 1 && d >= 0
    ensures a * d >= d
  {
    if a > 1 {
      MulAtLeast(a - 1, d);
      assert a * d == (a - 1) * d + d;
    }
  }

  lemma DivModUnique(n: int, d: int, q: int, r: int)
    requires d > 0 && 0 <= r < d && n == q * d + r
    ensures n / d == q && n % d == r
  {
    var q', r' := n / d, n % d;
    assert n == q' * d + r' && 0 <= r' < d;
    assert (q - q') * d == r' - r;
    if q > q' {
      MulAtLeast(q - q', d);
    } else if q < q' {
      MulAtLeast(q' - q, d);
    }
  }

  /** The column of the pixel that byte i belongs to. */
  function Column(w: int, i: int): (x: int)
    requires w > 0 && i >= 0
    ensures 0 <= x < w
  {
    (i / 4) % w
  }

  lemma RowBound(w: int, h: int, k: int)
    requires w > 0 && h > 0 && 0 <= k < w * h
    ensures 0 <= k / w < h
  {
  }

  /** The row of the pixel that byte i belongs to. */
  function Row(w: int, h: int, i: int): (y: int)
    requires w > 0 && h > 0 && 0 <= i < w * h * 4
    ensures 0 <= y < h
  {
    RowBound(w, h, i / 4);
    (i / 4) / w
  }

  /** Column, Row and i % 4 recover the coordinates and channel of Pos. */
  lemma PosCoordinates(w: int, h: int, x: int, y: int, c: int)
    requires w > 0 && h > 0 && InImage(w, h, x, y) && 0 <= c < 4
    ensures 0 <= Pos(w, x, y, c) < w * h * 4
    ensures Column(w, Pos(w, x, y, c)) == x
    ensures Row(w, h, Pos(w, x, y, c)) == y
    ensures Pos(w, x, y, c) % 4 == c
  {
    PosInImage(w, h, x, y);
    var i := Pos(w, x, y, c);
    DivModUnique(i, 4, y * w + x, c);
    DivModUnique(y * w + x, w, y, x);
  }

  /** The first three bytes of pixel (x, y) are its colour bytes and the fourth its alpha byte. */
  lemma PixelBytes(w: int, h: int, x: int, y: int)
    requires w > 0 && h > 0 && InImage(w, h, x, y)
    ensures 0 <= Pos(w, x, y, 0) && Pos(w, x, y, 3) < w * h * 4
    ensures forall i :: Pos(w, x, y, 0) <= i < Pos(w, x, y, 3) ==>
      i % 4 != 3 && Column(w, i) == x && Row(w, h, i) == y
    ensures Pos(w, x, y, 3) % 4 == 3
  {
    PosCoordinates(w, h, x, y, 0);
    PosCoordinates(w, h, x, y, 1);
    PosCoordinates(w, h, x, y, 2);
    PosCoordinates(w, h, x, y, 3);
    forall i | Pos(w, x, y, 0) <= i < Pos(w, x, y, 3)
      ensures i % 4 != 3 && Column(w, i) == x && Row(w, h, i) == y
    {
      assert i == Pos(w, x, y, 0) || i == Pos(w, x, y, 1) || i == Pos(w, x, y, 2);
    }
  }

  /**
   * The store of the thresholding kernels, `dstData[idx] = dstData[idx + 1]
   * = dstData[idx + 2] = value` followed by the alpha byte: the four bytes
   * of pixel (x, y) change and nothing else.
   */
  method WritePixel(dst: array<Byte>, w: int, h: int, x: int, y: int, value: Byte, alpha: Byte)
    requires w > 0 && h > 0 && dst.Length == w * h * 4 && InImage(w, h, x, y)
    modifies dst
    ensures 0 <= Pos(w, x, y, 0) && Pos(w, x, y, 3) < dst.Length
    ensures forall i :: 0 <= i < dst.Length && !(Pos(w, x, y, 0) <= i <= Pos(w, x, y, 3)) ==> dst[i] == old(dst[i])
    ensures forall i :: Pos(w, x, y, 0) <= i < Pos(w, x, y, 3) ==> dst[i] == value
    ensures dst[Pos(w, x, y, 3)] == alpha
  {
    PosInImage(w, h, x, y);
    var idx := (y * w + x) * 4;
    dst[idx] := value;
    dst[idx + 1] := value;
    dst[idx + 2] := value;
    dst[idx + 3] := alpha;
  }

  /**
   * The luminance of an RGB triple, `rgbToGray`: the floor of
   * 0.299 r + 0.587 g + 0.114 b, computed exactly in thousandths.
   */
  function Gray(r: Byte, g: Byte, b: Byte): Byte
  {
    (299 * r + 587 * g + 114 * b) / 1000
  }

  /**
   * Gray is the integer part of the weighted sum taken with exact decimal
   * weights, and a grey pixel keeps its value.
   */
  lemma GrayIsFloor(r: Byte, g: Byte, b: Byte)
    ensures Gray(r, g, b) as real <= 0.299 * r as real + 0.587 * g as real + 0.114 * b as real < Gray(r, g, b) as real + 1.0
    ensures r == g == b ==> Gray(r, g, b) == r
  {
    var n := 299 * r + 587 * g + 114 * b;
    assert 1000 * Gray(r, g, b) <= n < 1000 * Gray(r, g, b) + 1000;
    assert 0.299 * r as real + 0.587 * g as real + 0.114 * b as real == n as real / 1000.0;
  }

  /** The luminance lies between the least and the greatest of the three channels. */
  lemma GrayBetween(r: Byte, g: Byte, b: Byte)
    ensures r <= g && r <= b ==> r <= Gray(r, g, b)
    ensures g <= r && g <= b ==> g <= Gray(r, g, b)
    ensures b <= r && b <= g ==> b <= Gray(r, g, b)
    ensures r >= g && r >= b ==> Gray(r, g, b) <= r
    ensures g >= r && g >= b ==> Gray(r, g, b) <= g
    ensures b >= r && b >= g ==> Gray(r, g, b) <= b
  {
    var n := 299 * r + 587 * g + 114 * b;
    assert 1000 * Gray(r, g, b) <= n < 1000 * Gray(r, g, b) + 1000;
  }

  /** `Math.max` of two numbers. */
  function Max(a: int, b: int): int { if a >= b then a else b }

  /** `Math.min` of two numbers. */
  function Min(a: int, b: int): int { if a <= b then a else b }

  /** `clamp`: `Math.max(0, Math.min(255, value))`, the nearest value of [0, 255]. */
  function Clamp(value: int): (r: Byte)
    ensures 0 <= value <= 255 ==> r == value
    ensures value < 0 ==> r == 0
    ensures value > 255 ==> r == 255
  {
    Max(0, Min(255, value))
  }

  /** No byte is nearer to value than Clamp(value), and a byte is its own clamp. */
  lemma ClampNearest(value: int, v: Byte)
    ensures Distance(Clamp(value), value) <= Distance(v, value)
    ensures Clamp(v) == v
  {
  }

  function Distance(a: int, b: int): nat
  {
    if a <= b then b - a else a - b
  }

  /** The sample planes the kernels read: the three colour channels and luminance. */
  datatype Plane = Red | Green | Blue | Luma

  function ChannelPlane(c: int): Plane
    requires 0 <= c < 3
  {
    if c == 0 then Red else if c == 1 then Green else Blue
  }

  /** The value of plane p at pixel (x, y). */
  function At(s: seq<Byte>, w: int, h: int, p: Plane, x: int, y: int): Byte
    requires ValidImage(s, w, h) && InImage(w, h, x, y)
  {
    PosInImage(w, h, x, y);
    match p
    case Red => s[Pos(w, x, y, 0)]
    case Green => s[Pos(w, x, y, 1)]
    case Blue => s[Pos(w, x, y, 2)]
    case Luma => Gray(s[Pos(w, x, y, 0)], s[Pos(w, x, y, 1)], s[Pos(w, x, y, 2)])
  }

  /** The luminance of pixel (x, y) read at byte offset `(y * w + x) * 4`, the way the kernels address it. */
  lemma LumaAt(s: seq<Byte>, w: int, h: int, x: int, y: int, idx: int)
    requires ValidImage(s, w, h) && InImage(w, h, x, y) && idx == (y * w + x) * 4
    ensures 0 <= idx && idx + 3 < |s|
    ensures At(s, w, h, Luma, x, y) == Gray(s[idx], s[idx + 1], s[idx + 2])
  {
    PosInImage(w, h, x, y);
  }

  /** Every pixel has the same four bytes as pixel (0, 0). */
  ghost predicate Uniform(s: seq<Byte>, w: int, h: int)
  {
    ValidImage(s, w, h) &&
    forall x, y, c :: InImage(w, h, x, y) && 0 <= c < 4 ==>
      0 <= Pos(w, x, y, c) < |s| && s[Pos(w, x, y, c)] == s[c]
  }

  /** In a uniform image every plane is constant. */
  lemma UniformAt(s: seq<Byte>, w: int, h: int, p: Plane, x: int, y: int)
    requires Uniform(s, w, h) && InImage(w, h, x, y)
    ensures At(s, w, h, p, x, y) == At(s, w, h, p, 0, 0)
  {
    assert Pos(w, 0, 0, 0) == 0 && Pos(w, 0, 0, 1) == 1 && Pos(w, 0, 0, 2) == 2;
    assert s[Pos(w, x, y, 0)] == s[0] && s[Pos(w, x, y, 1)] == s[1] && s[Pos(w, x, y, 2)] == s[2];
  }

  lemma MulSucc(n: int, b: int, c: int)
    requires c == b + 1
    ensures n * c == n * b + n && c * n == b * n + n
  {
  }

  lemma MulRegroup(a: int, b: int, c: int)
    ensures a * b * c == a * c * b
  {
  }

  lemma MulMonotone(a: int, b: int, c: int, d: int)
    requires 0 <= a <= c && 0 <= b <= d
    ensures a * b <= c * d
  {
    assert c * d - a * b == (c - a) * d + a * (d - b);
  }
}
