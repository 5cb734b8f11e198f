/**
 * Square neighbourhoods cut to the image, and the sums, minima and maxima
 * of a sample plane over a rectangle of pixels.
 */
module Windows {
  import opened Pixels

  /** Inclusive pixel bounds, the x1..x2 by y1..y2 of script.js. */
  datatype Window = Window(x1: int, x2: int, y1: int, y2: int)

  /** v cut to [lo, hi]. */
  function Clip(v: int, lo: int, hi: int): int
  {
    if v < lo then lo else if v > hi then hi else v
  }

  predicate InWindow(win: Window, nx: int, ny: int)
  {
    win.x1 <= nx <= win.x2 && win.y1 <= ny <= win.y2
  }

  /**
   * The (2 half + 1)-square around (x, y) cut to the image:
   * `x1 = max(x - half, 0)`, `x2 = min(x + half, width - 1)`, and likewise for y.
   */
  function Clamped(w: int, h: int, x: int, y: int, half: nat): (win: Window)
    requires w > 0 && h > 0 && InImage(w, h, x, y)
    ensures 0 <= win.x1 <= x <= win.x2 < w && 0 <= win.y1 <= y <= win.y2 < h
  {
    Window(Max(x - half, 0), Min(x + half, w - 1), Max(y - half, 0), Min(y + half, h - 1))
  }

  /** The clamped window holds exactly the pixels of the image within `half` of (x, y) on both axes. */
  lemma ClampedWindow(w: int, h: int, x: int, y: int, half: nat)
    requires w > 0 && h > 0 && InImage(w, h, x, y)
    ensures forall nx, ny :: InWindow(Clamped(w, h, x, y, half), nx, ny) <==>
      (InImage(w, h, nx, ny) && x - half <= nx <= x + half && y - half <= ny <= y + half)
  {
  }

  /** The number of pixels of a window: `(x2 - x1 + 1) * (y2 - y1 + 1)`. */
  function Count(win: Window): int
  {
    (win.x2 + 1 - win.x1) * (win.y2 + 1 - win.y1)
  }

  /** A clamped window holds between 1 and (2 half + 1)^2 pixels; 225 for half = 7. */
  lemma CountRange(w: int, h: int, x: int, y: int, half: nat)
    requires w > 0 && h > 0 && InImage(w, h, x, y)
    ensures 1 <= Count(Clamped(w, h, x, y, half)) <= (2 * half + 1) * (2 * half + 1)
  {
    var win := Clamped(w, h, x, y, half);
    var a, b, k := win.x2 - win.x1 + 1, win.y2 - win.y1 + 1, 2 * half + 1;
    assert 1 <= a <= k && 1 <= b <= k;
    MulAtLeast(a, b);
    MulMonotone(a, b, k, k);
  }

  /** Sum of plane p over pixels x1 <= nx < x2 of row y. */
  function RowSum(s: seq<Byte>, w: int, h: int, p: Plane, y: int, x1: int, x2: int): int
    requires ValidImage(s, w, h) && 0 <= y < h && 0 <= x1 <= x2 <= w
    decreases x2 - x1
  {
    if x2 == x1 then 0 else RowSum(s, w, h, p, y, x1, x2 - 1) + At(s, w, h, p, x2 - 1, y)
  }

  /** Sum of plane p over pixels x1 <= nx < x2, y1 <= ny < y2. */
  function RectSum(s: seq<Byte>, w: int, h: int, p: Plane, x1: int, x2: int, y1: int, y2: int): int
    requires ValidImage(s, w, h) && 0 <= x1 <= x2 <= w && 0 <= y1 <= y2 <= h
    decreases y2 - y1
  {
    if y2 == y1 then 0 else RectSum(s, w, h, p, x1, x2, y1, y2 - 1) + RowSum(s, w, h, p, y2 - 1, x1, x2)
  }

  /** `if (gray < min) min = gray` */
  function Lesser(m: Byte, g: Byte): Byte { if g < m then g else m }

  /** `if (gray > max) max = gray` */
  function Greater(m: Byte, g: Byte): Byte { if g > m then g else m }

  /** Least luminance over x1 <= nx < x2 of row y, starting from 255. */
  function RowMin(s: seq<Byte>, w: int, h: int, y: int, x1: int, x2: int): Byte
    requires ValidImage(s, w, h) && 0 <= y < h && 0 <= x1 <= x2 <= w
    decreases x2 - x1
  {
    if x2 == x1 then 255 else Lesser(RowMin(s, w, h, y, x1, x2 - 1), At(s, w, h, Luma, x2 - 1, y))
  }

  /** Greatest luminance over x1 <= nx < x2 of row y, starting from 0. */
  function RowMax(s: seq<Byte>, w: int, h: int, y: int, x1: int, x2: int): Byte
    requires ValidImage(s, w, h) && 0 <= y < h && 0 <= x1 <= x2 <= w
    decreases x2 - x1
  {
    if x2 == x1 then 0 else Greater(RowMax(s, w, h, y, x1, x2 - 1), At(s, w, h, Luma, x2 - 1, y))
  }

  function RectMin(s: seq<Byte>, w: int, h: int, x1: int, x2: int, y1: int, y2: int): Byte
    requires ValidImage(s, w, h) && 0 <= x1 <= x2 <= w && 0 <= y1 <= y2 <= h
    decreases y2 - y1
  {
    if y2 == y1 then 255 else Lesser(RectMin(s, w, h, x1, x2, y1, y2 - 1), RowMin(s, w, h, y2 - 1, x1, x2))
  }

  function RectMax(s: seq<Byte>, w: int, h: int, x1: int, x2: int, y1: int, y2: int): Byte
    requires ValidImage(s, w, h) && 0 <= x1 <= x2 <= w && 0 <= y1 <= y2 <= h
    decreases y2 - y1
  {
    if y2 == y1 then 0 else Greater(RectMax(s, w, h, x1, x2, y1, y2 - 1), RowMax(s, w, h, y2 - 1, x1, x2))
  }

  /** A non-empty window that lies inside the image. */
  predicate WindowIn(w: int, h: int, win: Window)
  {
    0 <= win.x1 <= win.x2 < w && 0 <= win.y1 <= win.y2 < h
  }

  function WindowSum(s: seq<Byte>, w: int, h: int, p: Plane, win: Window): int
    requires ValidImage(s, w, h) && WindowIn(w, h, win)
  {
    RectSum(s, w, h, p, win.x1, win.x2 + 1, win.y1, win.y2 + 1)
  }

  function WindowMin(s: seq<Byte>, w: int, h: int, win: Window): Byte
    requires ValidImage(s, w, h) && WindowIn(w, h, win)
  {
    RectMin(s, w, h, win.x1, win.x2 + 1, win.y1, win.y2 + 1)
  }

  function WindowMax(s: seq<Byte>, w: int, h: int, win: Window): Byte
    requires ValidImage(s, w, h) && WindowIn(w, h, win)
  {
    RectMax(s, w, h, win.x1, win.x2 + 1, win.y1, win.y2 + 1)
  }

  lemma {:induction false} RowSplit(s: seq<Byte>, w: int, h: int, p: Plane, y: int, a: int, b: int, c: int)
    requires ValidImage(s, w, h) && 0 <= y < h && 0 <= a <= b <= c <= w
    ensures RowSum(s, w, h, p, y, a, c) == RowSum(s, w, h, p, y, a, b) + RowSum(s, w, h, p, y, b, c)
    decreases c - b
  {
    if c > b {
      RowSplit(s, w, h, p, y, a, b, c - 1);
    }
  }

  lemma {:induction false} RectSplitColumns(s: seq<Byte>, w: int, h: int, p: Plane, a: int, b: int, c: int, y1: int, y2: int)
    requires ValidImage(s, w, h) && 0 <= a <= b <= c <= w && 0 <= y1 <= y2 <= h
    ensures RectSum(s, w, h, p, a, c, y1, y2) == RectSum(s, w, h, p, a, b, y1, y2) + RectSum(s, w, h, p, b, c, y1, y2)
    decreases y2 - y1
  {
    if y2 > y1 {
      RectSplitColumns(s, w, h, p, a, b, c, y1, y2 - 1);
      RowSplit(s, w, h, p, y2 - 1, a, b, c);
    }
  }

  lemma {:induction false} RectSplitRows(s: seq<Byte>, w: int, h: int, p: Plane, x1: int, x2: int, a: int, b: int, c: int)
    requires ValidImage(s, w, h) && 0 <= x1 <= x2 <= w && 0 <= a <= b <= c <= h
    ensures RectSum(s, w, h, p, x1, x2, a, c) == RectSum(s, w, h, p, x1, x2, a, b) + RectSum(s, w, h, p, x1, x2, b, c)
    decreases c - b
  {
    if c > b {
      RectSplitRows(s, w, h, p, x1, x2, a, b, c - 1);
    }
  }

  /**
   * Inclusion-exclusion: the sum over [x1, x2) x [y1, y2) is four sums over
   * rectangles anchored at the origin.
   */
  lemma InclusionExclusion(s: seq<Byte>, w: int, h: int, p: Plane, x1: int, x2: int, y1: int, y2: int)
    requires ValidImage(s, w, h) && 0 <= x1 <= x2 <= w && 0 <= y1 <= y2 <= h
    ensures RectSum(s, w, h, p, x1, x2, y1, y2) ==
      RectSum(s, w, h, p, 0, x2, 0, y2) - RectSum(s, w, h, p, 0, x1, 0, y2)
      - RectSum(s, w, h, p, 0, x2, 0, y1) + RectSum(s, w, h, p, 0, x1, 0, y1)
  {
    RectSplitRows(s, w, h, p, 0, x2, 0, y1, y2);
    RectSplitRows(s, w, h, p, 0, x1, 0, y1, y2);
    RectSplitColumns(s, w, h, p, 0, x1, x2, y1, y2);
  }

  lemma {:induction false} RowSumBounds(s: seq<Byte>, w: int, h: int, p: Plane, y: int, x1: int, x2: int)
    requires ValidImage(s, w, h) && 0 <= y < h && 0 <= x1 <= x2 <= w
    ensures 0 <= RowSum(s, w, h, p, y, x1, x2) <= 255 * (x2 - x1)
    decreases x2 - x1
  {
    if x2 > x1 {
      RowSumBounds(s, w, h, p, y, x1, x2 - 1);
    }
  }

  /** Every rectangle sum lies between 0 and 255 times the number of pixels. */
  lemma {:induction false} RectSumBounds(s: seq<Byte>, w: int, h: int, p: Plane, x1: int, x2: int, y1: int, y2: int)
    requires ValidImage(s, w, h) && 0 <= x1 <= x2 <= w && 0 <= y1 <= y2 <= h
    ensures 0 <= RectSum(s, w, h, p, x1, x2, y1, y2) <= 255 * ((x2 - x1) * (y2 - y1))
    decreases y2 - y1
  {
    if y2 > y1 {
      RectSumBounds(s, w, h, p, x1, x2, y1, y2 - 1);
      RowSumBounds(s, w, h, p, y2 - 1, x1, x2);
      assert (x2 - x1) * (y2 - y1) == (x2 - x1) * (y2 - 1 - y1) + (x2 - x1);
    }
  }

  /** A window sum lies between 0 and 255 times the window's pixel count. */
  lemma WindowSumBounds(s: seq<Byte>, w: int, h: int, p: Plane, win: Window)
    requires ValidImage(s, w, h) && WindowIn(w, h, win)
    ensures 0 <= WindowSum(s, w, h, p, win) <= 255 * Count(win)
  {
    RectSumBounds(s, w, h, p, win.x1, win.x2 + 1, win.y1, win.y2 + 1);
    assert Count(win) == (win.x2 + 1 - win.x1) * (win.y2 + 1 - win.y1);
  }

  /** A row of pixels that all have value v sums to the pixel count times v ... */
  lemma {:induction false} RowSumConstant(s: seq<Byte>, w: int, h: int, p: Plane, y: int, x1: int, x2: int, v: int)
    requires ValidImage(s, w, h) && 0 <= y < h && 0 <= x1 <= x2 <= w
    requires forall nx :: x1 <= nx < x2 ==> At(s, w, h, p, nx, y) == v
    ensures RowSum(s, w, h, p, y, x1, x2) == (x2 - x1) * v
    decreases x2 - x1
  {
    if x2 > x1 {
      RowSumConstant(s, w, h, p, y, x1, x2 - 1, v);
      PixelStep(RowSum(s, w, h, p, y, x1, x2 - 1), At(s, w, h, p, x2 - 1, y), x2 - 1 - x1, x2 - x1, v);
    }
  }

  /** ... and so does a rectangle of them. */
  lemma {:induction false} RectSumConstant(s: seq<Byte>, w: int, h: int, p: Plane, x1: int, x2: int, y1: int, y2: int, v: int)
    requires ValidImage(s, w, h) && 0 <= x1 <= x2 <= w && 0 <= y1 <= y2 <= h
    requires forall nx, ny :: x1 <= nx < x2 && y1 <= ny < y2 ==> At(s, w, h, p, nx, ny) == v
    ensures RectSum(s, w, h, p, x1, x2, y1, y2) == (x2 - x1) * v * (y2 - y1)
    decreases y2 - y1
  {
    if y2 > y1 {
      RectSumConstant(s, w, h, p, x1, x2, y1, y2 - 1, v);
      RowSumConstant(s, w, h, p, y2 - 1, x1, x2, v);
      RowStep(RectSum(s, w, h, p, x1, x2, y1, y2 - 1), RowSum(s, w, h, p, y2 - 1, x1, x2), x2 - x1, v, y2 - 1 - y1, y2 - y1);
    }
  }

  /** On a uniform image a rectangle of n pixels sums to n times the common value. */
  lemma RectSumUniform(s: seq<Byte>, w: int, h: int, p: Plane, x1: int, x2: int, y1: int, y2: int, v: int, n: int)
    requires Uniform(s, w, h) && 0 <= x1 <= x2 <= w && 0 <= y1 <= y2 <= h && v == At(s, w, h, p, 0, 0)
    requires n == (x2 - x1) * (y2 - y1)
    ensures RectSum(s, w, h, p, x1, x2, y1, y2) == n * v
  {
    forall nx, ny | x1 <= nx < x2 && y1 <= ny < y2
      ensures At(s, w, h, p, nx, ny) == v
    {
      UniformAt(s, w, h, p, nx, ny);
    }
    RectSumConstant(s, w, h, p, x1, x2, y1, y2, v);
    AreaTimes(RectSum(s, w, h, p, x1, x2, y1, y2), x2 - x1, v, y2 - y1, n);
  }

  /** a v b is n v when n is a b. */
  lemma AreaTimes(m: int, a: int, v: int, b: int, n: int)
    requires m == a * v * b && n == a * b
    ensures m == n * v
  {
    MulRegroup(a, v, b);
  }

  /** Adding one more pixel of value v to n such pixels. */
  lemma PixelStep(prev: int, pixel: int, n: int, m: int, v: int)
    requires prev == n * v && pixel == v && m == n + 1
    ensures prev + pixel == m * v
  {
    MulSucc(v, n, m);
  }

  /** Adding one more row of n pixels of value v to k such rows. */
  lemma RowStep(prev: int, row: int, n: int, v: int, k: int, m: int)
    requires prev == n * v * k && row == n * v && m == k + 1
    ensures prev + row == n * v * m
  {
    MulSucc(n * v, k, m);
  }

  /** On a uniform image a window sum is the window's pixel count times the common value. */
  lemma WindowSumUniform(s: seq<Byte>, w: int, h: int, p: Plane, win: Window)
    requires Uniform(s, w, h) && WindowIn(w, h, win)
    ensures WindowSum(s, w, h, p, win) == Count(win) * At(s, w, h, p, 0, 0)
  {
    RectSumUniform(s, w, h, p, win.x1, win.x2 + 1, win.y1, win.y2 + 1, At(s, w, h, p, 0, 0), Count(win));
  }

  /** RowMin and RowMax bound the luminance of every pixel of the row range. */
  lemma {:induction false} RowMinMaxBounds(s: seq<Byte>, w: int, h: int, y: int, x1: int, x2: int)
    requires ValidImage(s, w, h) && 0 <= y < h && 0 <= x1 <= x2 <= w
    ensures forall nx :: x1 <= nx < x2 ==>
      RowMin(s, w, h, y, x1, x2) <= At(s, w, h, Luma, nx, y) <= RowMax(s, w, h, y, x1, x2)
    decreases x2 - x1
  {
    if x2 > x1 {
      RowMinMaxBounds(s, w, h, y, x1, x2 - 1);
    }
  }

  /** On a non-empty row range RowMin is the luminance of a pixel of the range ... */
  lemma {:induction false} RowMinAttained(s: seq<Byte>, w: int, h: int, y: int, x1: int, x2: int)
    requires ValidImage(s, w, h) && 0 <= y < h && 0 <= x1 < x2 <= w
    ensures exists nx :: x1 <= nx < x2 && RowMin(s, w, h, y, x1, x2) == At(s, w, h, Luma, nx, y)
    decreases x2 - x1
  {
    if x2 - 1 == x1 {
      assert RowMin(s, w, h, y, x1, x2) == At(s, w, h, Luma, x1, y);
    } else {
      RowMinAttained(s, w, h, y, x1, x2 - 1);
      var i :| x1 <= i < x2 - 1 && RowMin(s, w, h, y, x1, x2 - 1) == At(s, w, h, Luma, i, y);
      if At(s, w, h, Luma, x2 - 1, y) < RowMin(s, w, h, y, x1, x2 - 1) {
        assert RowMin(s, w, h, y, x1, x2) == At(s, w, h, Luma, x2 - 1, y);
      } else {
        assert RowMin(s, w, h, y, x1, x2) == At(s, w, h, Luma, i, y);
      }
    }
  }

  /** ... and so is RowMax. */
  lemma {:induction false} RowMaxAttained(s: seq<Byte>, w: int, h: int, y: int, x1: int, x2: int)
    requires ValidImage(s, w, h) && 0 <= y < h && 0 <= x1 < x2 <= w
    ensures exists nx :: x1 <= nx < x2 && RowMax(s, w, h, y, x1, x2) == At(s, w, h, Luma, nx, y)
    decreases x2 - x1
  {
    if x2 - 1 == x1 {
      assert RowMax(s, w, h, y, x1, x2) == At(s, w, h, Luma, x1, y);
    } else {
      RowMaxAttained(s, w, h, y, x1, x2 - 1);
      var i :| x1 <= i < x2 - 1 && RowMax(s, w, h, y, x1, x2 - 1) == At(s, w, h, Luma, i, y);
      if At(s, w, h, Luma, x2 - 1, y) > RowMax(s, w, h, y, x1, x2 - 1) {
        assert RowMax(s, w, h, y, x1, x2) == At(s, w, h, Luma, x2 - 1, y);
      } else {
        assert RowMax(s, w, h, y, x1, x2) == At(s, w, h, Luma, i, y);
      }
    }
  }

  /** RectMin and RectMax bound the luminance of every pixel of the rectangle. */
  lemma {:induction false} RectMinMaxBounds(s: seq<Byte>, w: int, h: int, x1: int, x2: int, y1: int, y2: int)
    requires ValidImage(s, w, h) && 0 <= x1 <= x2 <= w && 0 <= y1 <= y2 <= h
    ensures forall nx, ny :: x1 <= nx < x2 && y1 <= ny < y2 ==>
      RectMin(s, w, h, x1, x2, y1, y2) <= At(s, w, h, Luma, nx, ny) <= RectMax(s, w, h, x1, x2, y1, y2)
    decreases y2 - y1
  {
    if y2 > y1 {
      RectMinMaxBounds(s, w, h, x1, x2, y1, y2 - 1);
      RowMinMaxBounds(s, w, h, y2 - 1, x1, x2);
    }
  }

  /** On a non-empty rectangle RectMin is the luminance of a pixel of the rectangle ... */
  lemma {:induction false} RectMinAttained(s: seq<Byte>, w: int, h: int, x1: int, x2: int, y1: int, y2: int)
    requires ValidImage(s, w, h) && 0 <= x1 < x2 <= w && 0 <= y1 < y2 <= h
    ensures exists nx, ny :: x1 <= nx < x2 && y1 <= ny < y2 && RectMin(s, w, h, x1, x2, y1, y2) == At(s, w, h, Luma, nx, ny)
    decreases y2 - y1
  {
    RowMinAttained(s, w, h, y2 - 1, x1, x2);
    var r := RowMin(s, w, h, y2 - 1, x1, x2);
    var i :| x1 <= i < x2 && r == At(s, w, h, Luma, i, y2 - 1);
    if y2 - 1 == y1 {
      assert RectMin(s, w, h, x1, x2, y1, y2) == At(s, w, h, Luma, i, y2 - 1);
    } else {
      RectMinAttained(s, w, h, x1, x2, y1, y2 - 1);
      var m := RectMin(s, w, h, x1, x2, y1, y2 - 1);
      var ax, ay :| x1 <= ax < x2 && y1 <= ay < y2 - 1 && m == At(s, w, h, Luma, ax, ay);
      if r < m {
        assert RectMin(s, w, h, x1, x2, y1, y2) == At(s, w, h, Luma, i, y2 - 1);
      } else {
        assert RectMin(s, w, h, x1, x2, y1, y2) == At(s, w, h, Luma, ax, ay);
      }
    }
  }

  /** ... and so is RectMax. */
  lemma {:induction false} RectMaxAttained(s: seq<Byte>, w: int, h: int, x1: int, x2: int, y1: int, y2: int)
    requires ValidImage(s, w, h) && 0 <= x1 < x2 <= w && 0 <= y1 < y2 <= h
    ensures exists nx, ny :: x1 <= nx < x2 && y1 <= ny < y2 && RectMax(s, w, h, x1, x2, y1, y2) == At(s, w, h, Luma, nx, ny)
    decreases y2 - y1
  {
    RowMaxAttained(s, w, h, y2 - 1, x1, x2);
    var t := RowMax(s, w, h, y2 - 1, x1, x2);
    var j :| x1 <= j < x2 && t == At(s, w, h, Luma, j, y2 - 1);
    if y2 - 1 == y1 {
      assert RectMax(s, w, h, x1, x2, y1, y2) == At(s, w, h, Luma, j, y2 - 1);
    } else {
      RectMaxAttained(s, w, h, x1, x2, y1, y2 - 1);
      var n := RectMax(s, w, h, x1, x2, y1, y2 - 1);
      var bx, cy :| x1 <= bx < x2 && y1 <= cy < y2 - 1 && n == At(s, w, h, Luma, bx, cy);
      if t > n {
        assert RectMax(s, w, h, x1, x2, y1, y2) == At(s, w, h, Luma, j, y2 - 1);
      } else {
        assert RectMax(s, w, h, x1, x2, y1, y2) == At(s, w, h, Luma, bx, cy);
      }
    }
  }

  /** On a uniform image the least and the greatest luminance of a non-empty rectangle coincide. */
  lemma UniformMinMax(s: seq<Byte>, w: int, h: int, x1: int, x2: int, y1: int, y2: int)
    requires Uniform(s, w, h) && 0 <= x1 < x2 <= w && 0 <= y1 < y2 <= h
    ensures RectMin(s, w, h, x1, x2, y1, y2) == RectMax(s, w, h, x1, x2, y1, y2) == At(s, w, h, Luma, 0, 0)
  {
    RectMinAttained(s, w, h, x1, x2, y1, y2);
    RectMaxAttained(s, w, h, x1, x2, y1, y2);
    var ax, ay :| x1 <= ax < x2 && y1 <= ay < y2 && RectMin(s, w, h, x1, x2, y1, y2) == At(s, w, h, Luma, ax, ay);
    var cx, cy :| x1 <= cx < x2 && y1 <= cy < y2 && RectMax(s, w, h, x1, x2, y1, y2) == At(s, w, h, Luma, cx, cy);
    UniformAt(s, w, h, Luma, ax, ay);
    UniformAt(s, w, h, Luma, cx, cy);
  }

  /*
   * The loops of script.js that visit every offset of a square neighbourhood
   * and skip the neighbours outside the image. A scan over columns
   * [xa, xb) and rows [ya, yb) may reach outside the image; the lemmas
   * below show that it amounts to the rectangle cut to the image.
   */

  /** What the scan adds for neighbour (nx, ny): its sample if it is in the image, else nothing. */
  function Tap(s: seq<Byte>, w: int, h: int, p: Plane, nx: int, ny: int): int
    requires ValidImage(s, w, h)
  {
    if InImage(w, h, nx, ny) then At(s, w, h, p, nx, ny) else 0
  }

  function RowScanSum(s: seq<Byte>, w: int, h: int, p: Plane, ny: int, xa: int, xb: int): int
    requires ValidImage(s, w, h) && xa <= xb
    decreases xb - xa
  {
    if xb == xa then 0 else RowScanSum(s, w, h, p, ny, xa, xb - 1) + Tap(s, w, h, p, xb - 1, ny)
  }

  function ScanSum(s: seq<Byte>, w: int, h: int, p: Plane, xa: int, xb: int, ya: int, yb: int): int
    requires ValidImage(s, w, h) && xa <= xb && ya <= yb
    decreases yb - ya
  {
    if yb == ya then 0 else ScanSum(s, w, h, p, xa, xb, ya, yb - 1) + RowScanSum(s, w, h, p, yb - 1, xa, xb)
  }

  /** `count++` for each neighbour in the image. */
  function RowScanCount(w: int, h: int, ny: int, xa: int, xb: int): int
    requires xa <= xb
    decreases xb - xa
  {
    if xb == xa then 0 else RowScanCount(w, h, ny, xa, xb - 1) + (if InImage(w, h, xb - 1, ny) then 1 else 0)
  }

  function ScanCount(w: int, h: int, xa: int, xb: int, ya: int, yb: int): int
    requires xa <= xb && ya <= yb
    decreases yb - ya
  {
    if yb == ya then 0 else ScanCount(w, h, xa, xb, ya, yb - 1) + RowScanCount(w, h, yb - 1, xa, xb)
  }

  /** The running minimum of luminance over the neighbours in the image, from 255. */
  function RowScanMin(s: seq<Byte>, w: int, h: int, ny: int, xa: int, xb: int): Byte
    requires ValidImage(s, w, h) && xa <= xb
    decreases xb - xa
  {
    if xb == xa then 255
    else if InImage(w, h, xb - 1, ny) then Lesser(RowScanMin(s, w, h, ny, xa, xb - 1), At(s, w, h, Luma, xb - 1, ny))
    else RowScanMin(s, w, h, ny, xa, xb - 1)
  }

  function ScanMin(s: seq<Byte>, w: int, h: int, xa: int, xb: int, ya: int, yb: int): Byte
    requires ValidImage(s, w, h) && xa <= xb && ya <= yb
    decreases yb - ya
  {
    if yb == ya then 255 else Lesser(ScanMin(s, w, h, xa, xb, ya, yb - 1), RowScanMin(s, w, h, yb - 1, xa, xb))
  }

  /** The running maximum of luminance over the neighbours in the image, from 0. */
  function RowScanMax(s: seq<Byte>, w: int, h: int, ny: int, xa: int, xb: int): Byte
    requires ValidImage(s, w, h) && xa <= xb
    decreases xb - xa
  {
    if xb == xa then 0
    else if InImage(w, h, xb - 1, ny) then Greater(RowScanMax(s, w, h, ny, xa, xb - 1), At(s, w, h, Luma, xb - 1, ny))
    else RowScanMax(s, w, h, ny, xa, xb - 1)
  }

  function ScanMax(s: seq<Byte>, w: int, h: int, xa: int, xb: int, ya: int, yb: int): Byte
    requires ValidImage(s, w, h) && xa <= xb && ya <= yb
    decreases yb - ya
  {
    if yb == ya then 0 else Greater(ScanMax(s, w, h, xa, xb, ya, yb - 1), RowScanMax(s, w, h, yb - 1, xa, xb))
  }

  /** A row scan over [xa, xb) sums the row over [xa, xb) cut to the image, and nothing off the image. */
  lemma {:induction false} RowScanSumClipped(s: seq<Byte>, w: int, h: int, p: Plane, ny: int, xa: int, xb: int)
    requires ValidImage(s, w, h) && xa <= xb
    ensures RowScanSum(s, w, h, p, ny, xa, xb) ==
      if 0 <= ny < h then RowSum(s, w, h, p, ny, Clip(xa, 0, w), Clip(xb, 0, w)) else 0
    decreases xb - xa
  {
    if xb > xa {
      RowScanSumClipped(s, w, h, p, ny, xa, xb - 1);
    }
  }

  lemma {:induction false} ScanSumClipped(s: seq<Byte>, w: int, h: int, p: Plane, xa: int, xb: int, ya: int, yb: int,
                                          x1: int, x2: int, y1: int, y2: int)
    requires ValidImage(s, w, h) && xa <= xb && ya <= yb
    requires x1 == Clip(xa, 0, w) && x2 == Clip(xb, 0, w) && y1 == Clip(ya, 0, h) && y2 == Clip(yb, 0, h)
    ensures ScanSum(s, w, h, p, xa, xb, ya, yb) == RectSum(s, w, h, p, x1, x2, y1, y2)
    decreases yb - ya
  {
    if yb > ya {
      ScanSumClipped(s, w, h, p, xa, xb, ya, yb - 1, x1, x2, y1, Clip(yb - 1, 0, h));
      RowScanSumClipped(s, w, h, p, yb - 1, xa, xb);
    }
  }

  lemma {:induction false} RowScanCountClipped(w: int, h: int, ny: int, xa: int, xb: int)
    requires w > 0 && h > 0 && xa <= xb
    ensures RowScanCount(w, h, ny, xa, xb) == if 0 <= ny < h then Clip(xb, 0, w) - Clip(xa, 0, w) else 0
    decreases xb - xa
  {
    if xb > xa {
      RowScanCountClipped(w, h, ny, xa, xb - 1);
    }
  }

  /** How many of the indices [a, b) fall inside [lo, hi). */
  function Span(a: int, b: int, lo: int, hi: int): int
  {
    Clip(b, lo, hi) - Clip(a, lo, hi)
  }

  lemma {:induction false} ScanCountClipped(w: int, h: int, xa: int, xb: int, ya: int, yb: int)
    requires w > 0 && h > 0 && xa <= xb && ya <= yb
    ensures ScanCount(w, h, xa, xb, ya, yb) == Span(xa, xb, 0, w) * Span(ya, yb, 0, h)
    decreases yb - ya
  {
    if yb > ya {
      ScanCountClipped(w, h, xa, xb, ya, yb - 1);
      RowScanCountClipped(w, h, yb - 1, xa, xb);
      if 0 <= yb - 1 < h {
        MulSucc(Span(xa, xb, 0, w), Span(ya, yb - 1, 0, h), Span(ya, yb, 0, h));
      } else {
        assert Span(ya, yb, 0, h) == Span(ya, yb - 1, 0, h);
      }
    }
  }

  lemma {:induction false} RowScanMinClipped(s: seq<Byte>, w: int, h: int, ny: int, xa: int, xb: int)
    requires ValidImage(s, w, h) && xa <= xb
    ensures RowScanMin(s, w, h, ny, xa, xb) == if 0 <= ny < h then RowMin(s, w, h, ny, Clip(xa, 0, w), Clip(xb, 0, w)) else 255
    decreases xb - xa
  {
    if xb > xa {
      RowScanMinClipped(s, w, h, ny, xa, xb - 1);
    }
  }

  lemma {:induction false} RowScanMaxClipped(s: seq<Byte>, w: int, h: int, ny: int, xa: int, xb: int)
    requires ValidImage(s, w, h) && xa <= xb
    ensures RowScanMax(s, w, h, ny, xa, xb) == if 0 <= ny < h then RowMax(s, w, h, ny, Clip(xa, 0, w), Clip(xb, 0, w)) else 0
    decreases xb - xa
  {
    if xb > xa {
      RowScanMaxClipped(s, w, h, ny, xa, xb - 1);
    }
  }

  lemma {:induction false} ScanMinClipped(s: seq<Byte>, w: int, h: int, xa: int, xb: int, ya: int, yb: int,
                                          x1: int, x2: int, y1: int, y2: int)
    requires ValidImage(s, w, h) && xa <= xb && ya <= yb
    requires x1 == Clip(xa, 0, w) && x2 == Clip(xb, 0, w) && y1 == Clip(ya, 0, h) && y2 == Clip(yb, 0, h)
    ensures ScanMin(s, w, h, xa, xb, ya, yb) == RectMin(s, w, h, x1, x2, y1, y2)
    decreases yb - ya
  {
    if yb > ya {
      ScanMinClipped(s, w, h, xa, xb, ya, yb - 1, x1, x2, y1, Clip(yb - 1, 0, h));
      RowScanMinClipped(s, w, h, yb - 1, xa, xb);
    }
  }

  lemma {:induction false} ScanMaxClipped(s: seq<Byte>, w: int, h: int, xa: int, xb: int, ya: int, yb: int,
                                          x1: int, x2: int, y1: int, y2: int)
    requires ValidImage(s, w, h) && xa <= xb && ya <= yb
    requires x1 == Clip(xa, 0, w) && x2 == Clip(xb, 0, w) && y1 == Clip(ya, 0, h) && y2 == Clip(yb, 0, h)
    ensures ScanMax(s, w, h, xa, xb, ya, yb) == RectMax(s, w, h, x1, x2, y1, y2)
    decreases yb - ya
  {
    if yb > ya {
      ScanMaxClipped(s, w, h, xa, xb, ya, yb - 1, x1, x2, y1, Clip(yb - 1, 0, h));
      RowScanMaxClipped(s, w, h, yb - 1, xa, xb);
    }
  }

  /** The clamped window's half-open bounds are the scanned offsets cut to the image. */
  lemma ClampedBounds(w: int, h: int, x: int, y: int, half: nat)
    requires w > 0 && h > 0 && InImage(w, h, x, y)
    ensures Clamped(w, h, x, y, half).x1 == Clip(x - half, 0, w)
    ensures Clamped(w, h, x, y, half).x2 + 1 == Clip(x + half + 1, 0, w)
    ensures Clamped(w, h, x, y, half).y1 == Clip(y - half, 0, h)
    ensures Clamped(w, h, x, y, half).y2 + 1 == Clip(y + half + 1, 0, h)
  {
  }

  /** A value equal to the rectangle form of a window's sum, least or greatest luminance is that window quantity. */
  lemma WindowSumIs(s: seq<Byte>, w: int, h: int, p: Plane, win: Window, m: int)
    requires ValidImage(s, w, h) && WindowIn(w, h, win)
    requires m == RectSum(s, w, h, p, win.x1, win.x2 + 1, win.y1, win.y2 + 1)
    ensures m == WindowSum(s, w, h, p, win)
  {
  }

  lemma WindowMinIs(s: seq<Byte>, w: int, h: int, win: Window, m: int)
    requires ValidImage(s, w, h) && WindowIn(w, h, win)
    requires m == RectMin(s, w, h, win.x1, win.x2 + 1, win.y1, win.y2 + 1)
    ensures m == WindowMin(s, w, h, win)
  {
  }

  lemma WindowMaxIs(s: seq<Byte>, w: int, h: int, win: Window, m: int)
    requires ValidImage(s, w, h) && WindowIn(w, h, win)
    requires m == RectMax(s, w, h, win.x1, win.x2 + 1, win.y1, win.y2 + 1)
    ensures m == WindowMax(s, w, h, win)
  {
  }

  /**
   * Scanning the offsets -half..half around (x, y) and skipping the
   * neighbours outside the image gives the sum of the clamped window ...
   */
  lemma {:induction false} ScanSumIsWindowSum(s: seq<Byte>, w: int, h: int, p: Plane, x: int, y: int, half: nat)
    requires ValidImage(s, w, h) && InImage(w, h, x, y)
    ensures ScanSum(s, w, h, p, x - half, x + half + 1, y - half, y + half + 1) == WindowSum(s, w, h, p, Clamped(w, h, x, y, half))
  {
    var win := Clamped(w, h, x, y, half);
    ClampedBounds(w, h, x, y, half);
    ScanSumClipped(s, w, h, p, x - half, x + half + 1, y - half, y + half + 1, win.x1, win.x2 + 1, win.y1, win.y2 + 1);
    WindowSumIs(s, w, h, p, win, ScanSum(s, w, h, p, x - half, x + half + 1, y - half, y + half + 1));
  }

  /** ... its pixel count ... */
  lemma {:induction false} ScanCountIsCount(w: int, h: int, x: int, y: int, half: nat)
    requires w > 0 && h > 0 && InImage(w, h, x, y)
    ensures ScanCount(w, h, x - half, x + half + 1, y - half, y + half + 1) == Count(Clamped(w, h, x, y, half))
  {
    ClampedBounds(w, h, x, y, half);
    ScanCountClipped(w, h, x - half, x + half + 1, y - half, y + half + 1);
  }

  /** ... and its least ... */
  lemma {:induction false} ScanMinIsWindow(s: seq<Byte>, w: int, h: int, x: int, y: int, half: nat)
    requires ValidImage(s, w, h) && InImage(w, h, x, y)
    ensures ScanMin(s, w, h, x - half, x + half + 1, y - half, y + half + 1) == WindowMin(s, w, h, Clamped(w, h, x, y, half))
  {
    var win := Clamped(w, h, x, y, half);
    ClampedBounds(w, h, x, y, half);
    ScanMinClipped(s, w, h, x - half, x + half + 1, y - half, y + half + 1, win.x1, win.x2 + 1, win.y1, win.y2 + 1);
    WindowMinIs(s, w, h, win, ScanMin(s, w, h, x - half, x + half + 1, y - half, y + half + 1));
  }

  /** ... and its greatest luminance. */
  lemma {:induction false} ScanMaxIsWindow(s: seq<Byte>, w: int, h: int, x: int, y: int, half: nat)
    requires ValidImage(s, w, h) && InImage(w, h, x, y)
    ensures ScanMax(s, w, h, x - half, x + half + 1, y - half, y + half + 1) == WindowMax(s, w, h, Clamped(w, h, x, y, half))
  {
    var win := Clamped(w, h, x, y, half);
    ClampedBounds(w, h, x, y, half);
    ScanMaxClipped(s, w, h, x - half, x + half + 1, y - half, y + half + 1, win.x1, win.x2 + 1, win.y1, win.y2 + 1);
    WindowMaxIs(s, w, h, win, ScanMax(s, w, h, x - half, x + half + 1, y - half, y + half + 1));
  }
}
