/**
 * Otsu's method on an image with exactly two luminance levels a < b.
 * Every level from a to b - 1 splits the pixels the same way, so the
 * variances tie and the scan keeps the first of them, a. With the
 * binarisation `gray >= threshold` the pixels of level a then turn white
 * with the others, and the two regions are lost; binarising with
 * `gray > threshold` (the background class is the levels up to the
 * threshold, as in the variance) keeps them apart.
 */
module OtsuTwoLevels {
  import opened Pixels
  import opened Otsu

  /** Every one of the first n pixels has luminance a or b. */
  predicate TwoLevels(s: seq<Byte>, n: int, a: int, b: int)
    requires 0 <= n && 4 * n <= |s|
  {
    forall k :: 0 <= k < n ==> PixelGray(s, k) == a || PixelGray(s, k) == b
  }

  /** No pixel of a two-level image has any other level. */
  lemma {:induction false} OtherLevelCount(s: seq<Byte>, n: int, a: int, b: int, v: int)
    requires 0 <= n && 4 * n <= |s| && TwoLevels(s, n, a, b) && v != a && v != b
    ensures GrayCount(s, n, v) == 0
    decreases n
  {
    if n > 0 {
      OtherLevelCount(s, n - 1, a, b, v);
    }
  }

  /** The level of any of the first n pixels is counted at least once. */
  lemma {:induction false} PresentLevelCount(s: seq<Byte>, n: int, k: int)
    requires 0 <= k < n && 4 * n <= |s|
    ensures GrayCount(s, n, PixelGray(s, k)) > 0
    decreases n
  {
    if k < n - 1 {
      PresentLevelCount(s, n - 1, k);
    }
  }

  /**
   * A histogram whose only non-empty bins are a < b has threshold a: every
   * level below a leaves the background empty, every level from b on leaves
   * the foreground empty, and the levels a .. b - 1 all make the same split.
   */
  lemma TwoBinsOtsu(hist: seq<nat>, total: int, a: int, b: int)
    requires |hist| == 256 && 0 <= a < b < 256 && total == Mass(hist, 0, 256)
    requires hist[a] > 0 && hist[b] > 0
    requires forall v :: 0 <= v < 256 && v != a && v != b ==> hist[v] == 0
    ensures IsOtsuThreshold(hist, total, a)
  {
    LowerSplit(hist, total, a, b);
    forall t | 0 <= t < a
      ensures !Candidate(hist, total, t)
    {
      MassOfZeros(hist, 0, t + 1);
    }
    forall t | a < t < 256 && Candidate(hist, total, t)
      ensures Variance(hist, total, t) <= Variance(hist, total, a)
    {
      if t < b {
        Plateau(hist, total, a, b, t);
      } else {
        AboveUpper(hist, total, t);
        assert false;
      }
    }
  }

  /** Level a puts the pixels of level a in the background and those of level b in the foreground. */
  lemma LowerSplit(hist: seq<nat>, total: int, a: int, b: int)
    requires |hist| == 256 && 0 <= a < b < 256 && total == Mass(hist, 0, 256)
    requires hist[a] > 0 && hist[b] > 0
    requires forall v :: 0 <= v < 256 && v != a && v != b ==> hist[v] == 0
    ensures Candidate(hist, total, a)
  {
    MassOfZeros(hist, 0, a);
    assert Mass(hist, 0, a + 1) == hist[a];
    MassSplit(hist, 0, a + 1, 256);
    MassSplit(hist, a + 1, b + 1, 256);
    assert Mass(hist, a + 1, b + 1) == Mass(hist, a + 1, b) + hist[b];
  }

  /** A level that leaves only empty bins above it is no candidate. */
  lemma AboveUpper(hist: seq<nat>, total: int, t: int)
    requires |hist| == 256 && 0 <= t < 256 && total == Mass(hist, 0, 256)
    requires forall v :: t < v < 256 ==> hist[v] == 0
    ensures !Candidate(hist, total, t)
  {
    MassSplit(hist, 0, t + 1, 256);
    MassOfZeros(hist, t + 1, 256);
  }

  /** Between the two levels the split, and so its variance, is that of level a. */
  lemma Plateau(hist: seq<nat>, total: int, a: int, b: int, t: int)
    requires |hist| == 256 && 0 <= a <= t < b < 256
    requires forall v :: 0 <= v < 256 && v != a && v != b ==> hist[v] == 0
    requires Candidate(hist, total, a)
    ensures Candidate(hist, total, t) && Variance(hist, total, t) == Variance(hist, total, a)
  {
    MassSplit(hist, 0, a + 1, t + 1);
    MassOfZeros(hist, a + 1, t + 1);
    SameSplit(hist, total, t, a);
  }

  /** Two levels with the same background have the same variance. */
  lemma SameSplit(hist: seq<nat>, total: int, t: int, u: int)
    requires |hist| == 256 && 0 <= t < 256 && 0 <= u < 256 && Candidate(hist, total, u)
    requires Mass(hist, 0, t + 1) == Mass(hist, 0, u + 1) && Moment(hist, 0, t + 1) == Moment(hist, 0, u + 1)
    ensures Candidate(hist, total, t) && Variance(hist, total, t) == Variance(hist, total, u)
  {
    assert ForegroundMass(hist, total, t) == ForegroundMass(hist, total, u);
    assert ForegroundMoment(hist, t) == ForegroundMoment(hist, u);
  }

  /** The histogram of a two-level image has exactly the two bins a and b filled, and W * H pixels. */
  lemma TwoLevelHistogram(s: seq<Byte>, w: int, h: int, a: int, b: int, ka: int, kb: int)
    requires ValidImage(s, w, h) && 0 <= a < b < 256
    requires 0 <= ka < w * h && 0 <= kb < w * h && PixelGray(s, ka) == a && PixelGray(s, kb) == b
    requires TwoLevels(s, w * h, a, b)
    ensures |HistogramOf(s)| == 256 && Mass(HistogramOf(s), 0, 256) == w * h
    ensures HistogramOf(s)[a] > 0 && HistogramOf(s)[b] > 0
    ensures forall v :: 0 <= v < 256 && v != a && v != b ==> HistogramOf(s)[v] == 0
  {
    PixelCount(s, w, h);
    HistogramMass(s, w, h);
    var hist := HistogramOf(s);
    BinsCount(s, w * h, a);
    PresentLevelCount(s, w * h, ka);
    BinsCount(s, w * h, b);
    PresentLevelCount(s, w * h, kb);
    forall v | 0 <= v < 256 && v != a && v != b
      ensures hist[v] == 0
    {
      BinsCount(s, w * h, v);
      OtherLevelCount(s, w * h, a, b, v);
    }
  }

  /** As written: a two-level image gets the lower level as threshold and turns all white. */
  lemma OtsuTwoLevelsAllWhite(s: seq<Byte>, w: int, h: int, a: int, b: int, ka: int, kb: int)
    requires ValidImage(s, w, h) && 0 <= a < b < 256
    requires 0 <= ka < w * h && 0 <= kb < w * h && PixelGray(s, ka) == a && PixelGray(s, kb) == b
    requires TwoLevels(s, w * h, a, b)
    ensures OtsuLevel(s, w, h) == a
    ensures |OtsuImage(s, w, h)| == |s| && forall i :: 0 <= i < |s| && i % 4 != 3 ==> OtsuImage(s, w, h)[i] == 255
  {
    TwoThreshold(s, w, h, a, b, ka, kb);
    assert OtsuImage(s, w, h) == Binarized(s, a);
    BinarizedTwoLevels(s, w * h, a, b);
  }

  /** Cut at the lower of two levels, every pixel reaches the threshold. */
  lemma BinarizedTwoLevels(s: seq<Byte>, n: int, a: int, b: int)
    requires 0 <= n && |s| == 4 * n && a < b && TwoLevels(s, n, a, b)
    ensures forall i :: 0 <= i < |s| && i % 4 != 3 ==> Binarized(s, a)[i] == 255
  {
    forall i | 0 <= i < |s| && i % 4 != 3
      ensures Binarized(s, a)[i] == 255
    {
      assert 0 <= i / 4 < n;
    }
  }

  /** The threshold of a two-level image is its lower level. */
  lemma TwoThreshold(s: seq<Byte>, w: int, h: int, a: int, b: int, ka: int, kb: int)
    requires ValidImage(s, w, h) && 0 <= a < b < 256
    requires 0 <= ka < w * h && 0 <= kb < w * h && PixelGray(s, ka) == a && PixelGray(s, kb) == b
    requires TwoLevels(s, w * h, a, b)
    ensures OtsuLevel(s, w, h) == a && |s| == 4 * (w * h) && |s| % 4 == 0
  {
    PixelCount(s, w, h);
    TwoLevelHistogram(s, w, h, a, b, ka, kb);
    TwoBinsOtsu(HistogramOf(s), w * h, a, b);
    OtsuLevelIsOtsu(s, w, h);
    OtsuUnique(HistogramOf(s), w * h, OtsuLevel(s, w, h), a);
  }

  /**
   * The binarisation consistent with the classes of the variance: colour
   * bytes 255 where the pixel's luminance is above th, else 0; alpha copied.
   */
  function SplitBinarized(s: seq<Byte>, th: int): seq<Byte>
    requires |s| % 4 == 0
  {
    seq(|s|, i requires 0 <= i < |s| =>
      if i % 4 == 3 then s[i] else if PixelGray(s, i / 4) > th then 255 else 0)
  }

  /** Binarising above th is binarising from th + 1 on: the fix moves the cut one level up. */
  lemma SplitIsShift(s: seq<Byte>, th: int)
    requires |s| % 4 == 0
    ensures SplitBinarized(s, th) == Binarized(s, th + 1)
  {
    assert forall i :: 0 <= i < |s| ==> SplitBinarized(s, th)[i] == Binarized(s, th + 1)[i];
  }

  /** The corrected output: the image binarised above its Otsu threshold. */
  function SplitImage(s: seq<Byte>, w: int, h: int): seq<Byte>
    requires ValidImage(s, w, h)
  {
    PixelCount(s, w, h);
    SplitBinarized(s, OtsuLevel(s, w, h))
  }

  /** Corrected: a two-level image keeps its two regions, level a black and level b white. */
  lemma SplitTwoLevels(s: seq<Byte>, w: int, h: int, a: int, b: int, ka: int, kb: int)
    requires ValidImage(s, w, h) && 0 <= a < b < 256
    requires 0 <= ka < w * h && 0 <= kb < w * h && PixelGray(s, ka) == a && PixelGray(s, kb) == b
    requires TwoLevels(s, w * h, a, b)
    ensures |SplitImage(s, w, h)| == |s|
    ensures forall i :: 0 <= i < |s| && i % 4 != 3 ==>
      0 <= i / 4 < w * h &&
      (SplitImage(s, w, h)[i] == 0 <==> PixelGray(s, i / 4) == a) &&
      (SplitImage(s, w, h)[i] == 255 <==> PixelGray(s, i / 4) == b)
  {
    TwoThreshold(s, w, h, a, b, ka, kb);
    assert SplitImage(s, w, h) == SplitBinarized(s, a);
    SplitBinarizedTwoLevels(s, w * h, a, b);
  }

  /** Cut above the lower of two levels, the pixels of each level get their own colour. */
  lemma SplitBinarizedTwoLevels(s: seq<Byte>, n: int, a: int, b: int)
    requires 0 <= n && |s| == 4 * n && a < b && TwoLevels(s, n, a, b)
    ensures forall i :: 0 <= i < |s| && i % 4 != 3 ==>
      0 <= i / 4 < n &&
      (SplitBinarized(s, a)[i] == 0 <==> PixelGray(s, i / 4) == a) &&
      (SplitBinarized(s, a)[i] == 255 <==> PixelGray(s, i / 4) == b)
  {
    forall i | 0 <= i < |s| && i % 4 != 3
      ensures 0 <= i / 4 < n
      ensures SplitBinarized(s, a)[i] == 0 <==> PixelGray(s, i / 4) == a
      ensures SplitBinarized(s, a)[i] == 255 <==> PixelGray(s, i / 4) == b
    {
      assert 0 <= i / 4 < n;
    }
  }

  /** Corrected: a uniform image turns all white, or all black when its luminance is 0. */
  lemma SplitUniform(s: seq<Byte>, w: int, h: int)
    requires Uniform(s, w, h)
    ensures 3 < |s| && |SplitImage(s, w, h)| == |s|
    ensures forall i :: 0 <= i < |s| && i % 4 != 3 ==>
      SplitImage(s, w, h)[i] == if PixelGray(s, 0) > 0 then 255 else 0
  {
    UniformSingleLevel(s, w, h);
    OtsuSingleLevel(s, w, h, PixelGray(s, 0));
    PixelCount(s, w, h);
    forall i | 0 <= i < |s| && i % 4 != 3
      ensures SplitImage(s, w, h)[i] == if PixelGray(s, 0) > 0 then 255 else 0
    {
      assert 0 <= i / 4 < w * h;
    }
  }
}
