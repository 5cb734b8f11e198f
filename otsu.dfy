/**
 * `applyOtsuThreshold`: a 256-bin luminance histogram, the threshold that
 * maximises the between-class variance, and the binarisation by it.
 */
module Otsu {
  import opened Pixels

  /** The luminance of pixel k of an RGBA buffer (bytes 4k .. 4k + 2). */
  function PixelGray(s: seq<Byte>, k: int): Byte
    requires 0 <= k && 4 * k + 3 < |s|
  {
    Gray(s[4 * k], s[4 * k + 1], s[4 * k + 2])
  }

  /** The number of the first n pixels whose luminance is v. */
  function GrayCount(s: seq<Byte>, n: int, v: int): nat
    requires 0 <= n && 4 * n <= |s|
    decreases n
  {
    if n == 0 then 0 else GrayCount(s, n - 1, v) + (if PixelGray(s, n - 1) == v then 1 else 0)
  }

  /** The histogram of the first n pixels, built as the loop builds it: one increment per pixel. */
  function Bins(s: seq<Byte>, n: int): (h: seq<nat>)
    requires 0 <= n && 4 * n <= |s|
    ensures |h| == 256
    decreases n
  {
    if n == 0 then seq(256, _ => 0)
    else
      var prev, g := Bins(s, n - 1), PixelGray(s, n - 1);
      prev[g := prev[g] + 1]
  }

  /** The histogram of the whole buffer. */
  function HistogramOf(s: seq<Byte>): seq<nat>
    requires |s| % 4 == 0
  {
    Bins(s, |s| / 4)
  }

  /** The number of pixels in bins lo .. hi - 1. */
  function Mass(h: seq<nat>, lo: int, hi: int): nat
    requires 0 <= lo <= hi <= |h|
    decreases hi - lo
  {
    if hi == lo then 0 else Mass(h, lo, hi - 1) + h[hi - 1]
  }

  /** The sum of the luminance levels of the pixels in bins lo .. hi - 1: the sum of t * h[t]. */
  function Moment(h: seq<nat>, lo: int, hi: int): nat
    requires 0 <= lo <= hi <= |h|
    decreases hi - lo
  {
    if hi == lo then 0 else Moment(h, lo, hi - 1) + (hi - 1) * h[hi - 1]
  }

  /** Bin v holds the number of pixels whose luminance is v. */
  lemma {:induction false} BinsCount(s: seq<Byte>, n: int, v: int)
    requires 0 <= n && 4 * n <= |s| && 0 <= v < 256
    ensures Bins(s, n)[v] == GrayCount(s, n, v)
    decreases n
  {
    if n > 0 {
      BinsCount(s, n - 1, v);
    }
  }

  /** Counting one more pixel at level g adds one to every range that holds g. */
  lemma {:induction false} MassBump(h: seq<nat>, g: int, lo: int, hi: int)
    requires 0 <= lo <= hi <= |h| && 0 <= g < |h|
    ensures Mass(h[g := h[g] + 1], lo, hi) == Mass(h, lo, hi) + (if lo <= g < hi then 1 else 0)
    decreases hi - lo
  {
    if hi > lo {
      MassBump(h, g, lo, hi - 1);
    }
  }

  /** One more pixel at level g adds one to the total of the histogram. */
  lemma MassStep(prev: seq<nat>, next: seq<nat>, g: int, m: int)
    requires 0 <= g < |prev| && next == prev[g := prev[g] + 1] && Mass(prev, 0, |prev|) == m
    ensures Mass(next, 0, |next|) == m + 1
  {
    MassBump(prev, g, 0, |prev|);
  }

  /** Bins grows by one increment per pixel. */
  lemma BinsStep(s: seq<Byte>, n: int)
    requires 0 < n && 4 * n <= |s|
    ensures Bins(s, n) == Bins(s, n - 1)[PixelGray(s, n - 1) := Bins(s, n - 1)[PixelGray(s, n - 1)] + 1]
  {
  }

  lemma BinsEmptyMass(s: seq<Byte>)
    ensures Mass(Bins(s, 0), 0, |Bins(s, 0)|) == 0
  {
    var z := Bins(s, 0);
    MassOfZeros(z, 0, |z|);
  }

  /** The bins of the first n pixels count n pixels in all. */
  lemma {:induction false} BinsMass(s: seq<Byte>, n: int)
    requires 0 <= n && 4 * n <= |s|
    ensures Mass(Bins(s, n), 0, |Bins(s, n)|) == n
    decreases n
  {
    if n == 0 {
      BinsEmptyMass(s);
    } else {
      BinsMass(s, n - 1);
      BinsStep(s, n);
      MassStep(Bins(s, n - 1), Bins(s, n), PixelGray(s, n - 1), n - 1);
    }
  }

  lemma {:induction false} MassOfZeros(h: seq<nat>, lo: int, hi: int)
    requires 0 <= lo <= hi <= |h| && forall t :: lo <= t < hi ==> h[t] == 0
    ensures Mass(h, lo, hi) == 0 && Moment(h, lo, hi) == 0
    decreases hi - lo
  {
    if hi > lo {
      MassOfZeros(h, lo, hi - 1);
    }
  }

  /** The histogram has 256 bins and counts every pixel once: W * H in all. */
  lemma HistogramMass(s: seq<Byte>, w: int, h: int)
    requires ValidImage(s, w, h)
    ensures |s| % 4 == 0
    ensures |HistogramOf(s)| == 256 && Mass(HistogramOf(s), 0, |HistogramOf(s)|) == w * h
  {
    PixelCount(s, w, h);
    BinsMass(s, |s| / 4);
  }

  /**
   * The histogram loop: one bin increment per pixel, reading the pixels four
   * bytes apart.
   */
  method Histogram(src: array<Byte>) returns (hist: array<nat>)
    requires src.Length % 4 == 0
    ensures fresh(hist) && hist[..] == HistogramOf(src[..])
  {
    ghost var s := src[..];
    hist := new nat[256](_ => 0);
    var i := 0;
    ghost var k := 0;
    while i < src.Length
      invariant 0 <= i <= src.Length && i == 4 * k
      invariant hist.Length == 256 && hist[..] == Bins(s, k)
    {
      var gray := Gray(src[i], src[i + 1], src[i + 2]);
      assert gray == PixelGray(s, k);
      BinsStep(s, k + 1);
      hist[gray] := hist[gray] + 1;
      i, k := i + 4, k + 1;
    }
    assert k == |s| / 4;
  }

  /** Level t splits the pixels into a non-empty background (levels <= t) and a non-empty foreground. */
  predicate Candidate(h: seq<nat>, total: int, t: int)
    requires |h| == 256 && 0 <= t < 256
  {
    0 < Mass(h, 0, t + 1) < total
  }

  /** `wB * wF * (mB - mF)^2` for classes of wB and wF pixels with level sums sumB and sumF, with exact means. */
  function SplitVariance(wB: int, wF: int, sumB: int, sumF: int): real
    requires wB > 0 && wF > 0
  {
    var mB := sumB as real / wB as real;
    var mF := sumF as real / wF as real;
    wB as real * wF as real * (mB - mF) * (mB - mF)
  }

  /** The pixels above level t: `wF = total - wB`. */
  function ForegroundMass(h: seq<nat>, total: int, t: int): int
    requires 0 <= t < |h|
  {
    total - Mass(h, 0, t + 1)
  }

  /** The level sum of the pixels above level t: `sum - sumB`. */
  function ForegroundMoment(h: seq<nat>, t: int): int
    requires 0 <= t < |h|
  {
    Moment(h, 0, |h|) - Moment(h, 0, t + 1)
  }

  /** The between-class variance of the split at level t. */
  function Variance(h: seq<nat>, total: int, t: int): real
    requires |h| == 256 && 0 <= t < 256 && Candidate(h, total, t)
  {
    SplitVariance(Mass(h, 0, t + 1), ForegroundMass(h, total, t), Moment(h, 0, t + 1), ForegroundMoment(h, t))
  }

  /**
   * th is the threshold the scan must return: the first level of greatest
   * variance among the candidates, and 0 when there is no candidate.
   */
  ghost predicate IsOtsuThreshold(h: seq<nat>, total: int, th: int)
    requires |h| == 256
  {
    0 <= th < 256 &&
    if exists t :: 0 <= t < 256 && Candidate(h, total, t) then
      Candidate(h, total, th) &&
      (forall t :: 0 <= t < th && Candidate(h, total, t) ==> Variance(h, total, t) < Variance(h, total, th)) &&
      (forall t :: th < t < 256 && Candidate(h, total, t) ==> Variance(h, total, t) <= Variance(h, total, th))
    else
      th == 0
  }

  /** The scan's state after levels 0 .. n - 1: th and best are the winner so far and its variance. */
  ghost predicate BestBelow(h: seq<nat>, total: int, n: int, th: int, best: real)
    requires |h| == 256 && 0 <= n <= 256
  {
    if exists t :: 0 <= t < n && Candidate(h, total, t) then
      0 <= th < n && Candidate(h, total, th) && best == Variance(h, total, th) &&
      (forall t :: 0 <= t < th && Candidate(h, total, t) ==> Variance(h, total, t) < best) &&
      (forall t :: th < t < n && Candidate(h, total, t) ==> Variance(h, total, t) <= best)
    else
      th == 0 && best == 0.0
  }

  /** The threshold is determined by the histogram: two thresholds of the same histogram coincide. */
  lemma OtsuUnique(h: seq<nat>, total: int, th1: int, th2: int)
    requires |h| == 256 && IsOtsuThreshold(h, total, th1) && IsOtsuThreshold(h, total, th2)
    ensures th1 == th2
  {
    if exists t :: 0 <= t < 256 && Candidate(h, total, t) {
      if th1 < th2 {
        assert false;
      } else if th2 < th1 {
        assert false;
      }
    }
  }

  lemma {:induction false} MassSplit(h: seq<nat>, lo: int, mid: int, hi: int)
    requires 0 <= lo <= mid <= hi <= |h|
    ensures Mass(h, lo, hi) == Mass(h, lo, mid) + Mass(h, mid, hi)
    ensures Moment(h, lo, hi) == Moment(h, lo, mid) + Moment(h, mid, hi)
    decreases hi - mid
  {
    if hi > mid {
      MassSplit(h, lo, mid, hi - 1);
    }
  }

  lemma LowerStep(lo: int, top: int, m: nat, k: nat, sum: int)
    requires 0 <= lo <= top && lo * m <= sum
    ensures lo * (m + k) <= sum + top * k
  {
    MulMonotone(lo, k, top, k);
  }

  lemma UpperStep(top: int, m: nat, k: nat, sum: int)
    requires top >= 1 && sum <= (top - 1) * m
    ensures sum + top * k <= top * (m + k)
  {
    MulMonotone(top - 1, m, top, m);
  }

  /** Every level of bins lo .. hi - 1 is at least lo, and so is their mean. */
  lemma {:induction false} MomentLower(h: seq<nat>, lo: int, hi: int)
    requires 0 <= lo <= hi <= |h|
    ensures lo * Mass(h, lo, hi) <= Moment(h, lo, hi)
    decreases hi - lo
  {
    if hi > lo {
      MomentLower(h, lo, hi - 1);
      LowerStep(lo, hi - 1, Mass(h, lo, hi - 1), h[hi - 1], Moment(h, lo, hi - 1));
    }
  }

  /** Every level of bins lo .. hi - 1 is at most hi - 1, and so is their mean. */
  lemma {:induction false} MomentUpper(h: seq<nat>, lo: int, hi: int)
    requires 0 <= lo < hi <= |h|
    ensures Moment(h, lo, hi) <= (hi - 1) * Mass(h, lo, hi)
    decreases hi - lo
  {
    if hi - 1 > lo {
      MomentUpper(h, lo, hi - 1);
      UpperStep(hi - 1, Mass(h, lo, hi - 1), h[hi - 1], Moment(h, lo, hi - 1));
    } else {
      assert Mass(h, lo, lo) == 0 && Moment(h, lo, lo) == 0;
    }
  }

  /** The prefix mass never decreases and never exceeds the whole histogram's. */
  lemma MassMonotone(h: seq<nat>, a: int, b: int)
    requires 0 <= a <= b <= |h|
    ensures Mass(h, 0, a) <= Mass(h, 0, b) <= Mass(h, 0, |h|)
  {
    MassSplit(h, 0, a, b);
    MassSplit(h, 0, b, |h|);
  }

  /** Means of two classes split at level t: the lower one is at most t, the upper at least t + 1. */
  lemma MeansApart(sumB: int, wB: int, sumF: int, wF: int, t: int)
    requires wB > 0 && wF > 0 && sumB <= t * wB && sumF >= (t + 1) * wF
    ensures sumB as real / wB as real < sumF as real / wF as real
  {
    assert (t * wB) as real == t as real * wB as real;
    QuotientBelow(sumB as real, wB as real, t as real);
    assert ((t + 1) * wF) as real == (t + 1) as real * wF as real;
    QuotientAbove(sumF as real, wF as real, (t + 1) as real);
  }

  lemma QuotientBelow(a: real, b: real, c: real)
    requires b > 0.0 && a <= c * b
    ensures a / b <= c
  {
  }

  lemma QuotientAbove(a: real, b: real, c: real)
    requires b > 0.0 && a >= c * b
    ensures a / b >= c
  {
  }

  /** The variance of two non-empty classes whose means differ is positive. */
  lemma SplitPositive(sumB: int, wB: int, sumF: int, wF: int, t: int)
    requires wB > 0 && wF > 0 && sumB <= t * wB && sumF >= (t + 1) * wF
    ensures SplitVariance(wB, wF, sumB, sumF) > 0.0
  {
    MeansApart(sumB, wB, sumF, wF, t);
    var d := sumB as real / wB as real - sumF as real / wF as real;
    var a, b := wB as real, wF as real;
    assert d * d > 0.0;
    assert a * b > 0.0;
    assert a * b * d * d == (a * b) * (d * d);
  }

  /**
   * A split has the background mean at most t and the foreground mean at
   * least t + 1, so every candidate's variance is positive and beats the
   * initial `varMax = 0`.
   */
  lemma VariancePositive(h: seq<nat>, total: int, t: int)
    requires |h| == 256 && 0 <= t < 256 && Candidate(h, total, t) && total == Mass(h, 0, |h|)
    ensures Variance(h, total, t) > 0.0
  {
    ClassBounds(h, total, t);
    SplitPositive(Moment(h, 0, t + 1), Mass(h, 0, t + 1), ForegroundMoment(h, t), ForegroundMass(h, total, t), t);
  }

  /** The background's levels are at most t and the foreground's at least t + 1. */
  lemma ClassBounds(h: seq<nat>, total: int, t: int)
    requires |h| == 256 && 0 <= t < 256 && Candidate(h, total, t) && total == Mass(h, 0, |h|)
    ensures Moment(h, 0, t + 1) <= t * Mass(h, 0, t + 1)
    ensures ForegroundMoment(h, t) >= (t + 1) * ForegroundMass(h, total, t)
  {
    MassSplit(h, 0, t + 1, |h|);
    MomentUpper(h, 0, t + 1);
    MomentLower(h, t + 1, |h|);
    assert ForegroundMass(h, total, t) == Mass(h, t + 1, |h|);
    assert ForegroundMoment(h, t) == Moment(h, t + 1, |h|);
  }

  /** Once the background holds every pixel, no later level is a candidate: the scan may stop. */
  lemma NoCandidateAfter(h: seq<nat>, total: int, t: int)
    requires |h| == 256 && 0 <= t < 256 && total == Mass(h, 0, |h|) && Mass(h, 0, t + 1) == total
    ensures forall u :: t <= u < 256 ==> !Candidate(h, total, u)
  {
    forall u | t <= u < 256
      ensures !Candidate(h, total, u)
    {
      MassMonotone(h, t + 1, u + 1);
    }
  }

  /** An empty bin changes neither the prefix mass nor the prefix level sum. */
  lemma EmptyBin(h: seq<nat>, t: int)
    requires 0 <= t < |h| && h[t] == 0
    ensures Mass(h, 0, t + 1) == Mass(h, 0, t) && Moment(h, 0, t + 1) == Moment(h, 0, t)
  {
  }

  /** A level that is not a candidate leaves the scan's state as it is. */
  lemma BestBelowSkip(h: seq<nat>, total: int, t: int, th: int, best: real)
    requires |h| == 256 && 0 <= t < 256 && BestBelow(h, total, t, th, best) && !Candidate(h, total, t)
    ensures BestBelow(h, total, t + 1, th, best)
  {
    if exists u :: 0 <= u < t + 1 && Candidate(h, total, u) {
      var u :| 0 <= u < t + 1 && Candidate(h, total, u);
      assert u < t;
    }
  }

  /** A candidate whose variance is strictly greater than the best so far becomes the new winner. */
  lemma BestBelowTake(h: seq<nat>, total: int, t: int, th: int, best: real)
    requires |h| == 256 && 0 <= t < 256 && BestBelow(h, total, t, th, best)
    requires Candidate(h, total, t) && Variance(h, total, t) > best
    ensures BestBelow(h, total, t + 1, t, Variance(h, total, t))
  {
  }

  /** A candidate whose variance does not beat a positive best so far changes nothing. */
  lemma BestBelowKeep(h: seq<nat>, total: int, t: int, th: int, best: real)
    requires |h| == 256 && 0 <= t < 256 && BestBelow(h, total, t, th, best)
    requires Candidate(h, total, t) && 0.0 < Variance(h, total, t) <= best
    ensures BestBelow(h, total, t + 1, th, best)
  {
  }

  /** When no level from n on is a candidate, the winner of levels 0 .. n - 1 is the Otsu threshold. */
  lemma BestBelowFinal(h: seq<nat>, total: int, n: int, th: int, best: real)
    requires |h| == 256 && 0 <= n <= 256 && BestBelow(h, total, n, th, best)
    requires forall u :: n <= u < 256 ==> !Candidate(h, total, u)
    ensures IsOtsuThreshold(h, total, th)
  {
    if exists u :: 0 <= u < 256 && Candidate(h, total, u) {
      var u :| 0 <= u < 256 && Candidate(h, total, u);
      assert u < n;
    }
  }

  /** The search computes the variance of level t from its running sums. */
  lemma VarianceFromSums(h: seq<nat>, total: int, t: int, wB: int, wF: int, sumB: int, sumF: int)
    requires |h| == 256 && 0 <= t < 256 && total == Mass(h, 0, |h|)
    requires wB == Mass(h, 0, t + 1) && wB > 0 && wF == total - wB && wF > 0
    requires sumB == Moment(h, 0, t + 1) && sumF == Moment(h, 0, |h|) - sumB
    ensures Candidate(h, total, t) && Variance(h, total, t) == SplitVariance(wB, wF, sumB, sumF)
  {
    assert wF == ForegroundMass(h, total, t) && sumF == ForegroundMoment(h, t);
  }

  /** The state of the threshold search: the winner so far and its variance (`threshold`, `varMax`). */
  datatype ScanState = ScanState(threshold: int, varMax: real)

  /**
   * The threshold search run over levels 0 .. n - 1: a candidate level
   * replaces the winner when its variance is strictly greater.
   */
  function Scan(h: seq<nat>, total: int, n: int): (st: ScanState)
    requires |h| == 256 && 0 <= n <= 256
    ensures 0 <= st.threshold && (n > 0 ==> st.threshold < n) && st.varMax >= 0.0
    decreases n
  {
    if n == 0 then ScanState(0, 0.0)
    else
      var prev := Scan(h, total, n - 1);
      if Candidate(h, total, n - 1) && Variance(h, total, n - 1) > prev.varMax then
        ScanState(n - 1, Variance(h, total, n - 1))
      else
        prev
  }

  /** At a candidate level of variance v the winner moves there exactly when v beats the best so far. */
  lemma ScanAtCandidate(h: seq<nat>, total: int, t: int, v: real)
    requires |h| == 256 && 0 <= t < 256 && Candidate(h, total, t) && Variance(h, total, t) == v
    ensures Scan(h, total, t + 1) == if v > Scan(h, total, t).varMax then ScanState(t, v) else Scan(h, total, t)
  {
  }

  /** After levels 0 .. n - 1 the search holds the first level of greatest variance among them. */
  lemma {:induction false} ScanBestBelow(h: seq<nat>, total: int, n: int)
    requires |h| == 256 && 0 <= n <= 256 && total == Mass(h, 0, |h|)
    ensures BestBelow(h, total, n, Scan(h, total, n).threshold, Scan(h, total, n).varMax)
    decreases n
  {
    if n > 0 {
      ScanBestBelow(h, total, n - 1);
      if !Candidate(h, total, n - 1) {
        ScanSkips(h, total, n);
      } else {
        ScanCompares(h, total, n);
      }
    }
  }

  lemma ScanSkips(h: seq<nat>, total: int, n: int)
    requires |h| == 256 && 0 < n <= 256
    requires BestBelow(h, total, n - 1, Scan(h, total, n - 1).threshold, Scan(h, total, n - 1).varMax)
    requires !Candidate(h, total, n - 1)
    ensures BestBelow(h, total, n, Scan(h, total, n).threshold, Scan(h, total, n).varMax)
  {
    var prev := Scan(h, total, n - 1);
    BestBelowSkip(h, total, n - 1, prev.threshold, prev.varMax);
  }

  lemma ScanCompares(h: seq<nat>, total: int, n: int)
    requires |h| == 256 && 0 < n <= 256 && total == Mass(h, 0, |h|)
    requires BestBelow(h, total, n - 1, Scan(h, total, n - 1).threshold, Scan(h, total, n - 1).varMax)
    requires Candidate(h, total, n - 1)
    ensures BestBelow(h, total, n, Scan(h, total, n).threshold, Scan(h, total, n).varMax)
  {
    var prev, v := Scan(h, total, n - 1), Variance(h, total, n - 1);
    VariancePositive(h, total, n - 1);
    ScanAtCandidate(h, total, n - 1, v);
    if v > prev.varMax {
      BestBelowTake(h, total, n - 1, prev.threshold, prev.varMax);
      assert Scan(h, total, n) == ScanState(n - 1, v);
    } else {
      BestBelowKeep(h, total, n - 1, prev.threshold, prev.varMax);
      assert Scan(h, total, n) == prev;
    }
  }

  /** Levels that are not candidates leave the search's state as it is. */
  lemma {:induction false} ScanStable(h: seq<nat>, total: int, t: int, n: int)
    requires |h| == 256 && 0 <= t <= n <= 256
    requires forall u :: t <= u < 256 ==> !Candidate(h, total, u)
    ensures Scan(h, total, n) == Scan(h, total, t)
    decreases n
  {
    if n > t {
      ScanStable(h, total, t, n - 1);
      assert !Candidate(h, total, n - 1);
    }
  }

  /** The search over all 256 levels yields the Otsu threshold. */
  lemma ScanIsOtsu(h: seq<nat>, total: int)
    requires |h| == 256 && total == Mass(h, 0, |h|)
    ensures IsOtsuThreshold(h, total, Scan(h, total, 256).threshold)
  {
    ScanBestBelow(h, total, 256);
    BestBelowFinal(h, total, 256, Scan(h, total, 256).threshold, Scan(h, total, 256).varMax);
  }

  /** Once the background holds every pixel the search may stop: the remaining levels change nothing. */
  lemma ScanStops(h: seq<nat>, total: int, t: int)
    requires |h| == 256 && 0 <= t < 256 && total == Mass(h, 0, |h|) && Mass(h, 0, t + 1) == total
    ensures Scan(h, total, 256) == Scan(h, total, t)
  {
    NoCandidateAfter(h, total, t);
    ScanStable(h, total, t, 256);
  }

  /** The first scan of the threshold search: the sum of the levels of all pixels. */
  method LevelSum(hist: array<nat>) returns (sum: int)
    requires hist.Length == 256
    ensures sum == Moment(hist[..], 0, hist.Length)
  {
    sum := 0;
    for t := 0 to 256
      invariant sum == Moment(hist[..], 0, t)
    {
      var count: int := hist[t];
      sum := sum + t * count;
    }
  }

  /**
   * The threshold search of `applyOtsuThreshold`: the candidate levels in
   * increasing order, keeping the first of greatest variance, stopping once
   * the foreground is empty.
   */
  method OtsuThreshold(hist: array<nat>, total: int) returns (threshold: int)
    requires hist.Length == 256 && Mass(hist[..], 0, hist.Length) == total
    ensures threshold == Scan(hist[..], total, 256).threshold
    ensures IsOtsuThreshold(hist[..], total, threshold)
  {
    ghost var h := hist[..];
    var sum := LevelSum(hist);
    var sumB: int, wB: int, wF: int := 0, 0, 0;
    var varMax: real := 0.0;
    threshold := 0;
    for t := 0 to 256
      invariant wB == Mass(h, 0, t) && sumB == Moment(h, 0, t)
      invariant ScanState(threshold, varMax) == Scan(h, total, t)
    {
      var count: int := hist[t];
      wB := wB + count;
      if wB == 0 {
        EmptyBin(h, t);
        continue;
      }
      wF := total - wB;
      if wF == 0 {
        ScanStops(h, total, t);
        break;
      }
      MassMonotone(h, t + 1, |h|);
      sumB := sumB + t * count;
      var sumF := sum - sumB;
      var varBetween := SplitVariance(wB, wF, sumB, sumF);
      VarianceFromSums(h, total, t, wB, wF, sumB, sumF);
      ScanAtCandidate(h, total, t, varBetween);
      if varBetween > varMax {
        varMax := varBetween;
        threshold := t;
      }
    }
    ScanIsOtsu(h, total);
  }

  /** The binarised buffer: colour bytes 255 where the pixel's luminance reaches th, else 0; alpha copied. */
  function Binarized(s: seq<Byte>, th: int): (d: seq<Byte>)
    requires |s| % 4 == 0
    ensures |d| == |s|
  {
    seq(|s|, i requires 0 <= i < |s| =>
      if i % 4 == 3 then s[i] else if PixelGray(s, i / 4) >= th then 255 else 0)
  }

  /** Every colour byte of the output is 0 or 255, and 255 exactly when the pixel's luminance reaches th. */
  lemma BinarizedBytes(s: seq<Byte>, th: int, i: int)
    requires |s| % 4 == 0 && 0 <= i < |s| && i % 4 != 3
    ensures Binarized(s, th)[i] == 0 || Binarized(s, th)[i] == 255
    ensures Binarized(s, th)[i] == 255 <==> Gray(s[i - i % 4], s[i - i % 4 + 1], s[i - i % 4 + 2]) >= th
  {
  }

  /** The four bytes of the pixel at byte offset i of the binarised buffer. */
  lemma BinarizedPixel(s: seq<Byte>, th: int, i: int, value: Byte)
    requires |s| % 4 == 0 && 0 <= i && i + 4 <= |s| && i % 4 == 0
    requires value == if Gray(s[i], s[i + 1], s[i + 2]) >= th then 255 else 0
    ensures forall j :: i <= j < i + 3 ==> Binarized(s, th)[j] == value
    ensures Binarized(s, th)[i + 3] == s[i + 3]
  {
    forall j | i <= j < i + 3
      ensures Binarized(s, th)[j] == value
    {
      assert j / 4 == i / 4 && 4 * (i / 4) == i && j % 4 != 3;
    }
  }

  /** The binarisation loop, pixel by pixel. */
  method Binarize(src: array<Byte>, threshold: int) returns (dst: array<Byte>)
    requires src.Length % 4 == 0
    ensures fresh(dst) && dst[..] == Binarized(src[..], threshold)
  {
    ghost var s := src[..];
    dst := new Byte[src.Length];
    var i := 0;
    while i < src.Length
      invariant 0 <= i <= src.Length && i % 4 == 0 && src[..] == s
      invariant forall j :: 0 <= j < i ==> dst[j] == Binarized(s, threshold)[j]
    {
      var gray := Gray(src[i], src[i + 1], src[i + 2]);
      var value := if gray >= threshold then 255 else 0;
      BinarizedPixel(s, threshold, i, value);
      dst[i] := value;
      dst[i + 1] := value;
      dst[i + 2] := value;
      dst[i + 3] := src[i + 3];
      i := i + 4;
    }
    assert forall j :: 0 <= j < |s| ==> dst[..][j] == Binarized(s, threshold)[j];
  }

  /** The threshold `applyOtsuThreshold` picks for an image: the search over its histogram with W * H as the total. */
  function OtsuLevel(s: seq<Byte>, w: int, h: int): int
    requires ValidImage(s, w, h)
  {
    PixelCount(s, w, h);
    HistogramMass(s, w, h);
    Scan(HistogramOf(s), w * h, 256).threshold
  }

  /** The level picked is the Otsu threshold of the image's histogram. */
  lemma OtsuLevelIsOtsu(s: seq<Byte>, w: int, h: int)
    requires ValidImage(s, w, h)
    ensures |HistogramOf(s)| == 256 && IsOtsuThreshold(HistogramOf(s), w * h, OtsuLevel(s, w, h))
  {
    PixelCount(s, w, h);
    HistogramMass(s, w, h);
    ScanIsOtsu(HistogramOf(s), w * h);
  }

  /** The output of `applyOtsuThreshold`. */
  function OtsuImage(s: seq<Byte>, w: int, h: int): (d: seq<Byte>)
    requires ValidImage(s, w, h)
    ensures |d| == |s|
    ensures forall i :: 0 <= i < |d| ==> if i % 4 == 3 then d[i] == s[i] else d[i] == 0 || d[i] == 255
  {
    PixelCount(s, w, h);
    Binarized(s, OtsuLevel(s, w, h))
  }

  /**
   * `applyOtsuThreshold`: the output is the source binarised by the Otsu
   * threshold of its histogram, with W * H as the total.
   */
  method ApplyOtsuThreshold(src: array<Byte>, w: int, h: int) returns (dst: array<Byte>)
    requires ValidImage(src[..], w, h)
    ensures fresh(dst) && dst.Length == src.Length
    ensures forall i :: 0 <= i < dst.Length && i % 4 == 3 ==> dst[i] == src[i]
    ensures dst[..] == OtsuImage(src[..], w, h)
  {
    ghost var s := src[..];
    PixelCount(s, w, h);
    var hist := Histogram(src);
    HistogramMass(s, w, h);
    var threshold := OtsuThreshold(hist, w * h);
    assert threshold == OtsuLevel(s, w, h);
    dst := Binarize(src, threshold);
    assert forall i :: 0 <= i < dst.Length ==> dst[i] == Binarized(s, threshold)[i];
  }

  /** Every one of the first n pixels has luminance g. */
  predicate SingleLevel(s: seq<Byte>, n: int, g: int)
    requires 0 <= n && 4 * n <= |s|
  {
    forall k :: 0 <= k < n ==> PixelGray(s, k) == g
  }

  lemma {:induction false} SingleLevelCount(s: seq<Byte>, n: int, g: int, v: int)
    requires 0 <= n && 4 * n <= |s| && SingleLevel(s, n, g)
    ensures GrayCount(s, n, v) == if v == g then n else 0
    decreases n
  {
    if n > 0 {
      SingleLevelCount(s, n - 1, g, v);
    }
  }

  lemma {:induction false} MassOfSingle(hist: seq<nat>, g: int, n: nat, hi: int)
    requires |hist| == 256 && 0 <= hi <= 256
    requires forall v :: 0 <= v < 256 ==> hist[v] == if v == g then n else 0
    ensures Mass(hist, 0, hi) == if 0 <= g < hi then n else 0
    decreases hi
  {
    if hi > 0 {
      MassOfSingle(hist, g, n, hi - 1);
    }
  }

  /** When every pixel has the same luminance no level splits the image: there is no candidate. */
  lemma SingleLevelNoCandidate(s: seq<Byte>, w: int, h: int, g: int)
    requires ValidImage(s, w, h) && SingleLevel(s, w * h, g)
    ensures |HistogramOf(s)| == 256 && forall t :: 0 <= t < 256 ==> !Candidate(HistogramOf(s), w * h, t)
  {
    PixelCount(s, w, h);
    var hist := HistogramOf(s);
    forall v | 0 <= v < 256
      ensures hist[v] == if v == g then w * h else 0
    {
      BinsCount(s, w * h, v);
      SingleLevelCount(s, w * h, g, v);
    }
    forall t | 0 <= t < 256
      ensures !Candidate(hist, w * h, t)
    {
      MassOfSingle(hist, g, w * h, t + 1);
    }
  }

  /** A single-level image gets threshold 0, so every colour byte of the output is 255. */
  lemma OtsuSingleLevel(s: seq<Byte>, w: int, h: int, g: int)
    requires ValidImage(s, w, h) && SingleLevel(s, w * h, g)
    ensures OtsuLevel(s, w, h) == 0
    ensures |OtsuImage(s, w, h)| == |s| && forall i :: 0 <= i < |s| && i % 4 != 3 ==> OtsuImage(s, w, h)[i] == 255
  {
    SingleLevelNoCandidate(s, w, h, g);
    OtsuLevelIsOtsu(s, w, h);
  }

  /** In a uniform image every pixel has the luminance of pixel 0. */
  lemma UniformSingleLevel(s: seq<Byte>, w: int, h: int)
    requires Uniform(s, w, h)
    ensures 4 * (w * h) <= |s| && 3 < |s| && SingleLevel(s, w * h, PixelGray(s, 0))
  {
    PixelCount(s, w, h);
    forall k | 0 <= k < w * h
      ensures PixelGray(s, k) == PixelGray(s, 0)
    {
      var x, y := k % w, k / w;
      RowBound(w, h, k);
      assert k == y * w + x;
      assert Pos(w, x, y, 0) == 4 * k && Pos(w, x, y, 1) == 4 * k + 1 && Pos(w, x, y, 2) == 4 * k + 2;
      assert InImage(w, h, x, y);
    }
  }

  /** `applyOtsuThreshold` turns a uniform image all white. */
  lemma OtsuUniform(s: seq<Byte>, w: int, h: int)
    requires Uniform(s, w, h)
    ensures |OtsuImage(s, w, h)| == |s| && forall i :: 0 <= i < |s| && i % 4 != 3 ==> OtsuImage(s, w, h)[i] == 255
  {
    UniformSingleLevel(s, w, h);
    OtsuSingleLevel(s, w, h, PixelGray(s, 0));
  }
}
