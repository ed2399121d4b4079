// What an interpolator computes, over unbounded integers.

module Interpolation {
  import opened Arith
  import opened Signal
  import opened Decimation

  /** The simple form: moving sums of the zero-stuffed input. */
  function Smoothed(f: Shape, x: seq<int>): (y: seq<int>)
    requires f.Valid()
    ensures |y| == |x| * f.rate
  {
    MovingSums(Up(x, f.rate), f.Span(), f.stages)
  }

  /** The recursive form: combs, zero-stuffing, running sums. */
  function Recursive(f: Shape, x: seq<int>): (y: seq<int>)
    requires f.Valid()
    ensures |y| == |x| * f.rate
  {
    PrefixSums(Up(Combs(x, f.delay, f.stages), f.rate), f.stages)
  }

  /** The simple form, later by the registers of the integrators. */
  function Exact(f: Shape, x: seq<int>): (y: seq<int>)
    requires f.Valid()
    ensures |y| == |x| * f.rate
  {
    seq(|x| * f.rate, n requires 0 <= n < |x| * f.rate =>
        if n < f.stages then 0 else Smoothed(f, x)[n - f.stages])
  }

  lemma {:induction false} CombsOutOfPrefixSums(x: seq<int>, len: nat, p: nat, k: nat)
    ensures PrefixSums(Combs(x, len, k), p) == Combs(PrefixSums(x, p), len, k)
    decreases k
  {
    if k > 0 {
      CombsOutOfPrefixSums(Comb(x, len), len, p, k - 1);
      CombOfPrefixSums(x, len, p);
    }
  }

  /** The integrators of the recursive form do not change what it computes. */
  lemma RecursiveIsSmoothed(f: Shape, x: seq<int>)
    requires f.Valid()
    ensures Recursive(f, x) == Smoothed(f, x)
  {
    var u := Up(x, f.rate);
    UpOfCombs(x, f.rate, f.delay, f.stages);
    CombsOutOfPrefixSums(u, f.Span(), f.stages, f.stages);
    CombsOfPrefixSums(u, f.Span(), f.stages, 0);
  }

  // ---------- the tight bound ----------

  lemma KeptStep(n: nat, rate: nat)
    requires rate > 0
    ensures Kept(n + 1, rate) == Kept(n, rate) + (if n % rate == 0 then 1 else 0)
  {
    DivModDef(n, rate);
    var q, r := n / rate, n % rate;
    if r == 0 {
      DivModUnique(n + rate - 1, rate, q, rate - 1);
      DivModUnique(n + rate, rate, q + 1, 0);
    } else {
      DivModUnique(n + rate - 1, rate, q + 1, r - 1);
      DivModUnique(n + rate, rate, q + 1, r);
    }
  }

  lemma KeptMonotonic(a: nat, b: nat, rate: nat)
    requires rate > 0 && a <= b
    ensures Kept(a, rate) <= Kept(b, rate)
  {
    DivMonotonic(a + rate - 1, b + rate - 1, rate);
  }

  /** Only the stuffed-in samples count towards a window of the zero-stuffed signal. */
  lemma {:induction false} StuffedWindow(x: seq<int>, rate: nat, lo: int, hi: int, a: nat, b: nat)
    requires rate > 0 && lo <= 0 <= hi && Between(x, lo, hi) && a <= b <= |x| * rate
    ensures var c := Kept(b, rate) - Kept(a, rate);
            c * lo <= WindowSum(Up(x, rate), a, b) <= c * hi
  {
    hide Kept, Up, Between;
    if a < b {
      StuffedWindow(x, rate, lo, hi, a, b - 1);
      KeptStep(b - 1, rate);
      StuffedSample(x, rate, lo, hi, b - 1);
      OneMore(Kept(b - 1, rate) - Kept(a, rate), lo, hi);
    }
  }

  lemma StuffedSample(x: seq<int>, rate: nat, lo: int, hi: int, n: nat)
    requires rate > 0 && Between(x, lo, hi) && n < |x| * rate
    ensures if n % rate == 0 then lo <= Up(x, rate)[n] <= hi else Up(x, rate)[n] == 0
  {
    UpIndex(|x|, rate, n);
  }

  lemma OneMore(c: int, lo: int, hi: int)
    ensures (c + 1) * lo == c * lo + lo && (c + 1) * hi == c * hi + hi
  {
  }

  /** At most len multiples of rate fall in a window of rate * len samples. */
  lemma KeptInWindow(a: nat, b: nat, rate: nat, len: nat)
    requires rate > 0 && a <= b <= a + rate * len
    ensures 0 <= Kept(b, rate) - Kept(a, rate) <= len
  {
    AddMultiple(a + rate - 1, rate, len);
    assert a + rate - 1 + len * rate == a + rate * len + rate - 1;
    KeptMonotonic(b, a + rate * len, rate);
    KeptMonotonic(a, b, rate);
  }

  lemma StuffedMovingSum(x: seq<int>, rate: nat, len: nat, lo: int, hi: int)
    requires rate > 0 && lo <= 0 <= hi && Between(x, lo, hi)
    ensures Between(MovingSum(Up(x, rate), rate * len), len * lo, len * hi)
  {
    var u := Up(x, rate);
    forall n | 0 <= n < |u|
      ensures len * lo <= MovingSum(u, rate * len)[n] <= len * hi
    {
      var a := Max(0, n + 1 - rate * len);
      StuffedWindow(x, rate, lo, hi, a, n + 1);
      KeptInWindow(a, n + 1, rate, len);
      WindowRange(Kept(n + 1, rate) - Kept(a, rate), len, lo, hi);
    }
  }

  lemma WindowRange(c: nat, len: nat, lo: int, hi: int)
    requires c <= len && lo <= 0 <= hi
    ensures len * lo <= c * lo && c * hi <= len * hi
  {
    MulMonotonic(c, len, hi);
    MulMonotonic(c, len, -lo);
    assert c * -lo == -(c * lo) && len * -lo == -(len * lo);
  }

  /** Largest amplification: the zero-stuffing saves a factor of the rate. */
  function PeakGain(f: Shape): nat
    requires f.Valid()
  {
    f.delay * Pow(f.Span(), f.stages - 1)
  }

  lemma SmoothedBetween(f: Shape, x: seq<int>, lo: int, hi: int)
    requires f.Valid() && lo <= 0 <= hi && Between(x, lo, hi)
    ensures Between(Smoothed(f, x), PeakGain(f) * lo, PeakGain(f) * hi)
  {
    var m, l := f.delay, Pow(f.Span(), f.stages - 1);
    StuffedMovingSum(x, f.rate, m, lo, hi);
    MulMonotonic(0, hi, m);
    MulMonotonic(lo, 0, m);
    MovingSumsBetween(MovingSum(Up(x, f.rate), f.Span()), f.Span(), f.stages - 1, m * lo, m * hi);
    assert l * (m * lo) == (m * l) * lo && l * (m * hi) == (m * l) * hi;
  }

  /** Output width of an interpolator: least w with 2^(w - bIn) * rate >= (rate * delay)^stages. */
  function Width(f: Shape, bIn: nat): nat
    requires f.Valid()
  {
    bIn + CeilLog2(PeakGain(f))
  }

  lemma GainTimesRate(f: Shape)
    requires f.Valid()
    ensures PeakGain(f) * f.rate == Pow(f.rate * f.delay, f.stages)
  {
    var l := Pow(f.Span(), f.stages - 1);
    assert (f.delay * l) * f.rate == (f.rate * f.delay) * l;
  }

  /** No smaller width would do. */
  lemma WidthLeast(f: Shape, bIn: nat)
    requires f.Valid()
    ensures var w := Width(f, bIn);
            && w >= bIn && Pow2(w - bIn) * f.rate >= Pow(f.rate * f.delay, f.stages)
            && (w > bIn ==> Pow2(w - 1 - bIn) * f.rate < Pow(f.rate * f.delay, f.stages))
  {
    hide PeakGain, Pow, Pow2;
    var k, g := CeilLog2(PeakGain(f)), PeakGain(f);
    GainTimesRate(f);
    MulMonotonic(g, Pow2(k), f.rate);
    if k > 0 {
      var p := Pow2(k - 1);
      MulMonotonic(p + 1, g, f.rate);
      assert (p + 1) * f.rate == p * f.rate + f.rate;
    }
  }

  lemma ExactBetween(f: Shape, x: seq<int>, p: int)
    requires f.Valid() && p > 0 && Between(x, 0 - p, p - 1)
    ensures Between(Exact(f, x), PeakGain(f) * -p, PeakGain(f) * (p - 1))
  {
    hide Smoothed, PeakGain;
    var g := PeakGain(f);
    SmoothedBetween(f, x, -p, p - 1);
    MulMonotonic(0, p, g);
    MulMonotonic(0, p - 1, g);
    Scale(g, p);
  }

  /** The output of any rate up to the largest one fits the width computed for the largest. */
  lemma ExactFits(f: Shape, maxRate: nat, x: seq<int>, bIn: nat)
    requires f.Valid() && f.delay > 0 && f.rate <= maxRate && bIn > 0 && Signed(x, bIn)
    ensures Signed(Exact(f, x), Width(f.(rate := maxRate), bIn))
  {
    hide Pow, Pow2, CeilLog2, Smoothed, MovingSums, Up;
    var p, l := Pow2(bIn - 1), Pow(f.Span(), f.stages - 1);
    var l' := Pow(maxRate * f.delay, f.stages - 1);
    var g, g' := PeakGain(f), PeakGain(f.(rate := maxRate));
    MulMonotonic(f.rate, maxRate, f.delay);
    PowMonotonic(f.Span(), maxRate * f.delay, f.stages - 1);
    MulMonotonic(l, l', f.delay);
    MulPositive(f.rate, f.delay);
    PowPositive(f.Span(), f.stages - 1);
    MulPositive(f.delay, l);
    ExactBetween(f, x, p);
    SignedGain(Exact(f, x), g, bIn);
    CeilLog2Monotonic(g, g');
    SignedWiden(Exact(f, x), bIn + CeilLog2(g), bIn + CeilLog2(g'));
  }
}
