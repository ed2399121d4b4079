// What a decimator computes, over unbounded integers: the simple form (moving sums, then
// downsampling), the recursive form with truncation before every stage, and the distance
// between the two.

module Decimation {
  import opened Arith
  import opened Signal

  /** `stages` integrators, a downsampler by `rate`, `stages` combs of `delay` samples. */
  datatype Shape = Shape(stages: nat, delay: nat, rate: nat) {
    predicate Valid() {
      stages > 0 && rate > 0
    }

    function Span(): nat {
      rate * delay
    }
  }

  /** Arithmetic shift right of every sample. */
  function Truncated(x: seq<int>, bits: nat): (y: seq<int>)
    ensures |y| == |x|
  {
    seq(|x|, n requires 0 <= n < |x| => x[n] / Pow2(bits))
  }

  /** The shift rounds down. */
  lemma TruncatedFloor(x: seq<int>, bits: nat)
    ensures forall n :: 0 <= n < |x| ==>
      Truncated(x, bits)[n] * Pow2(bits) <= x[n] < (Truncated(x, bits)[n] + 1) * Pow2(bits)
  {
    forall n | 0 <= n < |x|
      ensures Truncated(x, bits)[n] * Pow2(bits) <= x[n] < (Truncated(x, bits)[n] + 1) * Pow2(bits)
    {
      DivModDef(x[n], Pow2(bits));
    }
  }

  function Remainders(x: seq<int>, bits: nat): (y: seq<int>)
    ensures |y| == |x|
  {
    seq(|x|, n requires 0 <= n < |x| => x[n] % Pow2(bits))
  }

  /** The simple form: a cascade of moving sums of rate * delay samples, decimated. */
  function Exact(f: Shape, x: seq<int>): (y: seq<int>)
    requires f.Valid()
    ensures |y| == Kept(|x|, f.rate)
  {
    Down(MovingSums(x, f.Span(), f.stages), f.rate)
  }

  /** The recursive form after `i` truncate-and-integrate steps, `widths[k]` bits lost in step k. */
  function Integrated(x: seq<int>, widths: seq<nat>, i: nat): (y: seq<int>)
    requires i <= |widths|
    ensures |y| == |x|
  {
    if i == 0 then x else PrefixSum(Truncated(Integrated(x, widths, i - 1), widths[i - 1]))
  }

  /** The recursive form just before truncation point `i`. */
  function Point(f: Shape, x: seq<int>, widths: seq<nat>, i: nat): (y: seq<int>)
    requires f.Valid() && |widths| == 2 * f.stages + 1 && i <= 2 * f.stages
    ensures |y| == if i < f.stages then |x| else Kept(|x|, f.rate)
  {
    if i < f.stages then Integrated(x, widths, i)
    else if i == f.stages then Down(Integrated(x, widths, i), f.rate)
    else Comb(Truncated(Point(f, x, widths, i - 1), widths[i - 1]), f.delay)
  }

  function Pruned(f: Shape, x: seq<int>, widths: seq<nat>): (y: seq<int>)
    requires f.Valid() && |widths| == 2 * f.stages + 1
    ensures |y| == Kept(|x|, f.rate)
  {
    Truncated(Point(f, x, widths, 2 * f.stages), widths[2 * f.stages])
  }

  /** Bits lost before truncation point i. */
  function Lost(widths: seq<nat>, i: nat): nat
    requires i <= |widths|
  {
    if i == 0 then 0 else Lost(widths, i - 1) + widths[i - 1]
  }

  /** What the stages after point `i` compute when nothing more is truncated. */
  function ExactFrom(f: Shape, i: nat, u: seq<int>): (y: seq<int>)
    requires f.Valid() && i <= 2 * f.stages
    ensures |y| == if i < f.stages then Kept(|u|, f.rate) else |u|
  {
    if i < f.stages then Combs(Down(PrefixSums(u, f.stages - i), f.rate), f.delay, f.stages)
    else Combs(u, f.delay, 2 * f.stages - i)
  }

  /** Largest factor by which the stages after point `i` can amplify a bounded signal. */
  function Gain(f: Shape, i: nat): nat
    requires i <= 2 * f.stages
  {
    if i < f.stages then Pow(f.Span(), f.stages - i) * Pow2(i)
    else Pow2(2 * f.stages - i)
  }

  /** Error budget of the truncation points before i. */
  function Budget(f: Shape, widths: seq<nat>, i: nat): int
    requires |widths| == 2 * f.stages + 1 && i <= |widths|
  {
    if i == 0 then 0
    else Budget(f, widths, i - 1) + (Pow2(Lost(widths, i)) - Pow2(Lost(widths, i - 1))) * Gain(f, i - 1)
  }

  // ---------- the stages that follow a point ----------

  /** The stage that takes truncated point i to point i + 1. */
  function Stage(f: Shape, i: nat, t: seq<int>): seq<int>
    requires f.Valid() && i < 2 * f.stages
  {
    if i + 1 < f.stages then PrefixSum(t)
    else if i + 1 == f.stages then Down(PrefixSum(t), f.rate)
    else Comb(t, f.delay)
  }

  lemma PointStep(f: Shape, x: seq<int>, widths: seq<nat>, i: nat)
    requires f.Valid() && |widths| == 2 * f.stages + 1 && i < 2 * f.stages
    ensures Point(f, x, widths, i + 1) == Stage(f, i, Truncated(Point(f, x, widths, i), widths[i]))
  {
  }

  lemma ExactFromStep(f: Shape, i: nat, t: seq<int>)
    requires f.Valid() && i < 2 * f.stages
    ensures ExactFrom(f, i, t) == ExactFrom(f, i + 1, Stage(f, i, t))
  {
    if i + 1 == f.stages {
      assert PrefixSums(t, 1) == PrefixSums(PrefixSum(t), 0);
    }
  }

  /** Integrators, resampler and combs in closed form: moving sums and leftover combs. */
  lemma ExactFromClosed(f: Shape, i: nat, u: seq<int>)
    requires f.Valid() && i < f.stages
    ensures ExactFrom(f, i, u) ==
            Down(Combs(MovingSums(u, f.Span(), f.stages - i), f.Span(), i), f.rate)
  {
    CombsOfDown(PrefixSums(u, f.stages - i), f.rate, f.delay, f.stages);
    CombsOfPrefixSums(u, f.Span(), f.stages - i, i);
  }

  /** The recursive form without truncation is the simple form. */
  lemma RecursiveIsExact(f: Shape, x: seq<int>)
    requires f.Valid()
    ensures ExactFrom(f, 0, x) == Exact(f, x)
  {
    ExactFromClosed(f, 0, x);
  }

  lemma {:induction false} PrefixSumsLinear(u: seq<int>, c: int, v: seq<int>, k: nat)
    requires |u| == |v|
    ensures PrefixSums(Combine(u, c, v), k) == Combine(PrefixSums(u, k), c, PrefixSums(v, k))
    decreases k
  {
    if k > 0 {
      PrefixSumLinear(u, c, v);
      PrefixSumsLinear(PrefixSum(u), c, PrefixSum(v), k - 1);
    }
  }

  lemma {:induction false} CombsLinear(u: seq<int>, c: int, v: seq<int>, len: nat, k: nat)
    requires |u| == |v|
    ensures Combs(Combine(u, c, v), len, k) == Combine(Combs(u, len, k), c, Combs(v, len, k))
    decreases k
  {
    if k > 0 {
      CombLinear(u, c, v, len);
      CombsLinear(Comb(u, len), c, Comb(v, len), len, k - 1);
    }
  }

  lemma ExactFromLinear(f: Shape, i: nat, u: seq<int>, c: int, v: seq<int>)
    requires f.Valid() && i <= 2 * f.stages && |u| == |v|
    ensures ExactFrom(f, i, Combine(u, c, v)) == Combine(ExactFrom(f, i, u), c, ExactFrom(f, i, v))
  {
    if i < f.stages {
      var p := f.stages - i;
      PrefixSumsLinear(u, c, v, p);
      DownLinear(PrefixSums(u, p), c, PrefixSums(v, p), f.rate);
      CombsLinear(Down(PrefixSums(u, p), f.rate), c, Down(PrefixSums(v, p), f.rate), f.delay, f.stages);
    } else {
      CombsLinear(u, c, v, f.delay, 2 * f.stages - i);
    }
  }

  lemma ExactFromBetween(f: Shape, i: nat, u: seq<int>, bound: int)
    requires f.Valid() && i <= 2 * f.stages && bound >= 0 && Between(u, -bound, bound)
    ensures Between(ExactFrom(f, i, u), -(Gain(f, i) * bound), Gain(f, i) * bound)
  {
    if i < f.stages {
      var p := f.stages - i;
      ExactFromClosed(f, i, u);
      MovingSumsBetween(u, f.Span(), p, -bound, bound);
      var b := Pow(f.Span(), p) * bound;
      assert Pow(f.Span(), p) * (-bound) == -b;
      CombsBetween(MovingSums(u, f.Span(), p), f.Span(), i, b);
      assert Pow2(i) * b == Gain(f, i) * bound;
      DownBetween(Combs(MovingSums(u, f.Span(), p), f.Span(), i), f.rate,
                  -(Gain(f, i) * bound), Gain(f, i) * bound);
    } else {
      CombsBetween(u, f.delay, 2 * f.stages - i, bound);
    }
  }

  // ---------- the error of pruning ----------

  lemma TruncateSplit(x: seq<int>, bits: nat)
    ensures x == Combine(Remainders(x, bits), Pow2(bits), Truncated(x, bits))
    ensures Between(Remainders(x, bits), -(Pow2(bits) - 1), Pow2(bits) - 1)
  {
    forall n | 0 <= n < |x|
      ensures x[n] == Combine(Remainders(x, bits), Pow2(bits), Truncated(x, bits))[n]
      ensures 0 <= Remainders(x, bits)[n] < Pow2(bits)
    {
      DivModDef(x[n], Pow2(bits));
    }
  }

  /** What truncation point i takes away from sample m of the output. */
  lemma PointError(f: Shape, widths: seq<nat>, i: nat, v: seq<int>, m: nat)
    requires f.Valid() && |widths| == 2 * f.stages + 1 && i <= 2 * f.stages
    requires m < |ExactFrom(f, i, v)|
    ensures var t := ExactFrom(f, i, Truncated(v, widths[i]));
            m < |t| &&
            Abs(Pow2(Lost(widths, i)) * ExactFrom(f, i, v)[m] - Pow2(Lost(widths, i + 1)) * t[m])
            <= (Pow2(Lost(widths, i + 1)) - Pow2(Lost(widths, i))) * Gain(f, i)
  {
    var b := widths[i];
    var r, t := Remainders(v, b), Truncated(v, b);
    TruncateSplit(v, b);
    ExactFromLinear(f, i, r, Pow2(b), t);
    ExactFromBetween(f, i, r, Pow2(b) - 1);
    Pow2Add(Lost(widths, i), b);
    var e := ExactFrom(f, i, r)[m];
    ScaledError(Pow2(Lost(widths, i)), Pow2(b), Gain(f, i), e, ExactFrom(f, i, t)[m]);
  }

  lemma ScaledError(s: int, p: int, g: nat, e: int, t: int)
    requires s > 0 && p > 0 && -(g * (p - 1)) <= e <= g * (p - 1)
    ensures Abs(s * (e + p * t) - (s * p) * t) <= (s * p - s) * g
  {
    assert s * (e + p * t) - (s * p) * t == s * e;
    MulMonotonic(e, g * (p - 1), s);
    MulMonotonic(-(g * (p - 1)), e, s);
    assert s * (g * (p - 1)) == (s * p - s) * g;
    assert s * (-(g * (p - 1))) == -((s * p - s) * g);
  }

  lemma {:induction false} ErrorBefore(f: Shape, x: seq<int>, widths: seq<nat>, i: nat, m: nat)
    requires f.Valid() && |widths| == 2 * f.stages + 1 && i <= 2 * f.stages
    requires m < Kept(|x|, f.rate)
    ensures Abs(Exact(f, x)[m] - Pow2(Lost(widths, i)) * ExactFrom(f, i, Point(f, x, widths, i))[m])
            <= Budget(f, widths, i)
  {
    hide Exact, Truncated, ExactFrom, Gain, Stage;
    if i == 0 {
      RecursiveIsExact(f, x);
    } else {
      ErrorBefore(f, x, widths, i - 1, m);
      var v := Point(f, x, widths, i - 1);
      PointError(f, widths, i - 1, v, m);
      PointStep(f, x, widths, i - 1);
      ExactFromStep(f, i - 1, Truncated(v, widths[i - 1]));
    }
  }

  lemma NothingAfterLast(f: Shape, u: seq<int>)
    requires f.Valid()
    ensures ExactFrom(f, 2 * f.stages, u) == u
  {
  }

  /** The pruned recursive form is the simple form up to a bound that no input length moves. */
  lemma PrunedError(f: Shape, x: seq<int>, widths: seq<nat>, m: nat)
    requires f.Valid() && |widths| == 2 * f.stages + 1
    requires m < Kept(|x|, f.rate)
    ensures Abs(Exact(f, x)[m] - Pow2(Lost(widths, |widths|)) * Pruned(f, x, widths)[m])
            <= Budget(f, widths, |widths|)
  {
    hide Exact, Point, Truncated, Gain, ExactFrom, Lost;
    var last := 2 * f.stages;
    var v := Point(f, x, widths, last);
    ErrorBefore(f, x, widths, last, m);
    NothingAfterLast(f, v);
    NothingAfterLast(f, Truncated(v, widths[last]));
    PointError(f, widths, last, v, m);
    Triangle(Exact(f, x)[m], Pow2(Lost(widths, last)) * v[m],
             Pow2(Lost(widths, last + 1)) * Truncated(v, widths[last])[m],
             Budget(f, widths, last), Budget(f, widths, last + 1) - Budget(f, widths, last));
  }

  lemma Triangle(a: int, b: int, c: int, d: int, e: int)
    requires Abs(a - b) <= d && Abs(b - c) <= e
    ensures Abs(a - c) <= d + e
  {
  }

  lemma {:induction false} BudgetOfZeros(f: Shape, widths: seq<nat>, i: nat)
    requires |widths| == 2 * f.stages + 1 && i <= |widths|
    requires forall k :: 0 <= k < |widths| ==> widths[k] == 0
    ensures Lost(widths, i) == 0 && Budget(f, widths, i) == 0
  {
    if i > 0 {
      BudgetOfZeros(f, widths, i - 1);
    }
  }

  /** Without truncation the recursive form is exact. */
  lemma UnprunedIsExact(f: Shape, x: seq<int>, widths: seq<nat>)
    requires f.Valid() && |widths| == 2 * f.stages + 1
    requires forall k :: 0 <= k < |widths| ==> widths[k] == 0
    ensures Pruned(f, x, widths) == Exact(f, x)
  {
    BudgetOfZeros(f, widths, |widths|);
    forall m | 0 <= m < Kept(|x|, f.rate)
      ensures Pruned(f, x, widths)[m] == Exact(f, x)[m]
    {
      PrunedError(f, x, widths, m);
    }
  }

  // ---------- word width ----------

  /** Least k with v <= 2^k. */
  function CeilLog2(v: nat): (k: nat)
    ensures v <= Pow2(k)
    ensures k > 0 ==> Pow2(k - 1) < v
  {
    if v <= 1 then 0 else 1 + CeilLog2((v + 1) / 2)
  }

  /** Output width of a decimator for signed inputs of `bIn` bits, at its largest rate. */
  function Width(f: Shape, bIn: nat): nat {
    bIn + CeilLog2(Pow(f.Span(), f.stages))
  }

  /** No smaller width would do. */
  lemma WidthLeast(f: Shape, bIn: nat)
    ensures var w := Width(f, bIn);
            && w >= bIn && Pow2(w - bIn) >= Pow(f.rate * f.delay, f.stages)
            && (w > bIn ==> Pow2(w - 1 - bIn) < Pow(f.rate * f.delay, f.stages))
  {
  }

  ghost predicate Signed(x: seq<int>, bits: nat)
    requires bits > 0
  {
    Between(x, -Pow2(bits - 1), Pow2(bits - 1) - 1)
  }

  /** Scaling a signed range by a gain g needs CeilLog2(g) more bits. */
  lemma SignedGain(x: seq<int>, g: nat, bIn: nat)
    requires bIn > 0 && g > 0
    requires Between(x, g * -Pow2(bIn - 1), g * (Pow2(bIn - 1) - 1))
    ensures Signed(x, bIn + CeilLog2(g))
  {
    var k, p := CeilLog2(g), Pow2(bIn - 1);
    Pow2Add(k, bIn - 1);
    MulMonotonic(g, Pow2(k), p);
    Scale(g, p);
    hide Pow2, CeilLog2;
  }

  lemma Scale(g: int, p: int)
    ensures g * -p == -(g * p) && g * (p - 1) == g * p - g
  {
  }

  lemma SignedWiden(x: seq<int>, a: nat, b: nat)
    requires 0 < a <= b && Signed(x, a)
    ensures Signed(x, b)
  {
    Pow2Monotonic(a - 1, b - 1);
  }

  lemma CeilLog2Monotonic(a: nat, b: nat)
    requires a <= b
    ensures CeilLog2(a) <= CeilLog2(b)
  {
    CeilLog2Least(a, CeilLog2(b));
  }

  lemma CeilLog2Least(v: nat, k: nat)
    requires v <= Pow2(k)
    ensures CeilLog2(v) <= k
  {
    var c := CeilLog2(v);
    if c > 0 {
      var below := c - 1;
      if k <= below {
        Pow2Monotonic(k, below);
      }
    }
  }

  lemma ExactBetween(f: Shape, x: seq<int>, p: int)
    requires f.Valid() && p > 0 && Between(x, 0 - p, p - 1)
    ensures var g := Pow(f.Span(), f.stages); Between(Exact(f, x), g * -p, g * (p - 1))
  {
    var len, g := f.Span(), Pow(f.Span(), f.stages);
    MovingSumsBetween(x, len, f.stages, -p, p - 1);
    DownBetween(MovingSums(x, len, f.stages), f.rate, g * -p, g * (p - 1));
  }

  /** The output of any rate up to the largest one fits the width computed for the largest. */
  lemma ExactFits(f: Shape, maxRate: nat, x: seq<int>, bIn: nat)
    requires f.Valid() && f.delay > 0 && f.rate <= maxRate && bIn > 0 && Signed(x, bIn)
    ensures Signed(Exact(f, x), Width(f.(rate := maxRate), bIn))
  {
    var p := Pow2(bIn - 1);
    var len := f.Span();
    ExactBetween(f, x, p);
    MulMonotonic(f.rate, maxRate, f.delay);
    PowMonotonic(len, maxRate * f.delay, f.stages);
    var g, g' := Pow(len, f.stages), Pow(maxRate * f.delay, f.stages);
    MulPositive(f.rate, f.delay);
    PowPositive(len, f.stages);
    SignedGain(Exact(f, x), g, bIn);
    CeilLog2Monotonic(g, g');
    SignedWiden(Exact(f, x), bIn + CeilLog2(g), bIn + CeilLog2(g'));
  }
}
