// From any input that meets a malign number at a point inside to one that meets its first malign
// number at its last sample: cut the input there, after padding it with zeros in front so that the
// resampler keeps that sample.

module CicClean {
  import opened Arith
  import opened Int64
  import opened Signal
  import opened Decimation
  import opened WordSignal
  import opened CicWords
  import opened CicImpulse
  import opened CicWraps

  function Silence(n: nat): (z: seq<int>)
    ensures |z| == n
  {
    seq(n, _ => 0)
  }

  // ---------- prefixes ----------

  lemma PrefixSumPrefix(x: seq<int>, n: nat)
    requires n <= |x|
    ensures PrefixSum(x[..n]) == PrefixSum(x)[..n]
  {
    forall k | 0 <= k < n
      ensures PrefixSum(x[..n])[k] == PrefixSum(x)[k]
    {
      WindowPrefix(x, n, k + 1);
    }
  }

  lemma {:induction false} IntegratedPrefix(x: seq<int>, w: seq<nat>, i: nat, n: nat)
    requires i <= |w| && n <= |x|
    ensures Integrated(x[..n], w, i) == Integrated(x, w, i)[..n]
  {
    if i > 0 {
      IntegratedPrefix(x, w, i - 1, n);
      var t := Truncated(Integrated(x, w, i - 1), w[i - 1]);
      assert Truncated(Integrated(x[..n], w, i - 1), w[i - 1]) == t[..n];
      PrefixSumPrefix(t, n);
    }
  }

  lemma DownPrefix(x: seq<int>, rate: nat, m: nat)
    requires rate > 0 && m * rate < |x|
    ensures m < Kept(|x|, rate) && Down(x[..m * rate + 1], rate) == Down(x, rate)[..m + 1]
  {
    hide Down;
    var y := x[..m * rate + 1];
    KeptIndex(|x|, rate, m);
    AlignedLength(rate, m);
    forall k | 0 <= k <= m
      ensures Down(y, rate)[k] == Down(x, rate)[k]
    {
      DownAt(y, rate, k);
      DownAt(x, rate, k);
    }
  }

  lemma {:induction false} LowPrefix(f: Shape, x: seq<int>, w: seq<nat>, i: nat, m: nat)
    requires f.Valid() && |w| == 2 * f.stages + 1 && f.stages <= i <= 2 * f.stages
    requires m * f.rate < |x| && m < Kept(|x|, f.rate)
    ensures |Point(f, x[..m * f.rate + 1], w, i)| == m + 1
    ensures Point(f, x[..m * f.rate + 1], w, i) == Point(f, x, w, i)[..m + 1]
  {
    hide Comb, Truncated, Down, Integrated;
    var y := x[..m * f.rate + 1];
    AlignedLength(f.rate, m);
    if i == f.stages {
      IntegratedPrefix(x, w, i, m * f.rate + 1);
      DownPrefix(Integrated(x, w, i), f.rate, m);
    } else {
      LowPrefix(f, x, w, i - 1, m);
      CombPrefix(Point(f, x, w, i - 1), w[i - 1], f.delay, m + 1);
      PointStep(f, x, w, i - 1);
      PointStep(f, y, w, i - 1);
    }
  }

  /** The points of a prefix are the prefixes of the points. */
  lemma PointPrefix(f: Shape, x: seq<int>, w: seq<nat>, i: nat, m: nat)
    requires f.Valid() && |w| == 2 * f.stages + 1 && i <= 2 * f.stages && m * f.rate < |x|
    ensures IndexAt(f, i, m) < |Point(f, x, w, i)|
    ensures Point(f, x[..m * f.rate + 1], w, i) == Point(f, x, w, i)[..IndexAt(f, i, m) + 1]
  {
    hide Point, Integrated;
    KeptIndex(|x|, f.rate, m);
    if i < f.stages {
      SamePoint(f, x, w, i);
      SamePoint(f, x[..m * f.rate + 1], w, i);
      IntegratedPrefix(x, w, i, m * f.rate + 1);
    } else {
      LowPrefix(f, x, w, i, m);
    }
  }

  lemma CombPrefix(u: seq<int>, b: nat, len: nat, n: nat)
    requires n <= |u|
    ensures Comb(Truncated(u[..n], b), len) == Comb(Truncated(u, b), len)[..n]
  {
    assert Truncated(u[..n], b) == Truncated(u, b)[..n];
  }

  // ---------- padding ----------

  lemma {:induction false} SilentWindow(x: seq<int>, z: nat, n: nat)
    requires n <= z + |x|
    ensures WindowSum(Silence(z) + x, 0, n) == if n <= z then 0 else WindowSum(x, 0, n - z)
  {
    if n > 0 {
      SilentWindow(x, z, n - 1);
    }
  }

  lemma PrefixSumPadded(x: seq<int>, z: nat)
    ensures PrefixSum(Silence(z) + x) == Silence(z) + PrefixSum(x)
  {
    forall n | 0 <= n < z + |x|
      ensures PrefixSum(Silence(z) + x)[n] == (Silence(z) + PrefixSum(x))[n]
    {
      SilentWindow(x, z, n + 1);
    }
  }

  lemma TruncatedPadded(x: seq<int>, z: nat, b: nat)
    ensures Truncated(Silence(z) + x, b) == Silence(z) + Truncated(x, b)
  {
    DivModUnique(0, Pow2(b), 0, 0);
  }

  lemma {:induction false} IntegratedPadded(x: seq<int>, w: seq<nat>, i: nat, z: nat)
    requires i <= |w|
    ensures Integrated(Silence(z) + x, w, i) == Silence(z) + Integrated(x, w, i)
  {
    if i > 0 {
      IntegratedPadded(x, w, i - 1, z);
      var y := Integrated(x, w, i - 1);
      TruncatedPadded(y, z, w[i - 1]);
      PrefixSumPadded(Truncated(y, w[i - 1]), z);
    }
  }

  // ---------- the first malign number ----------

  /** Sample n of some integrator's output inside is malign. */
  ghost predicate MalignSum(f: Shape, x: seq<int>, w: seq<nat>, n: nat)
    requires f.Valid() && |w| == 2 * f.stages + 1 && n < |x|
  {
    exists k :: 0 < k < f.stages && !Benign(Integrated(x, w, k)[n], w[k])
  }

  /** Sample m of some point inside after the resampler is malign. */
  ghost predicate MalignLow(f: Shape, x: seq<int>, w: seq<nat>, m: nat)
    requires f.Valid() && |w| == 2 * f.stages + 1 && m < Kept(|x|, f.rate)
  {
    exists k :: f.stages <= k < 2 * f.stages && !Benign(Point(f, x, w, k)[m], w[k])
  }

  /** Cut where the first malign number is. */
  lemma CutClean(f: Shape, x: seq<int>, w: seq<nat>, m: nat, top: nat)
    requires f.Valid() && |w| == 2 * f.stages + 1 && top == m * f.rate < |x| && m < Kept(|x|, f.rate)
    requires MalignSum(f, x, w, top) || MalignLow(f, x, w, m)
    requires forall n :: 0 <= n < top ==> !MalignSum(f, x, w, n)
    requires forall l :: 0 <= l < m ==> !MalignLow(f, x, w, l)
    ensures Clean(f, x[..top + 1], w, m)
  {
    hide Benign, Point, Integrated;
    var y := x[..top + 1];
    forall k | 0 < k < 2 * f.stages
      ensures BenignBelow(f, y, w, k, IndexAt(f, k, m))
    {
      SamePoint(f, x, w, k);
      PointPrefix(f, x, w, k, m);
      forall n | 0 <= n < IndexAt(f, k, m)
        ensures Benign(Point(f, y, w, k)[n], w[k])
      {
        assert Point(f, y, w, k)[n] == Point(f, x, w, k)[n];
        if k < f.stages {
          assert !MalignSum(f, x, w, n);
        } else {
          assert !MalignLow(f, x, w, n);
        }
      }
    }
    var k := if MalignSum(f, x, w, top)
      then var k :| 0 < k < f.stages && !Benign(Integrated(x, w, k)[top], w[k]); k
      else var k :| f.stages <= k < 2 * f.stages && !Benign(Point(f, x, w, k)[m], w[k]); k;
    SamePoint(f, x, w, k);
    PointPrefix(f, x, w, k, m);
    assert !Benign(Point(f, y, w, k)[IndexAt(f, k, m)], w[k]);
    assert !BenignBelow(f, y, w, k, IndexAt(f, k, m) + 1);
  }

  lemma SamePoint(f: Shape, x: seq<int>, w: seq<nat>, k: nat)
    requires f.Valid() && |w| == 2 * f.stages + 1 && k <= 2 * f.stages
    ensures k < f.stages ==> Point(f, x, w, k) == Integrated(x, w, k)
  {
  }

  /** While no integrator is malign before sample m, the first malign decimated sample is clean. */
  lemma FirstLow(f: Shape, x: seq<int>, w: seq<nat>, m: nat, top: nat) returns (l: nat, at: nat)
    requires f.Valid() && |w| == 2 * f.stages + 1 && top == m * f.rate < |x| && m < Kept(|x|, f.rate)
    requires MalignSum(f, x, w, top) || MalignLow(f, x, w, m)
    requires forall n :: 0 <= n < top ==> !MalignSum(f, x, w, n)
    ensures l <= m && at < |x| && Clean(f, x[..at + 1], w, l)
  {
    hide MalignSum, MalignLow, Clean;
    if k: nat :| k < m && MalignLow(f, x, w, k) {
      MulMonotonic(k, m, f.rate);
      MulPositive(k, f.rate);
      l, at := FirstLow(f, x, w, k, k * f.rate);
    } else {
      l, at := m, top;
      CutClean(f, x, w, m, top);
    }
  }

  lemma {:induction false} FirstSum(f: Shape, x: seq<int>, w: seq<nat>, n: nat) returns (e: nat)
    requires f.Valid() && |w| == 2 * f.stages + 1 && n < |x| && MalignSum(f, x, w, n)
    ensures e <= n && MalignSum(f, x, w, e) && forall k :: 0 <= k < e ==> !MalignSum(f, x, w, k)
  {
    if k: nat :| k < n && MalignSum(f, x, w, k) {
      e := FirstSum(f, x, w, k);
    } else {
      e := n;
    }
  }

  lemma PaddedSum(f: Shape, x: seq<int>, w: seq<nat>, z: nat, n: nat)
    requires f.Valid() && |w| == 2 * f.stages + 1 && n < z + |x|
    ensures MalignSum(f, Silence(z) + x, w, n) <==> n >= z && MalignSum(f, x, w, n - z)
  {
    forall k | 0 < k < f.stages
      ensures Integrated(Silence(z) + x, w, k)[n] == if n < z then 0 else Integrated(x, w, k)[n - z]
      ensures Benign(0, w[k])
    {
      IntegratedPadded(x, w, k, z);
      BenignZero(w[k]);
    }
    if n >= z && MalignSum(f, x, w, n - z) {
      var k :| 0 < k < f.stages && !Benign(Integrated(x, w, k)[n - z], w[k]);
      assert !Benign(Integrated(Silence(z) + x, w, k)[n], w[k]);
    }
  }

  /** How many zeros in front bring sample e to a multiple of the rate. */
  lemma Padding(e: nat, rate: nat) returns (z: nat, m: nat)
    requires rate > 0
    ensures z + e == m * rate
  {
    m := e / rate + 1;
    DivModDef(e, rate);
    assert (e / rate + 1) * rate == (e / rate) * rate + rate;
    z := m * rate - e;
  }

  /** Every input that meets a malign number inside leads to a clean one of the same samples, but
      for zeros in front. */
  lemma FindClean(f: Shape, x: seq<int>, w: seq<nat>, i: nat, n: nat) returns (y: seq<int>, m: nat)
    requires f.Valid() && |w| == 2 * f.stages + 1 && 0 < i < 2 * f.stages
    requires n < |Point(f, x, w, i)| && !Benign(Point(f, x, w, i)[n], w[i])
    ensures Clean(f, y, w, m) && forall k :: 0 <= k < |y| ==> y[k] == 0 || y[k] in x
  {
    hide Benign, Point, Integrated, Clean;
    SamePoint(f, x, w, i);
    if i < f.stages {
      assert MalignSum(f, x, w, n);
    }
    if n0: nat :| n0 < |x| && MalignSum(f, x, w, n0) {
      var e := FirstSum(f, x, w, n0);
      var z, m0 := Padding(e, f.rate);
      var p := Silence(z) + x;
      forall k | 0 <= k <= m0 * f.rate
        ensures MalignSum(f, p, w, k) <==> k == m0 * f.rate
      {
        PaddedSum(f, x, w, z, k);
      }
      KeptIndex(|p|, f.rate, m0);
      var at;
      m, at := FirstLow(f, p, w, m0, m0 * f.rate);
      y := p[..at + 1];
    } else {
      KeptIndex(|x|, f.rate, n);
      assert MalignLow(f, x, w, n);
      var at;
      m, at := FirstLow(f, x, w, n, n * f.rate);
      y := x[..at + 1];
    }
  }
}
