// Every point inside that truncates is met by a malign number: the responses of integrators repeat
// modulo any number, so impulses a period apart add up to any multiple of one residue.

module CicMalign {
  import opened Arith
  import opened Int64
  import opened Signal
  import opened Decimation
  import opened CicWords
  import opened CicImpulse
  import opened CicWraps
  import opened CicClean

  // ---------- periodic signals ----------

  ghost predicate Periodic(y: seq<int>, s: nat, period: nat, m: nat)
    requires m > 0
  {
    forall n :: s <= n && n + period < |y| ==> Cong(y[n + period], y[n], m)
  }

  lemma {:induction false} PeriodicMany(y: seq<int>, s: nat, period: nat, m: nat, n: nat, t: nat)
    requires m > 0 && Periodic(y, s, period, m) && s <= n && n + t * period < |y|
    ensures Cong(y[n + t * period], y[n], m)
  {
    hide Cong;
    if t == 0 {
      CongIntro(y[n], y[n], m, 0);
    } else {
      OnePeriod(n, t, period);
      PeriodicMany(y, s, period, m, n, t - 1);
      var k := n + (t - 1) * period;
      assert Cong(y[k + period], y[k], m);
      CongTrans(y[n + t * period], y[k], y[n], m);
    }
  }

  lemma OnePeriod(n: nat, t: nat, period: nat)
    requires t > 0
    ensures n + t * period == n + (t - 1) * period + period && (t - 1) * period >= 0
  {
    MulMonotonic(0, t - 1, period);
  }

  /** All windows of one period have the same sum. */
  lemma {:induction false} PeriodWindow(y: seq<int>, s: nat, period: nat, m: nat, n: nat)
    requires m > 0 && Periodic(y, s, period, m) && s <= n && n + period <= |y|
    ensures Cong(WindowSum(y, n, n + period), WindowSum(y, s, s + period), m)
  {
    hide Cong;
    if n == s {
      CongIntro(WindowSum(y, s, s + period), WindowSum(y, s, s + period), m, 0);
    } else {
      PeriodWindow(y, s, period, m, n - 1);
      WindowSplit(y, n - 1, n, n + period);
      assert WindowSum(y, n - 1, n) == WindowSum(y, n - 1, n - 1) + y[n - 1] == y[n - 1];
      var a, b := WindowSum(y, n - 1, n - 1 + period), WindowSum(y, s, s + period);
      var k := n - 1;
      assert Cong(y[k + period], y[k], m);
      CongAdd(a, b, y[k + period], y[k], m);
      CongIntro(y[k], y[k], m, 0);
      CongAdd(a + y[k + period], b + y[k], y[k], y[k], m);
    }
  }

  lemma {:induction false} PeriodWindows(y: seq<int>, s: nat, period: nat, m: nat, n: nat, t: nat)
    requires m > 0 && Periodic(y, s, period, m) && s <= n && n + t * period <= |y| && s + period <= |y|
    ensures Cong(WindowSum(y, n, n + t * period), t * WindowSum(y, s, s + period), m)
  {
    hide Cong;
    var b := WindowSum(y, s, s + period);
    if t == 0 {
      CongIntro(WindowSum(y, n, n), 0 * b, m, 0);
    } else {
      OnePeriod(n, t, period);
      var k := n + (t - 1) * period;
      PeriodWindows(y, s, period, m, n, t - 1);
      PeriodWindow(y, s, period, m, k);
      WindowSplit(y, n, k, k + period);
      CongAdd(WindowSum(y, n, k), (t - 1) * b, WindowSum(y, k, k + period), b, m);
      assert t * b == (t - 1) * b + b;
    }
  }

  /** Running sums of a periodic signal are periodic, m times more slowly. */
  lemma PeriodicSum(y: seq<int>, s: nat, period: nat, m: nat)
    requires m > 0 && Periodic(y, s, period, m)
    ensures Periodic(PrefixSum(y), s, period * m, m)
  {
    hide Cong, WindowSum;
    var g, q := PrefixSum(y), period * m;
    forall n | s <= n && n + q < |g|
      ensures Cong(g[n + q], g[n], m)
    {
      PeriodicSumAt(y, s, period, m, n, q);
    }
  }

  lemma PeriodicSumAt(y: seq<int>, s: nat, period: nat, m: nat, n: nat, q: nat)
    requires m > 0 && Periodic(y, s, period, m) && q == period * m && s <= n && n + q < |y|
    ensures Cong(WindowSum(y, 0, n + q + 1), WindowSum(y, 0, n + 1), m)
  {
    hide Cong, Periodic, WindowSum;
    var k := n + 1;
    MulPositive(period, m);
    assert q == m * period && period <= q;
    var b, d := WindowSum(y, s, s + period), WindowSum(y, k, k + q);
    PeriodWindows(y, s, period, m, k, m);
    WindowSplit(y, 0, k, k + q);
    MultipleOf(m, b);
    CongTrans(d, m * b, 0, m);
    CongIntro(WindowSum(y, 0, k), WindowSum(y, 0, k), m, 0);
    CongAdd(d, 0, WindowSum(y, 0, k), WindowSum(y, 0, k), m);
  }

  lemma MultipleOf(m: nat, b: int)
    requires m > 0
    ensures Cong(m * b, 0, m)
  {
    assert m * b == 0 + b * m;
    CongIntro(m * b, 0, m, b);
  }

  lemma {:induction false} PeriodicSums(y: seq<int>, s: nat, m: nat, k: nat)
    requires m > 0 && Periodic(y, s, 1, m)
    ensures Periodic(PrefixSums(y, k), s, Pow(m, k), m)
  {
    if k > 0 {
      PeriodicSums(y, s, m, k - 1);
      PrefixSumsLast(y, k - 1);
      PeriodicSum(PrefixSums(y, k - 1), s, Pow(m, k - 1), m);
      assert Pow(m, k) == Pow(m, k - 1) * m;
    }
  }

  /** Somewhere within k samples the k-fold running sum of a constant is not a multiple of m. */
  lemma {:induction false} NotMultiple(y: seq<int>, s: nat, c: int, m: nat, k: nat, n: nat) returns (e: nat)
    requires m > 0 && !Cong(c, 0, m) && s + k <= n < |y| && forall j :: s <= j < |y| ==> y[j] == c
    ensures n - k <= e <= n && !Cong(PrefixSums(y, k)[e], 0, m)
  {
    if k == 0 {
      e := n;
    } else {
      var l := NotMultiple(y, s, c, m, k - 1, n);
      PrefixSumsLast(y, k - 1);
      var u := PrefixSums(y, k - 1);
      assert PrefixSum(u)[l] == PrefixSum(u)[l - 1] + u[l];
      if Cong(PrefixSum(u)[l], 0, m) && Cong(PrefixSum(u)[l - 1], 0, m) {
        CongAdd(PrefixSum(u)[l], 0, PrefixSum(u)[l - 1], 0, m);
      }
      e := if Cong(PrefixSum(u)[l], 0, m) then l - 1 else l;
    }
  }

  // ---------- the response at a point inside ----------

  /** Point i over the integers, before the resampler and without truncation. */
  function Grown(f: Shape, x: seq<int>, i: nat): (y: seq<int>)
    ensures |y| == |x|
  {
    if i < f.stages then PrefixSums(x, i) else Combs(PrefixSums(x, f.stages), f.Span(), i - f.stages)
  }

  /** Zeros and minus ones: signed samples of any width, and no truncation changes them. */
  predicate Flags(x: seq<int>) {
    forall n :: 0 <= n < |x| ==> x[n] == 0 || x[n] == -1
  }

  lemma FlagsStay(x: seq<int>, b: nat)
    requires Flags(x)
    ensures Truncated(x, b) == x
  {
    forall n | 0 <= n < |x|
      ensures x[n] / Pow2(b) == x[n]
    {
      DivTowardZero(x[n], Pow2(b));
      DivModUnique(0, Pow2(b), 0, 0);
    }
  }

  /** Up to the first truncation inside, the points are linear in flags. */
  lemma {:induction false} PlainPoint(f: Shape, x: seq<int>, w: seq<nat>, i: nat)
    requires f.Valid() && |w| == 2 * f.stages + 1 && i <= 2 * f.stages && Flags(x)
    requires forall k :: 0 < k < i ==> w[k] == 0
    ensures Point(f, x, w, i) == if i < f.stages then Grown(f, x, i) else Down(Grown(f, x, i), f.rate)
  {
    if i > 0 {
      PlainPoint(f, x, w, i - 1);
      var u := Point(f, x, w, i - 1);
      PointStep(f, x, w, i - 1);
      if i == 1 {
        FlagsStay(x, w[0]);
      } else {
        TruncatedByNothing(u);
      }
      if i <= f.stages {
        PrefixSumsLast(x, i - 1);
      } else {
        CombOfDown(Grown(f, x, i - 1), f.rate, f.delay);
        CombsLast(PrefixSums(x, f.stages), f.Span(), i - 1 - f.stages);
      }
    }
  }

  lemma GrownLinear(f: Shape, u: seq<int>, c: int, v: seq<int>, i: nat)
    requires |u| == |v|
    ensures Grown(f, Combine(u, c, v), i) == Combine(Grown(f, u, i), c, Grown(f, v, i))
  {
    if i < f.stages {
      PrefixSumsLinear(u, c, v, i);
    } else {
      PrefixSumsLinear(u, c, v, f.stages);
      CombsLinear(PrefixSums(u, f.stages), c, PrefixSums(v, f.stages), f.Span(), i - f.stages);
    }
  }

  lemma {:induction false} PrefixSumsPadded(x: seq<int>, z: nat, k: nat)
    ensures PrefixSums(Silence(z) + x, k) == Silence(z) + PrefixSums(x, k)
    decreases k
  {
    if k > 0 {
      PrefixSumPadded(x, z);
      PrefixSumsPadded(PrefixSum(x), z, k - 1);
    }
  }

  lemma {:induction false} CombsPadded(x: seq<int>, z: nat, len: nat, k: nat)
    ensures Combs(Silence(z) + x, len, k) == Silence(z) + Combs(x, len, k)
    decreases k
  {
    if k > 0 {
      assert Comb(Silence(z) + x, len) == Silence(z) + Comb(x, len);
      CombsPadded(Comb(x, len), z, len, k - 1);
    }
  }

  lemma GrownPadded(f: Shape, x: seq<int>, z: nat, i: nat)
    ensures Grown(f, Silence(z) + x, i) == Silence(z) + Grown(f, x, i)
  {
    if i < f.stages {
      PrefixSumsPadded(x, z, i);
    } else {
      PrefixSumsPadded(x, z, f.stages);
      CombsPadded(PrefixSums(x, f.stages), z, f.Span(), i - f.stages);
    }
  }

  lemma {:induction false} PrefixSumsPrefix(x: seq<int>, k: nat, n: nat)
    requires n <= |x|
    ensures PrefixSums(x[..n], k) == PrefixSums(x, k)[..n]
    decreases k
  {
    if k > 0 {
      PrefixSumPrefix(x, n);
      PrefixSumsPrefix(PrefixSum(x), k - 1, n);
    }
  }

  lemma {:induction false} CombsPrefix(x: seq<int>, len: nat, k: nat, n: nat)
    requires n <= |x|
    ensures Combs(x[..n], len, k) == Combs(x, len, k)[..n]
    decreases k
  {
    if k > 0 {
      assert Comb(x[..n], len) == Comb(x, len)[..n];
      CombsPrefix(Comb(x, len), len, k - 1, n);
    }
  }

  lemma GrownPrefix(f: Shape, x: seq<int>, i: nat, n: nat)
    requires n <= |x|
    ensures Grown(f, x[..n], i) == Grown(f, x, i)[..n]
  {
    if i < f.stages {
      PrefixSumsPrefix(x, i, n);
    } else {
      PrefixSumsPrefix(x, f.stages, n);
      CombsPrefix(PrefixSums(x, f.stages), f.Span(), i - f.stages, n);
    }
  }

  /** q of p + q integrators meet their combs: q moving sums and p integrators remain. */
  lemma {:induction false} CombsMeetSums(x: seq<int>, len: nat, p: nat, q: nat)
    ensures Combs(PrefixSums(x, p + q), len, q) == PrefixSums(MovingSums(x, len, q), p)
    decreases q
  {
    if q > 0 {
      CombOfPrefixSums(PrefixSum(x), len, p + q - 1);
      CombOfPrefixSum(x, len);
      CombsMeetSums(MovingSum(x, len), len, p, q - 1);
    }
  }

  lemma {:induction false} SumOfMovingSums(x: seq<int>, len: nat, q: nat)
    ensures PrefixSum(MovingSums(x, len, q)) == MovingSums(PrefixSum(x), len, q)
    decreases q
  {
    if q > 0 {
      CombOfPrefixSum(x, len);
      CombOfPrefixSum(PrefixSum(x), len);
      CombCommutes(PrefixSum(x), len);
      SumOfMovingSums(MovingSum(x, len), len, q - 1);
    }
  }

  /** Combs that have met an integrator, and integrators that remain, at point i inside. */
  function Met(f: Shape, i: nat): nat {
    if i < f.stages then 0 else i - f.stages
  }

  function Remaining(f: Shape, i: nat): nat
    requires 0 < i < 2 * f.stages
  {
    if i < f.stages then i else 2 * f.stages - i
  }

  /** One integrator of an impulse, and the combs that have met theirs. */
  function Steps(f: Shape, i: nat, len: nat): (u: seq<int>)
    ensures |u| == len
  {
    MovingSums(PrefixSum(Impulse(len)), f.Span(), Met(f, i))
  }

  lemma ImpulseResponse(f: Shape, i: nat, len: nat)
    requires 0 < i < 2 * f.stages
    ensures Grown(f, Impulse(len), i) == PrefixSums(Steps(f, i, len), Remaining(f, i) - 1)
  {
    if i >= f.stages {
      CombsMeetSums(Impulse(len), f.Span(), Remaining(f, i), Met(f, i));
      SumOfMovingSums(Impulse(len), f.Span(), Met(f, i));
    }
  }

  /** Where the steps have become constant. */
  function Settled(f: Shape, i: nat): nat
    requires f.Span() > 0
  {
    MulPositive(f.Span() - 1, Met(f, i));
    (f.Span() - 1) * Met(f, i)
  }

  lemma StepsSettle(f: Shape, i: nat, len: nat)
    requires f.Span() > 0
    ensures ConstantFrom(Steps(f, i, len), Settled(f, i), Pow(f.Span(), Met(f, i)))
  {
    var ones := PrefixSum(Impulse(len));
    forall n | 0 <= n < len
      ensures ones[n] == 1
    {
      ImpulseSum(len, n);
    }
    ConstantSums(ones, 0, 1, f.Span() - 1, Met(f, i));
  }

  // ---------- trains of impulses ----------

  /** Minus ones `period` samples apart, the last of j + 1 followed by n zeros. */
  function Train(n: nat, period: nat, j: nat): (x: seq<int>)
    requires period > 0
    ensures |x| == n + j * period + 1 && Flags(x)
    decreases j
  {
    if j == 0 then [-1] + Silence(n)
    else (OnePeriod(n, j, period); [-1] + Silence(period - 1) + Train(n, period, j - 1))
  }

  lemma TrainSplit(n: nat, period: nat, j: nat)
    requires period > 0
    ensures Train(n, period, 0) == Combine(Silence(n + 1), -1, Impulse(n + 1))
    ensures j > 0 ==>
      |Silence(period) + Train(n, period, j - 1)| == |Train(n, period, j)| &&
      Train(n, period, j) ==
        Combine(Silence(period) + Train(n, period, j - 1), -1, Impulse(n + j * period + 1))
  {
    if j > 0 {
      OnePeriod(n, j, period);
      var u, v := Silence(period) + Train(n, period, j - 1), Impulse(n + j * period + 1);
      forall k | 0 <= k < |u|
        ensures Train(n, period, j)[k] == u[k] - v[k]
      {
      }
    }
  }

  lemma GrownSilence(f: Shape, n: nat, i: nat)
    ensures Grown(f, Silence(n), i) == Silence(n)
  {
    assert Silence(n) + [] == Silence(n);
    GrownPadded(f, [], n, i);
  }

  /** The responses a period apart are congruent to the first. */
  lemma LaterResponse(f: Shape, i: nat, m: nat, n: nat, t: nat)
    requires 0 < i < 2 * f.stages && f.Span() > 0 && m > 0 && n >= Settled(f, i)
    ensures Pow(m, Remaining(f, i) - 1) > 0 && t * Pow(m, Remaining(f, i) - 1) >= 0
    ensures var len := n + t * Pow(m, Remaining(f, i) - 1) + 1;
            Cong(Grown(f, Impulse(len), i)[len - 1], Grown(f, Impulse(n + 1), i)[n], m)
  {
    hide Cong, Grown, Steps;
    var k := Remaining(f, i) - 1;
    PowPositive(m, k);
    MulPositive(t, Pow(m, k));
    var len := n + t * Pow(m, k) + 1;
    var u := Steps(f, i, len);
    StepsSettle(f, i, len);
    forall e | Settled(f, i) <= e && e + 1 < |u|
      ensures Cong(u[e + 1], u[e], m)
    {
      CongIntro(u[e + 1], u[e], m, 0);
    }
    PeriodicSums(u, Settled(f, i), m, k);
    PeriodicMany(PrefixSums(u, k), Settled(f, i), Pow(m, k), m, n, t);
    ImpulseResponse(f, i, len);
    GrownPrefix(f, Impulse(len), i, n + 1);
    assert Impulse(len)[..n + 1] == Impulse(n + 1);
  }

  /** The train's last sample at point i is minus j + 1 times the residue of one impulse. */
  lemma {:induction false} TrainEnd(f: Shape, i: nat, m: nat, n: nat, j: nat, period: nat, r: int)
    requires 0 < i < 2 * f.stages && f.Span() > 0 && m > 0 && n >= Settled(f, i)
    requires period == Pow(m, Remaining(f, i) - 1) > 0 && r == Grown(f, Impulse(n + 1), i)[n]
    ensures Cong(Grown(f, Train(n, period, j), i)[n + j * period], 0 - (j + 1) * r, m)
    decreases j
  {
    hide Cong, Grown, Train, Pow, Settled, Remaining;
    TrainSplit(n, period, j);
    var e := n + j * period;
    if j == 0 {
      GrownSilence(f, n + 1, i);
      GrownLinear(f, Silence(n + 1), -1, Impulse(n + 1), i);
      CongIntro(0 - r, 0 - r, m, 0);
    } else {
      OnePeriod(n, j, period);
      var x := Train(n, period, j - 1);
      TrainEnd(f, i, m, n, j - 1, period, r);
      LaterResponse(f, i, m, n, j);
      GrownPadded(f, x, period, i);
      GrownLinear(f, Silence(period) + x, -1, Impulse(e + 1), i);
      var a, b := Grown(f, x, i)[e - period], Grown(f, Impulse(e + 1), i)[e];
      assert Grown(f, Train(n, period, j), i)[e] == a - b;
      CongAdd(a, 0 - j * r, b, r, m);
      assert 0 - j * r - r == 0 - (j + 1) * r;
    }
  }

  // ---------- a malign multiple ----------

  /** Some multiple of any residue that is not zero lies in the middle. */
  lemma MiddleMultiple(r: int, b: nat) returns (j: nat)
    requires 0 < b <= 64 && 0 < r < Pow2(64 + b)
    ensures TWO_63 <= (0 - (j + 1) * r) % Pow2(64 + b) < Pow2(64 + b) - TWO_63
  {
    var m := Pow2(64 + b);
    TwoTo63();
    Pow2Monotonic(65, 64 + b);
    assert Pow2(65) == 2 * Pow2(64);
    assert m == 2 * Pow2(63 + b);
    if 2 * r <= m {
      j := Passing(r, m);
      MirrorModulo((j + 1) * r, m);
    } else {
      var s := m - r;
      j := Passing(s, m);
      Complement(j + 1, r, s, m);
    }
  }

  /** The first multiple of s to pass 2^63. */
  lemma Passing(s: int, m: int) returns (j: nat)
    requires m >= 4 * TWO_63 && 0 < s && 2 * s <= m
    ensures TWO_63 < (j + 1) * s < m - TWO_63
  {
    j := TWO_63 / s;
    DivModDef(TWO_63, s);
    assert (j + 1) * s == j * s + s;
    if s > TWO_63 {
      DivModUnique(TWO_63, s, 0, TWO_63);
    }
  }

  lemma MirrorModulo(a: int, m: nat)
    requires 0 < a < m
    ensures (0 - a) % m == m - a
  {
    DivModUnique(0 - a, m, -1, m - a);
  }

  lemma Complement(t: nat, r: int, s: int, m: nat)
    requires m > 0 && s == m - r && 0 < t * s < m
    ensures (0 - t * r) % m == t * s
  {
    assert t * s == t * m - t * r;
    assert 0 - t * r == (0 - t) * m + t * s;
    DivModUnique(0 - t * r, m, 0 - t, t * s);
  }

  lemma SameResidue(a: int, b: int, m: nat)
    requires m > 0 && Cong(a, b, m)
    ensures a % m == b % m
  {
    var k := CongElim(a, b, m);
    AddMultiple(b, m, k);
  }

  // ---------- every truncation inside is met ----------

  /** An impulse response at point i that is no multiple of m. */
  lemma ResponseResidue(f: Shape, i: nat, m: nat) returns (n: nat)
    requires 0 < i < 2 * f.stages && f.Span() > 0 && Pow(f.Span(), f.stages) < m
    ensures n >= Settled(f, i) && !Cong(Grown(f, Impulse(n + 1), i)[n], 0, m)
  {
    hide Cong, Grown, Steps;
    var k, c := Remaining(f, i) - 1, Pow(f.Span(), Met(f, i));
    PowPositive(f.Span(), Met(f, i));
    PowGrows(f.Span(), Met(f, i), f.stages);
    SmallNotMultiple(c, m);
    var top := Settled(f, i) + k;
    StepsSettle(f, i, top + 1);
    n := NotMultiple(Steps(f, i, top + 1), Settled(f, i), c, m, k, top);
    ImpulseResponse(f, i, top + 1);
    GrownPrefix(f, Impulse(top + 1), i, n + 1);
    assert Impulse(top + 1)[..n + 1] == Impulse(n + 1);
  }

  lemma {:induction false} PowGrows(b: nat, e: nat, h: nat)
    requires b > 0 && e <= h
    ensures Pow(b, e) <= Pow(b, h)
    decreases h
  {
    if e < h {
      PowGrows(b, e, h - 1);
      MulPositive(b, Pow(b, h - 1));
      PowPositive(b, h - 1);
    }
  }

  lemma SmallNotMultiple(c: int, m: nat)
    requires 0 < c < m
    ensures !Cong(c, 0, m)
  {
    DivModUnique(c, m, 0, c);
  }

  /** A train of flags whose last sample at point i, before the resampler, is in the middle. */
  lemma MalignTrain(f: Shape, i: nat, b: nat) returns (x: seq<int>)
    requires 0 < i < 2 * f.stages && f.Span() > 0 && 0 < b <= 64 && Pow(f.Span(), f.stages) < Pow2(64 + b)
    ensures Flags(x) && |x| > 0 && !Benign(Grown(f, x, i)[|x| - 1], b)
  {
    hide Grown, Benign;
    var m := Pow2(64 + b);
    var n := ResponseResidue(f, i, m);
    var period, r := Pow(m, Remaining(f, i) - 1), Grown(f, Impulse(n + 1), i)[n];
    PowPositive(m, Remaining(f, i) - 1);
    DivModDef(r, m);
    CongIntro(r, r % m, m, r / m);
    var j := MiddleMultiple(r % m, b);
    x := Train(n, period, j);
    TrainEnd(f, i, m, n, j, period, r);
    MultipleCong(r, r % m, j + 1, m);
    var v := Grown(f, x, i)[|x| - 1];
    CongTrans(v, 0 - (j + 1) * r, 0 - (j + 1) * (r % m), m);
    SameResidue(v, 0 - (j + 1) * (r % m), m);
    Malign(v, b);
  }

  lemma MultipleCong(a: int, b: int, t: nat, m: nat)
    requires m > 0 && Cong(a, b, m)
    ensures Cong(0 - t * a, 0 - t * b, m)
  {
    var k := CongElim(a, b, m);
    MulAssoc(t, k, m);
    assert 0 - t * a == (0 - t * b) + (0 - (t * k)) * m;
    CongIntro(0 - t * a, 0 - t * b, m, 0 - t * k);
  }

  /** The first point inside that truncates meets a malign number for some input of flags. */
  lemma MeetMalign(f: Shape, w: seq<nat>, i: nat) returns (x: seq<int>, n: nat)
    requires f.Valid() && f.Span() > 0 && |w| == 2 * f.stages + 1 && 0 < i < 2 * f.stages && 0 < w[i] <= 64
    requires Pow(f.Span(), f.stages) < Pow2(64 + w[i]) && forall k :: 0 < k < i ==> w[k] == 0
    ensures Flags(x) && n < |Point(f, x, w, i)| && !Benign(Point(f, x, w, i)[n], w[i])
  {
    hide Grown, Benign, Point;
    var y := MalignTrain(f, i, w[i]);
    var z, m := Padding(|y| - 1, f.rate);
    x := Silence(z) + y;
    GrownPadded(f, y, z, i);
    PlainPoint(f, x, w, i);
    if i < f.stages {
      n := |x| - 1;
    } else {
      n := m;
      AlignedLength(f.rate, m);
      DownAt(Grown(f, x, i), f.rate, m);
    }
  }
}
