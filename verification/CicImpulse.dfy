// The weights behind the pruning widths: the sums of binomial coefficients in h_j are the impulse
// response of the stages that follow truncation point j, and F_j adds up their whole energy.
// The source computes in double; here the arithmetic is exact.

module CicImpulse {
  import opened Arith
  import opened Signal

  // ---------- binomial coefficients ----------

  function Binomial(n: nat, k: nat): nat {
    if k == 0 then 1 else if n == 0 then 0 else Binomial(n - 1, k - 1) + Binomial(n - 1, k)
  }

  /** n * (n - 1) * ... with k factors. */
  function Falling(n: int, k: nat): int
    decreases k
  {
    if k == 0 then 1 else n * Falling(n - 1, k - 1)
  }

  function Factorial(k: nat): (r: int)
    ensures r > 0
  {
    if k == 0 then 1 else (MulPositive(k, Factorial(k - 1)); k * Factorial(k - 1))
  }

  lemma {:induction false} FallingLast(n: int, k: nat)
    ensures Falling(n, k + 1) == Falling(n, k) * (n - k)
    decreases k
  {
    if k > 0 {
      FallingLast(n - 1, k - 1);
      MulAssoc(n, Falling(n - 1, k - 1), n - k);
    }
  }

  lemma {:induction false} FallingIsBinomial(n: nat, k: nat)
    ensures Falling(n, k) == Factorial(k) * Binomial(n, k)
  {
    if n == 0 {
      if k > 0 {
        assert Falling(0, k) == 0 * Falling(-1, k - 1);
      }
    } else if k > 0 {
      FallingIsBinomial(n - 1, k - 1);
      FallingIsBinomial(n - 1, k);
      FallingLast(n - 1, k - 1);
      Pascal(Falling(n - 1, k - 1), Factorial(k - 1), Binomial(n - 1, k - 1), Binomial(n - 1, k), n, k);
    }
  }

  lemma Pascal(f: int, g: int, a: int, b: int, n: int, k: int)
    requires f == g * a && f * (n - k) == (k * g) * b
    ensures n * f == (k * g) * (a + b)
  {
    assert (k * g) * a == k * f;
  }

  lemma {:induction false} BinomialZero(n: nat, k: nat)
    requires k > n
    ensures Binomial(n, k) == 0
  {
    if n > 0 {
      BinomialZero(n - 1, k - 1);
      BinomialZero(n - 1, k);
    }
  }

  lemma {:induction false} BinomialSymmetric(n: nat, k: nat)
    requires k <= n
    ensures Binomial(n, k) == Binomial(n, n - k)
  {
    if k == 0 {
      BinomialAll(n);
    } else if k == n {
      BinomialAll(n);
    } else {
      BinomialSymmetric(n - 1, k - 1);
      BinomialSymmetric(n - 1, k);
    }
  }

  lemma {:induction false} BinomialAll(n: nat)
    ensures Binomial(n, n) == 1
  {
    if n > 0 {
      BinomialAll(n - 1);
      BinomialZero(n - 1, n);
    }
  }

  /** Multiply k descending factors, then divide by 2 to k, over the shorter of the two sides. */
  method BinomialCoefficient(n: int, k0: int) returns (b: real)
    requires 0 <= k0 <= n
    ensures b == Binomial(n, k0) as real
  {
    BinomialSymmetric(n, k0);
    var k := if k0 <= n / 2 then k0 else n - k0;
    b := FallingProduct(n, k);
    b := DivideDown(b, k);
    DividedIsBinomial(n, k, b);
  }

  method FallingProduct(n0: int, k: nat) returns (b: real)
    ensures b == Falling(n0, k) as real
  {
    b := 1.0;
    var n, i := n0, 0;
    while i < k
      invariant 0 <= i <= k && n == n0 - i && b == Falling(n0, i) as real
    {
      NextFactor(n0, i, b);
      b := b * (n as real);
      n := n - 1;
      i := i + 1;
    }
  }

  method DivideDown(b0: real, k: nat) returns (b: real)
    ensures b * (Factorial(k) as real) == b0
  {
    DividedByFactorial(b0, k);
    b := b0;
    var i := 2;
    while i <= k
      invariant 2 <= i && (i <= k + 1 || i == 2) && b == Divided(b0, i - 1)
    {
      b := b / (i as real);
      i := i + 1;
    }
  }

  /** x divided by 2, by 3, ... by i. */
  function Divided(x: real, i: nat): real {
    if i < 2 then x else Divided(x, i - 1) / (i as real)
  }

  lemma {:induction false} DividedByFactorial(x: real, i: nat)
    ensures Divided(x, i) * (Factorial(i) as real) == x
  {
    if i < 2 {
      assert Factorial(1) == 1 * Factorial(0) == 1;
    } else {
      DividedByFactorial(x, i - 1);
      DivideOnce(Divided(x, i - 1), i, Factorial(i - 1), x);
    }
  }

  lemma DividedIsBinomial(n: nat, k: nat, d: real)
    requires d * (Factorial(k) as real) == Falling(n, k) as real
    ensures d == Binomial(n, k) as real
  {
    var g, c, f := Factorial(k), Binomial(n, k), Falling(n, k);
    hide Factorial, Binomial, Falling;
    FallingIsBinomial(n, k);
    QuotientOf(d, g, c, f);
  }

  lemma NextFactor(n: int, i: nat, b: real)
    requires b == Falling(n, i) as real
    ensures b * ((n - i) as real) == Falling(n, i + 1) as real
  {
    FallingLast(n, i);
    RealProduct(Falling(n, i), n - i);
  }

  lemma DivideOnce(b: real, i: int, g: int, f: real)
    requires i > 0 && b * (g as real) == f
    ensures (b / (i as real)) * ((i * g) as real) == f
  {
    RealProduct(i, g);
    var c := b / (i as real);
    assert c * (i as real) == b;
    assert c * ((i as real) * (g as real)) == (c * (i as real)) * (g as real);
  }

  lemma QuotientOf(b: real, g: int, c: int, f: int)
    requires g > 0 && b * (g as real) == f as real && f == g * c
    ensures b == c as real
  {
    RealProduct(g, c);
    assert (b - c as real) * (g as real) == 0.0;
  }

  // ---------- impulse responses ----------

  /** A one followed by zeros. */
  function Impulse(len: nat): seq<int> {
    seq(len, n requires 0 <= n < len => if n == 0 then 1 else 0)
  }

  function Sign(l: nat): int {
    if l % 2 == 0 then 1 else -1
  }

  /** Alternating binomial weights on samples k, k - span, ..., from weight l on. */
  function Taps(y: seq<int>, span: nat, q: nat, l: nat, k: int): int
    requires span > 0 && k < |y|
    decreases k
  {
    if k < 0 then 0 else Sign(l) * Binomial(q, l) * y[k] + Taps(y, span, q, l + 1, k - span)
  }

  lemma {:induction false} TapsPascal(y: seq<int>, span: nat, q: nat, l: nat, k: int)
    requires span > 0 && l > 0 && k < |y|
    ensures Taps(y, span, q + 1, l, k) == Taps(y, span, q, l, k) - Taps(y, span, q, l - 1, k)
    decreases k
  {
    if k >= 0 {
      TapsPascal(y, span, q, l + 1, k - span);
      TapSplit(Sign(l), Binomial(q, l - 1), Binomial(q, l), y[k]);
    }
  }

  lemma TapSplit(s: int, a: int, b: int, x: int)
    ensures s * (a + b) * x == s * b * x - (-s) * a * x
  {
  }

  lemma {:induction false} NoTaps(y: seq<int>, span: nat, l: nat, k: int)
    requires span > 0 && l > 0 && k < |y|
    ensures Taps(y, span, 0, l, k) == 0
    decreases k
  {
    if k >= 0 {
      NoTaps(y, span, l + 1, k - span);
    }
  }

  /** q combs written out: alternating binomial weights on samples `span` apart. */
  lemma {:induction false} CombsAreTaps(y: seq<int>, span: nat, q: nat, k: nat)
    requires span > 0 && k < |y|
    ensures Combs(y, span, q)[k] == Taps(y, span, q, 0, k)
    decreases q
  {
    if q == 0 {
      NoTaps(y, span, 1, k - span);
    } else {
      CombsLast(y, span, q - 1);
      CombsAreTaps(y, span, q - 1, k);
      TapsPascal(y, span, q - 1, 1, k - span);
      if k >= span {
        CombsAreTaps(y, span, q - 1, k - span);
      }
    }
  }

  lemma {:induction false} HockeyStick(y: seq<int>, p: nat, k: nat)
    requires p > 0 && k < |y|
    requires forall i :: 0 <= i < |y| ==> y[i] == Binomial(p - 1 + i, i)
    ensures WindowSum(y, 0, k + 1) == Binomial(p + k, k)
  {
    if k > 0 {
      HockeyStick(y, p, k - 1);
    } else {
      assert WindowSum(y, 0, 0) == 0;
    }
  }

  /** p integrators answer an impulse with binomial coefficients. */
  lemma {:induction false} IntegratedImpulse(len: nat, p: nat, k: nat)
    requires p > 0 && k < len
    ensures PrefixSums(Impulse(len), p)[k] == Binomial(p - 1 + k, k)
    decreases p
  {
    var y := PrefixSums(Impulse(len), p - 1);
    PrefixSumsLast(Impulse(len), p - 1);
    if p == 1 {
      ImpulseSum(len, k);
      BinomialAll(k);
    } else {
      forall i | 0 <= i < len
        ensures y[i] == Binomial(p - 2 + i, i)
      {
        IntegratedImpulse(len, p - 1, i);
      }
      HockeyStick(y, p - 1, k);
    }
  }

  lemma {:induction false} ImpulseSum(len: nat, k: nat)
    requires k < len
    ensures WindowSum(Impulse(len), 0, k + 1) == 1
  {
    if k > 0 {
      ImpulseSum(len, k - 1);
    } else {
      assert WindowSum(Impulse(len), 0, 0) == 0;
    }
  }

  // ---------- where the responses end ----------

  ghost predicate EndsBy(y: seq<int>, last: nat) {
    forall n :: last < n < |y| ==> y[n] == 0
  }

  lemma {:induction false} ZeroWindow(y: seq<int>, a: nat, b: nat)
    requires a <= b <= |y| && forall n :: a <= n < b ==> y[n] == 0
    ensures WindowSum(y, a, b) == 0
  {
    if a < b {
      ZeroWindow(y, a, b - 1);
    }
  }

  lemma MovingSumEnd(y: seq<int>, last: nat, span: nat)
    requires span > 0 && EndsBy(y, last)
    ensures EndsBy(MovingSum(y, span), last + span - 1)
  {
    forall n | last + span - 1 < n < |y|
      ensures MovingSum(y, span)[n] == 0
    {
      var a := Max(0, n + 1 - span);
      ZeroWindow(y, a, n + 1);
    }
  }

  lemma {:induction false} MovingSumsEnd(y: seq<int>, last: nat, d: nat, p: nat)
    requires EndsBy(y, last)
    ensures EndsBy(MovingSums(y, d + 1, p), last + d * p)
    decreases p
  {
    if p > 0 {
      MovingSumEnd(y, last, d + 1);
      MovingSumsEnd(MovingSum(y, d + 1), last + d, d, p - 1);
      assert d * p == d * (p - 1) + d;
    }
  }

  lemma {:induction false} CombsEnd(y: seq<int>, last: nat, span: nat, q: nat)
    requires EndsBy(y, last)
    ensures EndsBy(Combs(y, span, q), last + span * q)
    decreases q
  {
    if q > 0 {
      assert EndsBy(Comb(y, span), last + span);
      CombsEnd(Comb(y, span), last + span, span, q - 1);
      assert span + span * (q - 1) == span * q;
    }
  }

  // ---------- h_j and F_j ----------

  /** Stages after truncation point j (1-based): integrators and combs, or combs alone. */
  function Response(j: nat, stages: nat, span: nat, len: nat): (y: seq<int>)
    requires 1 <= j <= 2 * stages
    ensures |y| == len
  {
    if j <= stages then Combs(PrefixSums(Impulse(len), stages - j + 1), span, stages)
    else Combs(Impulse(len), 1, 2 * stages + 1 - j)
  }

  function LastIndex(j: nat, stages: nat, span: nat): nat
    requires 1 <= j <= 2 * stages && span > 0
  {
    if j <= stages then (MulPositive(span - 1, stages); (span - 1) * stages + j - 1) else 2 * stages + 1 - j
  }

  /** The response is over after k_max. */
  lemma ResponseEnds(j: nat, stages: nat, span: nat, len: nat)
    requires 1 <= j <= 2 * stages && span > 0
    ensures EndsBy(Response(j, stages, span, len), LastIndex(j, stages, span))
  {
    var x := Impulse(len);
    if j <= stages {
      var p := stages - j + 1;
      CombsOfPrefixSums(x, span, p, j - 1);
      MovingSumsEnd(x, 0, span - 1, p);
      MulPositive(span - 1, p);
      CombsEnd(MovingSums(x, span, p), (span - 1) * p, span, j - 1);
      LastOfBoth(span - 1, p, j - 1);
    } else {
      CombsEnd(x, 0, 1, 2 * stages + 1 - j);
    }
  }

  lemma LastOfBoth(d: int, p: int, q: int)
    ensures d * p + (d + 1) * q == d * (p + q) + q
  {
  }

  lemma {:induction false} ImpulseTaps(len: nat, q: nat, l: nat, k: nat)
    requires k < len
    ensures Taps(Impulse(len), 1, q, l, k) == Sign(l + k) * Binomial(q, l + k)
    decreases k
  {
    if k > 0 {
      ImpulseTaps(len, q, l + 1, k - 1);
    }
  }

  lemma CombResponses(j: nat, stages: nat, span: nat, k: nat)
    requires stages < j <= 2 * stages
    ensures forall len :: len > k ==>
      Response(j, stages, span, len)[k] == Sign(k) * Binomial(2 * stages + 1 - j, k)
  {
    forall len | len > k
      ensures Response(j, stages, span, len)[k] == Sign(k) * Binomial(2 * stages + 1 - j, k)
    {
      CombsAreTaps(Impulse(len), 1, 2 * stages + 1 - j, k);
      ImpulseTaps(len, 2 * stages + 1 - j, 0, k);
    }
  }

  lemma {:induction false} SameTaps(len: nat, last: nat, p: nat, span: nat, q: nat, l: nat, k: int)
    requires p > 0 && span > 0 && k <= last < len
    ensures Taps(PrefixSums(Impulse(len), p), span, q, l, k)
            == Taps(PrefixSums(Impulse(last + 1), p), span, q, l, k)
    decreases k
  {
    if k >= 0 {
      SameTaps(len, last, p, span, q, l + 1, k - span);
      IntegratedImpulse(len, p, k);
      IntegratedImpulse(last + 1, p, k);
    }
  }

  lemma ResponseFromTaps(j: nat, stages: nat, span: nat, k: nat)
    requires 1 <= j <= stages && span > 0
    ensures forall len :: len > k ==>
      Response(j, stages, span, len)[k]
      == Taps(PrefixSums(Impulse(k + 1), stages - j + 1), span, stages, 0, k)
  {
    forall len | len > k
      ensures Response(j, stages, span, len)[k]
              == Taps(PrefixSums(Impulse(k + 1), stages - j + 1), span, stages, 0, k)
    {
      CombsAreTaps(PrefixSums(Impulse(len), stages - j + 1), span, stages, k);
      SameTaps(len, k, stages - j + 1, span, stages, 0, k);
    }
  }

  /** No l of the loop asks for more than `stages` out of `stages`. */
  lemma TapLimit(j: nat, stages: nat, span: nat, k: nat)
    requires 1 <= j <= stages && span > 0 && k <= LastIndex(j, stages, span)
    ensures k / span < stages
  {
    DivModDef(k, span);
    assert (span - 1) * stages == span * stages - stages;
    if k / span >= stages {
      MulMonotonic(stages, k / span, span);
    }
  }

  /** One turn of the alternating sum, at the sample t = k - span * l. */
  method HJTerm(j: nat, stages: nat, l: nat, t: nat) returns (p: real)
    requires 1 <= j <= stages && l <= stages
    ensures p == (Sign(l) * Binomial(stages, l) * Binomial(stages - j + t, t)) as real
  {
    var a := BinomialCoefficient(stages, l);
    var b := BinomialCoefficient(stages - j + t, t);
    SignedTerm(l, Binomial(stages, l), Binomial(stages - j + t, t), a, b);
    p := (if l % 2 == 0 then 1.0 else -1.0) * a * b;
  }

  lemma SignedTerm(l: nat, x: int, y: int, a: real, b: real)
    requires a == x as real && b == y as real
    ensures (if l % 2 == 0 then 1.0 else -1.0) * a * b == (Sign(l) * x * y) as real
  {
    RealProduct(x, y);
  }

  /** The alternating sum over l, for a point before an integrator. */
  method HJIntegrated(j: nat, k: nat, stages: nat, span: nat) returns (h: real)
    requires 1 <= j <= stages && span > 0 && k <= LastIndex(j, stages, span)
    ensures h == Taps(PrefixSums(Impulse(k + 1), stages - j + 1), span, stages, 0, k) as real
  {
    var lMax := k / span;
    TapLimit(j, stages, span, k);
    h := 0.0;
    var l := 0;
    ghost var y := PrefixSums(Impulse(k + 1), stages - j + 1);
    while l <= lMax
      invariant 0 <= l <= lMax + 1 && (l == lMax + 1 ==> k - span * l < 0)
      invariant h + (Taps(y, span, stages, l, k - span * l) as real) == Taps(y, span, stages, 0, k) as real
    {
      TapInReach(l, span, k);
      IntegratedImpulse(k + 1, stages - j + 1, k - span * l);
      var p := HJTerm(j, stages, l, k - span * l);
      h := h + p;
      l := l + 1;
    }
  }

  /** h_j(k) is sample k of the response, and no binomial call on the way is illegal. */
  method HJ(j: nat, k: nat, stages: nat, delay: nat, rate: nat) returns (h: real)
    requires 1 <= j <= 2 * stages && rate * delay > 0
    requires k <= LastIndex(j, stages, rate * delay)
    ensures forall len :: len > k ==> h == Response(j, stages, rate * delay, len)[k] as real
  {
    if j <= stages {
      h := HJIntegrated(j, k, stages, rate * delay);
      ResponseFromTaps(j, stages, rate * delay, k);
    } else {
      var a := BinomialCoefficient(2 * stages + 1 - j, k);
      h := (if k % 2 == 0 then 1.0 else -1.0) * a;
      CombResponses(j, stages, rate * delay, k);
    }
  }

  lemma TapInReach(l: nat, span: nat, k: nat)
    requires span > 0 && l <= k / span
    ensures k - span * (l + 1) == k - span * l - span
    ensures 0 <= k - span * l <= k
    ensures l == k / span ==> k - span * l < span
  {
    DivModDef(k, span);
    MulMonotonic(l, k / span, span);
    MulPositive(span, l);
  }

  /** Sum of the squares of the first n samples. */
  function Energy(y: seq<int>, n: nat): int
    requires n <= |y|
  {
    if n == 0 then 0 else Energy(y, n - 1) + y[n - 1] * y[n - 1]
  }

  lemma EnergyStep(y: seq<int>, k: nat, h: real, f2: real)
    requires k < |y| && h == y[k] as real && f2 == Energy(y, k) as real
    ensures f2 + h * h == Energy(y, k + 1) as real
  {
    RealProduct(y[k], y[k]);
  }

  lemma {:induction false} EnergyEnds(y: seq<int>, last: nat, n: nat)
    requires EndsBy(y, last) && last < n <= |y|
    ensures Energy(y, n) == Energy(y, last + 1)
  {
    if n > last + 1 {
      EnergyEnds(y, last, n - 1);
    }
  }

  /** The square of F_j, before its root is taken: the energy of the response, however far it is
      followed. */
  method FJSquared(j: nat, stages: nat, delay: nat, rate: nat) returns (f2: real)
    requires 1 <= j <= 2 * stages && rate * delay > 0
    ensures forall len :: len > LastIndex(j, stages, rate * delay) ==>
      f2 == Energy(Response(j, stages, rate * delay, len), len) as real
  {
    var span := rate * delay;
    var kMax := if j <= stages then (span - 1) * stages + j - 1 else 2 * stages + 1 - j;
    assert kMax == LastIndex(j, stages, span);
    f2 := 0.0;
    var k := 0;
    while k <= kMax
      invariant 0 <= k <= kMax + 1
      invariant forall len :: len > kMax ==> f2 == Energy(Response(j, stages, span, len), k) as real
    {
      var h := HJ(j, k, stages, delay, rate);
      ghost var before := f2;
      f2 := f2 + h * h;
      forall len | len > kMax
        ensures f2 == Energy(Response(j, stages, span, len), k + 1) as real
      {
        EnergyStep(Response(j, stages, span, len), k, h, before);
      }
      k := k + 1;
    }
    forall len | len > kMax
      ensures f2 == Energy(Response(j, stages, span, len), len) as real
    {
      ResponseEnds(j, stages, span, len);
      EnergyEnds(Response(j, stages, span, len), kMax, len);
    }
  }

  /** The square of F_j as a number: the energy of the whole response. */
  function Weight(j: nat, stages: nat, span: nat): nat
    requires 1 <= j <= 2 * stages && span > 0
  {
    var len := LastIndex(j, stages, span) + 1;
    EnergyNonNegative(Response(j, stages, span, len), len);
    Energy(Response(j, stages, span, len), len)
  }

  // ---------- the pruning width ----------

  /** The largest b with v * 4^b <= t, and 0 when there is none. */
  function GreatestShift(v: nat, t: int): (b: nat)
    ensures v > 0 && v <= t ==> v * Pow2(2 * b) <= t < v * Pow2(2 * b + 2)
    ensures v == 0 || t < v ==> b == 0
    decreases t - v
  {
    if v == 0 || t < 4 * v then (ShiftStep(v, 0); 0)
    else (ShiftStep(v, GreatestShift(4 * v, t) + 1); 1 + GreatestShift(4 * v, t))
  }

  lemma ShiftStep(v: nat, b: nat)
    ensures b > 0 ==> v * Pow2(2 * b) == (4 * v) * Pow2(2 * (b - 1))
    ensures v * Pow2(2 * b + 2) == (4 * v) * Pow2(2 * b)
    ensures b == 0 ==> v * Pow2(2 * b) == v
  {
    if b > 0 {
      FourTimes(v, 2 * (b - 1));
    }
    FourTimes(v, 2 * b);
    assert Pow2(0) == 1;
  }

  lemma FourTimes(v: nat, e: nat)
    ensures v * Pow2(e + 2) == (4 * v) * Pow2(e)
  {
    var p := Pow2(e);
    assert Pow2(e + 2) == 4 * p;
    assert v * (4 * p) == (4 * v) * p;
  }

  /** 4^0.000000001 to 22 places: what the tolerance added to the logarithm is as a factor. */
  const TOLERANCE: real := 1.0000000013862943620808

  /** The floor of half the logarithm of 2 * 4^excess / (stages * weight), with the tolerance added
      and cut off at zero: the bits that truncation point j may lose when `excess` bits have to go
      in all. */
  function Hogenauer(stages: nat, weight: nat, excess: int): nat {
    if excess < 0 then 0
    else GreatestShift(stages * weight, (Pow2(2 * excess + 1) as real * TOLERANCE).Floor)
  }

  /** No truncation point may lose more than has to go in all. */
  lemma HogenauerBound(stages: nat, weight: nat, excess: int)
    ensures Hogenauer(stages, weight, excess) <= Max(0, excess)
  {
    var v, b := stages * weight, Hogenauer(stages, weight, excess);
    if excess >= 0 && b > excess {
      var t := Pow2(2 * excess + 1);
      Pow2Monotonic(2 * excess + 2, 2 * b);
      assert (t as real * TOLERANCE).Floor < 2 * t == Pow2(2 * excess + 2);
      MulMonotonic(1, v, Pow2(2 * b));
    }
  }

  /** b is the largest width with v * 4^b at most 2 * 4^excess, the tolerance of 1e-9 in the
      logarithm allowed, and none when no bit has to go. */
  ghost predicate MayLose(v: nat, excess: int, b: int) {
    && b >= 0
    && if excess < 0 then b == 0
       else
         && (b > 0 ==> (v * Pow2(2 * b)) as real <= Pow2(2 * excess + 1) as real * 1.0000000013862944)
         && Pow2(2 * excess + 1) as real * 1.0000000013862943 < (v * Pow2(2 * b + 2)) as real
  }

  lemma HogenauerExactly(stages: nat, weight: nat, excess: int)
    requires stages > 0 && weight > 0
    ensures MayLose(stages * weight, excess, Hogenauer(stages, weight, excess))
  {
    var v, b := stages * weight, Hogenauer(stages, weight, excess);
    MulPositive(stages, weight);
    if excess >= 0 {
      hide Pow2, GreatestShift;
      var t := Pow2(2 * excess + 1);
      var k := (t as real * TOLERANCE).Floor;
      ShiftIsGreatest(v, k);
      assert b == GreatestShift(v, k);
      assert t as real * 1.0000000013862943 <= t as real * TOLERANCE <= t as real * 1.0000000013862944;
    }
  }

  lemma ShiftIsGreatest(v: nat, t: nat)
    requires v > 0
    ensures var b := GreatestShift(v, t);
            (b > 0 ==> v * Pow2(2 * b) <= t) && t < v * Pow2(2 * b + 2)
  {
    if t < v {
      ShiftStep(v, 0);
    }
  }

  /** Every response starts with the impulse itself, so no weight is zero. */
  lemma WeightPositive(j: nat, stages: nat, span: nat)
    requires 1 <= j <= 2 * stages && span > 0
    ensures Weight(j, stages, span) > 0
  {
    var len := LastIndex(j, stages, span) + 1;
    var d := Impulse(len);
    if j <= stages {
      SumsBegin(d, stages - j + 1);
      CombsBegin(PrefixSums(d, stages - j + 1), span, stages);
    } else {
      CombsBegin(d, 1, 2 * stages + 1 - j);
    }
    EnergyGrows(Response(j, stages, span, len), len);
  }

  lemma {:induction false} SumsBegin(y: seq<int>, p: nat)
    requires |y| > 0
    ensures PrefixSums(y, p)[0] == y[0]
    decreases p
  {
    if p > 0 {
      SumsBegin(PrefixSum(y), p - 1);
      assert WindowSum(y, 0, 0) == 0;
    }
  }

  lemma {:induction false} CombsBegin(y: seq<int>, span: nat, q: nat)
    requires |y| > 0 && span > 0
    ensures Combs(y, span, q)[0] == y[0]
    decreases q
  {
    if q > 0 {
      CombsBegin(Comb(y, span), span, q - 1);
    }
  }

  lemma {:induction false} EnergyGrows(y: seq<int>, n: nat)
    requires 0 < n <= |y|
    ensures Energy(y, n) >= y[0] * y[0]
  {
    if n == 1 {
      assert Energy(y, 0) == 0;
    } else {
      EnergyGrows(y, n - 1);
      Square(y[n - 1]);
    }
  }

  /** The weight and the width, with the logarithms taken exactly. */
  method HogenauerCalc(j: nat, stages: nat, delay: nat, rate: nat, excess: int) returns (b: nat)
    requires 1 <= j <= 2 * stages && rate * delay > 0
    ensures b == Hogenauer(stages, Weight(j, stages, rate * delay), excess)
    ensures excess < 0 ==> b == 0
    ensures excess >= 0 ==>
      var v, t := stages * Weight(j, stages, rate * delay), Pow2(2 * excess + 1) as real;
      && v > 0 && (b > 0 ==> (v * Pow2(2 * b)) as real <= t * 1.0000000013862944)
      && t * 1.0000000013862943 < (v * Pow2(2 * b + 2)) as real
  {
    var f2 := FJSquared(j, stages, delay, rate);
    assert f2 == Weight(j, stages, rate * delay) as real;
    b := Hogenauer(stages, f2.Floor, excess);
    WeightPositive(j, stages, rate * delay);
    HogenauerExactly(stages, Weight(j, stages, rate * delay), excess);
    MulPositive(stages, Weight(j, stages, rate * delay));
  }

  lemma {:induction false} EnergyNonNegative(y: seq<int>, n: nat)
    requires n <= |y|
    ensures Energy(y, n) >= 0
  {
    if n > 0 {
      EnergyNonNegative(y, n - 1);
      Square(y[n - 1]);
    }
  }

  lemma Square(x: int)
    ensures x * x >= 0
  {
  }
}
