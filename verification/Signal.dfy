// Finite causal signals over the unbounded integers, and the algebra of the CIC stages:
// running sums, combs, zero-stuffing and downsampling.  Samples before the first one are zero.

module Signal {
  import opened Arith

  /** x[lo] + ... + x[hi - 1]. */
  function WindowSum(x: seq<int>, lo: nat, hi: nat): int
    requires lo <= hi <= |x|
  {
    if lo == hi then 0 else WindowSum(x, lo, hi - 1) + x[hi - 1]
  }

  /** Running sum up to and including each sample. */
  function PrefixSum(x: seq<int>): seq<int> {
    seq(|x|, n requires 0 <= n < |x| => WindowSum(x, 0, n + 1))
  }

  /** Difference with the sample `len` positions earlier. */
  function Comb(x: seq<int>, len: nat): seq<int> {
    seq(|x|, n requires 0 <= n < |x| => if n < len then x[n] else x[n] - x[n - len])
  }

  /** Sum of the last `len` samples: the simple form of one CIC stage pair. */
  function MovingSum(x: seq<int>, len: nat): seq<int> {
    seq(|x|, n requires 0 <= n < |x| => WindowSum(x, Max(0, n + 1 - len), n + 1))
  }

  function PrefixSums(x: seq<int>, k: nat): (y: seq<int>)
    ensures |y| == |x|
    decreases k
  {
    if k == 0 then x else PrefixSums(PrefixSum(x), k - 1)
  }

  function Combs(x: seq<int>, len: nat, k: nat): (y: seq<int>)
    ensures |y| == |x|
    decreases k
  {
    if k == 0 then x else Combs(Comb(x, len), len, k - 1)
  }

  function MovingSums(x: seq<int>, len: nat, k: nat): (y: seq<int>)
    ensures |y| == |x|
    decreases k
  {
    if k == 0 then x else MovingSums(MovingSum(x, len), len, k - 1)
  }

  /** Number of samples a downsampler by `rate` keeps out of n. */
  function Kept(n: nat, rate: nat): nat
    requires rate > 0
  {
    (n + rate - 1) / rate
  }

  lemma KeptIndex(n: nat, rate: nat, m: nat)
    requires rate > 0
    ensures m < Kept(n, rate) <==> m * rate < n
  {
    DivModDef(n + rate - 1, rate);
    if m < Kept(n, rate) {
      MulMonotonic(m + 1, Kept(n, rate), rate);
    } else {
      MulMonotonic(Kept(n, rate), m, rate);
    }
  }

  /** Every rate-th sample, starting with the first. */
  function Down(x: seq<int>, rate: nat): (y: seq<int>)
    requires rate > 0
    ensures |y| == Kept(|x|, rate)
  {
    seq(Kept(|x|, rate), m requires 0 <= m < Kept(|x|, rate) => KeptIndex(|x|, rate, m); x[m * rate])
  }

  /** Each sample followed by rate - 1 zeros. */
  function Up(x: seq<int>, rate: nat): (y: seq<int>)
    requires rate > 0
    ensures |y| == |x| * rate
  {
    seq(|x| * rate, n requires 0 <= n < |x| * rate =>
        UpIndex(|x|, rate, n); if n % rate == 0 then x[n / rate] else 0)
  }

  lemma UpIndex(len: nat, rate: nat, n: nat)
    requires rate > 0 && n < len * rate
    ensures 0 <= n / rate < len
  {
    DivModDef(n, rate);
    if n / rate >= len {
      MulMonotonic(len, n / rate, rate);
    }
  }

  /** u + c * v, sample by sample. */
  function Combine(u: seq<int>, c: int, v: seq<int>): seq<int>
    requires |u| == |v|
  {
    seq(|u|, n requires 0 <= n < |u| => u[n] + c * v[n])
  }

  ghost predicate Between(x: seq<int>, lo: int, hi: int) {
    forall n :: 0 <= n < |x| ==> lo <= x[n] <= hi
  }

  // ---------- window sums ----------

  lemma {:induction false} WindowSplit(x: seq<int>, a: nat, b: nat, c: nat)
    requires a <= b <= c <= |x|
    ensures WindowSum(x, a, c) == WindowSum(x, a, b) + WindowSum(x, b, c)
  {
    if b < c {
      WindowSplit(x, a, b, c - 1);
    }
  }

  lemma {:induction false} WindowBetween(x: seq<int>, lo: int, hi: int, a: nat, b: nat)
    requires a <= b <= |x| && Between(x, lo, hi)
    ensures (b - a) * lo <= WindowSum(x, a, b) <= (b - a) * hi
  {
    if a < b {
      WindowBetween(x, lo, hi, a, b - 1);
      assert (b - a) * lo == (b - 1 - a) * lo + lo;
      assert (b - a) * hi == (b - 1 - a) * hi + hi;
    }
  }

  // ---------- integrators and combs ----------

  /** One integrator followed by one comb is a moving sum: the growth cancels. */
  lemma CombOfPrefixSum(x: seq<int>, len: nat)
    ensures Comb(PrefixSum(x), len) == MovingSum(x, len)
  {
    forall n | 0 <= n < |x|
      ensures Comb(PrefixSum(x), len)[n] == MovingSum(x, len)[n]
    {
      var a := Max(0, n + 1 - len);
      WindowSplit(x, 0, a, n + 1);
    }
  }

  lemma {:induction false} WindowOfComb(x: seq<int>, len: nat, n: nat)
    requires n <= |x|
    ensures WindowSum(Comb(x, len), 0, n) == WindowSum(x, 0, n) - WindowSum(x, 0, Max(0, n - len))
  {
    if n > 0 {
      WindowOfComb(x, len, n - 1);
    }
  }

  lemma CombCommutes(x: seq<int>, len: nat)
    ensures Comb(PrefixSum(x), len) == PrefixSum(Comb(x, len))
  {
    forall n | 0 <= n < |x|
      ensures Comb(PrefixSum(x), len)[n] == PrefixSum(Comb(x, len))[n]
    {
      WindowOfComb(x, len, n + 1);
    }
  }

  lemma {:induction false} CombOfPrefixSums(x: seq<int>, len: nat, k: nat)
    ensures Comb(PrefixSums(x, k), len) == PrefixSums(Comb(x, len), k)
    decreases k
  {
    if k > 0 {
      CombOfPrefixSums(PrefixSum(x), len, k - 1);
      CombCommutes(x, len);
    }
  }

  /** p integrators and p + q combs are p moving sums and q combs. */
  lemma {:induction false} CombsOfPrefixSums(x: seq<int>, len: nat, p: nat, q: nat)
    ensures Combs(PrefixSums(x, p), len, p + q) == Combs(MovingSums(x, len, p), len, q)
    decreases p
  {
    if p > 0 {
      CombOfPrefixSums(PrefixSum(x), len, p - 1);
      CombOfPrefixSum(x, len);
      CombsOfPrefixSums(MovingSum(x, len), len, p - 1, q);
    }
  }

  lemma {:induction false} PrefixSumsLast(x: seq<int>, k: nat)
    ensures PrefixSums(x, k + 1) == PrefixSum(PrefixSums(x, k))
    decreases k
  {
    if k > 0 {
      PrefixSumsLast(PrefixSum(x), k - 1);
    }
  }

  lemma {:induction false} CombsLast(x: seq<int>, len: nat, k: nat)
    ensures Combs(x, len, k + 1) == Comb(Combs(x, len, k), len)
    decreases k
  {
    if k > 0 {
      CombsLast(Comb(x, len), len, k - 1);
    }
  }

  // ---------- resampling ----------

  lemma DownAt(x: seq<int>, rate: nat, m: nat)
    requires rate > 0 && m < Kept(|x|, rate)
    ensures m * rate < |x| && Down(x, rate)[m] == x[m * rate]
  {
    KeptIndex(|x|, rate, m);
  }

  /** The samples kept are those at the multiples of the rate, all of them. */
  lemma DownIs(x: seq<int>, rate: nat)
    requires rate > 0
    ensures forall m: nat :: m * rate < |x| <==> m < |Down(x, rate)|
    ensures forall m :: 0 <= m < |Down(x, rate)| ==> Down(x, rate)[m] == x[m * rate]
  {
    forall m: nat
      ensures m * rate < |x| <==> m < |Down(x, rate)|
    {
      KeptIndex(|x|, rate, m);
    }
    forall m | 0 <= m < |Down(x, rate)|
      ensures m * rate < |x| && Down(x, rate)[m] == x[m * rate]
    {
      DownAt(x, rate, m);
    }
  }

  lemma UpIs(x: seq<int>, rate: nat)
    requires rate > 0
    ensures forall n :: 0 <= n < |x| * rate ==>
      0 <= n / rate < |x| && Up(x, rate)[n] == if n % rate == 0 then x[n / rate] else 0
  {
    forall n | 0 <= n < |x| * rate
      ensures 0 <= n / rate < |x|
    {
      UpIndex(|x|, rate, n);
    }
  }

  lemma AlignedLength(rate: nat, m: nat)
    requires rate > 0
    ensures Kept(m * rate + 1, rate) == m + 1
  {
    DivModUnique(m * rate + rate, rate, m + 1, 0);
  }

  /** Noble identity: a comb of M after downsampling by R is a comb of R * M before it. */
  lemma CombOfDown(x: seq<int>, rate: nat, len: nat)
    requires rate > 0
    ensures Comb(Down(x, rate), len) == Down(Comb(x, rate * len), rate)
  {
    hide Down, Kept;
    forall m | 0 <= m < Kept(|x|, rate)
      ensures Comb(Down(x, rate), len)[m] == Down(Comb(x, rate * len), rate)[m]
    {
      DownAt(x, rate, m);
      DownAt(Comb(x, rate * len), rate, m);
      if m >= len {
        DownAt(x, rate, m - len);
        MulMonotonic(len, m, rate);
        assert (m - len) * rate == m * rate - rate * len;
      } else {
        MulMonotonic(m + 1, len, rate);
      }
    }
  }

  lemma {:induction false} CombsOfDown(x: seq<int>, rate: nat, len: nat, k: nat)
    requires rate > 0
    ensures Combs(Down(x, rate), len, k) == Down(Combs(x, rate * len, k), rate)
    decreases k
  {
    if k > 0 {
      CombOfDown(x, rate, len);
      CombsOfDown(Comb(x, rate * len), rate, len, k - 1);
    }
  }

  /** Noble identity for the interpolator: a comb of M before upsampling is one of R * M after. */
  lemma UpOfComb(x: seq<int>, rate: nat, len: nat)
    requires rate > 0
    ensures Up(Comb(x, len), rate) == Comb(Up(x, rate), rate * len)
  {
    forall n | 0 <= n < |x| * rate
      ensures Up(Comb(x, len), rate)[n] == Comb(Up(x, rate), rate * len)[n]
    {
      UpIndex(|x|, rate, n);
      EarlierIndex(n, rate, len);
    }
  }

  lemma EarlierIndex(n: nat, rate: nat, len: nat)
    requires rate > 0
    ensures n / rate >= len <==> n >= rate * len
    ensures n >= rate * len ==> (n - rate * len) / rate == n / rate - len
    ensures (n - rate * len) % rate == n % rate
  {
    AddMultiple(n, rate, 0 - len);
    assert n + (0 - len) * rate == n - rate * len;
    DivModDef(n, rate);
    if n / rate >= len {
      MulMonotonic(len, n / rate, rate);
    } else {
      MulMonotonic(n / rate + 1, len, rate);
      assert (n / rate + 1) * rate == (n / rate) * rate + rate;
    }
  }

  lemma {:induction false} UpOfCombs(x: seq<int>, rate: nat, len: nat, k: nat)
    requires rate > 0
    ensures Up(Combs(x, len, k), rate) == Combs(Up(x, rate), rate * len, k)
    decreases k
  {
    if k > 0 {
      UpOfComb(x, rate, len);
      UpOfCombs(Comb(x, len), rate, len, k - 1);
    }
  }

  // ---------- linearity ----------

  lemma {:induction false} WindowLinear(u: seq<int>, c: int, v: seq<int>, a: nat, b: nat)
    requires |u| == |v| && a <= b <= |u|
    ensures WindowSum(Combine(u, c, v), a, b) == WindowSum(u, a, b) + c * WindowSum(v, a, b)
  {
    if a < b {
      WindowLinear(u, c, v, a, b - 1);
      assert c * (WindowSum(v, a, b - 1) + v[b - 1]) == c * WindowSum(v, a, b - 1) + c * v[b - 1];
    }
  }

  lemma PrefixSumLinear(u: seq<int>, c: int, v: seq<int>)
    requires |u| == |v|
    ensures PrefixSum(Combine(u, c, v)) == Combine(PrefixSum(u), c, PrefixSum(v))
  {
    forall n | 0 <= n < |u|
      ensures PrefixSum(Combine(u, c, v))[n] == Combine(PrefixSum(u), c, PrefixSum(v))[n]
    {
      WindowLinear(u, c, v, 0, n + 1);
    }
  }

  lemma CombLinear(u: seq<int>, c: int, v: seq<int>, len: nat)
    requires |u| == |v|
    ensures Comb(Combine(u, c, v), len) == Combine(Comb(u, len), c, Comb(v, len))
  {
    forall n | 0 <= n < |u|
      ensures Comb(Combine(u, c, v), len)[n] == Combine(Comb(u, len), c, Comb(v, len))[n]
    {
      if n >= len {
        assert c * (v[n] - v[n - len]) == c * v[n] - c * v[n - len];
      }
    }
  }

  lemma DownLinear(u: seq<int>, c: int, v: seq<int>, rate: nat)
    requires |u| == |v| && rate > 0
    ensures Down(Combine(u, c, v), rate) == Combine(Down(u, rate), c, Down(v, rate))
  {
    forall m | 0 <= m < Kept(|u|, rate)
      ensures Down(Combine(u, c, v), rate)[m] == Combine(Down(u, rate), c, Down(v, rate))[m]
    {
      KeptIndex(|u|, rate, m);
    }
  }

  // ---------- gains ----------

  lemma MovingSumBetween(x: seq<int>, len: nat, lo: int, hi: int)
    requires Between(x, lo, hi) && lo <= 0 <= hi
    ensures Between(MovingSum(x, len), len * lo, len * hi)
  {
    forall n | 0 <= n < |x|
      ensures len * lo <= MovingSum(x, len)[n] <= len * hi
    {
      var a := Max(0, n + 1 - len);
      WindowBetween(x, lo, hi, a, n + 1);
      MulMonotonic(n + 1 - a, len, hi);
      MulMonotonic(n + 1 - a, len, -lo);
    }
  }

  lemma {:induction false} MovingSumsBetween(x: seq<int>, len: nat, k: nat, lo: int, hi: int)
    requires Between(x, lo, hi) && lo <= 0 <= hi
    ensures Between(MovingSums(x, len, k), Pow(len, k) * lo, Pow(len, k) * hi)
    decreases k
  {
    if k > 0 {
      MovingSumBetween(x, len, lo, hi);
      MulMonotonic(0, hi, len);
      MulMonotonic(lo, 0, len);
      MovingSumsBetween(MovingSum(x, len), len, k - 1, len * lo, len * hi);
      assert Pow(len, k - 1) * (len * lo) == Pow(len, k) * lo;
      assert Pow(len, k - 1) * (len * hi) == Pow(len, k) * hi;
    }
  }

  lemma {:induction false} CombsBetween(x: seq<int>, len: nat, k: nat, bound: int)
    requires bound >= 0 && Between(x, -bound, bound)
    ensures Between(Combs(x, len, k), -(Pow2(k) * bound), Pow2(k) * bound)
    decreases k
  {
    if k > 0 {
      CombsBetween(Comb(x, len), len, k - 1, 2 * bound);
      MulAssoc(Pow2(k - 1), 2, bound);
    }
  }

  lemma DownBetween(x: seq<int>, rate: nat, lo: int, hi: int)
    requires rate > 0 && Between(x, lo, hi)
    ensures Between(Down(x, rate), lo, hi)
  {
    forall m | 0 <= m < Kept(|x|, rate)
      ensures lo <= Down(x, rate)[m] <= hi
    {
      KeptIndex(|x|, rate, m);
    }
  }

  // ---------- signals that settle ----------

  /** c from sample s on. */
  ghost predicate ConstantFrom(y: seq<int>, s: nat, c: int) {
    forall n :: s <= n < |y| ==> y[n] == c
  }

  lemma {:induction false} ConstantWindow(y: seq<int>, s: nat, c: int, a: nat, b: nat)
    requires s <= a <= b <= |y| && ConstantFrom(y, s, c)
    ensures WindowSum(y, a, b) == (b - a) * c
  {
    if a < b {
      ConstantWindow(y, s, c, a, b - 1);
      assert (b - a) * c == (b - 1 - a) * c + c;
    }
  }

  lemma {:induction false} ConstantSums(y: seq<int>, s: nat, c: int, d: nat, q: nat)
    requires ConstantFrom(y, s, c)
    ensures ConstantFrom(MovingSums(y, d + 1, q), s + d * q, Pow(d + 1, q) * c)
    decreases q
  {
    if q > 0 {
      ConstantSum(y, s, c, d);
      ConstantSums(MovingSum(y, d + 1), s + d, (d + 1) * c, d, q - 1);
      OneStageMore(d, q, s, c, Pow(d + 1, q - 1));
    }
  }

  lemma ConstantSum(y: seq<int>, s: nat, c: int, d: nat)
    requires ConstantFrom(y, s, c)
    ensures ConstantFrom(MovingSum(y, d + 1), s + d, (d + 1) * c)
  {
    var v := MovingSum(y, d + 1);
    forall n | s + d <= n < |y|
      ensures v[n] == (d + 1) * c
    {
      ConstantWindow(y, s, c, n - d, n + 1);
      assert Max(0, n + 1 - (d + 1)) == n - d;
      assert v[n] == WindowSum(y, n - d, n + 1);
    }
  }

  lemma OneStageMore(d: nat, q: nat, s: nat, c: int, p: nat)
    requires q > 0
    ensures s + d + d * (q - 1) == s + d * q && p * ((d + 1) * c) == ((d + 1) * p) * c
  {
    MulAssoc(p, d + 1, c);
  }
}
