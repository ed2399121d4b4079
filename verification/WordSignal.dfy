// Signals held in 64-bit words: the stages on words, and how a word signal tracks an exact one.
// Each stage keeps the congruence; a right shift by s costs s bits of the modulus, because the
// bits an earlier overflow carried past bit 63 are missing at the top.

module WordSignal {
  import opened Arith
  import opened Int64
  import opened Signal
  import opened Decimation

  function WrapAll(x: seq<int>): (y: seq<int64>)
    ensures |y| == |x|
  {
    seq(|x|, n requires 0 <= n < |x| => Wrap(x[n]))
  }

  /** Sum of the samples strictly before each one: an integrator with its register. */
  function RegisteredSum(x: seq<int>): (y: seq<int>)
    ensures |y| == |x|
  {
    seq(|x|, n requires 0 <= n < |x| => WindowSum(x, 0, n))
  }

  /** Same length, and equal modulo 2^bits sample by sample. */
  ghost predicate Tracks(x: seq<int>, y: seq<int>, bits: nat) {
    |x| == |y| && forall n :: 0 <= n < |x| ==> Cong(x[n], y[n], Pow2(bits))
  }

  /** x starts with d zeros and then follows y modulo 2^bits, as far as both go. */
  ghost predicate TracksLate(x: seq<int>, y: seq<int>, d: nat, bits: nat) {
    && (forall n :: 0 <= n < d && n < |x| ==> x[n] == 0)
    && (forall n :: 0 <= n < |y| && d + n < |x| ==> Cong(x[d + n], y[n], Pow2(bits)))
  }

  lemma ShiftInRange(w: int64, b: nat)
    ensures InRange(w / Pow2(b))
  {
    assert InRange(w);
    DivTowardZero(w, Pow2(b));
  }

  lemma TracksWrapped(x: seq<int>, y: seq<int>, z: seq<int>, bits: nat)
    requires bits <= 64 && Tracks(y, z, bits) && x == WrapAll(y)
    ensures Tracks(x, z, bits)
  {
    forall n | 0 <= n < |x|
      ensures Cong(x[n], z[n], Pow2(bits))
    {
      WrapKeepsLowBits(y[n]);
      CongWeaken(x[n], y[n], 64, bits);
      CongTrans(x[n], y[n], z[n], Pow2(bits));
    }
  }

  lemma TracksTruncated(x: seq<int>, y: seq<int>, bits: nat, b: nat)
    requires b <= bits && Tracks(x, y, bits)
    ensures Tracks(Truncated(x, b), Truncated(y, b), bits - b)
  {
    forall n | 0 <= n < |x|
      ensures Cong(Truncated(x, b)[n], Truncated(y, b)[n], Pow2(bits - b))
    {
      CongShift(x[n], y[n], bits, b);
    }
  }

  lemma TracksCombs(x: seq<int>, y: seq<int>, bits: nat, len: nat)
    requires Tracks(x, y, bits)
    ensures Tracks(Comb(x, len), Comb(y, len), bits)
  {
    hide Cong, Pow2;
    forall n | 0 <= n < |x|
      ensures Cong(Comb(x, len)[n], Comb(y, len)[n], Pow2(bits))
    {
      if n >= len {
        CongAdd(x[n], y[n], x[n - len], y[n - len], Pow2(bits));
      }
    }
  }

  lemma TracksComb(x: seq<int>, y: seq<int>, bits: nat, len: nat)
    requires bits <= 64 && Tracks(x, y, bits)
    ensures Tracks(WrapAll(Comb(x, len)), Comb(y, len), bits)
  {
    hide Cong, Pow2, Comb;
    TracksCombs(x, y, bits, len);
    TracksWrapped(WrapAll(Comb(x, len)), Comb(x, len), Comb(y, len), bits);
  }

  lemma TracksDown(x: seq<int>, y: seq<int>, bits: nat, rate: nat)
    requires rate > 0 && Tracks(x, y, bits)
    ensures Tracks(Down(x, rate), Down(y, rate), bits)
  {
    forall m | 0 <= m < Kept(|x|, rate)
      ensures Cong(Down(x, rate)[m], Down(y, rate)[m], Pow2(bits))
    {
      KeptIndex(|x|, rate, m);
    }
  }

  lemma {:induction false} ZeroPrefix(x: seq<int>, d: nat, n: nat)
    requires n <= d && n <= |x| && forall k :: 0 <= k < d && k < |x| ==> x[k] == 0
    ensures WindowSum(x, 0, n) == 0
  {
    if n > 0 {
      ZeroPrefix(x, d, n - 1);
    }
  }

  lemma {:induction false} LateSum(x: seq<int>, y: seq<int>, d: nat, bits: nat, n: nat)
    requires TracksLate(x, y, d, bits) && n <= |y| && d + n <= |x|
    ensures Cong(WindowSum(x, 0, d + n), WindowSum(y, 0, n), Pow2(bits))
  {
    hide Cong, Pow2;
    if n == 0 {
      ZeroPrefix(x, d, d);
      CongIntro(WindowSum(x, 0, d), WindowSum(y, 0, 0), Pow2(bits), 0);
    } else {
      LateSum(x, y, d, bits, n - 1);
      CongAdd(WindowSum(x, 0, d + n - 1), WindowSum(y, 0, n - 1), x[d + n - 1], y[n - 1], Pow2(bits));
    }
  }

  lemma LateIntegrate(x: seq<int>, y: seq<int>, d: nat, bits: nat)
    requires bits <= 64 && TracksLate(x, y, d, bits)
    ensures TracksLate(WrapAll(RegisteredSum(x)), PrefixSum(y), d + 1, bits)
  {
    var s := WrapAll(RegisteredSum(x));
    forall n | 0 <= n < d + 1 && n < |x|
      ensures s[n] == 0
    {
      ZeroPrefix(x, d, n);
      WrapInRange(0);
    }
    forall n | 0 <= n < |y| && d + 1 + n < |x|
      ensures Cong(s[d + 1 + n], PrefixSum(y)[n], Pow2(bits))
    {
      LateSum(x, y, d, bits, n + 1);
      var e := WindowSum(x, 0, d + 1 + n);
      WrapKeepsLowBits(e);
      CongWeaken(s[d + 1 + n], e, 64, bits);
      CongTrans(s[d + 1 + n], e, WindowSum(y, 0, n + 1), Pow2(bits));
    }
  }

  lemma TracksUp(x: seq<int>, y: seq<int>, bits: nat, rate: nat)
    requires rate > 0 && Tracks(x, y, bits)
    ensures Tracks(Up(x, rate), Up(y, rate), bits)
  {
    forall n | 0 <= n < |x| * rate
      ensures Cong(Up(x, rate)[n], Up(y, rate)[n], Pow2(bits))
    {
      UpIndex(|x|, rate, n);
      CongIntro(0, 0, Pow2(bits), 0);
    }
  }

  lemma TracksSelf(x: seq<int>, bits: nat)
    ensures Tracks(x, x, bits)
  {
    forall n | 0 <= n < |x|
      ensures Cong(x[n], x[n], Pow2(bits))
    {
      CongIntro(x[n], x[n], Pow2(bits), 0);
    }
  }

  /** Words determined on all 64 bits are the wrapped numbers. */
  lemma TracksWhole(x: seq<int64>, y: seq<int>)
    requires Tracks(x, y, 64)
    ensures x == WrapAll(y)
  {
    forall n | 0 <= n < |x|
      ensures x[n] == Wrap(y[n])
    {
      WrapCong(x[n], y[n]);
      WrapInRange(x[n]);
    }
  }
}
