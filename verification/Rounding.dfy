// The output rounding of a CIC channel, word by word, and what it means.

module Rounding {
  import opened Arith
  import opened Int64

  datatype Mode = TruncateLow | ConvergentRound | RoundUp | Saturate | NoRounding

  // Masks and shifts of two's-complement words, in arithmetic form.

  predicate BitSet(v: int, k: nat) {
    v / Pow2(k) % 2 == 1
  }

  function LowBits(v: int, k: nat): int {
    v % Pow2(k)
  }

  /** The branch condition of the convergent rounding, as the masks test it. */
  predicate RoundsUp(v: int, w: nat) {
    w >= 1 && BitSet(v, w - 1) && (LowBits(v, w - 1) != 0 || BitSet(v, w))
  }

  predicate HalfBit(v: int, w: nat) {
    w >= 1 && BitSet(v, w - 1)
  }

  function Convergent(v: int64, w: nat): int {
    (if RoundsUp(v, w) then Wrap(v + Pow2(w)) else v) / Pow2(w)
  }

  function HalfUp(v: int64, w: nat): int {
    (if HalfBit(v, w) then Wrap(v + Pow2(w)) else v) / Pow2(w)
  }

  function Clamp(v: int, w: nat): int
    requires w >= 1
  {
    if v < -Pow2(w - 1) then -Pow2(w - 1) else if v > Pow2(w - 1) - 1 then Pow2(w - 1) - 1 else v
  }

  // ---------- reference definitions ----------

  /** r is v / p rounded to the nearest integer, ties to the even one. */
  ghost predicate NearestEven(r: int, v: int, p: int) {
    var d := 2 * Abs(r * p - v);
    d < p || (d == p && r % 2 == 0)
  }

  /** r is v / p rounded to the nearest integer, ties upwards. */
  ghost predicate NearestUp(r: int, v: int, p: int) {
    -p <= 2 * (v - r * p) < p
  }

  lemma Gap(r: int, s: int, p: int)
    requires p > 0 && r < s
    ensures s * p >= r * p + p
    ensures s >= r + 2 ==> s * p >= r * p + 2 * p
  {
    MulMonotonic(r + 1, s, p);
    assert (r + 1) * p == r * p + p;
    if s >= r + 2 {
      MulMonotonic(r + 2, s, p);
      assert (r + 2) * p == r * p + 2 * p;
    }
  }

  /** There is only one nearest integer under either rule. */
  lemma NearestEvenUnique(r: int, s: int, v: int, p: int)
    requires p > 0 && NearestEven(r, v, p)
    ensures NearestEven(s, v, p) <==> s == r
  {
    if r < s {
      Gap(r, s, p);
    } else if s < r {
      Gap(s, r, p);
    }
  }

  lemma NearestUpUnique(r: int, s: int, v: int, p: int)
    requires p > 0 && NearestUp(r, v, p)
    ensures NearestUp(s, v, p) <==> s == r
  {
    if r < s {
      Gap(r, s, p);
    } else if s < r {
      Gap(s, r, p);
    }
  }

  /** Which of floor and floor + 1 is nearest, by the size of the remainder. */
  lemma NearestByRemainder(v: int, p: int, q: int, rem: int)
    requires p > 0 && v == q * p + rem && 0 <= rem < p
    ensures 2 * rem < p || (2 * rem == p && q % 2 == 0) ==> NearestEven(q, v, p)
    ensures 2 * rem > p || (2 * rem == p && q % 2 == 1) ==> NearestEven(q + 1, v, p)
    ensures 2 * rem < p ==> NearestUp(q, v, p)
    ensures 2 * rem >= p ==> NearestUp(q + 1, v, p)
  {
    assert (q + 1) * p == q * p + p;
  }

  // ---------- saturation ----------

  /** Clamping gives the nearest number of the signed range, and keeps the order. */
  lemma ClampIsNearest(v: int, w: nat)
    requires w >= 1
    ensures -Pow2(w - 1) <= Clamp(v, w) < Pow2(w - 1)
    ensures -Pow2(w - 1) <= v < Pow2(w - 1) ==> Clamp(v, w) == v
    ensures forall s: int {:trigger Distance(s, v)} :: -Pow2(w - 1) <= s < Pow2(w - 1) ==>
      Distance(Clamp(v, w), v) <= Distance(s, v)
    ensures forall u {:trigger Clamp(u, w)} :: u <= v ==> Clamp(u, w) <= Clamp(v, w)
  {
    hide Pow2;
  }

  function Distance(a: int, b: int): nat {
    if a >= b then a - b else b - a
  }

  // ---------- the masks ----------

  /** Quotient and remainder by 2^w in terms of the bits and the low mask the code looks at. */
  lemma BitsOfRemainder(v: int, w: nat)
    requires w >= 1
    ensures v % Pow2(w) == (if BitSet(v, w - 1) then Pow2(w - 1) else 0) + LowBits(v, w - 1)
    ensures 0 <= LowBits(v, w - 1) < Pow2(w - 1)
  {
    var h := Pow2(w - 1);
    var q := v / h;
    DivModDef(v, h);
    DivModDef(q, 2);
    assert v == (q / 2) * (2 * h) + ((q % 2) * h + v % h);
    assert q % 2 == 0 || q % 2 == 1;
    DivModUnique(v, 2 * h, q / 2, (q % 2) * h + v % h);
  }

  /** The masks decide nearest-even rounding: floor, plus one exactly when RoundsUp. */
  lemma RoundsUpIsNearestEven(v: int, w: nat)
    ensures NearestEven(v / Pow2(w) + (if RoundsUp(v, w) then 1 else 0), v, Pow2(w))
  {
    DivModDef(v, Pow2(w));
    if w >= 1 {
      BitsOfRemainder(v, w);
    }
    NearestByRemainder(v, Pow2(w), v / Pow2(w), v % Pow2(w));
  }

  lemma HalfBitIsNearestUp(v: int, w: nat)
    ensures NearestUp(v / Pow2(w) + (if HalfBit(v, w) then 1 else 0), v, Pow2(w))
  {
    DivModDef(v, Pow2(w));
    if w >= 1 {
      BitsOfRemainder(v, w);
    }
    NearestByRemainder(v, Pow2(w), v / Pow2(w), v % Pow2(w));
  }

  /** Adding 2^w before the shift adds one to the quotient, unless it overflows. */
  lemma AddedBeforeShift(v: int64, w: nat)
    requires w <= 63
    ensures var c := if v + Pow2(w) < TWO_63 then 0 else Pow2(64 - w);
            Wrap(v + Pow2(w)) / Pow2(w) == v / Pow2(w) + 1 - c
  {
    assert InRange(v);
    if v + Pow2(w) < TWO_63 {
      WrapInRange(v + Pow2(w));
      AddMultiple(v, Pow2(w), 1);
    } else {
      TwoTo63();
      Pow2Monotonic(w, 63);
      WrapOverflow(v + Pow2(w));
      Pow2Add(64 - w, w);
      AddMultiple(v, Pow2(w), 1 - Pow2(64 - w));
      assert (1 - Pow2(64 - w)) * Pow2(w) == Pow2(w) - Pow2(64 - w) * Pow2(w);
    }
  }

  lemma WrapOverflow(x: int)
    requires TWO_63 <= x < TWO_63 + TWO_63
    ensures Wrap(x) == x - Pow2(64)
  {
    TwoTo63();
    DivModUnique(x, Pow2(64), 0, x);
  }

  /** Rounding v by w bits in this mode overflows the word. */
  predicate Overflows(mode: Mode, v: int, w: nat) {
    match mode
    case ConvergentRound => RoundsUp(v, w) && v + Pow2(w) >= TWO_63
    case RoundUp => HalfBit(v, w) && v + Pow2(w) >= TWO_63
    case _ => false
  }

  /** The added step passes 2^63: the word comes out 2^(64 - w) below the number rounded up. */
  predicate Overflowed(r: int, v: int, w: nat)
    requires w <= 64
  {
    r == v / Pow2(w) + 1 - Pow2(64 - w)
  }

  ghost predicate RoundedEven(r: int, v: int, w: nat)
    requires w <= 64
  {
    if Overflows(ConvergentRound, v, w) then Overflowed(r, v, w) else NearestEven(r, v, Pow2(w))
  }

  ghost predicate RoundedUp(r: int, v: int, w: nat)
    requires w <= 64
  {
    if Overflows(RoundUp, v, w) then Overflowed(r, v, w) else NearestUp(r, v, Pow2(w))
  }

  /** Convergent rounding of a word is exact if and only if the added 2^w does not overflow. */
  lemma ConvergentIsNearestEven(v: int64, w: nat)
    requires w <= 63
    ensures NearestEven(Convergent(v, w), v, Pow2(w))
            <==> !Overflows(ConvergentRound, v, w)
    ensures RoundedEven(Convergent(v, w), v, w)
  {
    hide NearestEven, RoundsUp, Wrap, Pow2;
    RoundsUpIsNearestEven(v, w);
    if RoundsUp(v, w) {
      AddedBeforeShift(v, w);
      NearestEvenUnique(v / Pow2(w) + 1, Convergent(v, w), v, Pow2(w));
    }
  }

  /** The same condition decides rounding half up. */
  lemma HalfUpIsNearestUp(v: int64, w: nat)
    requires w <= 63
    ensures NearestUp(HalfUp(v, w), v, Pow2(w))
            <==> !Overflows(RoundUp, v, w)
    ensures RoundedUp(HalfUp(v, w), v, w)
  {
    hide NearestUp, HalfBit, Wrap, Pow2;
    HalfBitIsNearestUp(v, w);
    if HalfBit(v, w) {
      AddedBeforeShift(v, w);
      NearestUpUnique(v / Pow2(w) + 1, HalfUp(v, w), v, Pow2(w));
    }
  }

  // ---------- when the added step overflows ----------

  /** The least word that overflows. */
  function FirstOverflow(mode: Mode, w: nat): int
    requires 1 <= w
  {
    TWO_63 - Pow2(w - 1) + if mode == ConvergentRound && w == 63 then 1 else 0
  }

  /** Exactly the words of the upper half of the topmost step overflow; the tie of the largest shift
      goes down to the even zero. */
  lemma OverflowsFrom(mode: Mode, v: int64, w: nat)
    requires w <= 63 && (mode == ConvergentRound || mode == RoundUp)
    ensures Overflows(mode, v, w) <==> w >= 1 && v >= FirstOverflow(mode, w)
  {
    if w >= 1 {
      TwoTo63();
      Pow2Add(63 - w, w);
      BitsOfRemainder(v, w);
      DivModDef(v, Pow2(w));
      if v + Pow2(w) >= TWO_63 {
        TopStep(v, w);
      }
    }
  }

  /** In the topmost step the quotient is odd, unless the step is the upper half of all words. */
  lemma TopStep(v: int64, w: nat)
    requires 1 <= w <= 63 && v + Pow2(w) >= TWO_63
    ensures v / Pow2(w) == Pow2(63 - w) - 1 && v % Pow2(w) == v - TWO_63 + Pow2(w)
    ensures BitSet(v, w) <==> w < 63
  {
    hide Pow2;
    TwoTo63();
    Pow2Add(63 - w, w);
    TopQuotient(v, Pow2(63 - w) - 1, Pow2(w));
    OddQuotient(w);
  }

  lemma TopQuotient(v: int64, q: int, p: nat)
    requires (q + 1) * p == TWO_63 && v + p >= TWO_63
    ensures v / p == q && v % p == v - TWO_63 + p
  {
    assert (q + 1) * p == q * p + p;
    assert InRange(v);
    DivModUnique(v, p, q, v - TWO_63 + p);
  }

  lemma OddQuotient(w: nat)
    requires 1 <= w <= 63
    ensures (Pow2(63 - w) - 1) % 2 == 1 <==> w < 63
  {
    if w < 63 {
      assert Pow2(63 - w) == 2 * Pow2(62 - w);
    } else {
      assert Pow2(0) == 1;
    }
  }
}
