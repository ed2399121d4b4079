// Two's-complement 64-bit words.  The source computes on int64_t; an overflowing sum is taken
// to wrap, as the compiled model and the hardware it mirrors do.

module Int64 {
  import opened Arith

  const TWO_63: int := 0x8000_0000_0000_0000

  predicate InRange(x: int) {
    -TWO_63 <= x < TWO_63
  }

  lemma TwoTo63()
    ensures Pow2(63) == TWO_63 && Pow2(64) == 2 * TWO_63
  {
    assert Pow2(4) == 16;
    Pow2Add(4, 4);
    Pow2Add(8, 8);
    Pow2Add(16, 16);
    Pow2Add(32, 32);
  }

  type int64 = x: int | InRange(x) witness 0

  /** The word that holds the low 64 bits of x. */
  function Wrap(x: int): int64 {
    var r := x % (2 * TWO_63);
    if r < TWO_63 then r else r - 2 * TWO_63
  }

  lemma WrapKeepsLowBits(x: int)
    ensures Cong(Wrap(x), x, Pow2(64))
  {
    TwoTo63();
    CongIntro(Wrap(x), x, Pow2(64), -(x / Pow2(64)) - (if x % Pow2(64) < TWO_63 then 0 else 1));
  }

  lemma WrapInRange(x: int)
    requires InRange(x)
    ensures Wrap(x) == x
  {
  }

  lemma WrapCong(a: int, b: int)
    requires Cong(a, b, Pow2(64))
    ensures Wrap(a) == Wrap(b)
  {
    TwoTo63();
    var k := CongElim(a, b, Pow2(64));
    AddMultiple(b, Pow2(64), k);
  }

  /** A sum of wrapped words wraps like the exact sum. */
  lemma WrapAdd(a: int, b: int)
    ensures Wrap(a + Wrap(b)) == Wrap(a + b)
  {
    WrapKeepsLowBits(b);
    CongIntro(a, a, Pow2(64), 0);
    CongAdd(a, a, Wrap(b), b, Pow2(64));
    WrapCong(a + Wrap(b), a + b);
  }
}
