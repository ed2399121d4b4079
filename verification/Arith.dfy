// Integer arithmetic shared by the models: powers, floor division and congruence.
//
// Dafny's `/` and `%` round towards minus infinity for a positive divisor, which is what an
// arithmetic right shift and a low-bit mask do on two's-complement words.

module Arith {

  function Max(a: int, b: int): int {
    if a >= b then a else b
  }

  function Min(a: int, b: int): int {
    if a <= b then a else b
  }

  function Abs(a: int): nat {
    if a >= 0 then a else -a
  }

  // ---------- powers ----------

  /** 2^e; kept apart from Pow so that one doubling stays linear for the solver. */
  function Pow2(e: nat): (p: int)
    ensures p > 0
  {
    if e == 0 then 1 else 2 * Pow2(e - 1)
  }

  function Pow(b: nat, e: nat): nat {
    if e == 0 then 1 else b * Pow(b, e - 1)
  }

  lemma {:induction false} Pow2Add(a: nat, b: nat)
    ensures Pow2(a + b) == Pow2(a) * Pow2(b)
  {
    if a > 0 {
      Pow2Add(a - 1, b);
      assert Pow2(a + b) == 2 * (Pow2(a - 1) * Pow2(b));
      assert Pow2(a) * Pow2(b) == (2 * Pow2(a - 1)) * Pow2(b);
    }
  }

  lemma {:induction false} Pow2Monotonic(a: nat, b: nat)
    requires a <= b
    ensures Pow2(a) <= Pow2(b)
  {
    if a < b {
      Pow2Monotonic(a, b - 1);
    }
  }

  lemma {:induction false} PowPositive(b: nat, e: nat)
    requires b > 0
    ensures Pow(b, e) > 0
  {
    if e > 0 {
      PowPositive(b, e - 1);
      MulMonotonic(1, b, Pow(b, e - 1));
    }
  }

  lemma {:induction false} PowMonotonic(a: nat, b: nat, e: nat)
    requires a <= b
    ensures Pow(a, e) <= Pow(b, e)
  {
    if e > 0 {
      PowMonotonic(a, b, e - 1);
      MulMonotonic(a, b, Pow(a, e - 1));
      MulMonotonic(Pow(a, e - 1), Pow(b, e - 1), b);
    }
  }

  lemma MulMonotonic(a: int, b: int, c: nat)
    requires a <= b
    ensures a * c <= b * c
    ensures c * a <= c * b
  {
    assert 0 <= (b - a) * c;
  }

  lemma MulAssoc(a: int, b: int, c: int)
    ensures a * (b * c) == (a * b) * c
  {
  }

  lemma MulPositive(a: nat, b: nat)
    ensures a * b >= 0
    ensures a > 0 && b > 0 ==> a * b >= a && a * b >= b
  {
    if a > 0 && b > 0 {
      MulMonotonic(1, b, a);
      MulMonotonic(1, a, b);
    }
  }

  // ---------- floor division ----------

  /** Quotient and remainder are determined by x == q * m + r with 0 <= r < m. */
  lemma DivModUnique(x: int, m: nat, q: int, r: int)
    requires m > 0 && x == q * m + r && 0 <= r < m
    ensures x / m == q && x % m == r
  {
    var q' := x / m;
    assert x == q' * m + x % m;
    assert (q - q') * m == x % m - r;
    if q > q' {
      MulMonotonic(1, q - q', m);
    } else if q < q' {
      MulMonotonic(q - q', -1, m);
    }
  }

  lemma DivModDef(x: int, m: nat)
    requires m > 0
    ensures x == (x / m) * m + x % m
    ensures 0 <= x % m < m
  {
  }

  lemma DivMonotonic(x: int, y: int, m: nat)
    requires m > 0 && x <= y
    ensures x / m <= y / m
  {
    DivModDef(x, m);
    DivModDef(y, m);
    if x / m > y / m {
      MulMonotonic(y / m + 1, x / m, m);
    }
  }

  lemma AddMultiple(x: int, m: nat, k: int)
    requires m > 0
    ensures (x + k * m) / m == x / m + k
    ensures (x + k * m) % m == x % m
  {
    DivModDef(x, m);
    assert x + k * m == (x / m + k) * m + x % m;
    DivModUnique(x + k * m, m, x / m + k, x % m);
  }

  /** Division never moves a number away from zero, nor across it. */
  lemma DivTowardZero(x: int, m: nat)
    requires m > 0
    ensures x >= 0 ==> 0 <= x / m <= x
    ensures x < 0 ==> x <= x / m < 0
  {
    var q := x / m;
    DivModDef(x, m);
    if x >= 0 {
      if q < 0 {
        MulMonotonic(q, -1, m);
      }
      MulMonotonic(1, m, Abs(q));
    } else if q >= 0 {
      MulMonotonic(0, q, m);
    } else if q < x {
      MulMonotonic(q + 1, x, m);
      MulMonotonic(1, m, -x);
    }
  }

  /** Dividing by a product is dividing twice. */
  lemma DivDiv(x: int, a: nat, b: nat)
    requires a > 0 && b > 0
    ensures a * b > 0
    ensures x / (a * b) == (x / a) / b
    ensures x % (a * b) == ((x / a) % b) * a + x % a
  {
    MulPositive(a, b);
    var q := (x / a) / b;
    DivModDef(x, a);
    DivModDef(x / a, b);
    var r := ((x / a) % b) * a + x % a;
    assert x == q * (a * b) + r by {
      assert (q * b) * a == q * (a * b);
      assert x == (q * b + (x / a) % b) * a + x % a;
    }
    assert 0 <= r < a * b by {
      MulMonotonic(0, (x / a) % b, a);
      MulMonotonic((x / a) % b, b - 1, a);
      assert (b - 1) * a == a * b - a;
    }
    DivModUnique(x, a * b, q, r);
  }

  // ---------- products of reals ----------

  lemma RealPositive(a: real, b: real)
    requires a >= 0.0 && b >= 0.0
    ensures a * b >= 0.0
    ensures a > 0.0 && b > 0.0 ==> a * b > 0.0
  {
  }

  lemma RealMonotonic(a: real, b: real, c: real)
    requires a <= b && c >= 0.0
    ensures a * c <= b * c
  {
    RealPositive(b - a, c);
  }

  lemma RealSquare(a: real)
    ensures a * a >= 0.0
  {
    RealPositive(if a >= 0.0 then a else -a, if a >= 0.0 then a else -a);
  }

  lemma RealProduct(a: int, b: int)
    ensures (a * b) as real == (a as real) * (b as real)
  {
  }

  // ---------- congruence ----------

  /** a and b differ by a multiple of m. */
  ghost predicate Cong(a: int, b: int, m: nat)
    requires m > 0
  {
    (a - b) % m == 0
  }

  lemma CongIntro(a: int, b: int, m: nat, k: int)
    requires m > 0 && a == b + k * m
    ensures Cong(a, b, m)
  {
    DivModUnique(a - b, m, k, 0);
  }

  lemma CongElim(a: int, b: int, m: nat) returns (k: int)
    requires m > 0 && Cong(a, b, m)
    ensures a == b + k * m
  {
    k := (a - b) / m;
    DivModDef(a - b, m);
  }

  lemma CongAdd(a: int, b: int, c: int, d: int, m: nat)
    requires m > 0 && Cong(a, b, m) && Cong(c, d, m)
    ensures Cong(a + c, b + d, m)
    ensures Cong(a - c, b - d, m)
  {
    var k := CongElim(a, b, m);
    var l := CongElim(c, d, m);
    assert a + c == b + d + (k + l) * m;
    assert a - c == b - d + (k - l) * m;
    CongIntro(a + c, b + d, m, k + l);
    CongIntro(a - c, b - d, m, k - l);
  }

  lemma CongTrans(a: int, b: int, c: int, m: nat)
    requires m > 0 && Cong(a, b, m) && Cong(b, c, m)
    ensures Cong(a, c, m)
  {
    CongAdd(a, b, b, c, m);
  }

  /** A congruence survives a move to a smaller power-of-two modulus. */
  lemma CongWeaken(a: int, b: int, i: nat, j: nat)
    requires j <= i && Cong(a, b, Pow2(i))
    ensures Cong(a, b, Pow2(j))
  {
    var k := CongElim(a, b, Pow2(i));
    Pow2Add(i - j, j);
    MulAssoc(k, Pow2(i - j), Pow2(j));
    CongIntro(a, b, Pow2(j), k * Pow2(i - j));
  }

  /** Shifting both sides right by s bits costs s bits of the modulus. */
  lemma CongShift(a: int, b: int, i: nat, s: nat)
    requires s <= i && Cong(a, b, Pow2(i))
    ensures Cong(a / Pow2(s), b / Pow2(s), Pow2(i - s))
  {
    var k := CongElim(a, b, Pow2(i));
    Pow2Add(i - s, s);
    MulAssoc(k, Pow2(i - s), Pow2(s));
    AddMultiple(b, Pow2(s), k * Pow2(i - s));
    CongIntro(a / Pow2(s), b / Pow2(s), Pow2(i - s), k);
  }
}
