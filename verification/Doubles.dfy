// Numbers as the oscillator model computes with them: the two remainders, and doubles that hold
// integers, scaled by powers of two and floored.  Doubles are taken as exact reals.

module Doubles {
  import opened Arith

  // ---------- remainders ----------

  /** The % of C: the remainder takes the sign of the dividend. */
  function CMod(a: int, b: int): int
    requires b > 0
  {
    if a >= 0 then a % b else -((-a) % b)
  }

  /** Repeated subtraction, as dblmod does it; nothing happens below b or when b is zero. */
  function SubtractMod(a: int, b: int): int
    requires b >= 0
  {
    if b == 0 || a < b then a else a % b
  }

  /** The two remainders agree exactly on the dividends above -b. */
  lemma RemaindersAgree(a: int, b: int)
    requires b > 0
    ensures CMod(a, b) == SubtractMod(a, b) <==> a > -b
  {
    if a >= 0 {
      if a < b {
        DivModUnique(a, b, 0, a);
      }
    } else {
      DivModDef(-a, b);
      if a > -b {
        DivModUnique(-a, b, 0, -a);
      }
    }
  }

  /** Reducing twice is reducing once. */
  lemma ReducedTwice(a: int, b: int)
    requires b > 0
    ensures SubtractMod(SubtractMod(a, b), b) == SubtractMod(a, b)
    ensures a >= 0 ==> SubtractMod(a, b) == a % b
  {
    if 0 <= a < b {
      DivModUnique(a, b, 0, a);
    }
  }

  /** The loop on doubles; m and n are the integers the doubles hold. */
  method DblMod(a0: real, b: real, ghost m: int, ghost n: int) returns (r: real)
    requires a0 == m as real && b == n as real && n >= 0
    ensures r == SubtractMod(m, n) as real
  {
    if b == 0.0 || a0 == 0.0 {
      r := a0;
    } else if a0 < b {
      r := a0;
    } else if a0 == b {
      r := 0.0;
      DivModUnique(m, n, 1, 0);
    } else {
      var a := a0;
      ghost var k := 0;
      while a >= b
        invariant a == (m - k * n) as real && a >= 0.0
        decreases (a / b).Floor
      {
        OneLess(a, b);
        assert m - (k + 1) * n == m - k * n - n;
        a := a - b;
        k := k + 1;
      }
      r := a;
      DivModUnique(m, n, k, m - k * n);
    }
  }

  lemma OneLess(a: real, b: real)
    requires a >= b > 0.0
    ensures 0 <= ((a - b) / b).Floor < (a / b).Floor
  {
    assert (a - b) / b == a / b - 1.0;
    RealPositive(a - b, 1.0 / b);
    assert (a - b) / b == (a - b) * (1.0 / b);
  }

  // ---------- powers of two and floors ----------

  /** pow(2.0, e). */
  function RealPow2(e: int): (p: real)
    ensures p > 0.0
  {
    if e >= 0 then Pow2(e) as real else 1.0 / (Pow2(-e) as real)
  }

  lemma FloorOfQuotient(n: int, m: int)
    requires m > 0
    ensures ((n as real) / (m as real)).Floor == n / m
  {
    DivModDef(n, m);
    QuotientWithRest(n, m, n / m, n % m);
  }

  lemma QuotientWithRest(n: int, m: int, q: int, r: int)
    requires m > 0 && n == q * m + r && 0 <= r < m
    ensures ((n as real) / (m as real)).Floor == q
  {
    var x := (n as real) / (m as real);
    assert x * (m as real) == n as real;
    RealProduct(q, m);
    var d := x - q as real;
    assert d * (m as real) == r as real;
    if d < 0.0 {
      RealPositive(-d, m as real);
    } else if d >= 1.0 {
      RealMonotonic(1.0, d, m as real);
    }
  }

  lemma HalfStep(n: int)
    ensures ((n as real) / 0.5).Floor == 2 * n
  {
    assert (n as real) / 0.5 == (2 * n) as real;
  }

  /** Scaling up by p, adding and scaling down, with floors. */
  lemma ScaleUpDown(b: real, base: int, pm: int, p: int, scale: real)
    requires p > 0 && scale == p as real && b == base as real
    ensures (b * scale).Floor == base * p
    ensures (((base * p) as real + pm as real) / scale).Floor == base + pm / p
  {
    RealProduct(base, p);
    assert (base * p) as real + pm as real == (base * p + pm) as real;
    FloorOfQuotient(base * p + pm, p);
    AddMultiple(pm, p, base);
  }

  /** Scaling down by p, adding and scaling up, with floors. */
  lemma ScaleDownUp(b: real, base: int, pm: int, p: int, scale: real)
    requires p > 0 && scale == 1.0 / (p as real) && b == base as real
    ensures (b * scale).Floor == base / p
    ensures (((base / p) as real + pm as real) / scale).Floor == (base / p + pm) * p
  {
    FloorOfQuotient(base, p);
    assert b * scale == b / (p as real);
    var v := base / p + pm;
    assert (base / p) as real + pm as real == v as real;
    DivideByInverse(v as real, p as real);
    RealProduct(v, p);
  }

  lemma DivideByInverse(v: real, p: real)
    requires p > 0.0
    ensures v / (1.0 / p) == v * p
  {
    var i := 1.0 / p;
    assert i * p == 1.0;
    assert (v * p) * i == v * (i * p);
    assert (v / i) * i == v;
    assert (v / i - v * p) * i == 0.0;
  }

  /** n * 2^e, rounded down. */
  function Shifted(n: int, e: int): int {
    if e >= 0 then n * Pow2(e) else n / Pow2(-e)
  }

  lemma ScaledFloor(n: int, e: int)
    ensures ((n as real) * RealPow2(e)).Floor == Shifted(n, e)
    ensures ((n as real) / RealPow2(e)).Floor == Shifted(n, -e)
  {
    if e >= 0 {
      RealProduct(n, Pow2(e));
      FloorOfQuotient(n, Pow2(e));
    } else {
      FloorOfQuotient(n, Pow2(-e));
      DivideByInverse(n as real, Pow2(-e) as real);
      RealProduct(n, Pow2(-e));
    }
    assert Pow2(0) == 1;
  }

  // ---------- how much a shift rounds ----------

  lemma RealPow2Next(e: int)
    ensures RealPow2(e + 1) == 2.0 * RealPow2(e)
  {
    if e >= 0 {
      assert Pow2(e + 1) == 2 * Pow2(e);
    } else if e == -1 {
      assert Pow2(0) == 1 && Pow2(1) == 2;
    } else {
      var p := Pow2(-e - 1);
      assert Pow2(-e) == 2 * p;
      assert 2.0 * (1.0 / (2.0 * (p as real))) == 1.0 / (p as real);
    }
  }

  lemma {:induction false} RealPow2Product(a: int, n: nat)
    ensures RealPow2(a) * RealPow2(n) == RealPow2(a + n)
    decreases n
  {
    hide RealPow2;
    if n == 0 {
      UnitPower();
    } else {
      RealPow2Product(a, n - 1);
      RealPow2Next(n - 1);
      RealPow2Next(a + n - 1);
      var x, y := RealPow2(a), RealPow2(n - 1);
      assert x * (2.0 * y) == 2.0 * (x * y);
    }
  }

  /** Scaling twice is scaling once. */
  lemma RealPow2Sum(a: int, b: int)
    ensures RealPow2(a) * RealPow2(b) == RealPow2(a + b)
  {
    hide RealPow2;
    if b >= 0 {
      RealPow2Product(a, b);
    } else if a >= 0 {
      RealPow2Product(b, a);
    } else {
      RealPow2Product(a + b, -b);
      RealPow2Product(b, -b);
      UnitPower();
      var x, y, z := RealPow2(a + b), RealPow2(b), RealPow2(-b);
      assert y * z == 1.0 && x * z == RealPow2(a);
      assert (x * z) * y == x * (y * z);
    }
  }

  lemma UnitPower()
    ensures RealPow2(0) == 1.0
  {
    assert Pow2(0) == 1;
  }

  /** A shift rounds down by less than one. */
  lemma ShiftedBetween(n: int, e: int)
    ensures 0.0 <= (n as real) * RealPow2(e) - (Shifted(n, e) as real) < 1.0
  {
    ScaledFloor(n, e);
  }

  lemma Rescaled(v: real, f: real, bound: real)
    requires 0.0 <= v < bound && f > 0.0
    ensures 0.0 <= v * f < bound * f
  {
    RealPositive(v, f);
    RealPositive(bound - v, f);
    assert (bound - v) * f == bound * f - v * f;
  }
}
