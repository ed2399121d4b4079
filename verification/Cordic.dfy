// The CORDIC recurrence of the oscillator: shift-and-add rotations steered by the sign of the
// residual angle, with an arbitrary table of angles.

module Cordic {
  import opened Arith

  /** Vector and residual angle. */
  datatype Rotor = Rotor(x: int, y: int, a: int)

  /** One rotation by the k-th angle; the shifts round towards minus infinity. */
  function Turn(r: Rotor, k: nat, angle: int): Rotor {
    var dx, dy := r.x / Pow2(k), r.y / Pow2(k);
    if r.a >= 0 then Rotor(r.x - dy, r.y + dx, r.a - angle)
    else Rotor(r.x + dy, r.y - dx, r.a + angle)
  }

  function Turns(rom: seq<int>, start: Rotor, n: nat): Rotor
    requires n <= |rom|
  {
    if n == 0 then start else Turn(Turns(rom, start, n - 1), n - 1, rom[n - 1])
  }

  // ---------- magnitude ----------

  /** 2^-k and the squared stretch of the first n rotations. */
  function Half(k: nat): (q: real)
    ensures 0.0 < q <= 1.0
  {
    if k == 0 then 1.0 else Half(k - 1) / 2.0
  }

  function Stretch(n: nat): real {
    if n == 0 then 1.0 else Stretch(n - 1) * (1.0 + Half(n - 1) * Half(n - 1))
  }

  lemma {:induction false} HalfIsInverse(k: nat)
    ensures Half(k) * (Pow2(k) as real) == 1.0
  {
    if k > 0 {
      HalfIsInverse(k - 1);
      assert Pow2(k) as real == 2.0 * (Pow2(k - 1) as real);
    }
  }

  /** The product of the (1 + 4^-k) stays below 3, for any number of factors. */
  lemma {:induction false} StretchBound(n: nat)
    requires n > 0
    ensures 1.0 <= Stretch(n) <= 3.0 - 4.0 * (Half(n) * Half(n))
  {
    if n == 1 {
      assert Stretch(0) == 1.0 && Half(0) == 1.0 && Half(1) == 0.5;
    } else {
      StretchBound(n - 1);
      NextFactor(Stretch(n - 1), Half(n - 1) * Half(n - 1));
      RealSquare(Half(n - 1));
    }
  }

  lemma NextFactor(p: real, q: real)
    requires q >= 0.0 && 1.0 <= p <= 3.0 - 4.0 * q
    ensures 1.0 <= p * (1.0 + q) <= 3.0 - q
  {
    NextFactorAtLeast(p, q);
    RealMonotonic(p, 3.0 - 4.0 * q, 1.0 + q);
    RealSquare(q);
  }

  lemma NextFactorAtLeast(p: real, q: real)
    requires q >= 0.0 && 1.0 <= p
    ensures 1.0 <= p * (1.0 + q)
  {
    RealMonotonic(1.0, p, 1.0 + q);
  }

  /** A coordinate of a vector inside a circle. */
  lemma Inside(x: real, p: real, c: real, rest: real)
    requires p >= 1.0 && c >= 0.0 && rest >= 0.0 && x * x + rest <= p * (c * c)
    ensures p * c >= 0.0 && -(p * c) <= x <= p * c
  {
    RealPositive(p, c);
    RealSquare(c);
    RealMonotonic(1.0, p, p * (c * c));
    RealPositive(p, c * c);
    assert p * (p * (c * c)) == (p * c) * (p * c);
    SquareRoot(x, p * c);
  }

  lemma SquareRoot(x: real, b: real)
    requires b >= 0.0 && x * x <= b * b
    ensures -b <= x <= b
  {
    if x > b {
      SquareGrows(b, x);
    } else if x < -b {
      SquareGrows(b, -x);
    }
  }

  lemma SquareGrows(b: real, x: real)
    requires x > b >= 0.0
    ensures x * x > b * b && (-x) * (-x) > b * b
  {
    SquareGrowsBy(b, x - b);
    assert b + (x - b) == x;
  }

  lemma SquareGrowsBy(b: real, d: real)
    requires b >= 0.0 && d > 0.0
    ensures (b + d) * (b + d) > b * b
  {
    RealPositive(d, d);
    RealPositive(d, b);
  }

  lemma Scaled(x: real, b: real, u: real)
    requires -b <= x <= b && 0.0 <= u <= 1.0
    ensures x * u <= b
  {
    RealMonotonic(x, b, u);
    RealMonotonic(u, 1.0, b);
  }

  /** Moving a coordinate by at most one. */
  lemma NudgeOne(x: real, u: real, b: real)
    requires -b <= x <= b && -1.0 <= u <= 1.0
    ensures (x + u) * (x + u) <= x * x + 2.0 * b + 1.0
  {
    if u >= 0.0 {
      NudgeUp(x, u, b);
    } else {
      NudgeUp(-x, -u, b);
      assert (-x + -u) * (-x + -u) == (x + u) * (x + u) && (-x) * (-x) == x * x;
    }
  }

  lemma NudgeUp(x: real, u: real, b: real)
    requires -b <= x <= b && 0.0 <= u <= 1.0
    ensures (x + u) * (x + u) <= x * x + 2.0 * b + 1.0
  {
    Scaled(x, b, u);
    Scaled(u, 1.0, u);
  }

  /** A vector inside a circle, moved by at most one in each coordinate. */
  lemma Nudge(x: real, y: real, x': real, y': real, p: real, c: real, c': real)
    requires p >= 1.0 && c >= 0.0 && x * x + y * y <= p * (c * c) && c' == c + 2.0
    requires -1.0 <= x' - x <= 1.0 && -1.0 <= y' - y <= 1.0
    ensures x' * x' + y' * y' <= p * (c' * c')
  {
    RealSquare(x);
    RealSquare(y);
    Inside(x, p, c, y * y);
    Inside(y, p, c, x * x);
    NudgeOne(x, x' - x, p * c);
    NudgeOne(y, y' - y, p * c);
    assert x + (x' - x) == x' && y + (y' - y) == y';
    assert p * (c' * c') == p * (c * c) + 4.0 * (p * c) + 4.0 * p;
  }

  /** The exact rotation stretches by 1 + q^2. */
  lemma RotateExactly(x: real, y: real, q: real)
    ensures (x - y * q) * (x - y * q) + (y + x * q) * (y + x * q) == (x * x + y * y) * (1.0 + q * q)
  {
    assert (x - y * q) * (x - y * q) == x * x - 2.0 * (x * (y * q)) + (y * y) * (q * q);
    assert (y + x * q) * (y + x * q) == y * y + 2.0 * (x * (y * q)) + (x * x) * (q * q);
  }

  /** Shifting is multiplying by 2^-k, less a fraction. */
  lemma ShiftFraction(v: int, k: nat)
    ensures 0.0 <= (v as real) * Half(k) - ((v / Pow2(k)) as real) < 1.0
  {
    HalfIsInverse(k);
    DivModDef(v, Pow2(k));
    Fraction(v, Pow2(k), v / Pow2(k), v % Pow2(k), Half(k));
  }

  lemma Fraction(v: int, p: int, q: int, r: int, h: real)
    requires v == q * p + r && 0 <= r < p && h > 0.0 && h * (p as real) == 1.0
    ensures 0.0 <= (v as real) * h - (q as real) < 1.0
  {
    RealProduct(q, p);
    assert ((q as real) * (p as real)) * h == (q as real) * (h * (p as real));
    assert (v as real) * h == ((q as real) * (p as real)) * h + (r as real) * h;
    RealPositive(r as real, h);
    RealPositive((p - r) as real, h);
    assert ((p - r) as real) * h == (p as real) * h - (r as real) * h;
  }

  /** (x, y) lies in the circle of squared radius p * c^2. */
  ghost predicate InCircle(x: real, y: real, p: real, c: real) {
    x * x + y * y <= p * (c * c)
  }

  ghost predicate RotorInCircle(r: Rotor, p: real, c: real) {
    InCircle(r.x as real, r.y as real, p, c)
  }

  /** The exact rotation of a vector inside a circle. */
  lemma RotateInside(x: real, y: real, q: real, p: real, p': real, c: real)
    requires p >= 1.0 && x * x + y * y <= p * (c * c) && p' == p * (1.0 + q * q)
    ensures p' >= 1.0
    ensures (x - y * q) * (x - y * q) + (y + x * q) * (y + x * q) <= p' * (c * c)
  {
    RealSquare(q);
    NextFactorAtLeast(p, q * q);
    RotateExactly(x, y, q);
    Stretched(x * x + y * y, p, c * c, 1.0 + q * q);
  }

  lemma Stretched(s: real, p: real, cc: real, f: real)
    requires s <= p * cc && f >= 0.0
    ensures s * f <= (p * f) * cc
  {
    RealMonotonic(s, p * cc, f);
    assert (p * cc) * f == (p * f) * cc;
  }

  /** (x', y') is within one of (x, y) rotated exactly, in each coordinate. */
  ghost predicate Near(x': real, y': real, x: real, y: real, q: real) {
    -1.0 <= x' - (x - y * q) <= 1.0 && -1.0 <= y' - (y + x * q) <= 1.0
  }

  /** The rounded rotation: each coordinate within one of the exact one. */
  lemma RoundedTurn(x: real, y: real, x': real, y': real, q: real, qq: real,
                    p: real, p': real, c: real, c': real)
    requires p >= 1.0 && c >= 0.0 && InCircle(x, y, p, c)
    requires qq == q * q && p' == p * (1.0 + qq) && c' == c + 2.0
    requires Near(x', y', x, y, q)
    ensures InCircle(x', y', p', c')
  {
    RotateInside(x, y, q, p, p', c);
    Nudge(x - y * q, y + x * q, x', y', p', c, c');
  }

  /** A turn in either direction is within one of the exact rotation by q or -q. */
  lemma TurnIsRotation(r: Rotor, k: nat, angle: int) returns (q: real)
    ensures q == (if r.a >= 0 then Half(k) else -Half(k)) && q * q == Half(k) * Half(k)
    ensures Near(Turn(r, k, angle).x as real, Turn(r, k, angle).y as real, r.x as real, r.y as real, q)
  {
    hide Near, Half, Turn;
    var h, dx, dy := Half(k), r.x / Pow2(k), r.y / Pow2(k);
    ShiftFraction(r.x, k);
    ShiftFraction(r.y, k);
    q := if r.a >= 0 then h else -h;
    Negated(h, h);
    RoundedNear(r.x as real, r.y as real, dx as real, dy as real, h);
    TurnParts(r, k, angle, dx, dy);
  }

  lemma TurnParts(r: Rotor, k: nat, angle: int, dx: int, dy: int)
    requires dx == r.x / Pow2(k) && dy == r.y / Pow2(k)
    ensures var t := Turn(r, k, angle);
            && t.x as real == (if r.a >= 0 then r.x as real - dy as real else r.x as real + dy as real)
            && t.y as real == (if r.a >= 0 then r.y as real + dx as real else r.y as real - dx as real)
  {
  }

  /** Subtracting and adding the floors instead of the products. */
  lemma RoundedNear(x: real, y: real, dx: real, dy: real, h: real)
    requires 0.0 <= x * h - dx < 1.0 && 0.0 <= y * h - dy < 1.0
    ensures Near(x - dy, y + dx, x, y, h) && Near(x + dy, y - dx, x, y, -h)
  {
    Negated(x, h);
    Negated(y, h);
  }

  lemma Negated(v: real, h: real)
    ensures v * -h == -(v * h) && (-h) * (-h) == h * h
  {
  }

  lemma TurnGrowth(r: Rotor, k: nat, angle: int, p: real, p': real, c: real, c': real)
    requires p >= 1.0 && c >= 0.0 && RotorInCircle(r, p, c)
    requires p' == p * (1.0 + Half(k) * Half(k)) && c' == c + 2.0
    ensures RotorInCircle(Turn(r, k, angle), p', c')
  {
    var t := Turn(r, k, angle);
    var q := TurnIsRotation(r, k, angle);
    hide Turn, InCircle, Near;
    RoundedTurn(r.x as real, r.y as real, t.x as real, t.y as real, q, Half(k) * Half(k), p, p', c, c');
  }

  lemma {:induction false} TurnsGrowth(rom: seq<int>, start: Rotor, n: nat, c: real)
    requires n <= |rom| && start.x >= 0 && start.y == 0 && c == (start.x + 2 * n) as real
    ensures Stretch(n) >= 1.0
    ensures RotorInCircle(Turns(rom, start, n), Stretch(n), c)
  {
    if n > 0 {
      TurnsGrowth(rom, start, n - 1, c - 2.0);
      TurnGrowth(Turns(rom, start, n - 1), n - 1, rom[n - 1], Stretch(n - 1), Stretch(n), c - 2.0, c);
      StretchBound(n);
    }
  }

  /** Whatever the table and the starting angle, the rotor stays in a circle of radius
      sqrt(3) * (x0 + 2 * n). */
  lemma MagnitudeBound(rom: seq<int>, x0: nat, a: int, n: nat)
    requires n <= |rom|
    ensures var r := Turns(rom, Rotor(x0, 0, a), n);
            r.x * r.x + r.y * r.y <= 3 * ((x0 + 2 * n) * (x0 + 2 * n))
  {
    var r := Turns(rom, Rotor(x0, 0, a), n);
    TurnsGrowth(rom, Rotor(x0, 0, a), n, (x0 + 2 * n) as real);
    StretchBelowThree(n);
    ToIntegers(r.x, r.y, x0 + 2 * n, Stretch(n));
  }

  lemma StretchBelowThree(n: nat)
    ensures Stretch(n) <= 3.0
  {
    if n > 0 {
      StretchBound(n);
      RealSquare(Half(n));
    }
  }

  lemma ToIntegers(x: int, y: int, c: int, p: real)
    requires p <= 3.0 && InCircle(x as real, y as real, p, c as real)
    ensures x * x + y * y <= 3 * (c * c)
  {
    RealProduct(x, x);
    RealProduct(y, y);
    RealProduct(c, c);
    RealSquare(c as real);
    RealMonotonic(p, 3.0, (c as real) * (c as real));
  }

  // ---------- rounding ----------

  datatype Vector = Vector(x: real, y: real)

  /** The exact rotation by the angle of tangent q, stretched by the root of 1 + q^2. */
  function Rotated(v: Vector, q: real): Vector {
    Vector(v.x - v.y * q, v.y + v.x * q)
  }

  /** 2^-k. */
  function Tangent(k: nat): real {
    1.0 / (Pow2(k) as real)
  }

  /** The rotations without rounding: by the angles of tangent 2^-k, upwards while the residual is
      not negative. */
  function Ideal(rom: seq<int>, start: Rotor, n: nat): Vector
    requires n <= |rom|
  {
    if n == 0 then Vector(start.x as real, start.y as real)
    else
      Rotated(Ideal(rom, start, n - 1), if Turns(rom, start, n - 1).a >= 0 then Tangent(n - 1) else -Tangent(n - 1))
  }

  lemma TangentIsHalf(k: nat)
    ensures Tangent(k) == Half(k)
  {
    HalfIsInverse(k);
    var p := Pow2(k) as real;
    assert (Half(k) - 1.0 / p) * p == 0.0;
  }

  /** The square of the length of v is a * s. */
  ghost predicate HasLength(v: Vector, a: real, s: real) {
    v.x * v.x + v.y * v.y == a * s
  }

  /** The length of the exact vector grows by the known factor, whatever the signs. */
  lemma {:induction false} IdealLength(rom: seq<int>, start: Rotor, n: nat, length: real)
    requires n <= |rom| && HasLength(Vector(start.x as real, start.y as real), length, 1.0)
    ensures HasLength(Ideal(rom, start, n), length, Stretch(n))
  {
    hide HasLength, Rotated, Half, Tangent, Turn;
    if n > 0 {
      IdealLength(rom, start, n - 1, length);
      TangentIsHalf(n - 1);
      var h := Half(n - 1);
      RotatedLength(Ideal(rom, start, n - 1), h, length, Stretch(n - 1), Stretch(n));
    }
  }

  lemma RotatedLength(v: Vector, h: real, length: real, p: real, p': real)
    requires HasLength(v, length, p) && p' == p * (1.0 + h * h)
    ensures HasLength(Rotated(v, h), length, p') && HasLength(Rotated(v, -h), length, p')
  {
    RotateExactly(v.x, v.y, h);
    RotateExactly(v.x, v.y, -h);
    Negated(h, h);
    assert (length * p) * (1.0 + h * h) == length * (p * (1.0 + h * h));
  }

  /** The integer vector stays near the exact one: rounding adds at most 2 to the radius per turn. */
  lemma {:induction false} TurnsError(rom: seq<int>, start: Rotor, n: nat)
    requires n <= |rom|
    ensures Stretch(n) >= 1.0
    ensures var t, v := Turns(rom, start, n), Ideal(rom, start, n);
            InCircle(t.x as real - v.x, t.y as real - v.y, Stretch(n), (2 * n) as real)
  {
    hide InCircle, Turn, Rotated, Half, Tangent;
    if n > 0 {
      TurnsError(rom, start, n - 1);
      ErrorGrowth(Turns(rom, start, n - 1), Ideal(rom, start, n - 1), n - 1, rom[n - 1],
                  Stretch(n - 1), Stretch(n), (2 * n - 2) as real, (2 * n) as real);
      TangentIsHalf(n - 1);
      StretchBound(n);
    } else {
      NoError();
    }
  }

  lemma NoError()
    ensures InCircle(0.0, 0.0, 1.0, 0.0)
  {
  }

  lemma ErrorGrowth(r: Rotor, v: Vector, k: nat, angle: int, p: real, p': real, c: real, c': real)
    requires p >= 1.0 && c >= 0.0 && InCircle(r.x as real - v.x, r.y as real - v.y, p, c)
    requires p' == p * (1.0 + Half(k) * Half(k)) && c' == c + 2.0
    ensures var t, w := Turn(r, k, angle), Rotated(v, if r.a >= 0 then Half(k) else -Half(k));
            InCircle(t.x as real - w.x, t.y as real - w.y, p', c')
  {
    hide Turn, InCircle, Half, Near, Rotated;
    var t := Turn(r, k, angle);
    var q := TurnIsRotation(r, k, angle);
    ErrorNear(r.x as real, r.y as real, v, t.x as real, t.y as real, q);
    var w, hh := Rotated(v, q), Half(k) * Half(k);
    ErrorInside(r.x as real - v.x, r.y as real - v.y, t.x as real - w.x, t.y as real - w.y, q, hh, p, p', c, c');
  }

  lemma ErrorInside(x: real, y: real, x': real, y': real, q: real, hh: real, p: real, p': real, c: real, c': real)
    requires p >= 1.0 && c >= 0.0 && InCircle(x, y, p, c) && Near(x', y', x, y, q)
    requires q * q == hh && p' == p * (1.0 + hh) && c' == c + 2.0
    ensures InCircle(x', y', p', c')
  {
    hide InCircle, Near;
    RoundedTurn(x, y, x', y', q, hh, p, p', c, c');
  }

  /** What rounding adds to the error is at most one in each coordinate. */
  lemma ErrorNear(x: real, y: real, v: Vector, x': real, y': real, q: real)
    requires Near(x', y', x, y, q)
    ensures Near(x' - Rotated(v, q).x, y' - Rotated(v, q).y, x - v.x, y - v.y, q)
  {
    Differs(x, v.x, q);
    Differs(y, v.y, q);
  }

  lemma Differs(a: real, b: real, q: real)
    ensures (a - b) * q == a * q - b * q
  {
  }

  /** Whatever the table and the start, n turns of rounding move the result by no more than
      sqrt(3) * 2n from what the exact rotations give. */
  lemma RoundingError(rom: seq<int>, start: Rotor, n: nat)
    requires n <= |rom|
    ensures var t, v := Turns(rom, start, n), Ideal(rom, start, n);
            InCircle(t.x as real - v.x, t.y as real - v.y, 3.0, (2 * n) as real)
  {
    hide InCircle;
    var t, v := Turns(rom, start, n), Ideal(rom, start, n);
    TurnsError(rom, start, n);
    StretchBelowThree(n);
    WiderCircle(t.x as real - v.x, t.y as real - v.y, Stretch(n), 3.0, (2 * n) as real);
  }

  lemma WiderCircle(x: real, y: real, p: real, p': real, c: real)
    requires InCircle(x, y, p, c) && p <= p'
    ensures InCircle(x, y, p', c)
  {
    RealSquare(c);
    RealMonotonic(p, p', c * c);
  }

  /** So both coordinates fit in mpr + 7 bits when the start fits in mpr - 1 and mpr <= 32. */
  lemma CoordinatesFit(rom: seq<int>, x0: nat, a: int, mpr: nat)
    requires 1 <= mpr <= 32 && mpr <= |rom| && x0 <= Pow2(mpr - 1)
    ensures var r := Turns(rom, Rotor(x0, 0, a), mpr);
            -Pow2(mpr + 7) < r.x < Pow2(mpr + 7) && -Pow2(mpr + 7) < r.y < Pow2(mpr + 7)
  {
    var r, c := Turns(rom, Rotor(x0, 0, a), mpr), x0 + 2 * mpr;
    MagnitudeBound(rom, x0, a, mpr);
    Pow2Add(mpr - 1, 8);
    assert Pow2(8) == 256;
    assert c <= 65 * Pow2(mpr - 1);
    SquareNonNegative(r.x);
    SquareNonNegative(r.y);
    RootBound(r.x, c, r.y * r.y);
    RootBound(r.y, c, r.x * r.x);
  }

  lemma SquareNonNegative(x: int)
    ensures x * x >= 0
  {
  }

  lemma RootBound(x: int, c: int, rest: int)
    requires c >= 0 && rest >= 0 && x * x + rest <= 3 * (c * c)
    ensures -(2 * c) <= x <= 2 * c
  {
    SquareNonNegative(c);
    if x > 2 * c {
      MulMonotonic(2 * c, x, x);
      MulMonotonic(2 * c, x, 2 * c);
    } else if x < -(2 * c) {
      MulMonotonic(2 * c, -x, -x);
      MulMonotonic(2 * c, -x, 2 * c);
    }
  }

  // ---------- angle ----------

  /** rom[k] + ... + rom[n - 1]. */
  function Reach(rom: seq<int>, k: nat): int
    requires k <= |rom|
    decreases |rom| - k
  {
    if k == |rom| then 0 else rom[k] + Reach(rom, k + 1)
  }

  /** Each angle is at most what the later ones, the last once more, and the slack can undo. */
  predicate Covering(rom: seq<int>, slack: int) {
    |rom| > 0 && forall k :: 0 <= k < |rom| ==> rom[k] <= Reach(rom, k + 1) + rom[|rom| - 1] + slack
  }

  lemma {:induction false} ResidualBefore(rom: seq<int>, start: Rotor, slack: int, k: nat)
    requires Covering(rom, slack) && k <= |rom|
    requires Abs(start.a) <= Reach(rom, 0) + rom[|rom| - 1] + slack
    ensures Abs(Turns(rom, start, k).a) <= Reach(rom, k) + rom[|rom| - 1] + slack
  {
    if k > 0 {
      ResidualBefore(rom, start, slack, k - 1);
    }
  }

  /** After all rotations the angle left over is at most the last table entry plus the slack. */
  lemma ResidualBound(rom: seq<int>, start: Rotor, slack: int)
    requires Covering(rom, slack)
    requires Abs(start.a) <= Reach(rom, 0) + rom[|rom| - 1] + slack
    ensures Abs(Turns(rom, start, |rom|).a) <= rom[|rom| - 1] + slack
  {
    ResidualBefore(rom, start, slack, |rom|);
  }

  /** The rotor ends having turned by the start angle less the residual: every table entry is
      used once, with one sign or the other. */
  function AngleTurned(rom: seq<int>, start: Rotor, n: nat): int
    requires n <= |rom|
  {
    if n == 0 then 0
    else AngleTurned(rom, start, n - 1)
         + (if Turns(rom, start, n - 1).a >= 0 then rom[n - 1] else -rom[n - 1])
  }

  lemma {:induction false} AngleAccounted(rom: seq<int>, start: Rotor, n: nat)
    requires n <= |rom|
    ensures AngleTurned(rom, start, n) + Turns(rom, start, n).a == start.a
  {
    if n > 0 {
      AngleAccounted(rom, start, n - 1);
    }
  }
}
