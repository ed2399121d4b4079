// The oscillator model: phase accumulator, phase-to-address mapping and the two CORDIC engines.
// One engine works on integers with shifts and masks, the other on reals with division and
// floor; over exact numbers they are the same oscillator.

module Nco {
  import opened Arith
  import opened Cordic
  import opened Doubles

  // ---------- engines ----------

  /** The two engines differ in the remainder they take. */
  datatype Engine = Serial | Parallel {
    function Reduce(a: int, b: int): int
      requires b > 0
    {
      if this == Serial then CMod(a, b) else SubtractMod(a, b)
    }
  }

  lemma ReduceNonNegative(e: Engine, a: int, b: int)
    requires b > 0 && a >= 0
    ensures e.Reduce(a, b) == a % b
  {
    ReducedTwice(a, b);
  }

  /** Either remainder is congruent to the dividend. */
  lemma ReduceCong(e: Engine, a: int, b: int)
    requires b > 0
    ensures Cong(e.Reduce(a, b), a, b)
  {
    var r := e.Reduce(a, b);
    if r == a {
      CongIntro(r, a, b, 0);
    } else if a >= 0 {
      DivModDef(a, b);
      CongIntro(r, a, b, 0 - a / b);
    } else {
      DivModDef(-a, b);
      CongIntro(r, a, b, (-a) / b);
    }
  }

  // ---------- parameters ----------

  /** Widths of the phase accumulator, of the address and of the phase modulation input, and whether
      the address is modulated and dithered. */
  datatype Widths = Widths(apr: nat, apri: nat, aprp: nat, modulated: bool, dithered: bool) {
    predicate Valid() {
      1 <= apri <= apr
    }

    function Quarter(): nat {
      Pow2(apri) / 2
    }

    function Circle(): nat {
      2 * Pow2(apri)
    }

    /** Width of the address while it is dithered. */
    function Wide(): nat {
      apri + 5
    }
  }

  /** What goes in at each sample: phase increment with frequency modulation, phase modulation, and
      the value of the dither sequence. */
  datatype Inputs = Inputs(inc: seq<int>, pm: seq<int>, dither: seq<int>) {
    predicate Valid() {
      |inc| == |pm| == |dither|
    }
  }

  // ---------- reference ----------

  /** Address bits of the phase: one more bit than the phase carries when the widths agree. */
  function Truncate(w: Widths, phase: int): int
    requires w.Valid()
  {
    if w.apr == w.apri then 2 * phase else phase / Pow2(w.apr - w.apri - 1)
  }

  /** The modulation is added in units of 2^-s of an address step, or of 2^-s steps when s < 0. */
  function Modulate(w: Widths, base: int, pm: int): int {
    var s := w.aprp - w.apri - 1;
    if !w.modulated then base
    else if s >= 0 then base + pm / Pow2(s)
    else base - base % Pow2(-s) + pm * Pow2(-s)
  }

  /** The phase in the wide address, with the dither added; a negative sum goes round once. */
  function AddDither(w: Widths, phase: int, d: int): int {
    var sum := Shifted(phase, w.Wide() - w.apr) + d;
    if sum < 0 then sum + Pow2(w.Wide()) else sum
  }

  /** The modulation is added in its own width; either way the extra bits are dropped. */
  function DropDither(w: Widths, a: int, pm: int): int {
    if w.modulated then Shifted(Shifted(a, w.aprp - w.Wide()) + pm, w.apri + 1 - w.aprp)
    else Shifted(a, -4)
  }

  function Address(e: Engine, w: Widths, phase: int, pm: int, d: int): int
    requires w.Valid()
  {
    if w.dithered then SubtractMod(DropDither(w, AddDither(w, phase, d), pm), w.Circle())
    else e.Reduce(Modulate(w, Truncate(w, phase), pm), w.Circle())
  }

  function PositiveQuarter(w: Widths): (q: int)
    requires w.Valid()
    ensures q == w.Quarter() > 0
  {
    assert Pow2(w.apri) == 2 * Pow2(w.apri - 1);
    w.Quarter()
  }

  lemma HalfIsQuarter(w: Widths)
    requires w.Valid()
    ensures PositiveQuarter(w) == w.Quarter() == Pow2(w.apri) / 2 && Pow2(w.apri) == 2 * w.Quarter()
  {
    var p, h := Pow2(w.apri), Pow2(w.apri - 1);
    assert p == 2 * h;
    assert p / 2 == h;
  }

  /** The rotor after all turns, from the angle of an address within its quadrant. */
  function Turned(e: Engine, w: Widths, rom: seq<int>, x0: int, address: int): Rotor
    requires w.Valid()
  {
    Turns(rom, Rotor(x0, 0, e.Reduce(address, PositiveQuarter(w))), |rom|)
  }

  function Quadrant(w: Widths, address: int): (k: nat)
    ensures k < 4
  {
    var q := w.Quarter();
    if address < q then 0 else if address < 2 * q then 1 else if address < 3 * q then 2 else 3
  }

  /** Sine and cosine from the rotor of the first quadrant. */
  function Unfold(quadrant: nat, r: Rotor): (int, int) {
    if quadrant == 0 then (r.y, r.x)
    else if quadrant == 1 then (r.x, -r.y)
    else if quadrant == 2 then (-r.y, -r.x)
    else (-r.x, r.y)
  }

  function Output(e: Engine, w: Widths, rom: seq<int>, x0: int, address: int): (int, int)
    requires w.Valid()
  {
    Unfold(Quadrant(w, address), Turned(e, w, rom, x0, address))
  }

  /** Phase before sample i. */
  function Phase(e: Engine, w: Widths, inc: seq<int>, i: nat): int
    requires i <= |inc|
  {
    if i == 0 then 0 else e.Reduce(Phase(e, w, inc, i - 1) + inc[i - 1], Pow2(w.apr))
  }

  /** The address of sample i. */
  function AddressAt(e: Engine, w: Widths, input: Inputs, i: nat): int
    requires w.Valid() && input.Valid() && i < |input.inc|
  {
    Address(e, w, Phase(e, w, input.inc, i), input.pm[i], input.dither[i])
  }

  /** What sample i of a run must deliver. */
  function Sample(e: Engine, w: Widths, rom: seq<int>, x0: int, input: Inputs, i: nat): (int, int)
    requires w.Valid() && input.Valid() && i < |input.inc|
  {
    Output(e, w, rom, x0, AddressAt(e, w, input, i))
  }

  // ---------- the serial engine ----------

  class SerialCordic {
    const w: Widths
    const rom: seq<int>
    const x0: int
    var phiAcc: int

    constructor (widths: Widths, angles: seq<int>, start: int)
      ensures w == widths && rom == angles && x0 == start && phiAcc == 0
    {
      w, rom, x0, phiAcc := widths, angles, start, 0;
    }

    method Accumulate(phiInc: int, freqMod: int)
      modifies this
      ensures phiAcc == CMod(old(phiAcc) + phiInc + freqMod, Pow2(w.apr))
    {
      phiAcc := phiAcc + (phiInc + freqMod);
      phiAcc := CMod(phiAcc, Pow2(w.apr));
    }

    method CalculateAddress(phaseMod: int, dither: int) returns (addr: int)
      requires w.Valid()
      ensures addr == Address(Serial, w, phiAcc, phaseMod, dither)
    {
      if w.dithered {
        addr := DitheredAddress(phaseMod, dither);
      } else {
        addr := PlainAddress(phaseMod);
        addr := CMod(addr, 2 * Pow2(w.apri));
      }
    }

    method PlainAddress(phaseMod: int) returns (addr: int)
      requires w.Valid()
      ensures addr == Modulate(w, Truncate(w, phiAcc), phaseMod)
    {
      if w.apr == w.apri {
        addr := phiAcc * 2;
      } else {
        addr := phiAcc / Pow2(w.apr - w.apri - 1);
      }
      ghost var base := addr;
      if w.modulated {
        var shift := w.aprp - w.apri - 1;
        if shift >= 0 {
          addr := addr * Pow2(shift);
          addr := (addr + phaseMod) / Pow2(shift);
          AddMultiple(phaseMod, Pow2(shift), base);
        } else {
          addr := addr / Pow2(-shift);
          addr := (addr + phaseMod) * Pow2(-shift);
          ClearLow(base, phaseMod, Pow2(-shift));
        }
      }
    }

    /** With dither this engine, too, computes in doubles and reduces by subtraction. */
    method DitheredAddress(phaseMod: int, dither: int) returns (addr: int)
      requires w.Valid()
      ensures addr == SubtractMod(DropDither(w, AddDither(w, phiAcc, dither), phaseMod), w.Circle())
    {
      var aprid := w.apri + 5;
      if aprid > w.apr {
        addr := phiAcc * Pow2(aprid - w.apr);
      } else {
        ScaledFloor(phiAcc, w.apr - aprid);
        addr := ((phiAcc as real) / RealPow2(w.apr - aprid)).Floor;
      }
      addr := addr + dither;
      if addr < 0 {
        addr := addr + Pow2(aprid);
      }
      addr := WithoutDither(w, addr, phaseMod);
      ghost var sum := addr;
      var reduced := DblMod(addr as real, 2.0 * (Pow2(w.apri) as real), sum, w.Circle());
      addr := reduced.Floor;
    }

    /** The iterations: each turns by its arctangent towards angle zero. */
    method Rotate(angle: int) returns (x: int, y: int)
      ensures var t := Turns(rom, Rotor(x0, 0, angle), |rom|); x == t.x && y == t.y
    {
      var a;
      x, y, a := x0, 0, angle;
      ghost var start := Rotor(x, y, a);
      var k := 0;
      while k < |rom|
        invariant 0 <= k <= |rom|
        invariant var t := Turns(rom, start, k); x == t.x && y == t.y && a == t.a
      {
        ghost var t := Turns(rom, start, k);
        var dx, dy := x / Pow2(k), y / Pow2(k);
        if a >= 0 {
          x, y, a := x - dy, y + dx, a - rom[k];
        } else {
          x, y, a := x + dy, y - dx, a + rom[k];
        }
        k := k + 1;
      }
    }

    /** The rotations, and the quadrant chosen by the address. */
    method Calculate(addr: int) returns (sin: int, cos: int)
      requires w.Valid()
      ensures (sin, cos) == Output(Serial, w, rom, x0, addr)
    {
      hide Turns, Turn, Pow2, CMod, Widths.Quarter, PositiveQuarter;
      var maxAddr := Pow2(w.apri);
      var half := maxAddr / 2;
      HalfIsQuarter(w);
      var x, y := Rotate(CMod(addr, half));
      if addr <= half - 1 {
        sin, cos := y, x;
      } else if addr <= maxAddr - 1 && addr > half - 1 {
        sin, cos := x, -y;
      } else if addr <= 3 * half - 1 && addr > maxAddr - 1 {
        sin, cos := -y, -x;
      } else {
        sin, cos := -x, y;
      }
    }
  }

  /** The tail of the dithered branch, the same in both engines. */
  method WithoutDither(w: Widths, a: int, phaseMod: int) returns (addr: int)
    ensures addr == DropDither(w, a, phaseMod)
  {
    hide RealPow2, Shifted;
    var aprid := w.apri + 5;
    if w.modulated {
      addr := AlignWidths(a, aprid, w.aprp);
      ghost var sum := addr + phaseMod;
      var s := addr as real + phaseMod as real;
      assert s == sum as real;
      addr := (s / RealPow2(w.aprp - w.apri - 1)).Floor;
      ScaledFloor(sum, w.aprp - w.apri - 1);
    } else {
      addr := ((a as real) / RealPow2(4)).Floor;
      ScaledFloor(a, 4);
    }
  }

  method AlignWidths(a: int, aprid: nat, aprp: nat) returns (addr: int)
    ensures addr == Shifted(a, aprp - aprid)
  {
    hide RealPow2, Shifted;
    if aprp > aprid {
      addr := ((a as real) * RealPow2(aprp - aprid)).Floor;
      ScaledFloor(a, aprp - aprid);
    } else {
      addr := ((a as real) / RealPow2(aprid - aprp)).Floor;
      ScaledFloor(a, aprid - aprp);
    }
  }

  /** Shifting down, adding and shifting back clears the low bits and adds whole steps. */
  lemma ClearLow(base: int, pm: int, p: int)
    requires p > 0
    ensures (base / p + pm) * p == base - base % p + pm * p
  {
    DivModDef(base, p);
    assert (base / p + pm) * p == (base / p) * p + pm * p;
  }

  predicate NonNegative(s: seq<int>) {
    forall i :: 0 <= i < |s| ==> s[i] >= 0
  }

  lemma {:induction false} PhaseNonNegative(e: Engine, w: Widths, inc: seq<int>, i: nat)
    requires i <= |inc| && NonNegative(inc)
    ensures 0 <= Phase(e, w, inc, i) < Pow2(w.apr)
  {
    if i > 0 {
      PhaseNonNegative(e, w, inc, i - 1);
      ReduceNonNegative(e, Phase(e, w, inc, i - 1) + inc[i - 1], Pow2(w.apr));
    }
  }

  function Sum(inc: seq<int>, i: nat): int
    requires i <= |inc|
  {
    if i == 0 then 0 else Sum(inc, i - 1) + inc[i - 1]
  }

  /** The phase is congruent to the sum of the increments so far, and for increments that are not
      negative it is that sum modulo the width of the accumulator. */
  lemma {:induction false} PhaseIsSum(e: Engine, w: Widths, inc: seq<int>, i: nat)
    requires i <= |inc|
    ensures Cong(Phase(e, w, inc, i), Sum(inc, i), Pow2(w.apr))
    ensures NonNegative(inc) ==> Phase(e, w, inc, i) == Sum(inc, i) % Pow2(w.apr)
  {
    hide Cong, Pow2;
    var m := Pow2(w.apr);
    if i == 0 {
      CongIntro(0, 0, m, 0);
    } else {
      PhaseIsSum(e, w, inc, i - 1);
      var p := Phase(e, w, inc, i - 1);
      ReduceCong(e, p + inc[i - 1], m);
      CongIntro(inc[i - 1], inc[i - 1], m, 0);
      CongAdd(p, Sum(inc, i - 1), inc[i - 1], inc[i - 1], m);
      CongTrans(Phase(e, w, inc, i), p + inc[i - 1], Sum(inc, i), m);
    }
    if NonNegative(inc) {
      PhaseNonNegative(e, w, inc, i);
      CongResidue(Phase(e, w, inc, i), Sum(inc, i), m);
    }
  }

  lemma CongResidue(a: int, b: int, m: nat)
    requires 0 <= a < m && Cong(a, b, m)
    ensures a == b % m
  {
    var k := CongElim(a, b, m);
    assert (0 - k) * m == 0 - k * m;
    DivModUnique(b, m, 0 - k, a);
  }

  /** A run of the serial engine: address, accumulate, rotate. */
  method SerialRun(w: Widths, rom: seq<int>, x0: int, phiInc: seq<int>, freqMod: seq<int>, pm: seq<int>,
                   dither: seq<int>, ghost input: Inputs)
    returns (sines: seq<int>, cosines: seq<int>)
    requires w.Valid() && |phiInc| == |freqMod| == |pm| == |dither|
    requires input.Valid() && |input.inc| == |phiInc| && input.pm == pm && input.dither == dither
    requires forall i :: 0 <= i < |phiInc| ==> input.inc[i] == phiInc[i] + freqMod[i]
    ensures |sines| == |cosines| == |pm|
    ensures forall i :: 0 <= i < |pm| ==> (sines[i], cosines[i]) == Sample(Serial, w, rom, x0, input, i)
  {
    hide Address, Output;
    var nco := new SerialCordic(w, rom, x0);
    sines, cosines := [], [];
    for i := 0 to |pm|
      invariant |sines| == |cosines| == i
      invariant nco.w == w && nco.rom == rom && nco.x0 == x0 && nco.phiAcc == Phase(Serial, w, input.inc, i)
      invariant forall k :: 0 <= k < i ==> (sines[k], cosines[k]) == Sample(Serial, w, rom, x0, input, k)
    {
      var addr := nco.CalculateAddress(pm[i], dither[i]);
      nco.Accumulate(phiInc[i], freqMod[i]);
      var s, c := nco.Calculate(addr);
      sines, cosines := sines + [s], cosines + [c];
    }
  }

  /** Every output of a run stays inside the circle of the rotor bound, whatever the input. */
  lemma OutputBound(e: Engine, w: Widths, rom: seq<int>, x0: nat, input: Inputs, i: nat)
    requires w.Valid() && input.Valid() && i < |input.inc|
    ensures var out := Sample(e, w, rom, x0, input, i);
            out.0 * out.0 + out.1 * out.1 <= 3 * ((x0 + 2 * |rom|) * (x0 + 2 * |rom|))
  {
    hide AddressAt, Turns;
    var address := AddressAt(e, w, input, i);
    MagnitudeBound(rom, x0, e.Reduce(address, PositiveQuarter(w)), |rom|);
    var r := Turned(e, w, rom, x0, address);
    Squares(r.x);
    Squares(r.y);
  }

  lemma Squares(x: int)
    ensures (-x) * (-x) == x * x
  {
  }

  /** With a covering table every address is resolved down to the last entry plus the slack. */
  lemma EveryAddressConverges(e: Engine, w: Widths, rom: seq<int>, x0: int, slack: int, address: int)
    requires w.Valid() && Covering(rom, slack) && (e == Parallel ==> address >= 0)
    requires w.Quarter() - 1 <= Reach(rom, 0) + rom[|rom| - 1] + slack
    ensures Abs(Turned(e, w, rom, x0, address).a) <= rom[|rom| - 1] + slack
  {
    var q := PositiveQuarter(w);
    if address >= 0 {
      ReduceNonNegative(e, address, q);
    }
    ResidualBound(rom, Rotor(x0, 0, e.Reduce(address, q)), slack);
  }

  // ---------- what an address means ----------

  /** A quarter turn takes (sine, cosine) to (cosine, -sine). */
  function QuarterTurns(k: nat, p: (int, int)): (int, int) {
    if k == 0 then p
    else
      var q := QuarterTurns(k - 1, p);
      (q.1, -q.0)
  }

  /** In the first quadrant sine and cosine are the coordinates of the rotor. */
  lemma FirstQuadrant(e: Engine, w: Widths, rom: seq<int>, x0: int, a: int)
    requires w.Valid() && 0 <= a < Pow2(w.apri) / 2
    ensures var t := Turns(rom, Rotor(x0, 0, a), |rom|); Output(e, w, rom, x0, a) == (t.y, t.x)
  {
    ReduceNonNegative(e, a, PositiveQuarter(w));
    DivModUnique(a, w.Quarter(), 0, a);
  }

  /** A quarter of the circle further, sine and cosine have turned by a quarter. */
  lemma NextQuadrant(e: Engine, w: Widths, rom: seq<int>, x0: int, a: int)
    requires w.Valid() && 0 <= a && a + Pow2(w.apri) / 2 < 2 * Pow2(w.apri)
    ensures Output(e, w, rom, x0, a + Pow2(w.apri) / 2) ==
            (Output(e, w, rom, x0, a).1, -Output(e, w, rom, x0, a).0)
  {
    hide Turns, Pow2, Engine.Reduce;
    var q := PositiveQuarter(w);
    HalfIsQuarter(w);
    ReduceNonNegative(e, a, q);
    ReduceNonNegative(e, a + q, q);
    AddMultiple(a, q, 1);
  }

  /** So the output at any address of the circle is that of its first-quadrant angle, turned by as
      many quarters. */
  lemma {:induction false} OutputByQuarters(e: Engine, w: Widths, rom: seq<int>, x0: int, a: nat, k: nat, r: nat)
    requires w.Valid() && r < Pow2(w.apri) / 2 && k < 4 && a == k * (Pow2(w.apri) / 2) + r
    ensures var t := Turns(rom, Rotor(x0, 0, r), |rom|); Output(e, w, rom, x0, a) == QuarterTurns(k, (t.y, t.x))
  {
    hide Output, Turns, Pow2;
    var q := Pow2(w.apri) / 2;
    if k == 0 {
      FirstQuadrant(e, w, rom, x0, r);
    } else {
      OutputByQuarters(e, w, rom, x0, a - q, k - 1, r);
      HalfIsQuarter(w);
      NextQuadrant(e, w, rom, x0, a - q);
    }
  }

  /** Without modulation and dither the address is the phase as a fraction of the circle. */
  lemma AddressOfPhase(e: Engine, w: Widths, phase: nat, pm: int, d: int)
    requires w.Valid() && !w.modulated && !w.dithered && phase < Pow2(w.apr)
    ensures Address(e, w, phase, pm, d) == phase * (2 * Pow2(w.apri)) / Pow2(w.apr) < 2 * Pow2(w.apri)
  {
    hide Pow2, Truncate, Engine.Reduce, Modulate;
    var c, m := 2 * Pow2(w.apri), Pow2(w.apr);
    TruncateIsFraction(w, phase);
    NotModulated(w, Truncate(w, phase), pm);
    var a := phase * c / m;
    MulMonotonic(phase + 1, m, c);
    QuotientBelow(phase * c, m, c);
    ReduceNonNegative(e, a, w.Circle());
    DivModUnique(a, c, 0, a);
  }

  lemma QuotientBelow(n: nat, m: nat, c: nat)
    requires n < m * c
    ensures 0 <= n / m < c
  {
    DivModDef(n, m);
    DivTowardZero(n, m);
    if n / m >= c {
      MulMonotonic(c, n / m, m);
    }
  }

  lemma TruncateIsFraction(w: Widths, phase: int)
    requires w.Valid()
    ensures Truncate(w, phase) == phase * (2 * Pow2(w.apri)) / Pow2(w.apr)
  {
    hide Pow2;
    var p := Pow2(w.apri);
    if w.apr == w.apri {
      assert phase * (2 * p) == (2 * phase) * p;
      DivModUnique(phase * (2 * p), p, 2 * phase, 0);
    } else {
      var s := w.apr - w.apri - 1;
      Pow2Add(w.apri + 1, s);
      Pow2Next(w.apri);
      CancelFactor(phase, 2 * p, Pow2(s));
    }
  }

  lemma Pow2Next(e: nat)
    ensures Pow2(e + 1) == 2 * Pow2(e)
  {
  }

  lemma CancelFactor(n: int, c: nat, m: nat)
    requires c > 0 && m > 0
    ensures (n * c) / (c * m) == n / m
  {
    DivModDef(n, m);
    var q, r := n / m, n % m;
    assert n * c == q * (c * m) + r * c;
    MulMonotonic(r + 1, m, c);
    DivModUnique(n * c, c * m, q, r * c);
  }

  /** The phase, the modulation and the dither, each as a part of the circle, in address steps. */
  function IdealAddress(w: Widths, phase: int, pm: int, d: int): real {
    (phase as real) * RealPow2(w.apri + 1 - w.apr)
    + (if w.modulated then (pm as real) * RealPow2(w.apri + 1 - w.aprp) else 0.0)
    + (if w.dithered then (d as real) * RealPow2(-4) else 0.0)
  }

  /** r is below v by less than two address steps and one of the modulation. */
  ghost predicate Follows(w: Widths, r: int, v: real) {
    0.0 <= v - (r as real) < 2.0 + RealPow2(w.apri + 1 - w.aprp)
  }

  /** In either engine and branch, for numbers of either sign, the address is these three added up,
      rounded down and brought into the circle. */
  lemma AddressFollows(e: Engine, w: Widths, phase: int, pm: int, d: int) returns (r: int)
    requires w.Valid()
    ensures Cong(Address(e, w, phase, pm, d), r, 2 * Pow2(w.apri))
    ensures Follows(w, r, IdealAddress(w, phase, pm, d))
  {
    hide Cong, Pow2, Follows, IdealAddress, Modulate, Truncate, DropDither, AddDither;
    if w.dithered {
      var sum := DropDither(w, AddDither(w, phase, d), pm);
      r := DitherFollows(w, phase, pm, d);
      ReduceCong(Parallel, sum, w.Circle());
      CongTrans(Address(e, w, phase, pm, d), sum, r, w.Circle());
    } else {
      r := Modulate(w, Truncate(w, phase), pm);
      PlainFollows(w, phase, pm, d);
      ReduceCong(e, r, w.Circle());
    }
  }

  lemma TruncateIsShift(w: Widths, phase: int)
    requires w.Valid()
    ensures Truncate(w, phase) == Shifted(phase, w.apri + 1 - w.apr)
  {
    assert Pow2(1) == 2;
  }

  lemma PlainFollows(w: Widths, phase: int, pm: int, d: int)
    requires w.Valid() && !w.dithered
    ensures Follows(w, Modulate(w, Truncate(w, phase), pm), IdealAddress(w, phase, pm, d))
  {
    hide Shifted, RealPow2, Truncate, Modulate;
    var base := Truncate(w, phase);
    TruncateIsShift(w, phase);
    ShiftedBetween(phase, w.apri + 1 - w.apr);
    if w.modulated {
      ModulateBetween(w, base, pm);
    } else {
      NotModulated(w, base, pm);
    }
  }

  lemma NotModulated(w: Widths, base: int, pm: int)
    requires !w.modulated
    ensures Modulate(w, base, pm) == base
  {
  }

  lemma ModulateBetween(w: Widths, base: int, pm: int)
    requires w.modulated
    ensures var v := base as real + (pm as real) * RealPow2(w.apri + 1 - w.aprp);
            0.0 <= v - (Modulate(w, base, pm) as real) < 1.0 + RealPow2(w.apri + 1 - w.aprp)
  {
    var s := w.aprp - w.apri - 1;
    ShiftedBetween(pm, -s);
    if s < 0 {
      RealProduct(pm, Pow2(-s));
    } else {
      assert Pow2(0) == 1;
    }
  }

  lemma DitherFollows(w: Widths, phase: int, pm: int, d: int) returns (r: int)
    requires w.Valid() && w.dithered
    ensures Cong(DropDither(w, AddDither(w, phase, d), pm), r, 2 * Pow2(w.apri))
    ensures Follows(w, r, IdealAddress(w, phase, pm, d))
  {
    hide Shifted, RealPow2, DropDither, Cong, Follows;
    var sum, a := Shifted(phase, w.Wide() - w.apr) + d, AddDither(w, phase, d);
    var q, g := DropDither(w, a, pm), RealPow2(-4);
    var turn := if sum < 0 then w.Circle() else 0;
    r := q - turn;
    CongIntro(q, r, w.Circle(), if sum < 0 then 1 else 0);
    DropBetween(w, a, pm);
    WideBetween(w, phase, d);
    WideCircle(w);
    OneRound(sum, Pow2(w.Wide()), g, w.Circle());
    var added := if w.modulated then (pm as real) * RealPow2(w.apri + 1 - w.aprp) else 0.0;
    var wide := (phase as real) * RealPow2(w.apri + 1 - w.apr) + (d as real) * g;
    assert IdealAddress(w, phase, pm, d) == wide + added;
    FollowsFrom(w, r, q, turn, (a as real) * g, (sum as real) * g, added, wide);
  }

  lemma FollowsFrom(w: Widths, r: int, q: int, turn: int, a: real, sum: real, added: real, wide: real)
    requires r == q - turn && a == sum + turn as real
    requires 0.0 <= a + added - (q as real) < 1.0 + RealPow2(w.apri + 1 - w.aprp) && 0.0 <= wide - sum < 1.0
    ensures Follows(w, r, wide + added)
  {
    assert r as real == q as real - turn as real;
  }

  lemma OneRound(sum: int, p: int, g: real, circle: int)
    requires (p as real) * g == circle as real
    ensures ((sum + p) as real) * g == (sum as real) * g + circle as real
  {
    assert (sum + p) as real == sum as real + p as real;
  }

  /** Dropping the dither bits and adding the modulation. */
  lemma DropBetween(w: Widths, a: int, pm: int)
    ensures var v := (a as real) * RealPow2(-4)
                     + (if w.modulated then (pm as real) * RealPow2(w.apri + 1 - w.aprp) else 0.0);
            0.0 <= v - (DropDither(w, a, pm) as real) < 1.0 + RealPow2(w.apri + 1 - w.aprp)
  {
    hide Shifted, RealPow2;
    if w.modulated {
      var e, up := w.apri + 1 - w.aprp, w.aprp - w.Wide();
      var b := Shifted(a, up);
      ShiftedBetween(a, up);
      Rescaled((a as real) * RealPow2(up) - (b as real), RealPow2(e), 1.0);
      RealPow2Sum(up, e);
      TwiceScaled(a as real, b as real, pm as real, RealPow2(up), RealPow2(e));
      ShiftedBetween(b + pm, e);
    } else {
      ShiftedBetween(a, -4);
    }
  }

  lemma TwiceScaled(a: real, b: real, pm: real, f: real, g: real)
    ensures (a * f - b) * g == a * (f * g) - b * g && (b + pm) * g == b * g + pm * g
  {
  }

  /** The phase in the wide address is sixteen times as fine. */
  lemma WideBetween(w: Widths, phase: int, d: int)
    ensures var sum := Shifted(phase, w.Wide() - w.apr) + d;
            var v := (phase as real) * RealPow2(w.apri + 1 - w.apr) + (d as real) * RealPow2(-4);
            0.0 <= v - (sum as real) * RealPow2(-4) < 1.0
  {
    hide Shifted, RealPow2;
    var e := w.Wide() - w.apr;
    var b := Shifted(phase, e);
    ShiftedBetween(phase, e);
    Sixteenth();
    Rescaled((phase as real) * RealPow2(e) - (b as real), RealPow2(-4), 1.0);
    RealPow2Sum(e, -4);
    TwiceScaled(phase as real, b as real, d as real, RealPow2(e), RealPow2(-4));
  }

  lemma Sixteenth()
    ensures RealPow2(-4) == 1.0 / 16.0
  {
    assert Pow2(4) == 16;
  }

  lemma WideCircle(w: Widths)
    ensures (Pow2(w.Wide()) as real) * RealPow2(-4) == (2 * Pow2(w.apri)) as real
  {
    Sixteenth();
    Pow2Add(w.apri, 5);
    assert Pow2(5) == 32;
  }

  /** A sample of a run with increments that are not negative, without modulation and dither: the
      sum of the increments before it, as a fraction of the circle, names the quarter and the angle. */
  lemma SampleOfRun(e: Engine, w: Widths, rom: seq<int>, x0: int, input: Inputs, i: nat)
    requires w.Valid() && !w.modulated && !w.dithered
    requires input.Valid() && i < |input.inc| && NonNegative(input.inc)
    ensures var q, m := Pow2(w.apri) / 2, Pow2(w.apr);
            var a := (Sum(input.inc, i) % m) * (2 * Pow2(w.apri)) / m;
            q > 0 && 0 <= a / q < 4 && 0 <= a % q &&
            var t := Turns(rom, Rotor(x0, 0, a % q), |rom|);
            Sample(e, w, rom, x0, input, i) == QuarterTurns(a / q, (t.y, t.x))
  {
    hide Pow2, Address, Output, Turns;
    var q, m := Pow2(w.apri) / 2, Pow2(w.apr);
    HalfIsQuarter(w);
    PhaseIsSum(e, w, input.inc, i);
    AddressOfPhase(e, w, Sum(input.inc, i) % m, input.pm[i], input.dither[i]);
    var a := (Sum(input.inc, i) % m) * (2 * Pow2(w.apri)) / m;
    DivTowardZero((Sum(input.inc, i) % m) * (2 * Pow2(w.apri)), m);
    QuotientBelow(a, q, 4);
    DivModDef(a, q);
    OutputByQuarters(e, w, rom, x0, a, a / q, a % q);
  }

  // ---------- when the engines agree ----------

  /** The two addresses lie in the same quadrant, at the same angle. */
  predicate SameTurn(w: Widths, serial: int, parallel: int)
    requires w.Valid()
  {
    var q := PositiveQuarter(w);
    Quadrant(w, serial) == Quadrant(w, parallel) && CMod(serial, q) == SubtractMod(parallel, q)
  }

  /** The rotors of one quadrant unfold to different pairs. */
  lemma UnfoldApart(quadrant: nat, r: Rotor, s: Rotor)
    requires r.x != s.x || r.y != s.y
    ensures Unfold(quadrant, r) != Unfold(quadrant, s)
  {
  }

  lemma Powers()
    ensures Pow2(0) == 1 && Pow2(1) == 2 && Pow2(2) == 4
  {
  }

  lemma TurnBy(r: Rotor, k: nat, angle: int, p: int)
    requires p == Pow2(k)
    ensures Turn(r, k, angle) ==
            if r.a >= 0 then Rotor(r.x - r.y / p, r.y + r.x / p, r.a - angle)
            else Rotor(r.x + r.y / p, r.y - r.x / p, r.a + angle)
  {
  }

  lemma NoTurn(rom: seq<int>, start: Rotor)
    ensures Turns(rom, start, 0) == start
  {
  }

  lemma NextTurn(rom: seq<int>, start: Rotor, k: nat, r: Rotor, s: Rotor)
    requires k < |rom| && Turns(rom, start, k) == r && Turn(r, k, rom[k]) == s
    ensures Turns(rom, start, k + 1) == s
  {
  }

  /** Different angles end in different rotors for some table of at most two angles. */
  lemma AnglesApart(a: int, b: int) returns (rom: seq<nat>, x0: nat)
    requires a != b
    ensures var r, s := Turns(rom, Rotor(x0, 0, a), |rom|), Turns(rom, Rotor(x0, 0, b), |rom|);
            r.x != s.x || r.y != s.y
  {
    hide Turns;
    var h: nat := Abs(Max(a, b));
    if (a >= 0) != (b >= 0) {
      rom, x0 := [0], 1;
      OneAngle(a);
      OneAngle(b);
    } else {
      rom, x0 := [h, 0], 2;
      TwoAngles(h, a);
      TwoAngles(h, b);
    }
  }

  lemma OneAngle(a: int)
    ensures Turns([0], Rotor(1, 0, a), 1) == Rotor(1, if a >= 0 then 1 else -1, a)
  {
    hide Turn, Turns, Pow2;
    Powers();
    var start := Rotor(1, 0, a);
    TurnBy(start, 0, 0, 1);
    NoTurn([0], start);
    NextTurn([0], start, 0, start, Turn(start, 0, 0));
  }

  lemma TwoAngles(h: nat, a: int)
    ensures Turns([h, 0], Rotor(2, 0, a), 2) ==
            if a >= 0 then (if a >= h then Rotor(1, 3, a - h) else Rotor(3, 1, a - h))
            else (if a + h >= 0 then Rotor(3, -1, a + h) else Rotor(1, -3, a + h))
  {
    hide Turn, Turns, Pow2;
    Powers();
    var rom, start := [h, 0], Rotor(2, 0, a);
    var r := Turn(start, 0, h);
    TurnBy(start, 0, h, 1);
    TurnBy(r, 1, 0, 2);
    NoTurn(rom, start);
    NextTurn(rom, start, 0, start, r);
    NextTurn(rom, start, 1, r, Turn(r, 1, 0));
  }

  /** Two addresses give the same output for every table and start, one in each engine, exactly when
      they are the same turn. */
  lemma OutputsAgree(w: Widths, a: int, b: int)
    requires w.Valid()
    ensures (forall rom: seq<int>, x0: int :: Output(Serial, w, rom, x0, a) == Output(Parallel, w, rom, x0, b))
            <==> SameTurn(w, a, b)
  {
    hide Quadrant, CMod, SubtractMod, Unfold, Turns;
    if !SameTurn(w, a, b) {
      OutputsApart(w, a, b);
    }
  }

  lemma OutputsApart(w: Widths, a: int, b: int)
    requires w.Valid() && !SameTurn(w, a, b)
    ensures exists rom: seq<int>, x0: int :: Output(Serial, w, rom, x0, a) != Output(Parallel, w, rom, x0, b)
  {
    hide Quadrant, CMod, SubtractMod;
    var q := PositiveQuarter(w);
    if Quadrant(w, a) != Quadrant(w, b) {
      assert Output(Serial, w, [], 1, a) != Output(Parallel, w, [], 1, b);
    } else {
      var rom, x0 := AnglesApart(CMod(a, q), SubtractMod(b, q));
      var r, s := Turned(Serial, w, rom, x0, a), Turned(Parallel, w, rom, x0, b);
      UnfoldApart(Quadrant(w, a), r, s);
      assert Output(Serial, w, rom, x0, a) != Output(Parallel, w, rom, x0, b);
    }
  }

  /** The addresses of sample i are the same turn. */
  predicate Agreeing(w: Widths, input: Inputs, i: nat)
    requires w.Valid() && input.Valid() && i < |input.inc|
  {
    SameTurn(w, AddressAt(Serial, w, input, i), AddressAt(Parallel, w, input, i))
  }

  /** The two engines deliver the same sample i for every table and start exactly when its addresses
      are the same turn. */
  lemma EnginesAgree(w: Widths, input: Inputs, i: nat)
    requires w.Valid() && input.Valid() && i < |input.inc|
    ensures (forall rom: seq<int>, x0: int ::
              Sample(Serial, w, rom, x0, input, i) == Sample(Parallel, w, rom, x0, input, i))
            <==> Agreeing(w, input, i)
  {
    hide AddressAt, Output, SameTurn;
    var a, b := AddressAt(Serial, w, input, i), AddressAt(Parallel, w, input, i);
    OutputsAgree(w, a, b);
    assert forall rom: seq<int>, x0: int ::
      Sample(Serial, w, rom, x0, input, i) == Output(Serial, w, rom, x0, a) &&
      Sample(Parallel, w, rom, x0, input, i) == Output(Parallel, w, rom, x0, b);
  }

  /** No accumulation before sample i reaches down to minus the modulus. */
  predicate Above(w: Widths, inc: seq<int>, i: nat)
    requires i <= |inc|
  {
    forall k :: 0 <= k < i ==> Phase(Serial, w, inc, k) + inc[k] > -Pow2(w.apr)
  }

  /** The phases of the two engines agree up to sample i exactly under that condition. */
  lemma {:induction false} PhasesAgree(w: Widths, inc: seq<int>, i: nat)
    requires i <= |inc|
    ensures Above(w, inc, i) <==> forall k :: 0 <= k <= i ==> Phase(Parallel, w, inc, k) == Phase(Serial, w, inc, k)
  {
    hide CMod, SubtractMod, Pow2;
    if i > 0 {
      PhasesAgree(w, inc, i - 1);
      if Above(w, inc, i - 1) {
        NextAgrees(w, inc, i);
      }
    }
  }

  lemma NextAgrees(w: Widths, inc: seq<int>, i: nat)
    requires 0 < i <= |inc| && Phase(Parallel, w, inc, i - 1) == Phase(Serial, w, inc, i - 1)
    ensures Phase(Parallel, w, inc, i) == Phase(Serial, w, inc, i)
      <==> Phase(Serial, w, inc, i - 1) + inc[i - 1] > -Pow2(w.apr)
  {
    hide CMod, SubtractMod, Pow2;
    RemaindersAgree(Phase(Serial, w, inc, i - 1) + inc[i - 1], Pow2(w.apr));
  }

  /** No remainder on the way to the output of sample i is taken of a number at or below minus its
      modulus; with dither both engines reduce the address the same way. */
  predicate Agreeable(w: Widths, input: Inputs, i: nat)
    requires w.Valid() && input.Valid() && i < |input.inc|
  {
    && Above(w, input.inc, i)
    && (w.dithered
        || Modulate(w, Truncate(w, Phase(Serial, w, input.inc, i)), input.pm[i]) + w.Circle() > 0)
    && AddressAt(Serial, w, input, i) + w.Quarter() > 0
  }

  /** Then the two engines deliver the same sample. */
  lemma SamplesAgree(w: Widths, rom: seq<int>, x0: int, input: Inputs, i: nat)
    requires w.Valid() && input.Valid() && i < |input.inc| && Agreeable(w, input, i)
    ensures Agreeing(w, input, i)
    ensures Sample(Parallel, w, rom, x0, input, i) == Sample(Serial, w, rom, x0, input, i)
  {
    hide CMod, SubtractMod, Turns, Modulate, Truncate, Phase, Above, DropDither, AddDither, Quadrant;
    PhasesAgree(w, input.inc, i);
    var phase := Phase(Serial, w, input.inc, i);
    assert Phase(Parallel, w, input.inc, i) == phase;
    RemaindersAgree(Modulate(w, Truncate(w, phase), input.pm[i]), w.Circle());
    assert AddressAt(Parallel, w, input, i) == AddressAt(Serial, w, input, i);
    RemaindersAgree(AddressAt(Serial, w, input, i), PositiveQuarter(w));
    EnginesAgree(w, input, i);
  }

  /** No increment or modulation is negative, and no dither takes the wide address below zero twice. */
  predicate NonNegativeInputs(w: Widths, input: Inputs) {
    && NonNegative(input.inc) && NonNegative(input.pm)
    && (w.dithered ==> forall i :: 0 <= i < |input.dither| ==> input.dither[i] >= -Pow2(w.Wide()))
  }

  /** Inputs that are not negative always meet the condition. */
  lemma NonNegativeAgree(w: Widths, input: Inputs, i: nat)
    requires w.Valid() && input.Valid() && i < |input.inc| && NonNegativeInputs(w, input)
    ensures Agreeable(w, input, i)
  {
    hide Modulate, Truncate, DropDither, AddDither;
    forall k | 0 <= k <= i
      ensures Phase(Serial, w, input.inc, k) >= 0
    {
      PhaseNonNegative(Serial, w, input.inc, k);
    }
    var phase := Phase(Serial, w, input.inc, i);
    if w.dithered {
      DitherNonNegative(w, phase, input.pm[i], input.dither[i]);
      ReduceNonNegative(Parallel, DropDither(w, AddDither(w, phase, input.dither[i]), input.pm[i]), w.Circle());
    } else {
      ModulateNonNegative(w, phase, input.pm[i]);
      ReduceNonNegative(Serial, Modulate(w, Truncate(w, phase), input.pm[i]), w.Circle());
    }
  }

  lemma ShiftedNonNegative(n: nat, e: int)
    ensures Shifted(n, e) >= 0
  {
    if e >= 0 {
      MulPositive(n, Pow2(e));
    } else {
      DivTowardZero(n, Pow2(-e));
    }
  }

  lemma DitherNonNegative(w: Widths, phase: nat, pm: nat, d: int)
    requires d >= -Pow2(w.Wide())
    ensures DropDither(w, AddDither(w, phase, d), pm) >= 0
  {
    hide Shifted;
    ShiftedNonNegative(phase, w.Wide() - w.apr);
    var a := AddDither(w, phase, d);
    ShiftedNonNegative(a, -4);
    ShiftedNonNegative(a, w.aprp - w.Wide());
    ShiftedNonNegative(Shifted(a, w.aprp - w.Wide()) + pm, w.apri + 1 - w.aprp);
  }

  lemma ModulateNonNegative(w: Widths, phase: int, pm: int)
    requires w.Valid() && phase >= 0 && pm >= 0
    ensures Modulate(w, Truncate(w, phase), pm) >= 0
  {
    if w.apr != w.apri {
      DivTowardZero(phase, Pow2(w.apr - w.apri - 1));
    }
    var s, base := w.aprp - w.apri - 1, Truncate(w, phase);
    if s >= 0 {
      DivTowardZero(pm, Pow2(s));
    } else {
      ModulusBelow(base, Pow2(-s));
      MulPositive(pm, Pow2(-s));
    }
  }

  lemma ModulusBelow(a: int, m: nat)
    requires a >= 0 && m > 0
    ensures a - a % m >= 0
  {
    DivModDef(a, m);
    DivTowardZero(a, m);
    MulPositive(a / m, m);
  }

  // ---------- a run of the program in which they differ ----------

  /** The x coordinate the rotations start from. */
  function StartValue(mpr: nat): int
    requires mpr > 0
  {
    ((Pow2(mpr - 1) as real - mpr as real / 2.0) * 0.6072529).Floor
  }

  /** For outputs, addresses and phases of three bits the program starts from 1 and has the table
      2, 1, 0.  A first increment of -8 is minus the modulus; the second sample differs. */
  lemma NegativeDiffers()
    ensures var w, input := Widths(3, 3, 0, false, false), Inputs([-8, 0], [0, 0], [0, 0]);
            && StartValue(3) == 1
            && Sample(Serial, w, [2, 1, 0], StartValue(3), input, 1) == (1, 1)
            && Sample(Parallel, w, [2, 1, 0], StartValue(3), input, 1) == (-1, -1)
  {
    hide Turns, AddressAt, StartValue, Turn;
    StartsFromOne();
    SecondAddresses();
    QuarterOfThree();
    TurnsFromZero();
    TurnsFromBelow();
  }

  lemma StartsFromOne()
    ensures StartValue(3) == 1
  {
    assert Pow2(2) == 4;
    assert (4.0 - 3.0 / 2.0) * 0.6072529 == 1.51813225;
  }

  lemma QuarterOfThree()
    ensures PositiveQuarter(Widths(3, 3, 0, false, false)) == 4
  {
    assert Pow2(3) == 8;
  }

  lemma SecondAddresses()
    ensures var w, input := Widths(3, 3, 0, false, false), Inputs([-8, 0], [0, 0], [0, 0]);
            AddressAt(Serial, w, input, 1) == 0 && AddressAt(Parallel, w, input, 1) == -16
  {
    var w, inc := Widths(3, 3, 0, false, false), [-8, 0];
    assert Pow2(3) == 8;
    assert Phase(Serial, w, inc, 1) == CMod(-8, 8) == 0;
    assert Phase(Parallel, w, inc, 1) == SubtractMod(-8, 8) == -8;
  }

  lemma TurnsFromZero()
    ensures Turns([2, 1, 0], Rotor(1, 0, 0), 3) == Rotor(1, 1, -1)
  {
    hide Turns, Turn;
    var rom, start := [2, 1, 0], Rotor(1, 0, 0);
    ZeroTurns();
    NoTurn(rom, start);
    NextTurn(rom, start, 0, start, Rotor(1, 1, -2));
    NextTurn(rom, start, 1, Rotor(1, 1, -2), Rotor(1, 1, -1));
    NextTurn(rom, start, 2, Rotor(1, 1, -1), Rotor(1, 1, -1));
  }

  lemma ZeroTurns()
    ensures Turn(Rotor(1, 0, 0), 0, 2) == Rotor(1, 1, -2)
    ensures Turn(Rotor(1, 1, -2), 1, 1) == Rotor(1, 1, -1)
    ensures Turn(Rotor(1, 1, -1), 2, 0) == Rotor(1, 1, -1)
  {
    hide Turn, Pow2;
    Powers();
    TurnBy(Rotor(1, 0, 0), 0, 2, 1);
    TurnBy(Rotor(1, 1, -2), 1, 1, 2);
    TurnBy(Rotor(1, 1, -1), 2, 0, 4);
  }

  lemma TurnsFromBelow()
    ensures Turns([2, 1, 0], Rotor(1, 0, -16), 3) == Rotor(-1, -1, -13)
  {
    hide Turns, Turn;
    var rom, start := [2, 1, 0], Rotor(1, 0, -16);
    BelowTurns();
    NoTurn(rom, start);
    NextTurn(rom, start, 0, start, Rotor(1, -1, -14));
    NextTurn(rom, start, 1, Rotor(1, -1, -14), Rotor(0, -1, -13));
    NextTurn(rom, start, 2, Rotor(0, -1, -13), Rotor(-1, -1, -13));
  }

  lemma BelowTurns()
    ensures Turn(Rotor(1, 0, -16), 0, 2) == Rotor(1, -1, -14)
    ensures Turn(Rotor(1, -1, -14), 1, 1) == Rotor(0, -1, -13)
    ensures Turn(Rotor(0, -1, -13), 2, 0) == Rotor(-1, -1, -13)
  {
    hide Turn, Pow2;
    Powers();
    TurnBy(Rotor(1, 0, -16), 0, 2, 1);
    TurnBy(Rotor(1, -1, -14), 1, 1, 2);
    TurnBy(Rotor(0, -1, -13), 2, 0, 4);
  }
}
