// The parallel CORDIC engine, which does everything in doubles: division, multiplication by a
// power of two and floor.  Doubles are taken as exact reals.

module NcoParallel {
  import opened Arith
  import opened Cordic
  import opened Doubles
  import opened Nco

  // ---------- the engine ----------

  /** One branch of the modulation: scale, floor, add, scale back, floor, reduce. */
  method AddModulation(w: Widths, addr0: real, phaseMod: real, ghost base: int, ghost pm: int)
    returns (addr: real)
    requires w.modulated && addr0 == base as real && phaseMod == pm as real
    ensures addr == SubtractMod(Modulate(w, base, pm), w.Circle()) as real
  {
    var scale := RealPow2(w.aprp - w.apri - 1);
    var circle := 2.0 * (RealPow2(w.apri).Floor as real);
    addr := (addr0 * scale).Floor as real;
    Modulated(w, addr0, base, pm, scale, addr);
    addr := ((addr + phaseMod) / scale).Floor as real;
    addr := DblMod(addr, circle, Modulate(w, base, pm), w.Circle());
  }

  /** The address path. */
  method CalculateAddress(w: Widths, phi: real, phaseMod: real, dither: real,
                          ghost phase: int, ghost pm: int, ghost d: int)
    returns (addr: real)
    requires w.Valid() && phi == phase as real && phaseMod == pm as real && dither == d as real
    ensures addr == Address(Parallel, w, phase, pm, d) as real
  {
    if w.dithered {
      addr := DitheredAddress(w, phi, phaseMod, dither, phase, pm, d);
    } else {
      addr := PlainAddress(w, phi, phaseMod, phase, pm);
    }
  }

  method DitheredAddress(w: Widths, phi: real, phaseMod: real, dither: real,
                         ghost phase: int, ghost pm: int, ghost d: int)
    returns (addr: real)
    requires w.Valid() && phi == phase as real && phaseMod == pm as real && dither == d as real
    ensures addr == SubtractMod(DropDither(w, AddDither(w, phase, d), pm), w.Circle()) as real
  {
    hide DropDither, AddDither, SubtractMod, RealPow2;
    ghost var a := AddDither(w, phase, d);
    addr := WithDither(w, phi, dither, phase, d);
    addr := WithoutDither(w, addr, phaseMod, a, pm);
    WholePow2(w.apri);
    addr := DblMod(addr, 2.0 * (RealPow2(w.apri).Floor as real), DropDither(w, a, pm), w.Circle());
  }

  lemma HalfOfPow2(e: nat)
    requires e > 0
    ensures Pow2(e) == 2 * Pow2(e - 1)
  {
  }

  lemma WholePow2(e: nat)
    ensures RealPow2(e).Floor as real == RealPow2(e) == Pow2(e) as real
  {
  }

  /** The phase brought to the wide address, and the dither added. */
  method WithDither(w: Widths, phi: real, dither: real, ghost phase: int, ghost d: int) returns (wide: real)
    requires phi == phase as real && dither == d as real
    ensures wide == AddDither(w, phase, d) as real
  {
    hide RealPow2, Shifted, Pow2;
    ghost var sum := Shifted(phase, w.Wide() - w.apr) + d;
    wide := WidePhase(w, phi, phase);
    var s := wide + dither;
    assert s == sum as real;
    wide := s.Floor as real;
    if wide < 0.0 {
      WholePow2(w.apri + 5);
      wide := wide + (RealPow2(w.apri + 5).Floor as real);
    }
  }

  method ScaleUp(v: real, e: nat, ghost n: int) returns (r: real)
    requires v == n as real
    ensures r == Shifted(n, e) as real
  {
    hide RealPow2, Shifted, Pow2;
    WholePow2(e);
    ScaledFloor(n, e);
    var p := RealPow2(e).Floor as real;
    assert v * p == (n as real) * RealPow2(e);
    r := (v * p).Floor as real;
  }

  method ScaleDown(v: real, e: nat, ghost n: int) returns (r: real)
    requires v == n as real
    ensures r == Shifted(n, 0 - e) as real
  {
    hide RealPow2, Shifted, Pow2;
    WholePow2(e);
    ScaledFloor(n, e);
    var p := RealPow2(e).Floor as real;
    r := (v / p).Floor as real;
  }

  method WidePhase(w: Widths, phi: real, ghost phase: int) returns (wide: real)
    requires phi == phase as real
    ensures wide == Shifted(phase, w.Wide() - w.apr) as real
  {
    hide RealPow2, Shifted, Pow2;
    var aprid := w.apri + 5;
    if aprid > w.apr {
      wide := ScaleUp(phi, aprid - w.apr, phase);
    } else {
      wide := ScaleDown(phi, w.apr - aprid, phase);
    }
  }

  /** The dither bits are dropped again, with the modulation added in its own width. */
  method WithoutDither(w: Widths, wide: real, phaseMod: real, ghost a: int, ghost pm: int) returns (addr: real)
    requires wide == a as real && phaseMod == pm as real
    ensures addr == DropDither(w, a, pm) as real
  {
    hide RealPow2, Shifted;
    var aprid := w.apri + 5;
    if w.modulated {
      addr := AlignWidths(wide, aprid, w.aprp, a);
      ghost var sum := Shifted(a, w.aprp - aprid) + pm;
      var s := addr + phaseMod;
      assert s == sum as real;
      addr := (s / RealPow2(w.aprp - w.apri - 1)).Floor as real;
      ScaledFloor(sum, w.aprp - w.apri - 1);
    } else {
      addr := (wide / RealPow2(4)).Floor as real;
      ScaledFloor(a, 4);
    }
  }

  method AlignWidths(wide: real, aprid: nat, aprp: nat, ghost a: int) returns (addr: real)
    requires wide == a as real
    ensures addr == Shifted(a, aprp - aprid) as real
  {
    hide Shifted;
    if aprp > aprid {
      addr := wide * RealPow2(aprp - aprid);
      WholeProduct(a, aprp - aprid);
    } else {
      addr := (wide / RealPow2(aprid - aprp)).Floor as real;
      ScaledFloor(a, aprid - aprp);
    }
  }

  lemma WholeProduct(a: int, e: nat)
    ensures (a as real) * RealPow2(e) == Shifted(a, e) as real
  {
    RealProduct(a, Pow2(e));
  }

  /** Without dither; both branches on aprp are the same computation in the source. */
  method PlainAddress(w: Widths, phi: real, phaseMod: real, ghost phase: int, ghost pm: int)
    returns (addr: real)
    requires w.Valid() && phi == phase as real && phaseMod == pm as real
    ensures addr == SubtractMod(Modulate(w, Truncate(w, phase), pm), w.Circle()) as real
  {
    var truncate := if w.apr == w.apri then 0.5 else RealPow2(w.apr - w.apri - 1).Floor as real;
    Truncated(w, phase);
    addr := (phi / truncate).Floor as real;
    ghost var sum := Modulate(w, Truncate(w, phase), pm);
    ghost var held := if w.modulated then SubtractMod(sum, w.Circle()) else sum;
    if w.modulated {
      if w.aprp > w.apri {
        addr := AddModulation(w, addr, phaseMod, Truncate(w, phase), pm);
      } else {
        addr := AddModulation(w, addr, phaseMod, Truncate(w, phase), pm);
      }
    }
    ReducedTwice(sum, w.Circle());
    addr := DblMod(addr, 2.0 * (RealPow2(w.apri).Floor as real), held, w.Circle());
  }

  lemma Truncated(w: Widths, phase: int)
    requires w.Valid()
    ensures var t := if w.apr == w.apri then 0.5 else RealPow2(w.apr - w.apri - 1).Floor as real;
            t != 0.0 && ((phase as real) / t).Floor == Truncate(w, phase)
  {
    if w.apr == w.apri {
      HalfStep(phase);
    } else {
      FloorOfQuotient(phase, Pow2(w.apr - w.apri - 1));
    }
  }

  lemma Modulated(w: Widths, b: real, base: int, pm: int, scale: real, up: real)
    requires w.modulated && b == base as real
    requires scale == RealPow2(w.aprp - w.apri - 1) && up == (b * scale).Floor as real
    ensures ((up + pm as real) / scale).Floor == Modulate(w, base, pm)
  {
    var s := w.aprp - w.apri - 1;
    if s >= 0 {
      ScaleUpDown(b, base, pm, Pow2(s), scale);
    } else {
      ScaleDownUp(b, base, pm, Pow2(-s), scale);
      ClearLow(base, pm, Pow2(-s));
    }
  }

  /** The iterations on doubles. */
  method Rotate(rom: seq<real>, x0: real, angle: real, ghost angles: seq<int>, ghost r: Rotor)
    returns (x: real, y: real)
    requires x0 == r.x as real && r.y == 0 && angle == r.a as real
    requires |rom| == |angles| && forall k :: 0 <= k < |rom| ==> rom[k] == angles[k] as real
    ensures var t := Turns(angles, r, |rom|); x == t.x as real && y == t.y as real
  {
    var a;
    x, y, a := x0, 0.0, angle;
    var k := 0;
    while k < |rom|
      invariant 0 <= k <= |rom|
      invariant var t := Turns(angles, r, k); x == t.x as real && y == t.y as real && a == t.a as real
    {
      ghost var t := Turns(angles, r, k);
      FloorOfQuotient(t.x, Pow2(k));
      FloorOfQuotient(t.y, Pow2(k));
      var dx, dy := (x / RealPow2(k)).Floor as real, (y / RealPow2(k)).Floor as real;
      if a >= 0.0 {
        x, y, a := x - dy, y + dx, a - rom[k];
      } else {
        x, y, a := x + dy, y - dx, a + rom[k];
      }
      k := k + 1;
    }
  }

  /** The rotations, and the quadrant chosen by the address. */
  method Calculate(w: Widths, rom: seq<real>, x0: real, addr: real,
                   ghost angles: seq<int>, ghost start: int, ghost address: int)
    returns (sin: real, cos: real)
    requires w.Valid() && addr == address as real && x0 == start as real
    requires |rom| == |angles| && forall k :: 0 <= k < |rom| ==> rom[k] == angles[k] as real
    ensures sin == Output(Parallel, w, angles, start, address).0 as real
    ensures cos == Output(Parallel, w, angles, start, address).1 as real
  {
    hide Turns, Pow2, SubtractMod, RealPow2, PositiveQuarter, Widths.Quarter;
    var maxAddr := RealPow2(w.apri).Floor as real;
    var half := RealPow2(w.apri - 1).Floor as real;
    ghost var q := PositiveQuarter(w);
    HalfIsQuarter(w);
    WholePow2(w.apri);
    WholePow2(w.apri - 1);
    HalfOfPow2(w.apri);
    var a := DblMod(addr, half, address, q);
    var x, y := Rotate(rom, x0, a, angles, Rotor(start, 0, SubtractMod(address, q)));
    if addr <= half - 1.0 {
      sin, cos := y, x;
    } else if addr <= maxAddr - 1.0 && addr > half - 1.0 {
      sin, cos := x, -1.0 * y;
    } else if addr <= 3.0 * half - 1.0 && addr > maxAddr - 1.0 {
      sin, cos := -1.0 * y, -1.0 * x;
    } else {
      sin, cos := -1.0 * x, y;
    }
  }

  /** A run of the parallel engine on one channel. */
  method ParallelRun(w: Widths, rom: seq<real>, x0: real, phiInc: seq<real>, freqMod: seq<real>,
                     phaseMod: seq<real>, dither: seq<real>,
                     ghost angles: seq<int>, ghost start: int, ghost input: Inputs)
    returns (sines: seq<real>, cosines: seq<real>)
    requires w.Valid() && input.Valid() && x0 == start as real
    requires |phiInc| == |freqMod| == |phaseMod| == |dither| == |input.inc|
    requires forall i :: 0 <= i < |phiInc| ==> phiInc[i] + freqMod[i] == input.inc[i] as real
    requires forall i :: 0 <= i < |phaseMod| ==> phaseMod[i] == input.pm[i] as real
    requires forall i :: 0 <= i < |dither| ==> dither[i] == input.dither[i] as real
    requires |rom| == |angles| && forall k :: 0 <= k < |rom| ==> rom[k] == angles[k] as real
    ensures |sines| == |cosines| == |phiInc|
    ensures forall i :: 0 <= i < |phiInc| ==>
      sines[i] == Sample(Parallel, w, angles, start, input, i).0 as real &&
      cosines[i] == Sample(Parallel, w, angles, start, input, i).1 as real
  {
    hide Address, Output;
    var maxAcc := RealPow2(w.apr);
    var phiAcc := 0.0;
    sines, cosines := [], [];
    for i := 0 to |phiInc|
      invariant |sines| == |cosines| == i && phiAcc == Phase(Parallel, w, input.inc, i) as real
      invariant forall k :: 0 <= k < i ==>
        sines[k] == Sample(Parallel, w, angles, start, input, k).0 as real &&
        cosines[k] == Sample(Parallel, w, angles, start, input, k).1 as real
    {
      ghost var phase := Phase(Parallel, w, input.inc, i);
      var addr := CalculateAddress(w, phiAcc, phaseMod[i], dither[i], phase, input.pm[i], input.dither[i]);
      phiAcc := phiAcc + phiInc[i] + freqMod[i];
      phiAcc := DblMod(phiAcc, maxAcc, phase + input.inc[i], Pow2(w.apr));
      var s, c := Calculate(w, rom, x0, addr, angles, start, AddressAt(Parallel, w, input, i));
      sines, cosines := sines + [s], cosines + [c];
    }
  }

  function Reals(s: seq<int>): (r: seq<real>)
    ensures |r| == |s|
  {
    seq(|s|, i requires 0 <= i < |s| => s[i] as real)
  }

  /** Both engines on the same table, start and inputs: the same output at every sample whose two
      addresses are the same turn, and so at every sample when no input is negative. */
  method BothRuns(w: Widths, rom: seq<int>, x0: int, phiInc: seq<int>, freqMod: seq<int>, pm: seq<int>,
                  dither: seq<int>, ghost input: Inputs)
    returns (serial: seq<(int, int)>, parallel: seq<(real, real)>)
    requires w.Valid() && |phiInc| == |freqMod| == |pm| == |dither|
    requires input.Valid() && |input.inc| == |phiInc| && input.pm == pm && input.dither == dither
    requires forall i :: 0 <= i < |phiInc| ==> input.inc[i] == phiInc[i] + freqMod[i]
    ensures |serial| == |parallel| == |pm|
    ensures forall i :: 0 <= i < |pm| && (Agreeing(w, input, i) || NonNegativeInputs(w, input)) ==>
      parallel[i].0 == serial[i].0 as real && parallel[i].1 == serial[i].1 as real
  {
    hide Agreeing, NonNegativeInputs, Sample;
    var s, c := SerialRun(w, rom, x0, phiInc, freqMod, pm, dither, input);
    var s', c' := ParallelRun(w, Reals(rom), x0 as real, Reals(phiInc), Reals(freqMod), Reals(pm), Reals(dither),
                              rom, x0, input);
    serial := seq(|pm|, i requires 0 <= i < |pm| => (s[i], c[i]));
    parallel := seq(|pm|, i requires 0 <= i < |pm| => (s'[i], c'[i]));
    forall i | 0 <= i < |pm| && (Agreeing(w, input, i) || NonNegativeInputs(w, input))
      ensures parallel[i].0 == serial[i].0 as real && parallel[i].1 == serial[i].1 as real
    {
      if NonNegativeInputs(w, input) {
        NonNegativeAgree(w, input, i);
        SamplesAgree(w, rom, x0, input, i);
      }
      EnginesAgree(w, input, i);
      assert (s[i], c[i]) == Sample(Serial, w, rom, x0, input, i);
    }
  }
}
