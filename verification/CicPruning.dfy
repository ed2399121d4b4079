// What a pruned decimator run leaves in its words: the pruned form for every input exactly when
// only the first and the last truncation take anything; otherwise its low bits.

module CicPruning {
  import opened Arith
  import opened Int64
  import opened Signal
  import opened Decimation
  import opened WordSignal
  import opened CicWords
  import opened CicImpulse
  import opened CicWraps
  import opened CicClean
  import opened CicMalign
  import opened CicChannel

  // ---------- when the words are the pruned form ----------

  /** The words of the run are the pruned form for every input of the declared width. */
  ghost predicate AlwaysPruned(f: Shape, maxRate: nat, bIn: nat, w: seq<nat>)
    requires f.Valid() && |w| == 2 * f.stages + 1
  {
    forall x: seq<int64> :: Supported(f, maxRate, x, bIn) ==> WordPruned(f, x, w) == Pruned(f, x, w)
  }

  /** At a width of at most 64 the words are always the pruned form if and only if no truncation
      point between the first and the last takes a bit. */
  lemma PrunedExactly(f: Shape, maxRate: nat, bIn: nat, w: seq<nat>)
    requires f.Valid() && f.delay > 0 && f.rate <= maxRate && bIn > 0 && |w| == 2 * f.stages + 1
    requires Width(f.(rate := maxRate), bIn) <= 64 && LostInside(w, |w|) <= 64
    ensures AlwaysPruned(f, maxRate, bIn, w) <==> NothingInside(f, w)
  {
    if NothingInside(f, w) {
      forall x: seq<int64> | Supported(f, maxRate, x, bIn)
        ensures WordPruned(f, x, w) == Pruned(f, x, w)
      {
        EndsOnly(f, maxRate, bIn, x, w);
      }
    } else {
      var i :| 0 < i < 2 * f.stages && w[i] != 0;
      var x := Differing(f, maxRate, bIn, w, i);
    }
  }

  /** An input of zeros and minus ones for which they differ. */
  lemma Differing(f: Shape, maxRate: nat, bIn: nat, w: seq<nat>, i: nat) returns (y: seq<int64>)
    requires f.Valid() && f.delay > 0 && f.rate <= maxRate && bIn > 0 && |w| == 2 * f.stages + 1
    requires Width(f.(rate := maxRate), bIn) <= 64 && LostInside(w, |w|) <= 64
    requires 0 < i < 2 * f.stages && w[i] != 0
    ensures Flags(y) && Supported(f, maxRate, y, bIn) && WordPruned(f, y, w) != Pruned(f, y, w)
  {
    hide Flags, Benign, Clean, Point, WordPruned, Pruned, Width, Pow;
    var k := FirstInside(f, w, i);
    LostInsideMonotonic(w, k + 1, |w|);
    MulPositive(f.rate, f.delay);
    GainIsSmall(f, maxRate, bIn, w[k]);
    var x, n := MeetMalign(f, w, k);
    var c, m := FindClean(f, x, w, k, n);
    y := FlagWords(x, c);
    FlagsSigned(y, bIn);
    CleanDiffers(f, y, w, m);
  }

  lemma FirstInside(f: Shape, w: seq<nat>, i: nat) returns (k: nat)
    requires |w| == 2 * f.stages + 1 && 0 < i < 2 * f.stages && w[i] != 0
    ensures 0 < k <= i && w[k] > 0 && forall l :: 0 < l < k ==> w[l] == 0
  {
    if l :| 0 < l < i && w[l] != 0 {
      k := FirstInside(f, w, l);
    } else {
      k := i;
    }
  }

  lemma FlagWords(x: seq<int>, c: seq<int>) returns (y: seq<int64>)
    requires Flags(x) && forall k :: 0 <= k < |c| ==> c[k] == 0 || c[k] in x
    ensures y == c && Flags(c)
  {
    forall k | 0 <= k < |c|
      ensures (c[k] == 0 || c[k] == -1) && InRange(c[k])
    {
    }
    y := seq(|c|, k requires 0 <= k < |c| => c[k]);
  }

  lemma FlagsSigned(x: seq<int>, bits: nat)
    requires bits > 0 && Flags(x)
    ensures Signed(x, bits)
  {
  }

  /** The gain of a filter whose width is at most 64 is below 2^64. */
  lemma GainIsSmall(f: Shape, maxRate: nat, bIn: nat, b: nat)
    requires f.Valid() && f.rate <= maxRate && bIn > 0 && Width(f.(rate := maxRate), bIn) <= 64
    ensures Pow(f.Span(), f.stages) < Pow2(64 + b)
  {
    var g := Pow(maxRate * f.delay, f.stages);
    MulMonotonic(f.rate, maxRate, f.delay);
    PowMonotonic(f.Span(), maxRate * f.delay, f.stages);
    Pow2Monotonic(CeilLog2(g), 63);
    Pow2Monotonic(64, 64 + b);
    assert Pow2(64) == 2 * Pow2(63);
  }

  // ---------- what the widths are computed from ----------

  /** The response behind weight j is what the stages after truncation point j make of an impulse
      there: before the downsampler of the integrators, and spread over the delay of the combs. */
  lemma ResponseOfPoint(f: Shape, j: nat, len: nat)
    requires f.Valid() && f.delay > 0 && 1 <= j <= 2 * f.stages
    ensures j <= f.stages ==>
      ExactFrom(f, j - 1, Impulse(len)) == Down(Response(j, f.stages, f.rate * f.delay, len), f.rate)
    ensures j > f.stages ==>
      ExactFrom(f, j - 1, Impulse(len * f.delay)) == Up(Response(j, f.stages, f.rate * f.delay, len), f.delay)
  {
    if j <= f.stages {
      CombsOfDown(PrefixSums(Impulse(len), f.stages - (j - 1)), f.rate, f.delay, f.stages);
    } else {
      UpOfCombs(Impulse(len), f.delay, 1, 2 * f.stages - (j - 1));
      SpreadImpulse(len, f.delay);
    }
  }

  lemma SpreadImpulse(len: nat, delay: nat)
    requires delay > 0
    ensures Up(Impulse(len), delay) == Impulse(len * delay)
  {
    forall n | 0 <= n < len * delay
      ensures Up(Impulse(len), delay)[n] == Impulse(len * delay)[n]
    {
      UpIndex(len, delay, n);
      if n % delay == 0 && n / delay == 0 {
        DivModDef(n, delay);
      }
    }
  }

  // ---------- what is left otherwise ----------

  predicate Ascending(t: seq<int>) {
    |t| > 0 && t[0] >= 0 && forall j :: 0 < j < |t| ==> t[j - 1] <= t[j]
  }

  /** Taking only the positive differences loses at least the last target, and no more than that
      exactly when the targets never fall. */
  lemma {:induction false} LostAtLeast(t: seq<int>, j: nat)
    requires j < |t| && t[0] >= 0
    ensures var lost := Lost(Effective(Differences(t)), j + 1);
            lost >= t[j] && (lost == t[j] <==> Ascending(t[..j + 1]))
  {
    if j > 0 {
      LostAtLeast(t, j - 1);
      var t', t'' := t[..j], t[..j + 1];
      assert forall k :: 0 <= k < j ==> t'[k] == t''[k];
      assert Ascending(t'') <==> Ascending(t') && t[j - 1] <= t[j];
    }
  }

  /** A pruned run drops as many bits as have to go, or more; as many exactly when the widths of the
      stages never fall.  The widths can fall, and the run skips a negative difference. */
  lemma PrunedTotal(f: Shape, bIn: nat, bOut: int)
    requires f.Valid() && f.Span() > 0
    ensures var w := Effective(PruningWidths(f, bIn, bOut, true));
            Lost(w, |w|) >= Width(f, bIn) - bOut &&
            (Lost(w, |w|) == Width(f, bIn) - bOut <==> Ascending(Targets(f, bIn, bOut)))
  {
    hide Ascending, Hogenauer, Weight, Width;
    var t := Targets(f, bIn, bOut);
    assert t[0] == Hogenauer(f.stages, Weight(1, f.stages, f.Span()), Width(f, bIn) - 1 - bOut);
    LostAtLeast(t, |t| - 1);
    assert t[..|t|] == t;
  }

  /** The output of a pruned run: its words agree with the pruned form on all bits not lost inside,
      and that form, scaled back by all the bits dropped, is near the exact output; how near does
      not depend on the length of the input.  Where the widths ascend these are the low bOut bits,
      and the scale is the one the program accounts for. */
  lemma PrunedOutput(f: Shape, bIn: nat, bOut: nat, maxRate: nat, x: seq<int64>, m: nat)
    requires f.Valid() && maxRate * f.delay > 0 && f.(rate := maxRate).Valid() && m < Kept(|x|, f.rate)
    ensures var g := f.(rate := maxRate);
            var w := Effective(PruningWidths(g, bIn, bOut, true));
            && Cong(WordPruned(f, x, w)[m], Pruned(f, x, w)[m], Pow2(Max(0, 64 - (Lost(w, |w|) - w[0]))))
            && Abs(Exact(f, x)[m] - Pow2(Lost(w, |w|)) * Pruned(f, x, w)[m]) <= Budget(f, w, |w|)
            && (Ascending(Targets(g, bIn, bOut)) && Width(g, bIn) <= 64 ==>
                  Lost(w, |w|) == Width(g, bIn) - bOut && 64 - (Lost(w, |w|) - w[0]) >= bOut)
  {
    hide Targets, PruningWidths, WordPruned, Pruned, Exact, Budget, Width, Cong, Ascending;
    var w := Effective(PruningWidths(f.(rate := maxRate), bIn, bOut, true));
    PrunedTotal(f.(rate := maxRate), bIn, bOut);
    LostInsideOut(w, |w|);
    if BitsLeft(w, |w|) >= 0 {
      PrunedTracks(f, x, w);
    } else {
      var a, b := WordPruned(f, x, w)[m], Pruned(f, x, w)[m];
      assert Pow2(0) == 1;
      CongIntro(a, b, 1, a - b);
    }
    PrunedError(f, x, w, m);
  }

  /** With nothing lost inside, the error bound holds of the words themselves. */
  lemma PrunedWordsNear(f: Shape, maxRate: nat, bIn: nat, x: seq<int64>, w: seq<nat>, m: nat)
    requires f.Valid() && |w| == 2 * f.stages + 1 && NothingInside(f, w) && m < Kept(|x|, f.rate)
    requires Supported(f, maxRate, x, bIn) && Width(f.(rate := maxRate), bIn) <= 64
    ensures Abs(Exact(f, x)[m] - Pow2(Lost(w, |w|)) * WordPruned(f, x, w)[m]) <= Budget(f, w, |w|)
  {
    hide WordPruned, Pruned, Exact, Budget, Width;
    EndsOnly(f, maxRate, bIn, x, w);
    PrunedError(f, x, w, m);
  }

  // ---------- widths that fall ----------

  const TWICE: Shape := Shape(2, 1, 2)

  /** Two stages decimating 16 bits by 2 to 15 bits: 3 bits have to go, and the run drops 4.  Every
      output sample is the exact one divided by 16, give or take 5/4, and not by 8. */
  lemma OneBitTooMany(x: seq<int>, m: nat)
    requires m < Kept(|x|, 2)
    ensures var widths := PruningWidths(TWICE, 16, 15, true);
            var w := Effective(widths);
            && Width(TWICE, 16) == 18 && widths == [0, 1, -1, 1, 2] && Lost(w, |w|) == 4
            && Abs(Exact(TWICE, x)[m] - 16 * Pruned(TWICE, x, w)[m]) <= 20
  {
    TwiceWidths();
    var w := Effective(PruningWidths(TWICE, 16, 15, true));
    assert w == [0, 1, 0, 1, 2];
    TwiceBudget(w);
    PrunedError(TWICE, x, w, m);
  }

  lemma TwiceBudget(w: seq<nat>)
    requires w == [0, 1, 0, 1, 2]
    ensures Lost(w, 5) == 4 && Pow2(4) == 16 && Budget(TWICE, w, 5) == 20
  {
    assert Lost(w, 1) == 0 && Lost(w, 2) == 1 && Lost(w, 3) == 1 && Lost(w, 4) == 2;
    hide Gain, Lost, Pow2;
    SmallPowers();
    TwiceGains();
    assert Budget(TWICE, w, 1) == 0 && Budget(TWICE, w, 2) == 4;
    assert Budget(TWICE, w, 3) == 4 && Budget(TWICE, w, 4) == 8;
  }

  lemma SmallPowers()
    ensures Pow2(0) == 1 && Pow2(1) == 2 && Pow2(2) == 4 && Pow2(4) == 16
  {
    assert Pow2(4) == 2 * Pow2(3) == 4 * Pow2(2);
  }

  lemma TwiceGains()
    ensures Gain(TWICE, 1) == 4 && Gain(TWICE, 3) == 2 && Gain(TWICE, 4) == 1
  {
    assert TWICE.Span() == 2 && Pow(2, 1) == 2 * Pow(2, 0) == 2;
    assert Pow2(0) == 1 && Pow2(1) == 2;
  }

  lemma TwiceWidths()
    ensures Width(TWICE, 16) == 18 && PruningWidths(TWICE, 16, 15, true) == [0, 1, -1, 1, 2]
  {
    hide Hogenauer, Weight;
    assert Pow(2, 1) == 2 && Pow(2, 2) == 4;
    assert CeilLog2(4) == 1 + CeilLog2(2) == 2 + CeilLog2(1) == 2;
    TwiceWeights();
    TwiceShifts();
    assert Targets(TWICE, 16, 15) == [0, 1, 0, 1, 3];
  }

  lemma TwiceShifts()
    ensures Hogenauer(2, 6, 2) == 0 && Hogenauer(2, 4, 2) == 1 && Hogenauer(2, 2, 2) == 1
  {
    assert Pow2(5) == 32 && (32.0 * TOLERANCE).Floor == 32;
    assert GreatestShift(12, 32) == 0;
    assert GreatestShift(8, 32) == 1 + GreatestShift(32, 32) && GreatestShift(32, 32) == 0;
    assert GreatestShift(4, 32) == 1 + GreatestShift(16, 32) && GreatestShift(16, 32) == 0;
  }

  lemma TwiceWeights()
    ensures Weight(1, 2, 2) == 6 && Weight(2, 2, 2) == 4 && Weight(3, 2, 2) == 6 && Weight(4, 2, 2) == 2
  {
    FirstWeight();
    SecondWeight();
    ThirdWeight();
    FourthWeight();
  }

  lemma FirstWeight()
    ensures Weight(1, 2, 2) == 6
  {
    var d := Impulse(3);
    forall k | 0 <= k < 3
      ensures PrefixSums(d, 2)[k] == k + 1
    {
      IntegratedImpulse(3, 2, k);
      BinomialSymmetric(1 + k, k);
      assert Binomial(k + 1, 1) == k + 1;
    }
    var y := Response(1, 2, 2, 3);
    assert PrefixSums(d, 2) == [1, 2, 3];
    assert y == Combs(Comb([1, 2, 3], 2), 2, 1) == Comb([1, 2, 2], 2) == [1, 2, 1];
    assert Energy(y, 1) == 1 && Energy(y, 2) == 5;
  }

  lemma SecondWeight()
    ensures Weight(2, 2, 2) == 4
  {
    ImpulseSteps();
    var y := Response(2, 2, 2, 4);
    assert y == Combs(Comb([1, 1, 1, 1], 2), 2, 1) == Comb([1, 1, 0, 0], 2) == [1, 1, -1, -1];
    assert Energy(y, 1) == 1 && Energy(y, 2) == 2 && Energy(y, 3) == 3;
  }

  lemma ImpulseSteps()
    ensures PrefixSums(Impulse(4), 1) == [1, 1, 1, 1]
  {
    var d := Impulse(4);
    assert PrefixSums(d, 1) == PrefixSum(d);
    forall k | 0 <= k < 4
      ensures PrefixSum(d)[k] == 1
    {
      ImpulseSum(4, k);
    }
  }

  lemma ThirdWeight()
    ensures Weight(3, 2, 2) == 6
  {
    var y := Response(3, 2, 2, 3);
    assert y == Combs(Comb([1, 0, 0], 1), 1, 1) == Comb([1, -1, 0], 1) == [1, -2, 1];
    assert Energy(y, 1) == 1 && Energy(y, 2) == 5;
  }

  lemma FourthWeight()
    ensures Weight(4, 2, 2) == 2
  {
    var y := Response(4, 2, 2, 2);
    assert y == Combs(Comb([1, 0], 1), 1, 0) == [1, -1];
    assert Energy(y, 1) == 1;
  }

  // ---------- a run of the program ----------

  const QUARTER: Shape := Shape(1, 1, 4)
  const PEAK: int := TWO_63 / 4 - 1
  const PEAKS: seq<int64> := [PEAK, PEAK, PEAK, PEAK, PEAK]

  /** For one stage decimating 62 bits by 4, the program drops a bit before the comb and one after. */
  lemma ProgramWidths()
    ensures Width(QUARTER, 62) == 64 && PruningWidths(QUARTER, 62, 62, true) == [0, 1, 1]
  {
    hide Width, Hogenauer, Weight;
    QuarterWidth();
    IntegratorWeight();
    CombWeight();
    QuarterShifts();
    assert Targets(QUARTER, 62, 62) == [0, 1, 2];
  }

  lemma QuarterWidth()
    ensures Width(QUARTER, 62) == 64
  {
    assert Pow(4, 1) == 4 * Pow(4, 0) == 4;
    assert CeilLog2(4) == 1 + CeilLog2(2) == 2 + CeilLog2(1) == 2;
  }

  lemma QuarterShifts()
    ensures Hogenauer(1, 4, 1) == 0 && Hogenauer(1, 2, 1) == 1
  {
    assert Pow2(3) == 8;
    assert GreatestShift(4, 8) == 0 && GreatestShift(8, 8) == 0;
    assert GreatestShift(2, 8) == 1 + GreatestShift(8, 8);
  }

  lemma IntegratorWeight()
    ensures Weight(1, 1, 4) == 4
  {
    var d := Impulse(4);
    var y := Response(1, 1, 4, 4);
    assert y == Combs(PrefixSums(d, 1), 4, 1) == Comb(PrefixSum(d), 4);
    forall k | 0 <= k < 4
      ensures y[k] == 1
    {
      ImpulseSum(4, k);
    }
    assert Energy(y, 1) == 1 && Energy(y, 2) == 2 && Energy(y, 3) == 3;
  }

  lemma CombWeight()
    ensures Weight(2, 1, 4) == 2
  {
    var y := Response(2, 1, 4, 2);
    assert y == Combs(Impulse(2), 1, 1) == Comb(Impulse(2), 1) == [1, -1];
    assert Energy(y, 1) == 1;
  }

  lemma PeakSums()
    ensures PrefixSum(PEAKS) == [PEAK, 2 * PEAK, 3 * PEAK, 4 * PEAK, 5 * PEAK]
  {
    var x: seq<int> := PEAKS;
    assert WindowSum(x, 0, 0) == 0;
    assert WindowSum(x, 0, 1) == PEAK;
    assert WindowSum(x, 0, 2) == 2 * PEAK;
    assert WindowSum(x, 0, 3) == 3 * PEAK;
    assert WindowSum(x, 0, 4) == 4 * PEAK;
  }

  /** Over unbounded integers 5 * PEAK / 2 follows PEAK / 2 at the comb. */
  lemma PeaksPruned(w: seq<nat>)
    requires w == [0, 1, 1]
    ensures |Pruned(QUARTER, PEAKS, w)| == 2
    ensures Pruned(QUARTER, PEAKS, w)[1] == (5 * PEAK / 2 - PEAK / 2) / 2
  {
    PeakSums();
    TruncatedByNothing(PEAKS);
    assert Integrated(PEAKS, w, 1) == PrefixSum(Truncated(Integrated(PEAKS, w, 0), w[0]));
    var y := Point(QUARTER, PEAKS, w, 1);
    assert y == Down(Integrated(PEAKS, w, 1), 4) == [PEAK, 5 * PEAK];
    assert Pow2(1) == 2;
    assert Point(QUARTER, PEAKS, w, 2) == Comb(Truncated(y, w[1]), 1);
  }

  /** In words the integrator has wrapped, and a large negative number follows. */
  lemma PeaksInWords(w: seq<nat>)
    requires w == [0, 1, 1]
    ensures |WordPruned(QUARTER, PEAKS, w)| == 2
    ensures WordPruned(QUARTER, PEAKS, w)[1] == ((5 * PEAK - 2 * TWO_63) / 2 - PEAK / 2) / 2
  {
    PeaksIntegrated(w);
    var y := WordPoint(QUARTER, PEAKS, w, 1);
    var last := (5 * PEAK - 2 * TWO_63) / 2 - PEAK / 2;
    assert Pow2(1) == 2;
    assert Truncated(y, w[1]) == [PEAK / 2, (5 * PEAK - 2 * TWO_63) / 2];
    var c := Comb(Truncated(y, w[1]), 1);
    assert c == [PEAK / 2, last];
    InRangeUnwrapped(c);
    assert WordPoint(QUARTER, PEAKS, w, 2) == WrapAll(c);
  }

  lemma PeaksIntegrated(w: seq<nat>)
    requires w == [0, 1, 1]
    ensures WordPoint(QUARTER, PEAKS, w, 1) == [PEAK, 5 * PEAK - 2 * TWO_63]
  {
    PeakSums();
    TruncatedByNothing(PEAKS);
    var s := Stage(QUARTER, 0, PEAKS);
    assert s == Down(PrefixSum(PEAKS), 4) == [PEAK, 5 * PEAK];
    assert WordPoint(QUARTER, PEAKS, w, 0) == PEAKS;
    assert WordPoint(QUARTER, PEAKS, w, 1) == WrapAll(s);
  }

  /** A run of the program whose words are not the pruned form, although its input has the declared
      width and the width is admitted: five peak samples. */
  lemma PeaksDiffer()
    ensures var w := Effective(PruningWidths(QUARTER, 62, 62, true));
            Supported(QUARTER, 4, PEAKS, 62) && WordPruned(QUARTER, PEAKS, w) != Pruned(QUARTER, PEAKS, w)
  {
    ProgramWidths();
    TwoTo63();
    assert Pow2(63) == 4 * Pow2(61);
    var w := Effective(PruningWidths(QUARTER, 62, 62, true));
    assert w == [0, 1, 1];
    PeaksPruned(w);
    PeaksInWords(w);
  }
}
