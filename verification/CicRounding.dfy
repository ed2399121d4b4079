// Whether the rounding at the end of a run can overflow a word: which parameters exclude it, and a
// run in which it happens although the width is one the program admits.

module CicRounding {
  import opened Arith
  import opened Int64
  import opened Signal
  import opened Decimation
  import opened CicWords
  import opened Rounding
  import opened CicChannel
  import opened CicPruning
  import Interpolation

  /** The factor a constant input is amplified by. */
  function FullGain(filter: FilterType, f: Shape): nat
    requires f.Valid()
  {
    if filter == Decimator then Pow(f.Span(), f.stages) else Interpolation.PeakGain(f)
  }

  /** The largest output for signed inputs of bIn bits. */
  function Peak(filter: FilterType, f: Shape, bIn: nat): int
    requires f.Valid() && bIn > 0
  {
    FullGain(filter, f) * (Pow2(bIn - 1) - 1)
  }

  lemma PeakBounds(filter: FilterType, f: Shape, maxRate: nat, x: seq<int>, bIn: nat)
    requires f.Valid() && Supported(f, maxRate, x, bIn) && (filter == Decimator ==> f.stages <= |x|)
    ensures forall n :: 0 <= n < |Filtered(filter, f, x)| ==> Filtered(filter, f, x)[n] <= Peak(filter, f, bIn)
  {
    hide Exact, Interpolation.Exact, Pow, Interpolation.PeakGain;
    if filter == Decimator {
      ExactBetween(f, x[..|x| - f.stages], Pow2(bIn - 1));
    } else {
      Interpolation.ExactBetween(f, x, Pow2(bIn - 1));
    }
  }

  // ---------- the peak is reached ----------

  function Constant(n: nat, c: int): (x: seq<int>)
    ensures |x| == n
  {
    seq(n, _ => c)
  }

  /** From here on the moving sums of a constant input are constant. */
  function SettledAt(f: Shape): nat
    requires f.Span() > 0
  {
    MulPositive(f.Span() - 1, f.stages);
    (f.Span() - 1) * f.stages
  }

  lemma DecimatedPeak(f: Shape, c: int)
    requires f.Valid() && f.Span() > 0
    ensures var m := SettledAt(f); var x := Constant(m * f.rate + 1, c);
            m < Kept(|x|, f.rate) && Exact(f, x)[m] == Pow(f.rate * f.delay, f.stages) * c
  {
    var m := SettledAt(f);
    var x := Constant(m * f.rate + 1, c);
    AlignedLength(f.rate, m);
    MulMonotonic(1, f.rate, m);
    ConstantSums(x, 0, c, f.Span() - 1, f.stages);
    var y := MovingSums(x, f.Span(), f.stages);
    assert y[m * f.rate] == Pow(f.Span(), f.stages) * c;
    DownAt(y, f.rate, m);
  }

  /** A window of the zero-stuffed constant counts the stuffed-in samples. */
  lemma {:induction false} StuffedConstant(n: nat, c: int, rate: nat, a: nat, b: nat)
    requires rate > 0 && a <= b <= n * rate
    ensures WindowSum(Up(Constant(n, c), rate), a, b) == (Kept(b, rate) - Kept(a, rate)) * c
  {
    hide Kept, Up;
    if a < b {
      StuffedConstant(n, c, rate, a, b - 1);
      Interpolation.KeptStep(b - 1, rate);
      ConstantSample(n, c, rate, b - 1);
      Interpolation.OneMore(Kept(b - 1, rate) - Kept(a, rate), c, c);
    }
  }

  lemma ConstantSample(n: nat, c: int, rate: nat, k: nat)
    requires rate > 0 && k < n * rate
    ensures Up(Constant(n, c), rate)[k] == if k % rate == 0 then c else 0
  {
    UpIndex(n, rate, k);
  }

  lemma KeptInSpan(a: nat, rate: nat, len: nat)
    requires rate > 0
    ensures Kept(a + rate * len, rate) - Kept(a, rate) == len
  {
    AddMultiple(a + rate - 1, rate, len);
    assert a + rate - 1 + len * rate == a + rate * len + rate - 1;
  }

  lemma StuffedSum(n: nat, c: int, f: Shape)
    requires f.Valid() && f.Span() > 0
    ensures ConstantFrom(MovingSum(Up(Constant(n, c), f.rate), f.Span()), f.Span() - 1, f.delay * c)
  {
    hide Kept, Up;
    var u := Up(Constant(n, c), f.rate);
    var y := MovingSum(u, f.Span());
    forall k | f.Span() - 1 <= k < |y|
      ensures y[k] == f.delay * c
    {
      var a := k + 1 - f.Span();
      StuffedConstant(n, c, f.rate, a, k + 1);
      KeptInSpan(a, f.rate, f.delay);
      assert a == Max(0, k + 1 - f.Span());
      assert y[k] == WindowSum(u, a, k + 1);
    }
  }

  lemma InterpolatedPeak(f: Shape, c: int)
    requires f.Valid() && f.Span() > 0
    ensures var n := SettledAt(f) + f.stages; var x := Constant(n + 1, c);
            n < (n + 1) * f.rate && Interpolation.Exact(f, x)[n] == Interpolation.PeakGain(f) * c
  {
    var s := SettledAt(f);
    var n := s + f.stages;
    var x := Constant(n + 1, c);
    MulMonotonic(1, f.rate, n + 1);
    StuffedSum(n + 1, c, f);
    var y := MovingSum(Up(x, f.rate), f.Span());
    ConstantSums(y, f.Span() - 1, f.delay * c, f.Span() - 1, f.stages - 1);
    OneStageMore(f.Span() - 1, f.stages, 0, c, 1);
    MulAssoc(Pow(f.Span(), f.stages - 1), f.delay, c);
    assert Interpolation.Smoothed(f, x)[s] == Interpolation.PeakGain(f) * c;
  }

  /** A constant input of the largest sample reaches the peak. */
  lemma PeakReached(filter: FilterType, f: Shape, maxRate: nat, bIn: nat) returns (x: seq<int64>, n: nat)
    requires f.Valid() && f.delay > 0 && f.rate <= maxRate && 0 < bIn <= 64
    ensures Supported(f, maxRate, x, bIn) && (filter == Decimator ==> f.stages <= |x|)
    ensures n < |Filtered(filter, f, x)| && Filtered(filter, f, x)[n] == Peak(filter, f, bIn)
  {
    hide Exact, Interpolation.Exact, Interpolation.PeakGain, Pow, SettledAt;
    var c: int64 := Largest(bIn);
    MulPositive(f.rate, f.delay);
    var s := SettledAt(f);
    if filter == Decimator {
      DecimatedPeak(f, c);
      var len := s * f.rate + 1;
      x, n := seq(len + f.stages, _ => c), s;
      assert x[..len] == Constant(len, c);
    } else {
      InterpolatedPeak(f, c);
      n := s + f.stages;
      x := seq(n + 1, _ => c);
      assert x == Constant(n + 1, c);
    }
  }

  function Largest(bIn: nat): (c: int64)
    requires 0 < bIn <= 64
    ensures c == Pow2(bIn - 1) - 1
  {
    TwoTo63();
    Pow2Monotonic(bIn - 1, 63);
    Pow2(bIn - 1) - 1
  }

  // ---------- the exact condition ----------

  /** Whatever the input of the declared width, no output sample overflows in the rounding. */
  ghost predicate NeverOverflows(filter: FilterType, f: Shape, maxRate: nat, bIn: nat, mode: Mode, shift: nat)
    requires f.Valid()
  {
    forall x: seq<int64>, n: nat ::
      Supported(f, maxRate, x, bIn) && (filter == Decimator ==> f.stages <= |x|) && n < |Filtered(filter, f, x)|
      ==> !Overflows(mode, Filtered(filter, f, x)[n], shift)
  }

  /** In a width of at most 64 either rounding overflows for no input exactly when the peak is below
      the first word that overflows. */
  lemma RoundingExactly(filter: FilterType, f: Shape, maxRate: nat, bIn: nat, mode: Mode, shift: nat)
    requires f.Valid() && f.delay > 0 && f.rate <= maxRate && bIn > 0 && shift <= 63
    requires maxRate > 0 && MaxWidth(filter, f, maxRate, bIn) <= 64
    requires mode == ConvergentRound || mode == RoundUp
    ensures NeverOverflows(filter, f, maxRate, bIn, mode, shift) <==>
            shift == 0 || Peak(filter, f, bIn) < FirstOverflow(mode, shift)
  {
    hide Peak, Overflows, FirstOverflow, Filtered;
    if shift == 0 || Peak(filter, f, bIn) < FirstOverflow(mode, shift) {
      forall x: seq<int64>, n: nat | Supported(f, maxRate, x, bIn) && (filter == Decimator ==> f.stages <= |x|)
                                     && n < |Filtered(filter, f, x)|
        ensures !Overflows(mode, Filtered(filter, f, x)[n], shift)
      {
        PeakBounds(filter, f, maxRate, x, bIn);
        FilteredWord(filter, f, maxRate, x, bIn, n);
        OverflowsFrom(mode, Filtered(filter, f, x)[n], shift);
      }
    } else {
      var x, n := PeakReached(filter, f, maxRate, bIn);
      FilteredWord(filter, f, maxRate, x, bIn, n);
      OverflowsFrom(mode, Filtered(filter, f, x)[n], shift);
    }
  }

  lemma FilteredWord(filter: FilterType, f: Shape, maxRate: nat, x: seq<int64>, bIn: nat, n: nat)
    requires f.Valid() && Supported(f, maxRate, x, bIn) && (filter == Decimator ==> f.stages <= |x|)
    requires maxRate > 0 && MaxWidth(filter, f, maxRate, bIn) <= 64 && n < |Filtered(filter, f, x)|
    ensures InRange(Filtered(filter, f, x)[n])
  {
    OutputFits(filter, f, maxRate, x, bIn);
  }

  /** A width of at most 63 leaves room for the step, whatever the output width. */
  lemma RoomForTheStep(filter: FilterType, f: Shape, maxRate: nat, bIn: nat, bOut: nat, mode: Mode)
    requires f.Valid() && f.delay > 0 && f.rate <= maxRate && bIn > 0 && maxRate > 0
    requires 0 < bOut <= MaxWidth(filter, f, maxRate, bIn) <= 63
    ensures NeverOverflows(filter, f, maxRate, bIn, mode, MaxWidth(filter, f, maxRate, bIn) - bOut)
  {
    hide Filtered, MaxWidth;
    var width := MaxWidth(filter, f, maxRate, bIn);
    forall x: seq<int64>, n: nat | Supported(f, maxRate, x, bIn) && (filter == Decimator ==> f.stages <= |x|)
                                   && n < |Filtered(filter, f, x)|
      ensures !Overflows(mode, Filtered(filter, f, x)[n], width - bOut)
    {
      FilteredSigned(filter, f, maxRate, x, bIn);
      TwoTo63();
      Pow2Monotonic(width - 1, 62);
      Pow2Monotonic(width - bOut, 62);
      assert Pow2(63) == 2 * Pow2(62);
    }
  }

  lemma FilteredSigned(filter: FilterType, f: Shape, maxRate: nat, x: seq<int>, bIn: nat)
    requires f.Valid() && maxRate > 0 && Supported(f, maxRate, x, bIn) && (filter == Decimator ==> f.stages <= |x|)
    ensures Signed(Filtered(filter, f, x), MaxWidth(filter, f, maxRate, bIn))
  {
    if filter == Decimator {
      ExactFits(f, maxRate, x[..|x| - f.stages], bIn);
    } else {
      Interpolation.ExactFits(f, maxRate, x, bIn);
    }
  }

  // ---------- a run of the program ----------

  /** One stage decimating 62 bits by 4 to 61 bits, in the admitted width of 64: six peak samples
      leave the word 2^63 - 4, which either rounding takes to -2^60 instead of 2^60. */
  lemma PeaksOverflow(mode: Mode, r: int)
    requires mode == ConvergentRound || mode == RoundUp
    ensures MaxWidth(Decimator, QUARTER, 4, 62) == 64 && Supported(QUARTER, 4, PEAKS + [PEAK], 62)
    ensures Filtered(Decimator, QUARTER, PEAKS + [PEAK]) == [PEAK, TWO_63 - 4]
    ensures Overflows(mode, TWO_63 - 4, 3)
    ensures RoundedSample(r, TWO_63 - 4, mode, 3, 61) <==> r == -Pow2(60)
  {
    QuarterWidth();
    TwoTo63();
    assert Pow2(61) == 2 * Pow2(60) && Pow2(62) == 4 * Pow2(60) && Pow2(63) == 8 * Pow2(60);
    assert Pow2(2) == 4 && Pow2(3) == 8;
    PeaksSummed();
    assert (PEAKS + [PEAK])[..5] == PEAKS;
    OverflowsFrom(mode, TWO_63 - 4, 3);
  }

  lemma PeaksSummed()
    ensures Exact(QUARTER, PEAKS) == [PEAK, TWO_63 - 4]
  {
    var x: seq<int> := PEAKS;
    var y := MovingSum(x, 4);
    assert WindowSum(x, 0, 0) == 0 && WindowSum(x, 0, 1) == PEAK;
    assert WindowSum(x, 1, 1) == 0 && WindowSum(x, 1, 2) == PEAK && WindowSum(x, 1, 3) == 2 * PEAK;
    assert WindowSum(x, 1, 4) == 3 * PEAK && WindowSum(x, 1, 5) == 4 * PEAK;
    assert y[0] == PEAK && y[4] == 4 * PEAK;
    assert MovingSums(x, 4, 1) == y;
  }
}
