// One channel of the CIC model: a vector of 64-bit samples that each stage overwrites.

module CicChannel {
  import opened Arith
  import opened Int64
  import opened Signal
  import opened Decimation
  import opened WordSignal
  import opened CicWords
  import opened CicImpulse
  import opened Rounding
  import Interpolation

  datatype FilterType = Decimator | Interpolator

  // ---------- pruning widths ----------

  /** The bits each truncation point may lose, and then the bits that have to go in all. */
  function Targets(f: Shape, bIn: nat, bOut: int): (t: seq<int>)
    requires f.Valid() && f.Span() > 0
    ensures |t| == 2 * f.stages + 1
  {
    var bMax := Width(f, bIn) - 1;
    seq(2 * f.stages, j requires 0 <= j < 2 * f.stages =>
        Hogenauer(f.stages, Weight(j + 1, f.stages, f.Span()), bMax - bOut)) + [bMax + 1 - bOut]
  }

  /** Each target minus the one before it. */
  function Differences(t: seq<int>): (d: seq<int>)
    ensures |d| == |t|
  {
    seq(|t|, j requires 0 <= j < |t| => if j == 0 then t[0] else t[j] - t[j - 1])
  }

  /** The widths a run truncates by: zero everywhere unless it prunes. */
  function PruningWidths(f: Shape, bIn: nat, bOut: int, hPruning: bool): (w: seq<int>)
    requires f.Valid() && (hPruning ==> f.Span() > 0)
    ensures |w| == 2 * f.stages + 1
  {
    if hPruning then Differences(Targets(f, bIn, bOut)) else seq(2 * f.stages + 1, _ => 0)
  }

  /** Widths the truncation stages act on: a stage with a negative width is skipped. */
  function Effective(widths: seq<int>): (w: seq<nat>)
    ensures |w| == |widths|
  {
    seq(|widths|, i requires 0 <= i < |widths| => Max(0, widths[i]))
  }

  /** What may be lost before comb or integrator j, counted from 0, is what the widths up to there
      add up to. */
  ghost predicate StageLoses(f: Shape, bIn: nat, bOut: int, widths: seq<int>, j: nat)
    requires f.Span() > 0 && j < 2 * f.stages && j < |widths|
  {
    MayLose(f.stages * Weight(j + 1, f.stages, f.Span()), Width(f, bIn) - 1 - bOut, WindowSum(widths, 0, j + 1))
  }

  /** Before every stage the widths of a pruned run add up to the most that may be lost there, and
      altogether to all that has to go. */
  lemma WidthsExactly(f: Shape, bIn: nat, bOut: int)
    requires f.Valid() && f.Span() > 0
    ensures var w := PruningWidths(f, bIn, bOut, true);
            && (forall j :: 0 <= j < 2 * f.stages ==> StageLoses(f, bIn, bOut, w, j))
            && WindowSum(w, 0, 2 * f.stages + 1) == Width(f, bIn) - bOut
  {
    hide Weight, Hogenauer, Width, MayLose, Differences;
    var t, w := Targets(f, bIn, bOut), PruningWidths(f, bIn, bOut, true);
    forall j | 0 <= j < 2 * f.stages
      ensures StageLoses(f, bIn, bOut, w, j)
    {
      Telescope(t, j);
      WeightPositive(j + 1, f.stages, f.Span());
      HogenauerExactly(f.stages, Weight(j + 1, f.stages, f.Span()), Width(f, bIn) - 1 - bOut);
    }
    Telescope(t, 2 * f.stages);
  }

  /** The differenced widths add up to the targets again. */
  lemma {:induction false} Telescope(t: seq<int>, j: nat)
    requires j < |t|
    ensures WindowSum(Differences(t), 0, j + 1) == t[j]
  {
    if j > 0 {
      Telescope(t, j - 1);
    }
  }

  /** Collect the widths, then difference them in place. */
  method HPrune(f: Shape, bIn: nat, bOut: int) returns (widths: seq<int>)
    requires f.Valid() && f.Span() > 0
    ensures widths == PruningWidths(f, bIn, bOut, true)
    ensures forall j :: 0 <= j < 2 * f.stages ==> StageLoses(f, bIn, bOut, widths, j)
    ensures WindowSum(widths, 0, 2 * f.stages + 1) == Width(f, bIn) - bOut
  {
    var targets := CollectWidths(f, bIn, bOut);
    widths := Difference(targets);
    WidthsExactly(f, bIn, bOut);
  }

  method CollectWidths(f: Shape, bIn: nat, bOut: int) returns (widths: seq<int>)
    requires f.Valid() && f.Span() > 0
    ensures widths == Targets(f, bIn, bOut)
  {
    hide Weight, Hogenauer, Width;
    ghost var t := Targets(f, bIn, bOut);
    var bMax1 := Width(f, bIn);
    widths := [];
    var j := 1;
    while j <= 2 * f.stages
      invariant 1 <= j <= 2 * f.stages + 1 && widths == t[..j - 1]
    {
      var b := HogenauerCalc(j, f.stages, f.delay, f.rate, bMax1 - 1 - bOut);
      widths := widths + [b];
      j := j + 1;
    }
    widths := widths + [bMax1 - bOut];
  }

  /** From the last one down, take the one before away. */
  method Difference(targets: seq<int>) returns (widths: seq<int>)
    requires |targets| > 0
    ensures widths == Differences(targets)
  {
    widths := targets;
    var j := |widths| - 1;
    while j > 0
      invariant 0 <= j < |widths| == |targets|
      invariant forall k :: 0 <= k <= j ==> widths[k] == targets[k]
      invariant forall k :: j < k < |targets| ==> widths[k] == targets[k] - targets[k - 1]
    {
      widths := widths[j := widths[j] - widths[j - 1]];
      j := j - 1;
    }
  }

  /** The final shift is unconditional, so it must not be negative; and no shift may pass bit 63. */
  ghost predicate Shiftable(widths: seq<int>) {
    |widths| > 0 && widths[|widths| - 1] >= 0 && forall k :: 0 <= k < |widths| ==> widths[k] <= 63
  }

  /** Every shift of a pruned run is one C++ defines, for any output width the program admits. */
  lemma ShiftsFit(f: Shape, bIn: nat, bOut: int)
    requires f.Valid() && f.Span() > 0 && 0 <= Width(f, bIn) - bOut <= 63
    ensures Shiftable(PruningWidths(f, bIn, bOut, true))
  {
    hide Hogenauer, Weight, Width;
    var t, excess := Targets(f, bIn, bOut), Width(f, bIn) - 1 - bOut;
    forall j | 0 <= j < 2 * f.stages
      ensures 0 <= t[j] <= Max(0, excess)
    {
      HogenauerBound(f.stages, Weight(j + 1, f.stages, f.Span()), excess);
    }
  }

  function MaxWidth(filter: FilterType, f: Shape, maxRate: nat, bIn: nat): nat
    requires f.Valid() && maxRate > 0
  {
    var g := f.(rate := maxRate);
    if filter == Decimator then Width(g, bIn) else Interpolation.Width(g, bIn)
  }

  /** The least width that leaves room for the growth at the largest rate: (R * M)^N for a decimator,
      and 1 / R of that for an interpolator. */
  lemma MaxWidthLeast(filter: FilterType, f: Shape, maxRate: nat, bIn: nat)
    requires f.Valid() && maxRate > 0
    ensures var w := MaxWidth(filter, f, maxRate, bIn);
            var growth, share := Pow(maxRate * f.delay, f.stages), if filter == Decimator then 1 else maxRate;
            && w >= bIn && Pow2(w - bIn) * share >= growth
            && (w > bIn ==> Pow2(w - 1 - bIn) * share < growth)
  {
    hide Width, Interpolation.Width;
    if filter == Decimator {
      WidthLeast(f.(rate := maxRate), bIn);
    } else {
      Interpolation.WidthLeast(f.(rate := maxRate), bIn);
    }
  }

  /** The simple form of either filter. */
  function Filtered(filter: FilterType, f: Shape, x: seq<int>): seq<int>
    requires f.Valid() && (filter == Decimator ==> f.stages <= |x|)
  {
    if filter == Decimator then Exact(f, x[..|x| - f.stages]) else Interpolation.Exact(f, x)
  }

  /** y is x rounded by `shift` bits, each sample the way the mode says. */
  ghost predicate Rounded(y: seq<int>, x: seq<int>, mode: Mode, shift: nat, bOut: nat)
    requires bOut > 0 && shift <= 64
  {
    |y| == |x| && forall n :: 0 <= n < |x| ==> RoundedSample(y[n], x[n], mode, shift, bOut)
  }

  ghost predicate RoundedSample(r: int, v: int, mode: Mode, shift: nat, bOut: nat)
    requires bOut > 0 && shift <= 64
  {
    match mode
    case TruncateLow => r == v / Pow2(shift)
    case ConvergentRound => RoundedEven(r, v, shift)
    case RoundUp => RoundedUp(r, v, shift)
    case Saturate => r == Clamp(v, bOut)
    case NoRounding => r == v
  }

  /** What a run of the program is given: the filter, its rounding, and the widths. */
  datatype Job = Job(filter: FilterType, f: Shape, mode: Mode, bIn: nat, bOut: nat, hPruning: bool, maxRate: nat) {
    /** The parameters the command line admits, for channels of len samples. */
    ghost predicate Runnable(len: nat) {
      && f.Valid() && maxRate > 0 && 0 < bOut <= 64
      && (filter == Decimator ==> f.stages <= len && (hPruning ==> f.delay > 0))
      && 0 <= MaxWidth(filter, f, maxRate, bIn) - bOut <= 63
    }

    /** y is what the run makes of the samples x of one channel. */
    ghost predicate Makes(x: seq<int64>, y: seq<int64>)
      requires Runnable(|x|)
    {
      && (filter == Decimator && hPruning ==>
            maxRate * f.delay > 0 &&
            y == WordPruned(f, x[..|x| - f.stages], Effective(PruningWidths(f.(rate := maxRate), bIn, bOut, true))))
      && (filter == Interpolator && hPruning ==> y == WrapAll(Filtered(filter, f, x)))
      && (!hPruning ==>
            Rounded(y, WrapAll(Filtered(filter, f, x)), mode, MaxWidth(filter, f, maxRate, bIn) - bOut, bOut))
      && (!hPruning && Supported(f, maxRate, x, bIn) && MaxWidth(filter, f, maxRate, bIn) <= 64 ==>
            Rounded(y, Filtered(filter, f, x), mode, MaxWidth(filter, f, maxRate, bIn) - bOut, bOut))
    }

    function OutputLength(len: nat): nat
      requires f.Valid() && (filter == Decimator ==> f.stages <= len)
    {
      if filter == Decimator then Kept(len - f.stages, f.rate) else len * f.rate
    }

    /** The output length depends on that of the input alone. */
    lemma MakesLength(x: seq<int64>, y: seq<int64>)
      requires Runnable(|x|) && Makes(x, y)
      ensures |y| == OutputLength(|x|)
    {
      hide WordPruned, PruningWidths, Effective, MaxWidth, Supported;
    }
  }

  /** Words of an unpruned run are the simple form, each wrapped once. */
  lemma Unpruned(f: Shape, x: seq<int64>, w: seq<nat>)
    requires f.Valid() && |w| == 2 * f.stages + 1
    requires forall k :: 0 <= k < |w| ==> w[k] == 0
    ensures WordPruned(f, x, w) == WrapAll(Exact(f, x))
  {
    WordsInside(f, x, w);
    TruncatedByNothing(x);
    TruncatedByNothing(WordPoint(f, x, w, 2 * f.stages));
  }

  /** In the width the command line admits, no output sample of either filter wraps. */
  lemma OutputFits(filter: FilterType, f: Shape, maxRate: nat, x: seq<int>, bIn: nat)
    requires f.Valid() && maxRate > 0 && (filter == Decimator ==> f.stages <= |x|)
    requires Supported(f, maxRate, x, bIn) && MaxWidth(filter, f, maxRate, bIn) <= 64
    ensures WrapAll(Filtered(filter, f, x)) == Filtered(filter, f, x)
  {
    if filter == Decimator {
      ExactWords(f, maxRate, x[..|x| - f.stages], bIn);
    } else {
      Interpolation.ExactFits(f, maxRate, x, bIn);
      SignedFits(Interpolation.Exact(f, x), MaxWidth(filter, f, maxRate, bIn));
      InRangeUnwrapped(Interpolation.Exact(f, x));
    }
  }

  function StuffedCombs(f: Shape, x: seq<int>): seq<int>
    requires f.Valid()
  {
    Up(Combs(x, f.delay, f.stages), f.rate)
  }

  /** Words after k integrators: k registers late behind k running sums of y. */
  ghost predicate Summed(d: seq<int>, y: seq<int>, k: nat) {
    |d| == |y| && TracksLate(d, PrefixSums(y, k), k, 64)
  }

  lemma SummedAgain(d: seq<int>, y: seq<int>, k: nat)
    requires if k == 0 then Tracks(d, y, 64) else Summed(d, y, k)
    ensures Summed(WrapAll(RegisteredSum(d)), y, k + 1)
  {
    LateIntegrate(d, PrefixSums(y, k), k, 64);
    PrefixSumsLast(y, k);
  }

  /** What pass i of the interpolator loop does to words. */
  function InterpolatorPass(f: Shape, i: nat, d: seq<int>): seq<int64>
    requires f.Valid()
  {
    if i < f.stages then WrapAll(Comb(d, f.delay))
    else WrapAll(RegisteredSum(if i == f.stages then Up(d, f.rate) else d))
  }

  ghost predicate Follows(d: seq<int>, f: Shape, x: seq<int>, i: nat)
    requires f.Valid()
  {
    if i <= f.stages then Tracks(d, Combs(x, f.delay, i), 64)
    else Summed(d, StuffedCombs(f, x), i - f.stages)
  }

  lemma FollowsNext(d: seq<int>, f: Shape, x: seq<int>, i: nat)
    requires f.Valid() && Follows(d, f, x, i)
    ensures Follows(InterpolatorPass(f, i, d), f, x, i + 1)
  {
    if i < f.stages {
      TracksComb(d, Combs(x, f.delay, i), 64, f.delay);
      CombsLast(x, f.delay, i);
    } else if i == f.stages {
      TracksUp(d, Combs(x, f.delay, i), 64, f.rate);
      SummedAgain(Up(d, f.rate), StuffedCombs(f, x), 0);
    } else {
      SummedAgain(d, StuffedCombs(f, x), i - f.stages);
    }
  }

  /** The words of an interpolator run are the wrapped simple form. */
  lemma InterpolatedWords(d: seq<int64>, f: Shape, x: seq<int>)
    requires f.Valid() && |d| == |x| * f.rate
    requires Summed(d, StuffedCombs(f, x), f.stages)
    ensures d == WrapAll(Interpolation.Exact(f, x))
  {
    Interpolation.RecursiveIsSmoothed(f, x);
    var y := Interpolation.Exact(f, x);
    forall n | 0 <= n < |d|
      ensures d[n] == Wrap(y[n])
    {
      if n < f.stages {
        WrapInRange(0);
      } else {
        assert Cong(d[f.stages + (n - f.stages)], Interpolation.Smoothed(f, x)[n - f.stages], Pow2(64));
        WrapCong(d[n], y[n]);
        WrapInRange(d[n]);
      }
    }
  }

  // ---------- registers ----------

  /** d starts with k zeros and then holds y. */
  ghost predicate Late(d: seq<int>, y: seq<int>, k: nat) {
    && k + |y| <= |d|
    && (forall n :: 0 <= n < k ==> d[n] == 0)
    && (forall n :: 0 <= n < |y| ==> d[k + n] == y[n])
  }

  lemma {:induction false} LateWindow(d: seq<int>, y: seq<int>, k: nat, n: nat)
    requires Late(d, y, k) && n <= |y|
    ensures WindowSum(d, 0, k + n) == WindowSum(y, 0, n)
  {
    if n == 0 {
      ZeroPrefix(d, k, k);
    } else {
      LateWindow(d, y, k, n - 1);
    }
  }

  /** An integrator with its register is the plain one, one sample later. */
  lemma LateSummed(d: seq<int>, y: seq<int>, k: nat)
    requires Late(d, y, k) && k + |y| < |d|
    ensures Late(WrapAll(RegisteredSum(d)), WrapAll(PrefixSum(y)), k + 1)
  {
    var s := WrapAll(RegisteredSum(d));
    WrapInRange(0);
    forall n | 0 <= n < k + 1
      ensures s[n] == 0
    {
      ZeroPrefix(d, k, n);
    }
    forall n | 0 <= n < |y|
      ensures s[k + 1 + n] == Wrap(PrefixSum(y)[n])
    {
      LateWindow(d, y, k, n + 1);
    }
  }

  lemma LateShifted(d: seq<int>, y: seq<int>, k: nat, b: nat)
    requires Late(d, y, k)
    ensures Late(Truncated(d, b), Truncated(y, b), k)
  {
    DivModUnique(0, Pow2(b), 0, 0);
  }

  /** What stage i does to words that have just been truncated. */
  function WordStage(f: Shape, i: nat, t: seq<int>): seq<int64> {
    if i < f.stages then WrapAll(RegisteredSum(t)) else WrapAll(Comb(t, f.delay))
  }

  /** The last integrator of the run, before the resampler. */
  function LastSum(f: Shape, x: seq<int64>, w: seq<nat>): seq<int64>
    requires f.Valid() && |w| == 2 * f.stages + 1
  {
    WrapAll(PrefixSum(Truncated(WordPoint(f, x, w, f.stages - 1), w[f.stages - 1])))
  }

  /** The data at the head of turn i of the decimator's loop: as many registers late as integrators
      have run, and not resampled yet at turn N. */
  ghost predicate AtHead(d: seq<int>, f: Shape, x: seq<int64>, w: seq<nat>, i: nat)
    requires f.Valid() && |w| == 2 * f.stages + 1 && i <= 2 * f.stages
  {
    if i > f.stages then d == WordPoint(f, x, w, i)
    else |d| == f.stages + |x| && Late(d, if i < f.stages then WordPoint(f, x, w, i) else LastSum(f, x, w), i)
  }

  /** The delay by N undoes the N registers, and wrapping commutes with the resampler. */
  lemma Resampled(d: seq<int>, f: Shape, x: seq<int64>, w: seq<nat>)
    requires f.Valid() && |w| == 2 * f.stages + 1 && AtHead(d, f, x, w, f.stages)
    ensures f.stages <= |d| && Down(d[f.stages..], f.rate) == WordPoint(f, x, w, f.stages)
  {
    var y, s := LastSum(f, x, w), PrefixSum(Truncated(WordPoint(f, x, w, f.stages - 1), w[f.stages - 1]));
    assert d[f.stages..] == y;
    forall m | 0 <= m < Kept(|x|, f.rate)
      ensures Down(y, f.rate)[m] == Wrap(Down(s, f.rate)[m])
    {
      DownAt(y, f.rate, m);
      DownAt(s, f.rate, m);
    }
  }

  lemma Staged(d: seq<int>, f: Shape, x: seq<int64>, w: seq<nat>, i: nat)
    requires f.Valid() && |w| == 2 * f.stages + 1 && i < 2 * f.stages
    requires if i == f.stages then d == WordPoint(f, x, w, i) else AtHead(d, f, x, w, i)
    ensures AtHead(WordStage(f, i, Truncated(d, w[i])), f, x, w, i + 1)
  {
    if i < f.stages {
      var y := WordPoint(f, x, w, i);
      LateShifted(d, y, i, w[i]);
      LateSummed(Truncated(d, w[i]), Truncated(y, w[i]), i);
    }
  }

  lemma FirstSum(x: seq<int>)
    requires |x| > 0
    ensures Wrap(RegisteredSum(x)[0]) == 0
  {
    WrapInRange(0);
  }

  lemma NextSum(x: seq<int>, n: nat)
    requires 0 < n < |x|
    ensures RegisteredSum(x)[n] == x[n - 1] + RegisteredSum(x)[n - 1]
  {
  }

  /** The register starts at zero and takes one sample up at a time. */
  lemma RegisteredWords(x: seq<int64>)
    ensures var y := WrapAll(RegisteredSum(x));
            && (|x| > 0 ==> y[0] == 0)
            && forall n :: 0 < n < |x| ==> y[n] == Wrap(y[n - 1] as int + x[n - 1] as int)
  {
    if |x| > 0 {
      FirstSum(x);
    }
    var y, sums := WrapAll(RegisteredSum(x)), RegisteredSum(x);
    forall n | 0 < n < |x|
      ensures y[n] == Wrap(y[n - 1] as int + x[n - 1] as int)
    {
      NextSum(x, n);
      WrapAdd(x[n - 1], sums[n - 1]);
    }
  }

  lemma CombWords(x: seq<int64>, delay: nat)
    ensures var y := WrapAll(Comb(x, delay));
            forall n :: 0 <= n < |x| ==> y[n] == CombWord(x, delay, n)
  {
    var d: seq<int>, y := Comb(x, delay), WrapAll(Comb(x, delay));
    forall n | 0 <= n < |x|
      ensures y[n] == CombWord(x, delay, n)
    {
      if n < delay {
        WrapInRange(x[n]);
      }
    }
  }

  /** The difference of two words, or the word itself where there is none before it. */
  function CombWord(x: seq<int64>, delay: nat, n: nat): int
    requires n < |x|
  {
    if n < delay then x[n] else Wrap(x[n] as int - x[n - delay] as int)
  }

  class SingleChannel {
    var data: seq<int64>

    constructor ()
      ensures data == []
    {
      data := [];
    }

    method InsertData(value: int64)
      modifies this
      ensures data == old(data) + [value]
    {
      data := data + [value];
    }

    /** Sample of a clock cycle; past the end the channel reads as zero. */
    function GetData(cycle: nat): int64
      reads this
    {
      if cycle < |data| then data[cycle] else 0
    }

    method Integrate()
      modifies this
      ensures data == WrapAll(RegisteredSum(old(data)))
      ensures |data| > 0 ==> data[0] == 0
      ensures forall n :: 0 < n < |data| ==> data[n] == Wrap(data[n - 1] as int + old(data)[n - 1] as int)
    {
      hide Wrap, RegisteredSum;
      RegisteredWords(data);
      ghost var words := WrapAll(RegisteredSum(data));
      var result: seq<int64> := [];
      if |data| != 0 {
        result := [0];
        var n := 1;
        while n < |data|
          invariant 1 <= n <= |data| && |result| == n && data == old(data)
          invariant forall k :: 0 <= k < n ==> result[k] == words[k]
        {
          var previous: int := result[n - 1];
          result := result + [Wrap(data[n - 1] + previous)];
          n := n + 1;
        }
      }
      assert result == words;
      data := result;
    }

    method Differentiate(delay: nat)
      modifies this
      ensures data == WrapAll(Comb(old(data), delay))
      ensures forall n :: 0 <= n < |data| ==>
        data[n] == CombWord(old(data), delay, n)
    {
      CombWords(data, delay);
      var result: seq<int64> := [];
      var n := 0;
      while n < |data| && n < delay
        invariant 0 <= n <= |data| && n <= delay && |result| == n && data == old(data)
        invariant forall k :: 0 <= k < n ==> result[k] == data[k]
      {
        result := result + [data[n]];
        n := n + 1;
      }
      forall k | 0 <= k < n
        ensures result[k] == Wrap(data[k])
      {
        WrapInRange(data[k]);
      }
      n := delay;
      while n < |data|
        invariant data == old(data)
        invariant |result| == if n <= |data| then n else |data|
        invariant forall k :: 0 <= k < |result| ==> result[k] == Wrap(Comb(data, delay)[k])
      {
        var later: int := data[n];
        result := result + [Wrap(later - data[n - delay])];
        n := n + 1;
      }
      data := result;
    }

    method Delay(d: nat)
      requires d <= |data|
      modifies this
      ensures data == old(data)[d..]
    {
      var result: seq<int64> := [];
      var n := 0;
      while n < |data| - d
        invariant 0 <= n <= |data| - d && data == old(data)
        invariant result == data[d..d + n]
      {
        result := result + [data[n + d]];
        n := n + 1;
      }
      data := result;
    }

    method Downsample(rate: nat)
      requires rate > 0
      modifies this
      ensures data == Down(old(data), rate)
      ensures forall m: nat :: m * rate < |old(data)| <==> m < |data|
      ensures forall m :: 0 <= m < |data| ==> data[m] == old(data)[m * rate]
    {
      DownIs(data, rate);
      var result: seq<int64> := [];
      var n := 0;
      while n < |data|
        invariant data == old(data) && n == |result| * rate
        invariant |result| <= Kept(|data|, rate)
        invariant forall m :: 0 <= m < |result| ==> result[m] == Down(data, rate)[m]
      {
        KeptIndex(|data|, rate, |result|);
        assert (|result| + 1) * rate == n + rate;
        result := result + [data[n]];
        n := n + rate;
      }
      KeptIndex(|data|, rate, |result|);
      data := result;
    }

    method Upsample(rate: nat)
      requires rate > 0
      modifies this
      ensures data == Up(old(data), rate)
      ensures |data| == |old(data)| * rate
      ensures forall n :: 0 <= n < |data| ==>
        data[n] == if n % rate == 0 then old(data)[n / rate] else 0
    {
      hide Up;
      UpIs(data, rate);
      var result: seq<int64> := [];
      var n := 0;
      while n < |data|
        invariant 0 <= n <= |data| && data == old(data)
        invariant |result| == n * rate <= |data| * rate
        invariant forall k :: 0 <= k < n * rate ==> result[k] == Up(data, rate)[k]
      {
        MulMonotonic(n + 1, |data|, rate);
        assert (n + 1) * rate == n * rate + rate;
        result := result + [data[n]];
        UpAt(data, rate, n, 0);
        var n1 := 0;
        while n1 < rate - 1
          invariant 0 <= n1 <= rate - 1 && data == old(data) && n < |data|
          invariant |result| == n * rate + 1 + n1
          invariant forall k :: 0 <= k < |result| ==> result[k] == Up(data, rate)[k]
        {
          UpAt(data, rate, n, n1 + 1);
          result := result + [0];
          n1 := n1 + 1;
        }
        n := n + 1;
      }
      data := result;
    }

    static lemma UpAt(x: seq<int>, rate: nat, n: nat, r: nat)
      requires r < rate && n < |x|
      ensures n * rate + r < |x| * rate
      ensures Up(x, rate)[n * rate + r] == if r == 0 then x[n] else 0
    {
      MulMonotonic(n + 1, |x|, rate);
      assert (n + 1) * rate == n * rate + rate;
      DivModUnique(n * rate + r, rate, n, r);
    }

    method Truncate(bits: nat)
      requires bits <= 63
      modifies this
      ensures data == Truncated(old(data), bits)
      ensures forall n :: 0 <= n < |data| ==>
        data[n] * Pow2(bits) <= old(data)[n] < (data[n] + 1) * Pow2(bits)
    {
      TruncatedFloor(data, bits);
      var result: seq<int64> := [];
      var n := 0;
      while n < |data|
        invariant 0 <= n <= |data| && data == old(data) && |result| == n
        invariant forall k :: 0 <= k < n ==> result[k] == data[k] / Pow2(bits)
      {
        ShiftInRange(data[n], bits);
        result := result + [data[n] / Pow2(bits)];
        n := n + 1;
      }
      data := result;
    }

    /** Round half to even; right for every word whose increment does not overflow, and no other. */
    method ConvergentRound(bits: nat)
      requires bits <= 63
      modifies this
      ensures |data| == |old(data)|
      ensures forall k :: 0 <= k < |data| ==> RoundedEven(data[k], old(data)[k], bits)
    {
      var result: seq<int64> := [];
      var n := 0;
      while n < |data|
        invariant 0 <= n <= |data| && data == old(data) && |result| == n
        invariant forall k :: 0 <= k < n ==> RoundedEven(result[k], data[k], bits)
      {
        var value: int64 := data[n];
        ConvergentIsNearestEven(value, bits);
        if bits >= 1 && BitSet(value, bits - 1)
           && (LowBits(value, bits - 1) != 0 || BitSet(value, bits)) {
          value := Wrap(value + Pow2(bits));
        }
        ShiftInRange(value, bits);
        result := result + [value / Pow2(bits)];
        n := n + 1;
      }
      data := result;
    }

    method RoundHalfUp(bits: nat)
      requires bits <= 63
      modifies this
      ensures |data| == |old(data)|
      ensures forall k :: 0 <= k < |data| ==> RoundedUp(data[k], old(data)[k], bits)
    {
      var result: seq<int64> := [];
      var n := 0;
      while n < |data|
        invariant 0 <= n <= |data| && data == old(data) && |result| == n
        invariant forall k :: 0 <= k < n ==> RoundedUp(result[k], data[k], bits)
      {
        var value: int64 := data[n];
        HalfUpIsNearestUp(value, bits);
        if bits >= 1 && BitSet(value, bits - 1) {
          value := Wrap(value + Pow2(bits));
        }
        ShiftInRange(value, bits);
        result := result + [value / Pow2(bits)];
        n := n + 1;
      }
      data := result;
    }

    method SaturateTo(bits: nat)
      requires 1 <= bits <= 64
      modifies this
      ensures |data| == |old(data)|
      ensures forall k :: 0 <= k < |data| ==> data[k] == Clamp(old(data)[k], bits)
    {
      TwoTo63();
      Pow2Monotonic(bits - 1, 63);
      var min: int64 := -Pow2(bits - 1);
      var max: int64 := Pow2(bits - 1) - 1;
      var result: seq<int64> := [];
      var n := 0;
      while n < |data|
        invariant 0 <= n <= |data| && data == old(data) && |result| == n
        invariant forall k :: 0 <= k < n ==> result[k] == Clamp(data[k], bits)
      {
        var value: int64 := data[n];
        if value < min {
          value := min;
        } else if value > max {
          value := max;
        }
        result := result + [value];
        n := n + 1;
      }
      data := result;
    }

    /** One pass of the stage loop: truncate if the width is positive, then integrate or comb. */
    method RunStage(f: Shape, i: nat, bits: int)
      requires bits <= 63
      modifies this
      ensures data == WordStage(f, i, Truncated(old(data), Max(0, bits)))
    {
      TruncatedByNothing(data);
      if bits > 0 {
        Truncate(bits);
      }
      if i < f.stages {
        Integrate();
      } else {
        Differentiate(f.delay);
      }
    }

    /** One turn of the decimator's loop: resample when the integrators are done, then run the stage. */
    method DecimatePass(f: Shape, i: nat, bits: int, ghost x: seq<int64>, ghost w: seq<nat>)
      requires f.Valid() && |w| == 2 * f.stages + 1 && i < 2 * f.stages && bits <= 63 && w[i] == Max(0, bits)
      requires AtHead(data, f, x, w, i)
      modifies this
      ensures AtHead(data, f, x, w, i + 1)
    {
      hide WordStage, Down, Truncated;
      if i == f.stages {
        Resampled(data, f, x, w);
        Delay(f.stages);
        Downsample(f.rate);
      }
      Staged(data, f, x, w, i);
      RunStage(f, i, bits);
    }

    /** The stage loop of the decimator, for any widths. */
    method DecimateBy(f: Shape, widths: seq<int>, hPruning: bool)
      requires f.Valid() && |widths| == 2 * f.stages + 1 && f.stages <= |data| && Shiftable(widths)
      requires !hPruning ==> widths[2 * f.stages] == 0
      modifies this
      ensures data == WordPruned(f, old(data)[..|old(data)| - f.stages], Effective(widths))
    {
      hide AtHead, Truncated, WordPoint, WordPruned;
      ghost var x, w := data[..|data| - f.stages], Effective(widths);
      Beginning(data, f, w);
      var i := 0;
      while i < 2 * f.stages
        invariant 0 <= i <= 2 * f.stages && AtHead(data, f, x, w, i)
      {
        DecimatePass(f, i, widths[i], x, w);
        i := i + 1;
      }
      HeadIsPoint(data, f, x, w);
      FinalTruncate(hPruning, widths[2 * f.stages]);
    }

    static lemma Beginning(d: seq<int64>, f: Shape, w: seq<nat>)
      requires f.Valid() && |w| == 2 * f.stages + 1 && f.stages <= |d|
      ensures AtHead(d, f, d[..|d| - f.stages], w, 0)
    {
    }

    static lemma HeadIsPoint(d: seq<int>, f: Shape, x: seq<int64>, w: seq<nat>)
      requires f.Valid() && |w| == 2 * f.stages + 1 && AtHead(d, f, x, w, 2 * f.stages)
      ensures Truncated(d, w[2 * f.stages]) == WordPruned(f, x, w)
    {
    }

    method FinalTruncate(hPruning: bool, bits: nat)
      requires bits <= 63 && (!hPruning ==> bits == 0)
      modifies this
      ensures data == Truncated(old(data), bits)
    {
      TruncatedByNothing(data);
      if hPruning {
        Truncate(bits);
      }
    }

    /** The decimator.  It leaves the words of the pruned run; without pruning these are the simple
        form, wrapped once, and in the width the command line admits not even that. */
    method Decimate(f: Shape, bIn: nat, bOut: int, hPruning: bool, maxRate: nat)
      requires f.Valid() && f.stages <= |data| && (hPruning ==> maxRate * f.delay > 0)
      requires hPruning ==> 0 <= Width(f.(rate := maxRate), bIn) - bOut <= 63
      modifies this
      ensures hPruning ==>
        data == WordPruned(f, old(data)[..|old(data)| - f.stages],
                           Effective(PruningWidths(f.(rate := maxRate), bIn, bOut, true)))
      ensures !hPruning ==> data == WrapAll(Exact(f, old(data)[..|old(data)| - f.stages]))
      ensures !hPruning && Supported(f, maxRate, old(data), bIn) && Width(f.(rate := maxRate), bIn) <= 64
              ==> data == Exact(f, old(data)[..|old(data)| - f.stages])
    {
      hide WordPruned, Exact, Signed, Targets;
      var widths;
      if hPruning {
        assert f.(rate := maxRate).Valid();
        widths := HPrune(f.(rate := maxRate), bIn, bOut);
        ShiftsFit(f.(rate := maxRate), bIn, bOut);
      } else {
        widths := seq(2 * f.stages + 1, _ => 0);
      }
      ghost var x := data;
      DecimateBy(f, widths, hPruning);
      if !hPruning {
        Unpruned(f, x[..|x| - f.stages], Effective(widths));
        if Supported(f, maxRate, x, bIn) && Width(f.(rate := maxRate), bIn) <= 64 {
          OutputFits(Decimator, f, maxRate, x, bIn);
        }
      }
    }

    /** The interpolator. */
    method Interpolate(f: Shape)
      requires f.Valid()
      modifies this
      ensures data == WrapAll(Interpolation.Exact(f, old(data)))
    {
      ghost var x := data;
      TracksSelf(x, 64);
      var i := 0;
      while i < 2 * f.stages
        invariant 0 <= i <= 2 * f.stages && Follows(data, f, x, i)
      {
        FollowsNext(data, f, x, i);
        if i == f.stages {
          Upsample(f.rate);
        }
        if i < f.stages {
          Differentiate(f.delay);
        } else {
          Integrate();
        }
        i := i + 1;
      }
      InterpolatedWords(data, f, x);
    }

    method RoundTo(mode: Mode, bits: nat, bOut: nat)
      requires bits <= 63 && 1 <= bOut <= 64
      modifies this
      ensures Rounded(data, old(data), mode, bits, bOut)
    {
      match mode {
        case TruncateLow => Truncate(bits);
        case ConvergentRound => ConvergentRound(bits);
        case RoundUp => RoundHalfUp(bits);
        case Saturate => SaturateTo(bOut);
        case NoRounding =>
      }
    }

    /** One channel, start to end: filter, then round to the output width. */
    method ExecuteCic(filter: FilterType, f: Shape, mode: Mode, bIn: nat, bOut: nat,
                      hPruning: bool, maxRate: nat)
      requires f.Valid() && maxRate > 0 && bOut > 0
      requires filter == Decimator ==> f.stages <= |data| && (hPruning ==> f.delay > 0)
      requires 0 <= MaxWidth(filter, f, maxRate, bIn) - bOut <= 63 && bOut <= 64
      modifies this
      ensures filter == Decimator && hPruning ==>
        data == WordPruned(f, old(data)[..|old(data)| - f.stages],
                           Effective(PruningWidths(f.(rate := maxRate), bIn, bOut, true)))
      ensures filter == Interpolator && hPruning ==> data == WrapAll(Filtered(filter, f, old(data)))
      ensures !hPruning ==>
        Rounded(data, WrapAll(Filtered(filter, f, old(data))), mode,
                MaxWidth(filter, f, maxRate, bIn) - bOut, bOut)
      ensures !hPruning && Supported(f, maxRate, old(data), bIn)
              && MaxWidth(filter, f, maxRate, bIn) <= 64
        ==> Rounded(data, Filtered(filter, f, old(data)), mode,
                    MaxWidth(filter, f, maxRate, bIn) - bOut, bOut)
    {
      if filter == Decimator {
        MulPositive(maxRate, f.delay);
        Decimate(f, bIn, bOut, hPruning, maxRate);
      } else {
        Interpolate(f);
      }
      hide Width, Interpolation.Width, Exact, Interpolation.Exact, WordPruned, PruningWidths, Rounded;
      var bMax1 := MaxWidth(filter, f, maxRate, bIn);
      if !hPruning {
        if Supported(f, maxRate, old(data), bIn) && bMax1 <= 64 {
          OutputFits(filter, f, maxRate, old(data), bIn);
        }
        RoundTo(mode, bMax1 - bOut, bOut);
      }
    }
  }
}
