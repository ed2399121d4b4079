// The decimator on 64-bit words, without its registers: every stage result wrapped, every
// truncation a shift of the wrapped word.  How these words follow the recursive form over
// unbounded integers, and when they are it.

module CicWords {
  import opened Arith
  import opened Int64
  import opened Signal
  import opened Decimation
  import opened WordSignal

  /** The words just before truncation point i. */
  function WordPoint(f: Shape, x: seq<int64>, w: seq<nat>, i: nat): (y: seq<int64>)
    requires f.Valid() && |w| == 2 * f.stages + 1 && i <= 2 * f.stages
    ensures |y| == if i < f.stages then |x| else Kept(|x|, f.rate)
  {
    if i == 0 then x else WrapAll(Stage(f, i - 1, Truncated(WordPoint(f, x, w, i - 1), w[i - 1])))
  }

  /** The words of a pruned run. */
  function WordPruned(f: Shape, x: seq<int64>, w: seq<nat>): (y: seq<int>)
    requires f.Valid() && |w| == 2 * f.stages + 1
    ensures |y| == Kept(|x|, f.rate)
  {
    Truncated(WordPoint(f, x, w, 2 * f.stages), w[2 * f.stages])
  }

  // ---------- bits ----------

  /** Bits lost at the truncation points after the first; the input itself loses none at the top. */
  function LostInside(w: seq<nat>, i: nat): nat
    requires i <= |w|
  {
    if i <= 1 then 0 else LostInside(w, i - 1) + w[i - 1]
  }

  lemma {:induction false} LostInsideOut(w: seq<nat>, i: nat)
    requires 0 < i <= |w|
    ensures Lost(w, i) == w[0] + LostInside(w, i)
  {
    if i > 1 {
      LostInsideOut(w, i - 1);
    } else {
      assert Lost(w, 0) == 0;
    }
  }

  lemma {:induction false} LostInsideMonotonic(w: seq<nat>, i: nat, j: nat)
    requires i <= j <= |w|
    ensures LostInside(w, i) <= LostInside(w, j)
    decreases j
  {
    if i < j {
      LostInsideMonotonic(w, i, j - 1);
    }
  }

  /** Low bits of a word at point i that the truncations before it have left right. */
  function BitsLeft(w: seq<nat>, i: nat): int
    requires i <= |w|
  {
    64 - LostInside(w, i)
  }

  // ---------- stages keep congruences ----------

  lemma {:induction false} TracksWindow(x: seq<int>, y: seq<int>, bits: nat, n: nat)
    requires Tracks(x, y, bits) && n <= |x|
    ensures Cong(WindowSum(x, 0, n), WindowSum(y, 0, n), Pow2(bits))
  {
    hide Cong, Pow2;
    if n == 0 {
      CongIntro(WindowSum(x, 0, 0), WindowSum(y, 0, 0), Pow2(bits), 0);
    } else {
      TracksWindow(x, y, bits, n - 1);
      CongAdd(WindowSum(x, 0, n - 1), WindowSum(y, 0, n - 1), x[n - 1], y[n - 1], Pow2(bits));
    }
  }

  lemma TracksSum(x: seq<int>, y: seq<int>, bits: nat)
    requires Tracks(x, y, bits)
    ensures Tracks(PrefixSum(x), PrefixSum(y), bits)
  {
    forall n | 0 <= n < |x|
      ensures Cong(PrefixSum(x)[n], PrefixSum(y)[n], Pow2(bits))
    {
      TracksWindow(x, y, bits, n + 1);
    }
  }

  lemma TracksStage(f: Shape, i: nat, x: seq<int>, y: seq<int>, bits: nat)
    requires f.Valid() && i < 2 * f.stages && bits <= 64 && Tracks(x, y, bits)
    ensures Tracks(WrapAll(Stage(f, i, x)), Stage(f, i, y), bits)
  {
    hide Cong, Pow2, Comb, Down, PrefixSum;
    if i < f.stages {
      TracksSum(x, y, bits);
      if i + 1 == f.stages {
        TracksDown(PrefixSum(x), PrefixSum(y), bits, f.rate);
      }
    } else {
      TracksCombs(x, y, bits, f.delay);
    }
    TracksWrapped(WrapAll(Stage(f, i, x)), Stage(f, i, x), Stage(f, i, y), bits);
  }

  /** At every point the words agree with the integers on the bits that are left. */
  lemma {:induction false} WordsTrack(f: Shape, x: seq<int64>, w: seq<nat>, i: nat)
    requires f.Valid() && |w| == 2 * f.stages + 1 && i <= 2 * f.stages && LostInside(w, i) <= 64
    ensures Tracks(WordPoint(f, x, w, i), Point(f, x, w, i), BitsLeft(w, i))
  {
    if i == 0 {
      TracksSelf(x, 64);
    } else {
      var a, b := WordPoint(f, x, w, i - 1), Point(f, x, w, i - 1);
      PointStep(f, x, w, i - 1);
      if i == 1 {
        TracksSelf(Truncated(x, w[0]), 64);
      } else {
        WordsTrack(f, x, w, i - 1);
        TracksTruncated(a, b, BitsLeft(w, i - 1), w[i - 1]);
      }
      TracksStage(f, i - 1, Truncated(a, w[i - 1]), Truncated(b, w[i - 1]), BitsLeft(w, i));
    }
  }

  /** The output words agree with the pruned form on all bits but those lost inside. */
  lemma PrunedTracks(f: Shape, x: seq<int64>, w: seq<nat>)
    requires f.Valid() && |w| == 2 * f.stages + 1 && LostInside(w, |w|) <= 64
    ensures Tracks(WordPruned(f, x, w), Pruned(f, x, w), BitsLeft(w, |w|))
  {
    var last := 2 * f.stages;
    LostInsideMonotonic(w, last, |w|);
    WordsTrack(f, x, w, last);
    TracksTruncated(WordPoint(f, x, w, last), Point(f, x, w, last), BitsLeft(w, last), w[last]);
  }

  // ---------- no truncation inside ----------

  ghost predicate NothingInside(f: Shape, w: seq<nat>)
    requires |w| == 2 * f.stages + 1
  {
    forall i :: 0 < i < 2 * f.stages ==> w[i] == 0
  }

  lemma {:induction false} NothingLostInside(f: Shape, w: seq<nat>, i: nat)
    requires |w| == 2 * f.stages + 1 && NothingInside(f, w) && i <= 2 * f.stages
    ensures LostInside(w, i) == 0
  {
    if i > 1 {
      NothingLostInside(f, w, i - 1);
    }
  }

  lemma TruncatedByNothing(x: seq<int>)
    ensures Truncated(x, 0) == x
  {
    forall n | 0 <= n < |x|
      ensures Truncated(x, 0)[n] == x[n]
    {
      assert Pow2(0) == 1;
      DivModUnique(x[n], 1, x[n], 0);
    }
  }

  /** With the truncated input, the points inside are those of the untruncated recursive form. */
  lemma {:induction false} PointInside(f: Shape, x: seq<int>, w: seq<nat>, i: nat)
    requires f.Valid() && |w| == 2 * f.stages + 1 && 0 < i <= 2 * f.stages
    requires forall k :: 0 < k < i ==> w[k] == 0
    ensures ExactFrom(f, i, Point(f, x, w, i)) == ExactFrom(f, 0, Truncated(x, w[0]))
  {
    var u := Point(f, x, w, i - 1);
    PointStep(f, x, w, i - 1);
    ExactFromStep(f, i - 1, Truncated(u, w[i - 1]));
    if i > 1 {
      PointInside(f, x, w, i - 1);
      TruncatedByNothing(u);
    }
  }

  /** Without truncation inside, the words before the last point are the wrapped simple form. */
  lemma WordsInside(f: Shape, x: seq<int64>, w: seq<nat>)
    requires f.Valid() && |w| == 2 * f.stages + 1 && NothingInside(f, w)
    ensures Point(f, x, w, 2 * f.stages) == Exact(f, Truncated(x, w[0]))
    ensures WordPoint(f, x, w, 2 * f.stages) == WrapAll(Exact(f, Truncated(x, w[0])))
  {
    var last := 2 * f.stages;
    NothingLostInside(f, w, last);
    WordsTrack(f, x, w, last);
    TracksWhole(WordPoint(f, x, w, last), Point(f, x, w, last));
    PointInside(f, x, w, last);
    NothingAfterLast(f, Point(f, x, w, last));
    RecursiveIsExact(f, Truncated(x, w[0]));
  }

  /** Truncating a signed input leaves a signed input. */
  lemma TruncatedSigned(x: seq<int>, b: nat, bits: nat)
    requires bits > 0 && Signed(x, bits)
    ensures Signed(Truncated(x, b), bits)
  {
    forall n | 0 <= n < |x|
      ensures -Pow2(bits - 1) <= Truncated(x, b)[n] <= Pow2(bits - 1) - 1
    {
      DivTowardZero(x[n], Pow2(b));
    }
  }

  /** A signal of at most 64 bits fits the words. */
  lemma SignedFits(x: seq<int>, bits: nat)
    requires 0 < bits <= 64 && Signed(x, bits)
    ensures forall n :: 0 <= n < |x| ==> InRange(x[n])
  {
    TwoTo63();
    Pow2Monotonic(bits - 1, 63);
  }

  lemma InRangeUnwrapped(y: seq<int>)
    requires forall n :: 0 <= n < |y| ==> InRange(y[n])
    ensures WrapAll(y) == y
  {
    forall n | 0 <= n < |y|
      ensures Wrap(y[n]) == y[n]
    {
      WrapInRange(y[n]);
    }
  }

  /** Inputs of the declared width, at a rate the width was computed for. */
  ghost predicate Supported(f: Shape, maxRate: nat, x: seq<int>, bIn: nat) {
    f.delay > 0 && f.rate <= maxRate && bIn > 0 && Signed(x, bIn)
  }

  lemma ExactWords(f: Shape, maxRate: nat, x: seq<int>, bIn: nat)
    requires f.Valid() && Supported(f, maxRate, x, bIn) && Width(f.(rate := maxRate), bIn) <= 64
    ensures WrapAll(Exact(f, x)) == Exact(f, x)
  {
    ExactFits(f, maxRate, x, bIn);
    SignedFits(Exact(f, x), Width(f.(rate := maxRate), bIn));
    InRangeUnwrapped(Exact(f, x));
  }

  /** Truncation at the two ends only: for every supported input the words are the pruned form. */
  lemma EndsOnly(f: Shape, maxRate: nat, bIn: nat, x: seq<int64>, w: seq<nat>)
    requires f.Valid() && |w| == 2 * f.stages + 1 && NothingInside(f, w)
    requires Supported(f, maxRate, x, bIn) && Width(f.(rate := maxRate), bIn) <= 64
    ensures WordPruned(f, x, w) == Pruned(f, x, w)
  {
    WordsInside(f, x, w);
    TruncatedSigned(x, w[0], bIn);
    ExactWords(f, maxRate, Truncated(x, w[0]), bIn);
  }
}
