// Which truncations a wrapped integrator shows through.  A shift inside the filter, after the first
// truncation and before the last, drops the carry that wrapping left above bit 63; the first time
// this happens it reaches the output.

module CicWraps {
  import opened Arith
  import opened Int64
  import opened Signal
  import opened Decimation
  import opened WordSignal
  import opened CicWords
  import opened CicImpulse

  /** Shifting the wrapped number is as good as shifting the number. */
  ghost predicate Benign(v: int, b: nat) {
    Cong(Wrap(v) / Pow2(b), v / Pow2(b), Pow2(64))
  }

  /** Congruent quotients and remainders make congruent numbers, s bits further up. */
  lemma CongUnshift(a: int, c: int, s: nat)
    requires s <= 64 && Cong(a, c, Pow2(s)) && Cong(a / Pow2(s), c / Pow2(s), Pow2(64))
    ensures Cong(a, c, Pow2(64 + s)) && Cong(a, c, Pow2(64))
  {
    var p := Pow2(s);
    var k := CongElim(a / p, c / p, Pow2(64));
    var l := CongElim(a, c, p);
    AddMultiple(c, p, l);
    DivModDef(a, p);
    DivModDef(c, p);
    Pow2Add(64, s);
    Regrouped(a / p, c / p, k, Pow2(64), p);
    CongIntro(a, c, Pow2(64 + s), k);
    CongWeaken(a, c, 64 + s, 64);
  }

  lemma Regrouped(a: int, c: int, k: int, m: int, p: int)
    requires a == c + k * m
    ensures a * p == c * p + k * (m * p)
  {
    MulAssoc(k, m, p);
  }

  lemma BenignZero(b: nat)
    ensures Benign(0, b)
  {
    WrapInRange(0);
    CongIntro(0 / Pow2(b), 0 / Pow2(b), Pow2(64), 0);
  }

  /** Numbers in the middle of the residues modulo 2^(64 + b) are not benign. */
  lemma Malign(v: int, b: nat)
    requires b <= 64 && TWO_63 <= v % Pow2(64 + b) < Pow2(64 + b) - TWO_63
    ensures !Benign(v, b)
  {
    if Benign(v, b) {
      var m := Pow2(64 + b);
      WrapKeepsLowBits(v);
      CongWeaken(Wrap(v), v, 64, b);
      CongUnshift(Wrap(v), v, b);
      var k := CongElim(Wrap(v), v, m);
      DivModDef(v, m);
      var r := if Wrap(v) >= 0 then Wrap(v) else Wrap(v) + m;
      ResidueOf(v, k, m, Wrap(v), r);
      assert false;
    }
  }

  lemma ResidueOf(v: int, k: int, m: nat, a: int, r: int)
    requires m > 0 && a == v + k * m && (r == a || r == a + m) && 0 <= r < m
    ensures v % m == r
  {
    var q := if r == a then -k else -k - 1;
    assert q * m == if r == a then -(k * m) else -(k * m) - m;
    DivModUnique(v, m, q, r);
  }

  // ---------- a difference at the last sample ----------

  /** Congruent modulo 2^64 but for the last sample. */
  ghost predicate OffAtEnd(x: seq<int>, y: seq<int>) {
    && |x| == |y| > 0
    && (forall n :: 0 <= n < |x| - 1 ==> Cong(x[n], y[n], Pow2(64)))
    && !Cong(x[|x| - 1], y[|y| - 1], Pow2(64))
  }

  lemma OffSum(a: int, b: int, c: int, d: int)
    requires Cong(a, b, Pow2(64)) && !Cong(c, d, Pow2(64))
    ensures !Cong(a + c, b + d, Pow2(64)) && !Cong(c - a, d - b, Pow2(64))
  {
    if Cong(a + c, b + d, Pow2(64)) {
      CongAdd(a + c, b + d, a, b, Pow2(64));
    }
    if Cong(c - a, d - b, Pow2(64)) {
      CongAdd(c - a, d - b, a, b, Pow2(64));
    }
  }

  lemma OffPrefixSum(x: seq<int>, y: seq<int>)
    requires OffAtEnd(x, y)
    ensures OffAtEnd(PrefixSum(x), PrefixSum(y))
  {
    hide Cong, Pow2;
    var last := |x| - 1;
    var a, b := x[..last], y[..last];
    assert Tracks(a, b, 64);
    forall n | 0 <= n <= last
      ensures Cong(WindowSum(x, 0, n), WindowSum(y, 0, n), Pow2(64))
    {
      TracksWindow(a, b, 64, n);
      WindowPrefix(x, last, n);
      WindowPrefix(y, last, n);
    }
    OffSum(WindowSum(x, 0, last), WindowSum(y, 0, last), x[last], y[last]);
  }

  lemma {:induction false} WindowPrefix(x: seq<int>, len: nat, n: nat)
    requires n <= len <= |x|
    ensures WindowSum(x[..len], 0, n) == WindowSum(x, 0, n)
  {
    if n > 0 {
      WindowPrefix(x, len, n - 1);
    }
  }

  lemma OffComb(x: seq<int>, y: seq<int>, len: nat)
    requires OffAtEnd(x, y) && len > 0
    ensures OffAtEnd(Comb(x, len), Comb(y, len))
  {
    hide Cong, Pow2;
    var last := |x| - 1;
    forall n | 0 <= n < last
      ensures Cong(Comb(x, len)[n], Comb(y, len)[n], Pow2(64))
    {
      if n >= len {
        CongAdd(x[n], y[n], x[n - len], y[n - len], Pow2(64));
      }
    }
    if last >= len {
      OffSum(x[last - len], y[last - len], x[last], y[last]);
    }
  }

  lemma OffDown(x: seq<int>, y: seq<int>, rate: nat, m: nat)
    requires OffAtEnd(x, y) && rate > 0 && |x| == m * rate + 1
    ensures OffAtEnd(Down(x, rate), Down(y, rate))
  {
    hide Cong, Pow2, Down;
    AlignedLength(rate, m);
    var u, v := Down(x, rate), Down(y, rate);
    forall k | 0 <= k < m
      ensures Cong(u[k], v[k], Pow2(64))
    {
      DownAt(x, rate, k);
      DownAt(y, rate, k);
      MulMonotonic(k + 1, m, rate);
    }
    DownAt(x, rate, m);
    DownAt(y, rate, m);
  }

  lemma OffWrapped(x: seq<int>, y: seq<int>)
    requires OffAtEnd(x, y)
    ensures OffAtEnd(WrapAll(x), y)
  {
    forall n | 0 <= n < |x|
      ensures Cong(WrapAll(x)[n], y[n], Pow2(64)) <==> Cong(x[n], y[n], Pow2(64))
    {
      WrapKeepsLowBits(x[n]);
      CongBoth(WrapAll(x)[n], x[n], y[n]);
    }
  }

  lemma CongBoth(a: int, b: int, c: int)
    requires Cong(a, b, Pow2(64))
    ensures Cong(a, c, Pow2(64)) <==> Cong(b, c, Pow2(64))
  {
    var k := CongElim(a, b, Pow2(64));
    CongIntro(b, a, Pow2(64), -k);
    if Cong(a, c, Pow2(64)) {
      CongTrans(b, a, c, Pow2(64));
    }
    if Cong(b, c, Pow2(64)) {
      CongTrans(a, b, c, Pow2(64));
    }
  }

  lemma OffStage(f: Shape, i: nat, x: seq<int>, y: seq<int>, m: nat)
    requires f.Valid() && f.delay > 0 && i < 2 * f.stages && OffAtEnd(x, y)
    requires |x| == if i < f.stages then m * f.rate + 1 else m + 1
    ensures OffAtEnd(WrapAll(Stage(f, i, x)), Stage(f, i, y))
  {
    hide OffAtEnd, Down, Comb;
    if i < f.stages {
      OffPrefixSum(x, y);
      if i + 1 == f.stages {
        OffDown(PrefixSum(x), PrefixSum(y), f.rate, m);
      }
    } else {
      OffComb(x, y, f.delay);
    }
    OffWrapped(Stage(f, i, x), Stage(f, i, y));
  }

  // ---------- the first visible wrap ----------

  /** Sample index m of the decimated signal, before and after the resampler. */
  function IndexAt(f: Shape, i: nat, m: nat): nat {
    if i < f.stages then m * f.rate else m
  }

  /** The point's samples before decimated sample m, or up to it, are benign. */
  ghost predicate BenignBelow(f: Shape, x: seq<int>, w: seq<nat>, k: nat, top: nat)
    requires f.Valid() && |w| == 2 * f.stages + 1 && k <= 2 * f.stages
  {
    forall n :: 0 <= n < top && n < |Point(f, x, w, k)| ==> Benign(Point(f, x, w, k)[n], w[k])
  }

  /** An input whose last sample, and none before, meets a malign number at a point inside. */
  ghost predicate Clean(f: Shape, x: seq<int>, w: seq<nat>, m: nat)
    requires f.Valid() && |w| == 2 * f.stages + 1
  {
    && |x| == m * f.rate + 1
    && (forall k :: 0 < k < 2 * f.stages ==> BenignBelow(f, x, w, k, IndexAt(f, k, m)))
    && exists k :: 0 < k < 2 * f.stages && !BenignBelow(f, x, w, k, IndexAt(f, k, m) + 1)
  }

  lemma PointLength(f: Shape, x: seq<int>, w: seq<nat>, k: nat, m: nat)
    requires f.Valid() && |w| == 2 * f.stages + 1 && k <= 2 * f.stages && |x| == m * f.rate + 1
    ensures |Point(f, x, w, k)| == IndexAt(f, k, m) + 1
  {
    AlignedLength(f.rate, m);
  }

  /** While the points inside are benign the words stay congruent on all 64 bits. */
  lemma {:induction false} AllNear(f: Shape, x: seq<int64>, w: seq<nat>, i: nat)
    requires f.Valid() && |w| == 2 * f.stages + 1 && i <= 2 * f.stages
    requires forall k :: 0 < k < i ==> BenignBelow(f, x, w, k, |Point(f, x, w, k)|)
    ensures Tracks(WordPoint(f, x, w, i), Point(f, x, w, i), 64)
  {
    if i == 0 {
      TracksSelf(x, 64);
    } else {
      var a, b := WordPoint(f, x, w, i - 1), Point(f, x, w, i - 1);
      PointStep(f, x, w, i - 1);
      if i == 1 {
        TracksSelf(Truncated(x, w[0]), 64);
      } else {
        AllNear(f, x, w, i - 1);
        NearTruncated(a, b, w[i - 1]);
      }
      TracksStage(f, i - 1, Truncated(a, w[i - 1]), Truncated(b, w[i - 1]), 64);
    }
  }

  lemma NearTruncated(a: seq<int64>, b: seq<int>, s: nat)
    requires Tracks(a, b, 64) && forall n :: 0 <= n < |b| ==> Benign(b[n], s)
    ensures Tracks(Truncated(a, s), Truncated(b, s), 64)
  {
    TracksWhole(a, b);
  }

  /** A difference at the end survives a further truncation. */
  lemma OffTruncated(a: seq<int64>, b: seq<int>, bits: nat, s: nat)
    requires s <= bits <= 64 && OffAtEnd(a, b) && Tracks(a, b, bits)
    requires forall n :: 0 <= n < |b| - 1 ==> Benign(b[n], s)
    ensures OffAtEnd(Truncated(a, s), Truncated(b, s))
  {
    var last := |a| - 1;
    forall n | 0 <= n < last
      ensures Cong(a[n] / Pow2(s), b[n] / Pow2(s), Pow2(64))
    {
      WrapCong(a[n], b[n]);
      WrapInRange(a[n]);
    }
    OffShifted(a[last], b[last], bits, s);
  }

  lemma OffShifted(a: int, b: int, bits: nat, s: nat)
    requires s <= bits <= 64 && Cong(a, b, Pow2(bits)) && !Cong(a, b, Pow2(64))
    ensures !Cong(a / Pow2(s), b / Pow2(s), Pow2(64))
  {
    if Cong(a / Pow2(s), b / Pow2(s), Pow2(64)) {
      CongWeaken(a, b, bits, s);
      CongUnshift(a, b, s);
    }
  }

  /** The malign number makes the difference: the words before it are congruent. */
  lemma OffBegins(a: seq<int64>, b: seq<int>, s: nat)
    requires |b| > 0 && Tracks(a, b, 64) && !Benign(b[|b| - 1], s)
    requires forall n :: 0 <= n < |b| - 1 ==> Benign(b[n], s)
    ensures OffAtEnd(Truncated(a, s), Truncated(b, s))
  {
    TracksWhole(a, b);
  }

  /** From the point where it begins the difference reaches the output. */
  lemma {:induction false} OffReaches(f: Shape, x: seq<int64>, w: seq<nat>, i: nat, m: nat)
    requires f.Valid() && f.delay > 0 && |w| == 2 * f.stages + 1 && 0 < i < 2 * f.stages
    requires LostInside(w, |w|) <= 64 && |x| == m * f.rate + 1
    requires forall k :: 0 < k < 2 * f.stages ==> BenignBelow(f, x, w, k, IndexAt(f, k, m))
    requires OffAtEnd(Truncated(WordPoint(f, x, w, i), w[i]), Truncated(Point(f, x, w, i), w[i]))
    ensures WordPruned(f, x, w) != Pruned(f, x, w)
    decreases 2 * f.stages - i
  {
    hide OffAtEnd, Point, Truncated, Stage, Tracks, Benign, Cong;
    var a, b := WordPoint(f, x, w, i + 1), Point(f, x, w, i + 1);
    PointLength(f, x, w, i, m);
    PointLength(f, x, w, i + 1, m);
    PointStep(f, x, w, i);
    OffStage(f, i, Truncated(WordPoint(f, x, w, i), w[i]), Truncated(Point(f, x, w, i), w[i]), m);
    LostInsideMonotonic(w, i + 2, |w|);
    LostInsideMonotonic(w, i + 1, |w|);
    WordsTrack(f, x, w, i + 1);
    if i + 1 < 2 * f.stages {
      OffTruncated(a, b, BitsLeft(w, i + 1), w[i + 1]);
      OffReaches(f, x, w, i + 1, m);
    } else {
      OffShows(a, b, BitsLeft(w, i + 1), w[i + 1]);
    }
  }

  lemma OffShows(a: seq<int64>, b: seq<int>, bits: nat, s: nat)
    requires s <= bits <= 64 && OffAtEnd(a, b) && Tracks(a, b, bits)
    ensures Truncated(a, s) != Truncated(b, s)
  {
    var last, t, u := |a| - 1, Truncated(a, s), Truncated(b, s);
    OffShifted(a[last], b[last], bits, s);
    CongIntro(u[last], u[last], Pow2(64), 0);
    assert t[last] != u[last];
  }

  /** A clean input makes the words differ from the pruned form. */
  lemma CleanDiffers(f: Shape, x: seq<int64>, w: seq<nat>, m: nat)
    requires f.Valid() && f.delay > 0 && |w| == 2 * f.stages + 1 && LostInside(w, |w|) <= 64
    requires Clean(f, x, w, m)
    ensures WordPruned(f, x, w) != Pruned(f, x, w)
  {
    hide Benign, OffAtEnd, BenignBelow, Point, WordPoint, Truncated, Tracks, Pruned, WordPruned;
    var i := FirstMalign(f, x, w, m);
    forall k | 0 < k < i
      ensures BenignBelow(f, x, w, k, |Point(f, x, w, k)|)
    {
      PointLength(f, x, w, k, m);
    }
    AllNear(f, x, w, i);
    MalignLast(f, x, w, i, m);
    OffBegins(WordPoint(f, x, w, i), Point(f, x, w, i), w[i]);
    OffReaches(f, x, w, i, m);
  }

  lemma MalignLast(f: Shape, x: seq<int>, w: seq<nat>, i: nat, m: nat)
    requires f.Valid() && |w| == 2 * f.stages + 1 && i <= 2 * f.stages && |x| == m * f.rate + 1
    requires BenignBelow(f, x, w, i, IndexAt(f, i, m)) && !BenignBelow(f, x, w, i, IndexAt(f, i, m) + 1)
    ensures var b := Point(f, x, w, i);
            |b| > 0 && !Benign(b[|b| - 1], w[i]) && forall n :: 0 <= n < |b| - 1 ==> Benign(b[n], w[i])
  {
    PointLength(f, x, w, i, m);
  }

  lemma FirstMalign(f: Shape, x: seq<int>, w: seq<nat>, m: nat) returns (i: nat)
    requires f.Valid() && |w| == 2 * f.stages + 1 && Clean(f, x, w, m)
    ensures 0 < i < 2 * f.stages && !BenignBelow(f, x, w, i, IndexAt(f, i, m) + 1)
    ensures forall k :: 0 < k < i ==> BenignBelow(f, x, w, k, IndexAt(f, k, m) + 1)
  {
    i :| 0 < i < 2 * f.stages && !BenignBelow(f, x, w, i, IndexAt(f, i, m) + 1);
    while exists k :: 0 < k < i && !BenignBelow(f, x, w, k, IndexAt(f, k, m) + 1)
      invariant 0 < i < 2 * f.stages && !BenignBelow(f, x, w, i, IndexAt(f, i, m) + 1)
      decreases i
    {
      var k :| 0 < k < i && !BenignBelow(f, x, w, k, IndexAt(f, k, m) + 1);
      i := k;
    }
  }
}
