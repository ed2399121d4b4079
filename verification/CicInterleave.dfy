// Channels and interfaces of the CIC model: samples dealt round-robin to channels, several
// interfaces merged into one with more channels, and one split into several.

module CicInterleave {
  import opened Arith
  import opened Int64
  import CicChannel

  /** The values of s dealt round-robin to n channels. */
  function Dealt(s: seq<int64>, n: nat): (d: seq<seq<int64>>)
    requires n > 0
    ensures |d| == n
  {
    if s == [] then seq(n, _ => [])
    else
      var last := |s| - 1;
      var d := Dealt(s[..last], n);
      d[last % n := d[last % n] + [s[last]]]
  }

  /** How many of the first len positions go to channel c. */
  function Share(len: nat, n: nat, c: nat): (k: nat)
    requires c < n
  {
    (len + n - 1 - c) / n
  }

  lemma ShareStep(len: nat, n: nat, c: nat)
    requires c < n
    ensures Share(len + 1, n, c) == Share(len, n, c) + (if len % n == c then 1 else 0)
    ensures len % n == c ==> Share(len, n, c) == len / n
  {
    DivModDef(len, n);
    var q, r := len / n, len % n;
    assert len + n - 1 - c == q * n + (r + n - 1 - c);
    assert len + n - c == q * n + (r + n - c);
    if r <= c {
      DivModUnique(len + n - 1 - c, n, q, r + n - 1 - c);
    } else {
      assert (q + 1) * n == q * n + n;
      DivModUnique(len + n - 1 - c, n, q + 1, r - 1 - c);
    }
    if r < c {
      DivModUnique(len + n - c, n, q, r + n - c);
    } else {
      assert (q + 1) * n == q * n + n;
      DivModUnique(len + n - c, n, q + 1, r - c);
    }
  }

  lemma {:induction false} DealtLength(s: seq<int64>, n: nat, c: nat)
    requires c < n
    ensures |Dealt(s, n)[c]| == Share(|s|, n, c)
  {
    if s == [] {
      DivModUnique(n - 1 - c, n, 0, n - 1 - c);
    } else {
      DealtLength(s[..|s| - 1], n, c);
      ShareStep(|s| - 1, n, c);
    }
  }

  /** Position t of the stream is entry t / n of channel t % n. */
  lemma {:induction false} DealtAt(s: seq<int64>, n: nat, t: nat)
    requires n > 0 && t < |s|
    ensures t / n < |Dealt(s, n)[t % n]|
    ensures Dealt(s, n)[t % n][t / n] == s[t]
  {
    var last := |s| - 1;
    DealtLength(s[..last], n, last % n);
    ShareStep(last, n, last % n);
    if t < last {
      DealtAt(s[..last], n, t);
    }
  }

  lemma {:induction false} DealtPast(s: seq<int64>, n: nat, t: nat)
    requires n > 0 && t >= |s|
    ensures t / n >= |Dealt(s, n)[t % n]|
  {
    DealtLength(s, n, t % n);
    ShareStep(t, n, t % n);
    DivMonotonic(|s| + n - 1 - t % n, t + n - 1 - t % n, n);
  }

  /** What a set of channels delivers in a clock cycle; zero past the end of a channel. */
  function Read(channels: seq<seq<int64>>, cycle: nat): int64
    requires |channels| > 0
  {
    DivModDef(cycle, |channels|);
    DivTowardZero(cycle, |channels|);
    var channel := channels[cycle % |channels|];
    if cycle / |channels| < |channel| then channel[cycle / |channels|] else 0
  }

  /** Reading back what was dealt, cycle by cycle, gives the stream. */
  lemma ReadDealt(s: seq<int64>, n: nat, t: nat)
    requires n > 0
    ensures Read(Dealt(s, n), t) == if t < |s| then s[t] else 0
  {
    if t < |s| {
      DealtAt(s, n, t);
    } else {
      DealtPast(s, n, t);
    }
  }

  class SingleInterface {
    const count: nat
    var channels: seq<seq<int64>>
    var writeIndex: nat

    ghost predicate Valid()
      reads this
    {
      |channels| == count > 0 && writeIndex < count
    }

    /** The interface has received exactly the values of s, in this order. */
    ghost predicate Received(s: seq<int64>)
      reads this
    {
      Valid() && channels == Dealt(s, count) && writeIndex == |s| % count
    }

    constructor (channelCount: nat)
      requires channelCount > 0
      ensures count == channelCount && Received([])
    {
      count := channelCount;
      channels := seq(channelCount, _ => []);
      writeIndex := 0;
      new;
      DivModUnique(0, count, 0, 0);
    }

    /** Whatever has been received, the next value continues the round. */
    method AppendData(value: int64)
      requires Valid()
      modifies this
      ensures Valid()
      ensures forall s :: old(Received(s)) ==> Received(s + [value])
      ensures channels == old(channels)[old(writeIndex) := old(channels)[old(writeIndex)] + [value]]
    {
      ghost var before, slot := channels, writeIndex;
      channels := channels[writeIndex := channels[writeIndex] + [value]];
      writeIndex := (writeIndex + 1) % count;
      forall s | before == Dealt(s, count) && slot == |s| % count
        ensures Received(s + [value])
      {
        assert (s + [value])[..|s|] == s;
        NextSlot(|s|, count);
      }
    }

    static lemma NextSlot(len: nat, n: nat)
      requires n > 0
      ensures (len % n + 1) % n == (len + 1) % n
    {
      DivModDef(len, n);
      AddMultiple(len % n + 1, n, len / n);
    }

    function GetData(cycle: nat): int64
      requires Valid()
      reads this
    {
      Read(channels, cycle)
    }

    /** Reading cycle t gives the t-th value received, and zero past the last. */
    lemma GetDataIsReceived(s: seq<int64>, t: nat)
      requires Received(s)
      ensures GetData(t) == if t < |s| then s[t] else 0
    {
      ReadDealt(s, count, t);
    }

    /** Run the filter over every channel. */
    method ExecuteCic(job: CicChannel.Job)
      requires Valid() && forall c :: 0 <= c < count ==> job.Runnable(|channels[c]|)
      modifies this`channels
      ensures Valid()
      ensures forall c :: 0 <= c < count ==> job.Makes(old(channels)[c], channels[c])
    {
      hide CicChannel.Job.Makes, CicChannel.Job.Runnable;
      ghost var before := channels;
      var c := 0;
      while c < count
        invariant 0 <= c <= count == |channels| && writeIndex < count
        invariant forall k :: 0 <= k < c ==> job.Makes(before[k], channels[k])
        invariant forall k :: c <= k < count ==> channels[k] == before[k]
      {
        var output := RunChannel(job, channels[c]);
        channels := channels[c := output];
        c := c + 1;
      }
    }

    static method RunChannel(job: CicChannel.Job, x: seq<int64>) returns (y: seq<int64>)
      requires job.Runnable(|x|)
      ensures job.Makes(x, y)
    {
      var channel := new CicChannel.SingleChannel();
      channel.data := x;
      MulPositive(job.maxRate, job.f.delay);
      channel.ExecuteCic(job.filter, job.f, job.mode, job.bIn, job.bOut, job.hPruning, job.maxRate);
      y := channel.data;
    }

    function SampleLength(): nat
      requires Valid()
      reads this
    {
      |channels[0]| * count
    }

    /** After whole rounds the length is the number of values received; within a round, that number
        with the round completed. */
    lemma SampleLengthIsReceived(s: seq<int64>)
      requires Received(s)
      ensures |s| % count == 0 ==> SampleLength() == |s|
      ensures |s| <= SampleLength() < |s| + count && SampleLength() % count == 0
    {
      DealtLength(s, count, 0);
      DivModDef(|s| + count - 1, count);
      DivModDef(|s|, count);
      DivModUnique(SampleLength(), count, |channels[0]|, 0);
      if |s| % count == 0 {
        DivModUnique(|s| + count - 1, count, |s| / count, count - 1);
      }
    }

    /** With channels of k samples each, it is k rounds. */
    lemma SampleLengthOfShaped(k: nat)
      requires Valid() && forall c :: 0 <= c < count ==> |channels[c]| == k
      ensures SampleLength() == k * count
    {
    }
  }

  // ---------- several interfaces ----------

  type View = v: seq<seq<int64>> | |v| > 0 witness [[]]

  /** What all interfaces deliver in one cycle. */
  function Cycle(views: seq<View>, i: nat): (s: seq<int64>)
    ensures |s| == |views|
  {
    seq(|views|, j requires 0 <= j < |views| => Read(views[j], i))
  }

  /** The values of `len` cycles, all interfaces in turn within a cycle. */
  function Merged(views: seq<View>, len: nat): (s: seq<int64>)
    ensures |s| == len * |views|
  {
    if len == 0 then [] else Merged(views, len - 1) + Cycle(views, len - 1)
  }

  lemma Digits(a: nat, b: nat, n: nat)
    requires b < n
    ensures (a * n + b) / n == a && (a * n + b) % n == b
  {
    DivModUnique(a * n + b, n, a, b);
  }

  lemma Bound(a: nat, b: nat, m: nat, n: nat)
    requires a < m && b < n
    ensures a * n + b < m * n
  {
    MulMonotonic(a + 1, m, n);
    assert (a + 1) * n == a * n + n;
  }

  lemma {:induction false} MergedNext(views: seq<View>, len: nat, i: nat, j: nat)
    requires i < len && j < |views|
    ensures i * |views| + j < |Merged(views, len)|
    ensures Merged(views, len)[i * |views| + j] == Read(views[j], i)
  {
    Bound(i, j, len, |views|);
    if i < len - 1 {
      MergedNext(views, len - 1, i, j);
    }
  }

  /** A view with `channels` channels of k samples each. */
  predicate Shaped(v: View, channels: nat, k: nat) {
    |v| == channels && forall c :: 0 <= c < channels ==> |v[c]| == k
  }

  lemma ShareEven(k: nat, n: nat, c: nat)
    requires c < n
    ensures Share(k * n, n, c) == k
  {
    assert k * n + n - 1 - c == k * n + (n - 1 - c);
    DivModUnique(k * n + (n - 1 - c), n, k, n - 1 - c);
  }

  lemma DealtEven(s: seq<int64>, k: nat, m: nat, n: nat, x: nat)
    requires |s| == (k * m) * n && x < m * n
    ensures |Dealt(s, m * n)[x]| == k
  {
    MulAssoc(k, m, n);
    DealtLength(s, m * n, x);
    ShareEven(k, m * n, x);
  }

  ghost predicate AllShaped(views: seq<View>, channels: nat, k: nat) {
    forall i :: 0 <= i < |views| ==> Shaped(views[i], channels, k)
  }

  /** Position of sample t, channel c, interface j when n interfaces of m channels take turns. */
  function Place(t: nat, c: nat, j: nat, m: nat, n: nat): nat {
    (t * m + c) * n + j
  }

  /** Sample t of channel c of interface j, in the merged stream. */
  lemma MergedAt(views: seq<View>, channels: nat, k: nat, j: nat, c: nat, t: nat)
    requires j < |views| && c < channels && t < k && AllShaped(views, channels, k)
    ensures Place(t, c, j, channels, |views|) < |Merged(views, k * channels)|
    ensures c < |views[j]| && t < |views[j][c]|
    ensures Merged(views, k * channels)[Place(t, c, j, channels, |views|)] == views[j][c][t]
  {
    assert Shaped(views[j], channels, k);
    Bound(t, c, k, channels);
    MergedNext(views, k * channels, t * channels + c, j);
    Digits(t, c, channels);
  }

  lemma Regroup(a: int, b: int, c: int, n: int, j: int)
    ensures (a * b + c) * n + j == a * (b * n) + (c * n + j)
  {
  }

  /** Dealing to n * m channels at once. */
  lemma DealtOnceAt(s: seq<int64>, n: nat, m: nat, j: nat, c: nat, t: nat)
    requires j < n && c < m && Place(t, c, j, m, n) < |s|
    ensures c * n + j < m * n
    ensures t < |Dealt(s, m * n)[c * n + j]|
    ensures Dealt(s, m * n)[c * n + j][t] == s[Place(t, c, j, m, n)]
  {
    Bound(c, j, m, n);
    Regroup(t, m, c, n, j);
    Digits(t, c * n + j, m * n);
    DealtAt(s, m * n, (t * m + c) * n + j);
  }

  /** Dealing to n interfaces and then to m channels each. */
  lemma DealtTwiceAt(s: seq<int64>, n: nat, m: nat, j: nat, c: nat, t: nat)
    requires j < n && c < m && Place(t, c, j, m, n) < |s|
    ensures t < |Dealt(Dealt(s, n)[j], m)[c]|
    ensures Dealt(Dealt(s, n)[j], m)[c][t] == s[Place(t, c, j, m, n)]
  {
    var i := t * m + c;
    Digits(i, j, n);
    DealtAt(s, n, i * n + j);
    Digits(t, c, m);
    DealtAt(Dealt(s, n)[j], m, i);
  }

  lemma MergedSample(views: seq<View>, channels: nat, k: nat, j: nat, c: nat, t: nat)
    requires j < |views| && c < channels && t < k && AllShaped(views, channels, k)
    ensures c * |views| + j < channels * |views| && c < |views[j]| && t < |views[j][c]|
    ensures var d := Dealt(Merged(views, k * channels), channels * |views|)[c * |views| + j];
            t < |d| && d[t] == views[j][c][t]
  {
    hide Dealt, Merged, Place, AllShaped;
    MergedAt(views, channels, k, j, c, t);
    DealtOnceAt(Merged(views, k * channels), |views|, channels, j, c, t);
  }

  lemma SplitSample(views: seq<View>, channels: nat, k: nat, j: nat, c: nat, t: nat)
    requires j < |views| && c < channels && t < k && AllShaped(views, channels, k)
    ensures c < |views[j]| && t < |views[j][c]|
    ensures var d := Dealt(Dealt(Merged(views, k * channels), |views|)[j], channels)[c];
            t < |d| && d[t] == views[j][c][t]
  {
    MergedAt(views, channels, k, j, c, t);
    DealtTwiceAt(Merged(views, k * channels), |views|, channels, j, c, t);
  }

  /** Merging equally long interfaces: channel c of interface j becomes channel c * n + j. */
  lemma MergedChannel(views: seq<View>, channels: nat, k: nat, j: nat, c: nat)
    requires j < |views| && c < channels && AllShaped(views, channels, k)
    ensures c * |views| + j < channels * |views| && c < |views[j]|
    ensures Dealt(Merged(views, k * channels), channels * |views|)[c * |views| + j] == views[j][c]
  {
    assert Shaped(views[j], channels, k);
    var n := |views|;
    var x := c * n + j;
    Bound(c, j, channels, n);
    DealtEven(Merged(views, k * channels), k, channels, n, x);
    forall t | 0 <= t < k
      ensures Dealt(Merged(views, k * channels), channels * n)[x][t] == views[j][c][t]
    {
      MergedSample(views, channels, k, j, c, t);
    }
  }

  /** The channels are those of the views, all first ones first, view by view. */
  ghost predicate Interleaved(views: seq<View>, channels: nat, merged: seq<seq<int64>>) {
    && |merged| == channels * |views|
    && forall j, c :: 0 <= j < |views| && 0 <= c < channels ==> ChannelAt(views, channels, merged, j, c)
  }

  ghost predicate ChannelAt(views: seq<View>, channels: nat, merged: seq<seq<int64>>, j: nat, c: nat)
    requires j < |views| && c < channels && |merged| == channels * |views|
  {
    Bound(c, j, channels, |views|);
    c < |views[j]| && merged[c * |views| + j] == views[j][c]
  }

  lemma MergedChannels(views: seq<View>, channels: nat, k: nat)
    requires |views| > 0 && channels > 0 && AllShaped(views, channels, k)
    ensures channels * |views| > 0
    ensures Interleaved(views, channels, Dealt(Merged(views, k * channels), channels * |views|))
  {
    hide Dealt, Merged;
    MulPositive(channels, |views|);
    var merged := Dealt(Merged(views, k * channels), channels * |views|);
    forall j, c | 0 <= j < |views| && 0 <= c < channels
      ensures ChannelAt(views, channels, merged, j, c)
    {
      MergedChannel(views, channels, k, j, c);
    }
  }

  /** Dealing the merged stream to n interfaces and then to their channels undoes the merge. */
  lemma SplitChannel(views: seq<View>, channels: nat, k: nat, j: nat, c: nat)
    requires j < |views| && c < channels && AllShaped(views, channels, k)
    ensures c < |views[j]|
    ensures Dealt(Dealt(Merged(views, k * channels), |views|)[j], channels)[c] == views[j][c]
  {
    assert Shaped(views[j], channels, k);
    var u := Dealt(Merged(views, k * channels), |views|)[j];
    DealtLength(Merged(views, k * channels), |views|, j);
    ShareEven(k * channels, |views|, j);
    DealtLength(u, channels, c);
    ShareEven(k, channels, c);
    forall t | 0 <= t < k
      ensures Dealt(u, channels)[c][t] == views[j][c][t]
    {
      SplitSample(views, channels, k, j, c, t);
    }
  }

  /** A stream dealt to n interfaces of m channels each. */
  function SplitViews(s: seq<int64>, n: nat, m: nat): (v: seq<View>)
    requires n > 0 && m > 0
    ensures |v| == n
  {
    seq(n, j requires 0 <= j < n => Dealt(Dealt(s, n)[j], m))
  }

  /** Dealing one interface of m * n channels to n interfaces: channel c * n + j becomes channel c
      of interface j. */
  lemma SplitChannels(v: View, m: nat, n: nat, k: nat)
    requires m > 0 && n > 0 && Shaped(v, m * n, k)
    ensures var s := Merged([v], k * (m * n));
            Interleaved(SplitViews(s, n, m), m, v)
  {
    hide Dealt, Merged;
    var s := Merged([v], k * (m * n));
    var views := SplitViews(s, n, m);
    forall j, c | 0 <= j < n && 0 <= c < m
      ensures ChannelAt(views, m, v, j, c)
    {
      Bound(c, j, m, n);
      OneChannel(v, m, n, k, j, c, c * n + j);
    }
  }

  lemma OneChannel(v: View, m: nat, n: nat, k: nat, j: nat, c: nat, x: nat)
    requires j < n && c < m && x == c * n + j && x < |v| && Shaped(v, m * n, k)
    ensures Dealt(Dealt(Merged([v], k * (m * n)), n)[j], m)[c] == v[x]
  {
    hide Dealt, Merged;
    var s := Merged([v], k * (m * n));
    Bound(c, j, m, n);
    MulAssoc(k, m, n);
    DealtLength(s, n, j);
    ShareEven(k * m, n, j);
    var u := Dealt(s, n)[j];
    DealtLength(u, m, c);
    ShareEven(k, m, c);
    forall t | 0 <= t < k
      ensures Dealt(u, m)[c][t] == v[x][t]
    {
      PlaceInside(t, c, j, m, n, k);
      DealtTwiceAt(s, n, m, j, c, t);
      OneView(v, m, n, k, j, c, t);
    }
  }

  lemma PlaceInside(t: nat, c: nat, j: nat, m: nat, n: nat, k: nat)
    requires t < k && c < m && j < n
    ensures Place(t, c, j, m, n) < k * (m * n)
  {
    Bound(t, c, k, m);
    Bound(t * m + c, j, k * m, n);
    MulAssoc(k, m, n);
  }

  lemma OneView(v: View, m: nat, n: nat, k: nat, j: nat, c: nat, t: nat)
    requires t < k && c < m && j < n && Shaped(v, m * n, k)
    ensures c * n + j < m * n && Place(t, c, j, m, n) < |Merged([v], k * (m * n))|
    ensures Merged([v], k * (m * n))[Place(t, c, j, m, n)] == v[c * n + j][t]
  {
    Bound(c, j, m, n);
    PlaceInside(t, c, j, m, n, k);
    MergedNext([v], k * (m * n), Place(t, c, j, m, n), 0);
    Regroup(t, m, c, n, j);
    Digits(t, c * n + j, m * n);
  }

  lemma InterleavedShaped(views: seq<View>, channels: nat, merged: View, k: nat)
    requires |views| > 0 && AllShaped(views, channels, k) && Interleaved(views, channels, merged)
    ensures Shaped(merged, channels * |views|, k)
  {
    var n := |views|;
    forall x | 0 <= x < channels * n
      ensures |merged[x]| == k
    {
      var j, c := x % n, x / n;
      DivModDef(x, n);
      if c >= channels {
        MulMonotonic(channels, c, n);
      }
      assert Shaped(views[j], channels, k) && ChannelAt(views, channels, merged, j, c);
    }
  }

  /** The views that interleave to the same channels are the same. */
  lemma InterleavedOnce(a: seq<View>, b: seq<View>, channels: nat, merged: seq<seq<int64>>)
    requires |a| == |b| && Interleaved(a, channels, merged) && Interleaved(b, channels, merged)
    requires forall j :: 0 <= j < |a| ==> |a[j]| == |b[j]| == channels
    ensures a == b
  {
    forall j | 0 <= j < |a|
      ensures a[j] == b[j]
    {
      forall c | 0 <= c < channels
        ensures a[j][c] == b[j][c]
      {
        assert ChannelAt(a, channels, merged, j, c) && ChannelAt(b, channels, merged, j, c);
      }
    }
  }

  /** Reading the one merged interface gives the merged stream back. */
  lemma MergedTwice(s: seq<int64>, n: nat)
    requires n > 0
    ensures Merged([Dealt(s, n)], |s|) == s
  {
    MergedPrefix(s, n, |s|);
  }

  lemma {:induction false} MergedPrefix(s: seq<int64>, n: nat, len: nat)
    requires n > 0 && len <= |s|
    ensures Merged([Dealt(s, n)], len) == s[..len]
  {
    if len > 0 {
      MergedPrefix(s, n, len - 1);
      ReadDealt(s, n, len - 1);
    }
  }

  /** What is read back from the one merged interface. */
  lemma MergedView(views: seq<View>, channels: nat, k: nat)
    requires |views| > 0 && channels > 0
    ensures channels * |views| > 0
    ensures var merged := Dealt(Merged(views, k * channels), channels * |views|);
            |merged[0]| * |merged| == |Merged(views, k * channels)| &&
            |merged| / |views| == channels &&
            Merged([merged], |merged[0]| * |merged|) == Merged(views, k * channels)
  {
    var n, s := |views|, Merged(views, k * channels);
    MulPositive(channels, n);
    DealtEven(s, k, channels, n, 0);
    MulAssoc(k, channels, n);
    MergedTwice(s, channels * n);
    DivModUnique(channels * n, n, channels, 0);
  }

  lemma SplitView(views: seq<View>, channels: nat, k: nat, j: nat)
    requires j < |views| && channels > 0 && AllShaped(views, channels, k)
    ensures Dealt(Dealt(Merged(views, k * channels), |views|)[j], channels) == views[j]
  {
    assert Shaped(views[j], channels, k);
    hide Dealt, Merged;
    forall c | 0 <= c < channels
      ensures Dealt(Dealt(Merged(views, k * channels), |views|)[j], channels)[c] == views[j][c]
    {
      SplitChannel(views, channels, k, j, c);
    }
  }

  /** The round trip: merge n equally long interfaces, separate into n, and nothing has changed. */
  lemma SeparateUndoesCombine(views: seq<View>, channels: nat, k: nat, j: nat)
    requires j < |views| && channels > 0 && AllShaped(views, channels, k)
    ensures channels * |views| > 0
    ensures var merged := Dealt(Merged(views, k * channels), channels * |views|);
            |merged| / |views| == channels &&
            Dealt(Dealt(Merged([merged], |merged[0]| * |merged|), |views|)[j], channels) == views[j]
  {
    hide Dealt, Merged;
    MergedView(views, channels, k);
    SplitView(views, channels, k, j);
  }

  // ---------- filtered channels ----------

  ghost predicate AllMade(job: CicChannel.Job, before: View, after: View) {
    |after| == |before| && forall c :: 0 <= c < |before| ==>
      job.Runnable(|before[c]|) && job.Makes(before[c], after[c])
  }

  /** Channel c of interface j, filtered, is channel c * I + j of the one interface left. */
  ghost predicate FilteredTogether(job: CicChannel.Job, before: seq<View>, channels: nat, after: View) {
    && |after| == channels * |before|
    && forall j, c :: 0 <= j < |before| && 0 <= c < channels ==> TogetherAt(job, before, channels, after, j, c)
  }

  ghost predicate TogetherAt(job: CicChannel.Job, before: seq<View>, channels: nat, after: View, j: nat, c: nat)
    requires j < |before| && c < channels && |after| == channels * |before|
  {
    Bound(c, j, channels, |before|);
    c < |before[j]| && job.Runnable(|before[j][c]|) && job.Makes(before[j][c], after[c * |before| + j])
  }

  /** Channel c * I + j of the one interface, filtered, is channel c of interface j afterwards. */
  ghost predicate FilteredApart(job: CicChannel.Job, before: View, channels: nat, after: seq<View>) {
    && |before| == channels * |after|
    && forall j, c :: 0 <= j < |after| && 0 <= c < channels ==> ApartAt(job, before, channels, after, j, c)
  }

  ghost predicate ApartAt(job: CicChannel.Job, before: View, channels: nat, after: seq<View>, j: nat, c: nat)
    requires j < |after| && c < channels && |before| == channels * |after|
  {
    Bound(c, j, channels, |after|);
    && c < |after[j]| && job.Runnable(|before[c * |after| + j]|)
    && job.Makes(before[c * |after| + j], after[j][c])
  }

  lemma MadeShaped(job: CicChannel.Job, before: seq<View>, made: seq<View>, channels: nat, k: nat)
    returns (len: nat)
    requires 0 < |before| == |made| && channels > 0 && AllShaped(before, channels, k)
    requires forall i :: 0 <= i < |before| ==> AllMade(job, before[i], made[i])
    ensures AllShaped(made, channels, len)
  {
    hide CicChannel.Job.Makes;
    assert Shaped(before[0], channels, k) && AllMade(job, before[0], made[0]);
    len := job.OutputLength(|before[0][0]|);
    forall i | 0 <= i < |made|
      ensures Shaped(made[i], channels, len)
    {
      assert Shaped(before[i], channels, k) && AllMade(job, before[i], made[i]);
      forall c | 0 <= c < channels
        ensures |made[i][c]| == len
      {
        job.MakesLength(before[i][c], made[i][c]);
      }
    }
  }

  lemma MadeTogether(job: CicChannel.Job, before: seq<View>, made: seq<View>, channels: nat, after: View)
    requires |before| == |made| && Interleaved(made, channels, after)
    requires forall i :: 0 <= i < |before| ==> AllMade(job, before[i], made[i])
    ensures FilteredTogether(job, before, channels, after)
  {
    hide CicChannel.Job.Makes, CicChannel.Job.Runnable;
    forall j, c | 0 <= j < |before| && 0 <= c < channels
      ensures TogetherAt(job, before, channels, after, j, c)
    {
      assert ChannelAt(made, channels, after, j, c) && AllMade(job, before[j], made[j]);
    }
  }

  lemma MadeApart(job: CicChannel.Job, before: View, made: View, channels: nat, after: seq<View>)
    requires AllMade(job, before, made) && Interleaved(after, channels, made)
    ensures FilteredApart(job, before, channels, after)
  {
    hide CicChannel.Job.Makes, CicChannel.Job.Runnable;
    forall j, c | 0 <= j < |after| && 0 <= c < channels
      ensures ApartAt(job, before, channels, after, j, c)
    {
      assert ChannelAt(after, channels, made, j, c);
      Bound(c, j, channels, |after|);
    }
  }

  // ---------- one rate ----------

  class SingleRate {
    var interfaces: seq<SingleInterface>

    ghost predicate Valid()
      reads this, interfaces
    {
      && |interfaces| > 0
      && (forall i :: 0 <= i < |interfaces| ==> interfaces[i].Valid())
      && (forall i, j :: 0 <= i < j < |interfaces| ==> interfaces[i] != interfaces[j])
    }

    ghost function Views(): (v: seq<View>)
      requires Valid()
      reads this, interfaces
      ensures |v| == |interfaces|
    {
      seq(|interfaces|, i requires 0 <= i < |interfaces| reads this, interfaces
          requires interfaces[i].Valid() => interfaces[i].channels)
    }

    function SampleLength(): nat
      requires Valid()
      reads this, interfaces
    {
      interfaces[0].SampleLength()
    }

    constructor (interfaceCount: nat, channels: nat)
      requires interfaceCount > 0 && channels > 0
      ensures Valid() && |interfaces| == interfaceCount && fresh(interfaces)
      ensures forall i :: 0 <= i < interfaceCount ==>
        interfaces[i].count == channels && interfaces[i].Received([])
    {
      interfaces := [];
      new;
      var made := MakeInterfaces(interfaceCount, channels);
      interfaces := made;
    }

    static method MakeInterfaces(n: nat, channels: nat) returns (v: seq<SingleInterface>)
      requires channels > 0
      ensures |v| == n && fresh(v)
      ensures forall i :: 0 <= i < n ==> v[i].count == channels && v[i].Received([])
      ensures forall i, j :: 0 <= i < j < n ==> v[i] != v[j]
    {
      v := [];
      for i := 0 to n
        invariant |v| == i && fresh(v)
        invariant forall k :: 0 <= k < i ==> v[k].count == channels && v[k].Received([])
        invariant forall k, l :: 0 <= k < l < i ==> v[k] != v[l]
      {
        var next := new SingleInterface(channels);
        v := v + [next];
      }
    }

    /** All cycles, one after the other. */
    method AppendAll(target: SingleInterface)
      requires Valid() && target.Received([]) && target !in interfaces
      modifies target
      ensures Valid() && Views() == old(Views()) && SampleLength() == old(SampleLength())
      ensures target.Received(Merged(Views(), SampleLength()))
    {
      ghost var views, len := Views(), SampleLength();
      var i := 0;
      while i < SampleLength()
        invariant 0 <= i <= SampleLength() == len && Valid() && Views() == views
        invariant target.Received(Merged(views, i))
      {
        AppendCycle(target, i, Merged(views, i));
        i := i + 1;
      }
    }

    /** Merge all interfaces into one.  For interfaces of equally many and equally long channels,
        channel c of interface j becomes channel c * I + j. */
    method CombineInterfaces()
      requires Valid()
      modifies this
      ensures Valid() && |interfaces| == 1 && fresh(interfaces[0])
      ensures interfaces[0].count == |old(interfaces)| * old(interfaces[0].count)
      ensures interfaces[0].Received(Merged(old(Views()), old(SampleLength())))
      ensures forall k: nat :: AllShaped(old(Views()), old(interfaces[0].count), k) ==>
        Interleaved(old(Views()), old(interfaces[0].count), interfaces[0].channels)
    {
      MulPositive(|interfaces|, interfaces[0].count);
      ghost var views, channels, len := Views(), interfaces[0].count, SampleLength();
      forall k: nat | AllShaped(views, channels, k)
        ensures Interleaved(views, channels, Dealt(Merged(views, len), channels * |views|))
      {
        FirstShaped(k);
        MergedChannels(views, channels, k);
      }
      var merged := new SingleInterface(|interfaces| * interfaces[0].count);
      AppendAll(merged);
      interfaces := [merged];
    }

    lemma FirstShaped(k: nat)
      requires Valid() && AllShaped(Views(), interfaces[0].count, k)
      ensures SampleLength() == k * interfaces[0].count
    {
      assert Shaped(Views()[0], interfaces[0].count, k);
      interfaces[0].SampleLengthOfShaped(k);
    }

    /** One turn over the interfaces: their values of cycle i go to the target in order. */
    method AppendCycle(target: SingleInterface, i: nat, ghost s: seq<int64>)
      requires Valid() && target.Received(s) && target !in interfaces
      modifies target
      ensures Valid() && Views() == old(Views())
      ensures target.Received(s + Cycle(Views(), i))
    {
      ghost var c := Cycle(Views(), i);
      assert s + c[..0] == s;
      var j := 0;
      while j < |interfaces|
        invariant 0 <= j <= |interfaces| && Valid() && Views() == old(Views())
        invariant target.Received(s + c[..j])
        modifies target
      {
        OneMore(s, c, j);
        target.AppendData(interfaces[j].GetData(i));
        j := j + 1;
      }
      AllOf(c);
    }

    static method SplitOne(split: seq<SingleInterface>, channels: nat, start: nat, v: int64,
                           ghost s: seq<int64>) returns (index: nat)
      requires Separated(split, channels, start, s)
      modifies split
      ensures Separated(split, channels, index, s + [v])
    {
      SeparatedNext(s, v, |split|);
      ghost var d := Dealt(s, |split|);
      split[start].AppendData(v);
      assert split[start].Received(d[start] + [v]);
      index := (start + 1) % |split|;
    }

    /** The same turn, dealing the values to the new interfaces from `index` on. */
    method SplitCycle(split: seq<SingleInterface>, channels: nat, start: nat, i: nat, ghost s: seq<int64>)
      returns (index: nat)
      requires Valid() && Separated(split, channels, start, s)
      requires forall q :: 0 <= q < |split| ==> split[q] !in interfaces
      modifies split
      ensures Valid() && Views() == old(Views())
      ensures Separated(split, channels, index, s + Cycle(Views(), i))
    {
      ghost var c := Cycle(Views(), i);
      assert s + c[..0] == s;
      index := start;
      var j := 0;
      while j < |interfaces|
        invariant 0 <= j <= |interfaces| && Valid() && Views() == old(Views())
        invariant Separated(split, channels, index, s + c[..j])
        modifies split
      {
        OneMore(s, c, j);
        index := SplitOne(split, channels, index, interfaces[j].GetData(i), s + c[..j]);
        j := j + 1;
      }
      AllOf(c);
    }

    static lemma OneMore(s: seq<int64>, c: seq<int64>, j: nat)
      requires j < |c|
      ensures s + c[..j + 1] == (s + c[..j]) + [c[j]]
    {
    }

    static lemma AllOf(c: seq<int64>)
      ensures c[..|c|] == c
    {
    }

    /** All turns: the whole merged stream is dealt to the new interfaces. */
    method SplitAll(split: seq<SingleInterface>, channels: nat)
      requires Valid() && Separated(split, channels, 0, [])
      requires forall q :: 0 <= q < |split| ==> split[q] !in interfaces
      modifies split
      ensures Valid() && Views() == old(Views()) && SampleLength() == old(SampleLength())
      ensures Separated(split, channels, |Merged(Views(), SampleLength())| % |split|, Merged(Views(), SampleLength()))
    {
      hide Dealt;
      ghost var views, len := Views(), SampleLength();
      var index: nat := 0;
      var i := 0;
      while i < SampleLength()
        invariant 0 <= i <= SampleLength() == len && Valid() && Views() == views
        invariant Separated(split, channels, index, Merged(views, i))
        modifies split
      {
        index := SplitCycle(split, channels, index, i, Merged(views, i));
        i := i + 1;
      }
    }

    /** Split into several interfaces: the merged stream is dealt to them in turn.  From one
        interface of equally long channels, channel c * count + j becomes channel c of interface j. */
    method SeparateInterfaces(count: nat)
      requires Valid() && 0 < count <= interfaces[0].count
      modifies this
      ensures Valid() && |interfaces| == count && fresh(interfaces)
      ensures forall q :: 0 <= q < count ==>
        interfaces[q].count == old(interfaces[0].count) / count &&
        interfaces[q].Received(Dealt(Merged(old(Views()), old(SampleLength())), count)[q])
      ensures forall m: nat, k: nat ::
        |old(interfaces)| == 1 && old(interfaces[0].count) == m * count && Shaped(old(Views())[0], m * count, k)
        ==> Interleaved(Views(), m, old(Views())[0])
    {
      hide Merged, Dealt, Interleaved, Shaped, Separated, SplitViews, SingleInterface.Received;
      var channels := interfaces[0].count / count;
      ghost var views, len := Views(), SampleLength();
      DivMonotonic(count, interfaces[0].count, count);
      DivModUnique(count, count, 1, 0);
      var split := MakeInterfaces(count, channels);
      NothingSplit(split, channels);
      forall m: nat, k: nat | |interfaces| == 1 && interfaces[0].count == m * count && Shaped(views[0], m * count, k)
        ensures channels == m > 0 && Interleaved(SplitViews(Merged(views, len), count, m), m, views[0])
      {
        OneSplit(count, m, k);
      }
      SplitAll(split, channels);
      interfaces := split;
      AllSplit(split, channels, |Merged(views, len)| % count, Merged(views, len));
    }

    static lemma NothingSplit(split: seq<SingleInterface>, channels: nat)
      requires |split| > 0 && channels > 0
      requires forall i, j :: 0 <= i < j < |split| ==> split[i] != split[j]
      requires forall i :: 0 <= i < |split| ==> split[i].count == channels && split[i].Received([])
      ensures Separated(split, channels, 0, [])
    {
      DivModUnique(0, |split|, 0, 0);
    }

    lemma AllSplit(split: seq<SingleInterface>, channels: nat, index: nat, s: seq<int64>)
      requires split == interfaces && channels > 0 && Separated(split, channels, index, s)
      ensures Valid() && forall q :: 0 <= q < |split| ==>
        split[q].count == channels && split[q].Received(Dealt(s, |split|)[q])
      ensures Views() == SplitViews(s, |split|, channels)
    {
      hide Dealt;
    }

    /** Run the filter over every channel of every interface. */
    method FilterAll(job: CicChannel.Job)
      requires Valid() && forall i, c :: 0 <= i < |interfaces| && 0 <= c < interfaces[i].count ==>
        job.Runnable(|interfaces[i].channels[c]|)
      modifies interfaces`channels
      ensures Valid() && |Views()| == |old(Views())|
      ensures forall i :: 0 <= i < |interfaces| ==> AllMade(job, old(Views())[i], Views()[i])
    {
      ghost var before := Views();
      var i := 0;
      while i < |interfaces|
        invariant 0 <= i <= |interfaces| && Valid()
        invariant forall k :: 0 <= k < i ==> AllMade(job, before[k], interfaces[k].channels)
        invariant forall k :: i <= k < |interfaces| ==> interfaces[k].channels == before[k]
      {
        interfaces[i].ExecuteCic(job);
        i := i + 1;
      }
    }

    /** A run of one rate: filter every channel; then merge what was decimated, and split what was
        interpolated. */
    method ExecuteCic(job: CicChannel.Job, count: nat)
      requires Valid() && (job.filter == CicChannel.Interpolator ==> 0 < count <= interfaces[0].count)
      requires forall i, c :: 0 <= i < |interfaces| && 0 <= c < interfaces[i].count ==>
        job.Runnable(|interfaces[i].channels[c]|)
      modifies this, interfaces`channels
      ensures Valid()
      ensures job.filter == CicChannel.Decimator ==> |interfaces| == 1
      ensures job.filter == CicChannel.Interpolator ==> |interfaces| == count
      ensures forall k: nat {:trigger AllShaped(old(Views()), old(interfaces[0].count), k)} ::
        AllShaped(old(Views()), old(interfaces[0].count), k) && job.filter == CicChannel.Decimator ==>
        FilteredTogether(job, old(Views()), old(interfaces[0].count), interfaces[0].channels)
      ensures forall k: nat {:trigger AllShaped(old(Views()), old(interfaces[0].count), k)} ::
        AllShaped(old(Views()), old(interfaces[0].count), k) && |old(interfaces)| == 1
        && job.filter == CicChannel.Interpolator ==>
        forall m: nat :: old(interfaces[0].count) == m * count ==> FilteredApart(job, old(Views())[0], m, Views())
    {
      hide CicChannel.Job.Makes, CicChannel.Job.Runnable, Merged, Dealt, Interleaved;
      ghost var before, channels := Views(), interfaces[0].count;
      FilterAll(job);
      ghost var made := Views();
      if job.filter == CicChannel.Interpolator {
        SeparateInterfaces(count);
        forall k: nat, m: nat | AllShaped(before, channels, k) && |before| == 1 && channels == m * count
          ensures FilteredApart(job, before[0], m, Views())
        {
          var len := MadeShaped(job, before, made, channels, k);
          assert Shaped(made[0], m * count, len);
          MadeApart(job, before[0], made[0], m, Views());
        }
      } else {
        CombineInterfaces();
        forall k: nat | AllShaped(before, channels, k)
          ensures FilteredTogether(job, before, channels, interfaces[0].channels)
        {
          var len := MadeShaped(job, before, made, channels, k);
          MadeTogether(job, before, made, channels, interfaces[0].channels);
        }
      }
    }

    /** Merging equally long interfaces and splitting them again leaves every channel as it was. */
    method CombineAndSeparate(ghost k: nat)
      requires Valid() && AllShaped(Views(), interfaces[0].count, k)
      modifies this
      ensures Valid() && Views() == old(Views())
    {
      hide Merged, Dealt, Interleaved;
      ghost var views, channels := Views(), interfaces[0].count;
      var n := |interfaces|;
      MulMonotonic(1, channels, n);
      CombineInterfaces();
      ghost var merged := interfaces[0].channels;
      InterleavedShaped(views, channels, merged, k);
      assert Views()[0] == merged;
      SeparateInterfaces(n);
      assert forall j :: 0 <= j < n ==> Shaped(views[j], channels, k);
      DivModUnique(channels * n, n, channels, 0);
      InterleavedOnce(views, Views(), channels, merged);
    }

    /** One interface of m * count equally long channels, split. */
    lemma OneSplit(count: nat, m: nat, k: nat)
      requires Valid() && |interfaces| == 1 && count > 0 && interfaces[0].count == m * count
      requires Shaped(Views()[0], m * count, k)
      ensures interfaces[0].count / count == m > 0
      ensures Interleaved(SplitViews(Merged(Views(), SampleLength()), count, m), m, Views()[0])
    {
      hide Merged, Dealt, Interleaved;
      DivModUnique(m * count, count, m, 0);
      interfaces[0].SampleLengthOfShaped(k);
      assert Views() == [Views()[0]];
      SplitChannels(Views()[0], m, count, k);
    }

    /** The new interfaces have received the stream so far, dealt in turn. */
    static ghost predicate Separated(split: seq<SingleInterface>, channels: nat, index: nat,
                                     s: seq<int64>)
      reads split
    {
      && |split| > 0 && index == |s| % |split|
      && (forall i, j :: 0 <= i < j < |split| ==> split[i] != split[j])
      && (forall q :: 0 <= q < |split| ==>
            split[q].count == channels && split[q].Received(Dealt(s, |split|)[q]))
    }

    static lemma SeparatedNext(s: seq<int64>, v: int64, n: nat)
      requires n > 0
      ensures Dealt(s + [v], n) == Dealt(s, n)[|s| % n := Dealt(s, n)[|s| % n] + [v]]
      ensures |s + [v]| % n == (|s| % n + 1) % n
    {
      assert (s + [v])[..|s|] == s;
      SingleInterface.NextSlot(|s|, n);
    }
  }
}
