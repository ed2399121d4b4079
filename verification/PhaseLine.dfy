// The phase accumulator shared by several channels: a delay line of unreduced phases, reduced
// only on the way out.  It acts as one accumulator per channel.

module PhaseLine {
  import opened Arith
  import opened Doubles

  /** How a phase leaving the line is reduced: one conditional subtraction, or dblmod. */
  datatype Reduction = Once | Repeated

  function Reduce(how: Reduction, v: int, modulus: int): int
    requires modulus > 0
  {
    if how == Once then (if v >= modulus then v - modulus else v) else SubtractMod(v, modulus)
  }

  /** Phase used at sample i, when `channels` samples pass between entering and leaving. */
  function PhaseAt(how: Reduction, fed: seq<int>, channels: nat, modulus: int, i: nat): int
    requires channels > 0 && modulus > 0 && i <= |fed|
    decreases i, 0
  {
    if i < channels then 0 else Reduce(how, Entered(how, fed, channels, modulus, i - channels), modulus)
  }

  /** The unreduced value that enters the line at sample i. */
  function Entered(how: Reduction, fed: seq<int>, channels: nat, modulus: int, i: nat): int
    requires channels > 0 && modulus > 0 && i < |fed|
    decreases i, 1
  {
    PhaseAt(how, fed, channels, modulus, i) + fed[i]
  }

  lemma {:induction false} EnteredPrefix(how: Reduction, fed: seq<int>, inc: int, channels: nat,
                                         modulus: int, i: nat)
    requires channels > 0 && modulus > 0 && i <= |fed|
    ensures PhaseAt(how, fed + [inc], channels, modulus, i) == PhaseAt(how, fed, channels, modulus, i)
    ensures i < |fed| ==>
      Entered(how, fed + [inc], channels, modulus, i) == Entered(how, fed, channels, modulus, i)
  {
    if i >= channels {
      EnteredPrefix(how, fed, inc, channels, modulus, i - channels);
    }
  }

  // ---------- independence of the channels ----------

  /** Sum of the first t increments of channel c. */
  function ChannelSum(fed: seq<int>, channels: nat, c: nat, t: nat): int
    requires c < channels && (t > 0 ==> c + (t - 1) * channels < |fed|)
  {
    if t == 0 then 0
    else (EarlierSample(channels, c, t);
          ChannelSum(fed, channels, c, t - 1) + fed[c + (t - 1) * channels])
  }

  lemma EarlierSample(channels: nat, c: nat, t: nat)
    requires c < channels && t > 0
    ensures c + t * channels == c + (t - 1) * channels + channels
    ensures t > 1 ==> c + (t - 2) * channels < c + (t - 1) * channels
    ensures 0 <= c + (t - 1) * channels
  {
    MulPositive(t - 1, channels);
    assert t * channels == (t - 1) * channels + channels;
    if t > 1 {
      assert (t - 1) * channels == (t - 2) * channels + channels;
    }
  }

  /** Increments the reduction can cope with: one subtraction needs them below the modulus. */
  predicate Acceptable(how: Reduction, fed: seq<int>, modulus: int) {
    forall i :: 0 <= i < |fed| ==> fed[i] >= 0 && (how == Once ==> fed[i] < modulus)
  }

  lemma ReduceIsMod(how: Reduction, v: int, modulus: int)
    requires modulus > 0 && v >= 0 && (how == Once ==> v < 2 * modulus)
    ensures Reduce(how, v, modulus) == v % modulus
  {
    if v < modulus {
      DivModUnique(v, modulus, 0, v);
    } else if how == Once {
      DivModUnique(v, modulus, 1, v - modulus);
    }
  }

  /** The phase of sample c + t * channels is channel c's own sum, reduced: the other channels
      leave no trace in it. */
  lemma {:induction false} ChannelsIndependent(how: Reduction, fed: seq<int>, channels: nat,
                                               modulus: int, c: nat, t: nat)
    requires c < channels && modulus > 0 && Acceptable(how, fed, modulus)
    requires 0 <= c + t * channels <= |fed|
    ensures t > 0 ==> c + (t - 1) * channels < |fed|
    ensures PhaseAt(how, fed, channels, modulus, c + t * channels)
            == ChannelSum(fed, channels, c, t) % modulus
  {
    if t == 0 {
      DivModUnique(0, modulus, 0, 0);
    } else {
      EarlierSample(channels, c, t);
      var i := c + (t - 1) * channels;
      ChannelsIndependent(how, fed, channels, modulus, c, t - 1);
      var s := ChannelSum(fed, channels, c, t - 1);
      DivModDef(s, modulus);
      ReduceIsMod(how, s % modulus + fed[i], modulus);
      AddMultiple(s % modulus + fed[i], modulus, s / modulus);
    }
  }

  // ---------- the delay line ----------

  function SlotOf(how: Reduction, fed: seq<int>, channels: nat, modulus: int, k: nat): int
    requires channels > 0 && modulus > 0
  {
    if |fed| - 1 - k >= 0 then Entered(how, fed, channels, modulus, |fed| - 1 - k) else 0
  }

  /** One more increment moves every slot along by one. */
  lemma SlotNext(how: Reduction, fed: seq<int>, inc: int, channels: nat, modulus: int, k: nat)
    requires channels > 0 && modulus > 0
    ensures SlotOf(how, fed + [inc], channels, modulus, k) ==
            if k == 0 then PhaseAt(how, fed, channels, modulus, |fed|) + inc
            else SlotOf(how, fed, channels, modulus, k - 1)
  {
    if |fed| - k >= 0 {
      EnteredPrefix(how, fed, inc, channels, modulus, |fed| - k);
    }
  }

  /** The next phase is the last slot, reduced. */
  lemma PhaseNext(how: Reduction, fed: seq<int>, channels: nat, modulus: int)
    requires channels > 0 && modulus > 0
    ensures PhaseAt(how, fed, channels, modulus, |fed|)
            == Reduce(how, SlotOf(how, fed, channels, modulus, channels - 1), modulus)
  {
  }

  class Line {
    const channels: nat
    const modulus: int
    const how: Reduction
    const held: array<int>
    var phase: int
    ghost var fed: seq<int>

    ghost predicate Valid()
      reads this, held
    {
      && channels == held.Length > 0 && modulus > 0
      && phase == PhaseAt(how, fed, channels, modulus, |fed|)
      && (channels > 1 ==> forall k :: 0 <= k < channels ==> held[k] == Slot(k))
    }

    /** Content of slot k: the value that entered k + 1 samples ago. */
    ghost function Slot(k: nat): int
      requires channels > 0 && modulus > 0
      reads this
    {
      SlotOf(how, fed, channels, modulus, k)
    }

    constructor (channelCount: nat, apr: nat, reduction: Reduction)
      requires channelCount > 0
      ensures Valid() && channels == channelCount && modulus == Pow2(apr) && how == reduction
      ensures fed == [] && fresh(held)
    {
      channels, modulus, how, phase := channelCount, Pow2(apr), reduction, 0;
      fed := [];
      held := new int[channelCount];
      new;
      for k := 0 to channels
        invariant forall l :: 0 <= l < k ==> held[l] == 0
        invariant phase == 0 && fed == []
      {
        held[k] := 0;
      }
    }

    /** Shift the line by one, or add in place when there is only one channel. */
    method ShiftIn(inc: int)
      requires channels == held.Length > 0
      modifies this`phase, held
      ensures channels == 1 ==> phase == old(phase) + inc
      ensures channels > 1 ==> phase == held[channels - 1] && held[0] == old(phase) + inc
      ensures channels > 1 ==> forall l :: 0 < l < channels ==> held[l] == old(held[l - 1])
    {
      if channels == 1 {
        phase := phase + inc;
      } else {
        var k := channels - 1;
        while k > 0
          invariant 0 <= k < channels && phase == old(phase)
          invariant forall l :: 0 <= l <= k ==> held[l] == old(held[l])
          invariant forall l :: k < l < channels ==> held[l] == old(held[l - 1])
        {
          held[k] := held[k - 1];
          k := k - 1;
        }
        held[0] := phase + inc;
        phase := held[channels - 1];
      }
    }

    /** Feed one sample's increment and obtain the phase of the next sample. */
    method Step(inc: int)
      requires Valid()
      modifies this, held
      ensures Valid() && fed == old(fed) + [inc]
    {
      ShiftIn(inc);
      if how == Once {
        if phase >= modulus {
          phase := phase - modulus;
        }
      } else {
        phase := SubtractMod(phase, modulus);
      }
      forall k | 0 <= k < channels
        ensures SlotOf(how, fed + [inc], channels, modulus, k) ==
                if k == 0 then old(phase) + inc else SlotOf(how, fed, channels, modulus, k - 1)
      {
        SlotNext(how, fed, inc, channels, modulus, k);
      }
      PhaseNext(how, fed + [inc], channels, modulus);
      fed := fed + [inc];
    }
  }
}
