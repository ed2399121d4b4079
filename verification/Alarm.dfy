// The alarm list of the system clock.  Times are 32-bit tick counts with a flag for deadlines past
// the next roll-over; behind them stands the true tick count, which never wraps.  The alarms are
// kept on a doubly linked list through their first member.

module Alarm {
  import opened LinkedList

  const WORD := 0x1_0000_0000

  type u32 = x: int | 0 <= x < WORD

  datatype StartResult = Started | EINVAL | ENOTSUP

  // ---------- deadlines ----------

  /** The tick at which a stored time and flag will fire, seen from tick `now`. */
  function Due(now: nat, time: u32, rollover: bool): (due: nat)
    ensures due > now
  {
    var base := now - now % WORD;
    if !rollover && time > now % WORD then base + time
    else if rollover || now % WORD == WORD - 1 then base + WORD + time
    else now + 1
  }

  /** The flag after a tick: the roll-over clears it. */
  function Cleared(rollover: bool, nticks: u32): bool {
    rollover && nticks != 0
  }

  /** The driver's test at a tick is true exactly at the deadline, which until then stands still. */
  lemma FiresWhenDue(now: nat, time: u32, rollover: bool)
    ensures var nticks := (now + 1) % WORD;
            time <= nticks && !Cleared(rollover, nticks) <==> Due(now, time, rollover) == now + 1
    ensures Due(now, time, rollover) != now + 1 ==>
      Due(now + 1, time, Cleared(rollover, (now + 1) % WORD)) == Due(now, time, rollover)
  {
    NextTick(now);
  }

  lemma NextTick(now: nat)
    ensures (now + 1) % WORD == if now % WORD == WORD - 1 then 0 else now % WORD + 1
  {
  }

  /** The first deadline of a new alarm. */
  function FirstDue(now: nat, n: u32): nat {
    if n == WORD - 1 && now % WORD != WORD - 1 then now + 1 else now + n + 1
  }

  /** A start at tick `now` with delay n: exact unless the delay is the largest one, which is taken
      for a deadline already met (but for a start on the last tick before a roll-over). */
  lemma StartDue(now: nat, n: u32)
    ensures var time := (n + now % WORD + 1) % WORD;
            Due(now, time, time < now % WORD) == FirstDue(now, n)
    ensures FirstDue(now, n) == now + n + 1 <==> n < WORD - 1 || now % WORD == WORD - 1
    ensures (n + now % WORD + 1) % WORD == (now + n + 1) % WORD
  {
    AddWord(n + 1, now);
    Wrapped(n + 1, now % WORD);
  }

  lemma AddWord(x: nat, now: nat)
    ensures (x + now % WORD) % WORD == (x + now) % WORD
  {
  }

  lemma Wrapped(x: nat, t: u32)
    requires x <= WORD
    ensures (x + t) % WORD == if x + t < WORD then x + t else if x + t < 2 * WORD then x + t - WORD else 0
  {
  }

  /** Re-arming at tick `now` an alarm that fired on time is exact for every interval. */
  lemma RearmDue(now: nat, p: u32)
    requires p > 0
    ensures var time := (now % WORD + p) % WORD;
            Due(now, time, time < now % WORD) == now + p && time == (now + p) % WORD
  {
    AddWord(p, now);
    Wrapped(p, now % WORD);
  }

  // ---------- schedules ----------

  /** The sum of the first n intervals a callback returns. */
  function Total(callback: nat -> u32, n: nat): nat {
    if n == 0 then 0 else Total(callback, n - 1) + callback(n - 1)
  }

  /** No interval before call n is the zero that deactivates the alarm. */
  ghost predicate Alive(callback: nat -> u32, n: nat) {
    forall i: nat :: i < n ==> callback(i) != 0
  }

  lemma {:induction false} LaterCalls(callback: nat -> u32, i: nat, j: nat)
    requires i <= j && Alive(callback, j)
    ensures Total(callback, i) + (j - i) <= Total(callback, j)
    decreases j
  {
    if i < j {
      assert callback(j - 1) != 0;
      LaterCalls(callback, i, j - 1);
    }
  }

  /** Call j of the callback is asked for no later than tick `now`. */
  ghost predicate Asked(callback: nat -> u32, first: nat, j: nat, now: nat) {
    Alive(callback, j) && first + Total(callback, j) <= now
  }

  /** Whoever is due after `now` has made every call asked for up to then, and no other. */
  lemma CallsMade(callback: nat -> u32, first: nat, n: nat, j: nat, now: nat)
    requires Alive(callback, n) && first + Total(callback, n) > now
    requires n > 0 ==> first + Total(callback, n - 1) <= now
    ensures j < n <==> Asked(callback, first, j, now)
  {
    if j < n {
      LaterCalls(callback, j, n - 1);
    } else if Alive(callback, j) {
      LaterCalls(callback, n, j);
    }
  }

  // ---------- one alarm ----------

  /** An alarm's fields, with what the proof remembers of it: the deadline asked for at its start
      and the ticks at which its callback ran. */
  datatype Timer = Timer(time: u32, rollover: bool, callback: nat -> u32, fired: nat, first: nat, calls: seq<nat>) {
    ghost function Next(now: nat): nat {
      Due(now, time, rollover)
    }

    /** Stored time and deadline agree: so it is after every start but that with the largest delay. */
    ghost predicate OnTime(now: nat) {
      time == Next(now) % WORD && first + Total(callback, fired) == Next(now)
    }

    /** Call j was made at tick first + Total(j), for every call made. */
    ghost predicate Punctual() {
      |calls| == fired && forall j :: 0 <= j < fired ==> calls[j] == first + Total(callback, j)
    }

    /** An armed alarm: on time, and the last call, if any, is not in the future. */
    ghost predicate Armed(now: nat) {
      OnTime(now) && Punctual() && Alive(callback, fired) && (fired > 0 ==> calls[fired - 1] <= now)
    }

    /** Its last call, not in the future either, has returned zero. */
    ghost predicate Finished(now: nat) {
      Punctual() && fired > 0 && Alive(callback, fired - 1) && callback(fired - 1) == 0 && calls[fired - 1] <= now
    }

    /** The test of the tick after `now`. */
    predicate Fires(now: nat) {
      time <= (now + 1) % WORD && !Cleared(rollover, (now + 1) % WORD)
    }

    /** The alarm will call its callback for the last time at the tick after `now`. */
    predicate Ends(now: nat) {
      Fires(now) && callback(fired) == 0
    }

    /** What the tick after `now` makes of the alarm, in 32-bit arithmetic. */
    function Ticked(now: nat): Timer {
      var nticks := (now + 1) % WORD;
      var s := this.(rollover := Cleared(rollover, nticks));
      if !Fires(now) then s
      else
        var t := s.(fired := fired + 1, calls := calls + [now + 1]);
        if callback(fired) == 0 then t
        else
          var next := (time + callback(fired)) % WORD;
          t.(time := next, rollover := next < nticks)
    }

    /** Each call comes the interval after the one before that this one returned; none returned zero. */
    lemma CallsFollow(now: nat, j: nat)
      requires (Armed(now) || Finished(now)) && j < fired
      ensures fired == |calls| && calls[0] == first
      ensures j > 0 ==> callback(j - 1) > 0 && calls[j] == calls[j - 1] + callback(j - 1)
    {
      assert Total(callback, 0) == 0;
      if j > 0 {
        assert callback(j - 1) != 0;
      }
    }

    /** The calls made are exactly the calls asked for: never early, late, twice or left out. */
    lemma CalledExactly(now: nat, tick: nat)
      requires tick <= now && (Armed(now) || Finished(now))
      ensures tick in calls <==> exists j: nat :: Asked(callback, first, j, now) && tick == first + Total(callback, j)
      ensures forall i, j :: 0 <= i < j < fired ==> calls[i] < calls[j]
    {
      forall j: nat
        ensures j < fired <==> Asked(callback, first, j, now)
      {
        if Armed(now) {
          CallsMade(callback, first, fired, j, now);
        } else if j < fired {
          LaterCalls(callback, j, fired - 1);
        } else {
          assert callback(fired - 1) == 0;
        }
      }
      if tick in calls {
        var j: nat :| j < fired && calls[j] == tick;
        assert Asked(callback, first, j, now);
      }
      forall i, j | 0 <= i < j < fired
        ensures calls[i] < calls[j]
      {
        LaterCalls(callback, i, j);
      }
    }
  }

  /** What a start at tick `now` with delay n makes of an alarm. */
  function Begun(callback: nat -> u32, n: u32, now: nat): Timer {
    var time := (n + now % WORD + 1) % WORD;
    Timer(time, time < now % WORD, callback, 0, now + n + 1, [])
  }

  /** Every delay but the largest arms the alarm, and that one does on the last tick before a
      roll-over. */
  lemma BegunArmed(callback: nat -> u32, n: u32, now: nat)
    ensures Begun(callback, n, now).Next(now) == FirstDue(now, n)
    ensures Begun(callback, n, now).first == now + n + 1
    ensures Begun(callback, n, now).Armed(now) <==> n < WORD - 1 || now % WORD == WORD - 1
  {
    StartDue(now, n);
  }

  /** A tick keeps an armed alarm armed, or finishes it. */
  lemma TickKeepsTime(s: Timer, now: nat)
    requires s.Armed(now)
    ensures if s.Ends(now) then s.Ticked(now).Finished(now + 1) else s.Ticked(now).Armed(now + 1)
  {
    FiresWhenDue(now, s.time, s.rollover);
    if s.Fires(now) {
      if !s.Ends(now) {
        RearmDue(now + 1, s.callback(s.fired));
      }
      CalledOnTime(s, s.Ticked(now), now);
    } else {
      hide Due;
    }
  }

  /** The call an armed alarm was waiting for leaves it armed for the next one, or finished. */
  lemma CalledOnTime(before: Timer, after: Timer, now: nat)
    requires before.Armed(now) && before.Next(now) == now + 1
    requires after == before.(fired := before.fired + 1, calls := before.calls + [now + 1],
                              time := after.time, rollover := after.rollover)
    requires var p := before.callback(before.fired);
             p != 0 ==> after.Next(now + 1) == now + 1 + p && after.time == (now + 1 + p) % WORD
    ensures if before.callback(before.fired) == 0 then after.Finished(now + 1) else after.Armed(now + 1)
  {
    hide Due;
    var n := before.fired;
    assert Total(before.callback, n + 1) == Total(before.callback, n) + before.callback(n);
    assert after.Punctual();
  }

  /** The states of one alarm, started at tick t with delay n, at that tick and the ticks after it,
      up to its removal at most. */
  ghost predicate Life(states: seq<Timer>, n: u32, t: nat) {
    && |states| > 0 && states[0] == Begun(states[0].callback, n, t)
    && forall k {:trigger states[k]} :: 0 < k < |states| ==>
         states[k] == states[k - 1].Ticked(t + k - 1) && (k < |states| - 1 ==> !states[k - 1].Ends(t + k - 1))
  }

  /** Over a whole life, across any number of roll-overs, the callback runs exactly at tick
      t + n + 1 and then at exactly each interval it returned. */
  lemma RunsExactly(states: seq<Timer>, n: u32, t: nat, tick: nat)
    requires Life(states, n, t) && (n < WORD - 1 || t % WORD == WORD - 1) && tick <= t + |states| - 1
    ensures var s := states[|states| - 1];
            tick in s.calls <==>
              exists j: nat :: Asked(s.callback, t + n + 1, j, t + |states| - 1)
                               && tick == t + n + 1 + Total(s.callback, j)
  {
    StaysExact(states, n, t, |states| - 1);
    hide *;
    states[|states| - 1].CalledExactly(t + |states| - 1, tick);
  }

  lemma {:induction false} StaysExact(states: seq<Timer>, n: u32, t: nat, k: nat)
    requires Life(states, n, t) && (n < WORD - 1 || t % WORD == WORD - 1) && k < |states|
    ensures states[k].callback == states[0].callback && states[k].first == t + n + 1
    ensures states[k].Armed(t + k) || (k == |states| - 1 && states[k].Finished(t + k))
  {
    hide Timer.Armed, Timer.Finished, Timer.Ends, Begun;
    if k > 0 {
      StaysExact(states, n, t, k - 1);
      TickKeepsTime(states[k - 1], t + k - 1);
    } else {
      BegunArmed(states[0].callback, n, t);
    }
  }

  /** And for the delay left out the callback runs at the very next tick, 2^32 - 1 ticks early. */
  lemma LargestDelayIsEarly(states: seq<Timer>, t: nat)
    requires Life(states, WORD - 1, t) && t % WORD != WORD - 1 && |states| > 1
    ensures states[1].calls == [t + 1] && states[1].first == t + WORD
  {
    BegunArmed(states[0].callback, WORD - 1, t);
    FiresWhenDue(t, states[0].time, states[0].rollover);
    assert states[1] == states[1 - 1].Ticked(t + 1 - 1);
  }

  lemma LifeGoesOn(states: seq<Timer>, n: u32, t: nat)
    requires Life(states, n, t)
    requires |states| > 1 ==> !states[|states| - 2].Ends(t + |states| - 2)
    ensures Life(states + [states[|states| - 1].Ticked(t + |states| - 1)], n, t)
  {
    hide Begun, Timer.Ends, Timer.Ticked;
    var last := |states| - 1;
    var s := states + [states[last].Ticked(t + last)];
    forall k {:trigger s[k]} | 0 < k < |s|
      ensures s[k] == s[k - 1].Ticked(t + k - 1) && (k < |s| - 1 ==> !s[k - 1].Ends(t + k - 1))
    {
      if k <= last {
        assert s[k] == states[k] && s[k - 1] == states[k - 1];
      }
    }
  }

  class Alarm {
    const link: Link
    var time: u32
    var rollover: bool
    var callback: nat -> u32
    var fired: nat
    ghost var first: nat
    ghost var calls: seq<nat>
    ghost var delay: u32
    ghost var start: nat
    ghost var life: seq<Timer>

    ghost function State(): Timer
      reads this`time, this`rollover, this`callback, this`fired, this`first, this`calls
    {
      Timer(time, rollover, callback, fired, first, calls)
    }

    /** The object is at the end of a life that began with its start and has reached tick `now`. */
    ghost predicate Lived(now: nat)
      reads this`time, this`rollover, this`callback, this`fired, this`first, this`calls
      reads this`delay, this`start, this`life
    {
      && Life(life, delay, start) && start + |life| - 1 == now
      && life[|life| - 1] == State()
    }

    /** And that life has not ended. */
    ghost predicate Running(now: nat)
      reads this`time, this`rollover, this`callback, this`fired, this`first, this`calls
      reads this`delay, this`start, this`life
    {
      Lived(now) && (|life| > 1 ==> !life[|life| - 2].Ends(now - 1))
    }

    /** Of an object, then: its calls so far are exactly at start + delay + 1 and at each interval
        returned from there. */
    lemma CallsExactly(now: nat, tick: nat)
      requires Lived(now) && tick <= now && (delay < WORD - 1 || start % WORD == WORD - 1)
      ensures tick in calls <==>
        exists j: nat :: Asked(callback, start + delay + 1, j, now) && tick == start + delay + 1 + Total(callback, j)
    {
      RunsExactly(life, delay, start, tick);
    }

    /** The first of them at start + delay + 1, and each later one after the interval that the one
        before it returned. */
    lemma CallsFollow(now: nat, j: nat)
      requires Lived(now) && (delay < WORD - 1 || start % WORD == WORD - 1) && j < |calls|
      ensures calls[0] == start + delay + 1
      ensures j > 0 ==> callback(j - 1) > 0 && calls[j] == calls[j - 1] + callback(j - 1)
    {
      StaysExact(life, delay, start, |life| - 1);
      hide Timer.Armed, Timer.Finished, Life;
      FiredCalls(State(), now);
      State().CallsFollow(now, j);
    }

    static lemma FiredCalls(s: Timer, now: nat)
      requires s.Armed(now) || s.Finished(now)
      ensures s.fired == |s.calls|
    {
    }

    /** The link knows the alarm it is part of. */
    ghost predicate Embedded()
      reads link`owner
    {
      link.owner == this
    }

    /** An alarm in no list, never started. */
    constructor ()
      ensures Embedded() && fresh(link)
    {
      time, rollover, callback, fired := 0, false, _ => 0, 0;
      first, calls, delay, start, life := 0, [], 0, 0, [];
      link := new Link();
      new;
      link.owner := this;
    }

    /** The fields a start sets. */
    method Begin(n: u32, reply: nat -> u32, currentNticks: u32, ghost now: nat)
      requires currentNticks == now % WORD
      modifies this
      ensures State() == Begun(reply, n, now) && delay == n && start == now && Running(now)
    {
      callback := reply;
      fired, calls, first := 0, [], now + n + 1;
      time := (n + currentNticks + 1) % WORD;
      if time < currentNticks {
        rollover := true;
      } else {
        rollover := false;
      }
      delay, start, life := n, now, [State()];
    }

    /** One tick on, from the state it was in: and the life goes on unless the alarm has ended. */
    ghost predicate Advanced(before: Timer, now: nat)
      reads this`time, this`rollover, this`callback, this`fired, this`first, this`calls
      reads this`delay, this`start, this`life
    {
      State() == before.Ticked(now) && Lived(now + 1) && (!before.Ends(now) ==> Running(now + 1))
    }

    /** What a clock tick does to one alarm of the list; false when it is to be removed. */
    method OnTick(nticks: u32, ghost now: nat) returns (keep: bool)
      requires nticks == (now + 1) % WORD && Running(now)
      modifies this`time, this`rollover, this`fired, this`calls, this`life
      ensures Advanced(old(State()), now) && life == old(life) + [State()]
      ensures keep <==> !old(State()).Ends(now)
    {
      hide Life, Timer.Ticked, Timer.Ends;
      LifeGoesOn(life, delay, start);
      keep := Update(nticks, now);
      life := life + [State()];
    }

    /** The test, the call and the new deadline. */
    method Update(nticks: u32, ghost now: nat) returns (keep: bool)
      requires nticks == (now + 1) % WORD
      modifies this`time, this`rollover, this`fired, this`calls
      ensures State() == old(State()).Ticked(now) && (keep <==> !old(State()).Ends(now))
    {
      keep := true;
      if rollover && nticks == 0 {
        rollover := false;
      }
      if time <= nticks && !rollover {
        var nextCallback := callback(fired);
        fired, calls := fired + 1, calls + [now + 1];
        if nextCallback == 0 {
          keep := false;
        } else {
          time := (time + nextCallback) % WORD;
          if time < nticks {
            rollover := true;
          }
        }
      }
    }
  }

  // ---------- the scheduler ----------

  ghost predicate Different(list: seq<Alarm>) {
    forall i, j :: 0 <= i < j < |list| ==> list[i] != list[j]
  }

  /** The links of a list of alarms. */
  ghost function Links(list: seq<Alarm>): (links: seq<Link>)
    ensures |links| == |list|
  {
    seq(|list|, i requires 0 <= i < |list| => list[i].link)
  }

  /** The alarms of a list that stay in it at the tick after `now`. */
  ghost function Staying(list: seq<Alarm>, states: seq<Timer>, now: nat): seq<Alarm>
    requires |list| == |states|
  {
    if list == [] then []
    else
      var n := |list| - 1;
      Staying(list[..n], states[..n], now) + if states[n].Ends(now) then [] else [list[n]]
  }

  /** An alarm that does not end stays. */
  lemma {:induction false} StayingHas(list: seq<Alarm>, states: seq<Timer>, now: nat, k: nat)
    requires |list| == |states| && k < |list| && !states[k].Ends(now)
    ensures list[k] in Staying(list, states, now)
  {
    var n := |list| - 1;
    if k < n {
      StayingHas(list[..n], states[..n], now, k);
    }
  }

  /** Two that stay, stay in their order. */
  lemma {:induction false} StayingOrder(list: seq<Alarm>, states: seq<Timer>, now: nat, p: nat, q: nat)
    returns (i: nat, j: nat)
    requires |list| == |states| && p < q < |Staying(list, states, now)|
    ensures i < j < |list| && list[i] == Staying(list, states, now)[p] && list[j] == Staying(list, states, now)[q]
  {
    var n := |list| - 1;
    var kept := Staying(list[..n], states[..n], now);
    if q < |kept| {
      i, j := StayingOrder(list[..n], states[..n], now, p, q);
    } else {
      i := StayingFrom(list[..n], states[..n], now, kept[p]);
      j := n;
    }
  }

  /** In a list without repetition, exactly the alarms that do not end stay. */
  lemma StayingExactly(list: seq<Alarm>, states: seq<Timer>, now: nat)
    requires |list| == |states| && Different(list)
    ensures forall k :: 0 <= k < |list| ==> (list[k] in Staying(list, states, now) <==> !states[k].Ends(now))
    ensures forall a :: a in Staying(list, states, now) ==> a in list
  {
    forall a | a in Staying(list, states, now)
      ensures a in list
    {
      var k := StayingFrom(list, states, now, a);
    }
    forall k | 0 <= k < |list|
      ensures list[k] in Staying(list, states, now) <==> !states[k].Ends(now)
    {
      if states[k].Ends(now) {
        if list[k] in Staying(list, states, now) {
          var j := StayingFrom(list, states, now, list[k]);
        }
      } else {
        StayingHas(list, states, now, k);
      }
    }
  }

  /** And those that end, and leave it. */
  ghost function Leaving(list: seq<Alarm>, states: seq<Timer>, now: nat): seq<Alarm>
    requires |list| == |states|
  {
    if list == [] then []
    else
      var n := |list| - 1;
      Leaving(list[..n], states[..n], now) + if states[n].Ends(now) then [list[n]] else []
  }

  lemma {:induction false} LeavingFrom(list: seq<Alarm>, states: seq<Timer>, now: nat, a: Alarm) returns (k: nat)
    requires |list| == |states| && a in Leaving(list, states, now)
    ensures k < |list| && list[k] == a && states[k].Ends(now)
  {
    var n := |list| - 1;
    if a in Leaving(list[..n], states[..n], now) {
      k := LeavingFrom(list[..n], states[..n], now, a);
    } else {
      k := n;
    }
  }

  lemma StayingNone(list: seq<Alarm>, states: seq<Timer>, now: nat)
    requires |list| == |states|
    ensures Staying(list[..0], states[..0], now) == [] && [] + list[0..] == list
  {
  }

  lemma StayingNext(list: seq<Alarm>, states: seq<Timer>, now: nat, p: nat)
    requires p < |list| == |states|
    ensures var kept := Staying(list[..p], states[..p], now); var walked := kept + list[p..];
            && walked[|kept|] == list[p]
            && Staying(list[..p + 1], states[..p + 1], now) + list[p + 1..] ==
               if states[p].Ends(now) then walked[..|kept|] + walked[|kept| + 1..] else walked
  {
    assert list[..p + 1][..p] == list[..p] && states[..p + 1][..p] == states[..p];
    assert list[p..] == [list[p]] + list[p + 1..];
  }

  lemma {:induction false} StayingFrom(list: seq<Alarm>, states: seq<Timer>, now: nat, a: Alarm) returns (k: nat)
    requires |list| == |states| && a in Staying(list, states, now)
    ensures k < |list| && list[k] == a && !states[k].Ends(now)
  {
    var n := |list| - 1;
    if a in Staying(list[..n], states[..n], now) {
      k := StayingFrom(list[..n], states[..n], now, a);
    } else {
      k := n;
    }
  }

  class Scheduler {
    var nticks: u32
    const tickRate: u32
    const head: Link
    ghost var list: seq<Alarm>
    ghost var now: nat

    /** The pointers join the head and the links of the alarms of the list, in this order. */
    ghost predicate Linked()
      reads this`list, head, Links(list)
    {
      && head.owner == null && Ring([head] + Links(list))
      && forall i :: 0 <= i < |list| ==> Links(list)[i].owner == list[i]
    }

    ghost predicate Valid()
      reads this, head, list, Links(list)
    {
      nticks == now % WORD && Linked() && forall a :: a in list ==> a.Running(now)
    }

    constructor (rate: u32)
      ensures Valid() && list == [] && now == 0 && tickRate == rate && fresh(head)
    {
      nticks, list, now, tickRate := 0, [], 0, rate;
      head := new Link.Head();
      new;
      assert [head] + Links([]) == [head];
    }

    /** Alarms of the list are different, and so are their links and the head. */
    lemma ListApart()
      requires Linked()
      ensures Different(list) && head !in Links(list)
    {
      var ring := [head] + Links(list);
      assert Links(list) == ring[1..] && ring[0] == head;
      forall i, j | 0 <= i < j < |list|
        ensures list[i] != list[j]
      {
        assert ring[1 + i] == list[i].link && ring[1 + j] == list[j].link;
      }
    }

    /** An embedded alarm whose link is in the ring is in the list. */
    lemma LinkOfListed(a: Alarm)
      requires Linked() && a.Embedded() && a.link in [head] + Links(list)
      ensures a in list
    {
      var ring := [head] + Links(list);
      var i :| 0 <= i < |ring| && ring[i] == a.link;
      assert Links(list)[i - 1].owner == list[i - 1];
    }

    lemma JoinsInFront(alarm: Alarm)
      ensures [head] + Links([alarm] + list) == [head, alarm.link] + Links(list)
    {
    }

    static lemma LinksUpTo(all: seq<Alarm>, i: nat)
      requires i < |all|
      ensures Links([all[i]] + all[..i]) == [all[i].link] + Links(all)[..i] && Links(all)[i] == all[i].link
    {
    }

    /** The insertion: in front of the list, or, of an alarm that is in it already, the end of it. */
    method Enlist(alarm: Alarm)
      requires Linked() && alarm.Embedded()
      modifies this`list, alarm.link`next, alarm.link`previous
      modifies head`next, head`previous, Links(list)`previous
      ensures list == [alarm] + old(list) && (alarm !in old(list) ==> Linked())
      ensures forall i :: 0 <= i < |old(list)| && old(list)[i] == alarm ==>
        head.next == alarm.link && Circle(Links([alarm] + old(list)[..i])) && head !in Links([alarm] + old(list)[..i])
    {
      hide Ring, Circle;
      ListApart();
      JoinsInFront(alarm);
      ghost var all := list;
      if alarm in all {
        ghost var i :| 0 <= i < |all| && all[i] == alarm;
        LinksUpTo(all, i);
      } else {
        NotLinked(alarm);
      }
      Insert(head, alarm.link, Links(list));
      list := [alarm] + list;
      assert forall i :: 0 < i < |list| ==> Links(list)[i] == Links(all)[i - 1];
    }

    lemma NotLinked(alarm: Alarm)
      requires Linked() && alarm.Embedded() && alarm !in list
      ensures alarm.link != head && alarm.link !in Links(list)
    {
      if alarm.link in [head] + Links(list) {
        LinkOfListed(alarm);
      }
    }

    /** Register an alarm; it joins the list in front.  One that is in the list already is given its
        new deadline, but the list is lost: its links are a circle without the head. */
    method Start(alarm: Alarm?, n: u32, callback: nat -> u32) returns (r: StartResult)
      requires Valid() && (alarm != null ==> alarm.Embedded())
      modifies this`list, alarm, (if alarm == null then {} else {alarm.link})`next
      modifies (if alarm == null then {} else {alarm.link})`previous
      modifies head`next, head`previous, Links(list)`previous
      ensures r == if tickRate == 0 then ENOTSUP else if alarm == null then EINVAL else Started
      ensures r != Started ==> Valid() && list == old(list) && (alarm != null ==> unchanged(alarm))
      ensures r == Started ==> list == [alarm] + old(list) && (alarm !in old(list) ==> Valid())
      ensures r == Started ==> alarm.State() == Begun(callback, n, now) && alarm.delay == n && alarm.start == now
      ensures r == Started ==> forall i :: 0 <= i < |old(list)| && old(list)[i] == alarm ==>
        head.next == alarm.link && Circle(Links([alarm] + old(list)[..i])) && head !in Links([alarm] + old(list)[..i])
    {
      hide Ring, Circle, Alarm.Running;
      if tickRate != 0 {
        if alarm != null {
          alarm.Begin(n, callback, nticks, now);
          Enlist(alarm);
          return Started;
        } else {
          return EINVAL;
        }
      } else {
        return ENOTSUP;
      }
    }

    /** Take an alarm out of the list; harmless when it is in it no more.  An alarm that was never
        started has no neighbours the code could look at. */
    method Stop(alarm: Alarm)
      requires Valid() && alarm.Embedded() && (alarm in list || Ring([alarm.link]))
      modifies this`list, alarm.link`next, alarm.link`previous
      modifies head`next, head`previous, Links(list)`next, Links(list)`previous
      ensures Valid() && alarm !in list && Ring([alarm.link])
      ensures alarm !in old(list) ==> list == old(list)
      ensures forall i :: 0 <= i < |old(list)| && old(list)[i] == alarm ==>
        list == old(list)[..i] + old(list)[i + 1..]
    {
      hide Ring, Alarm.Running, Linked;
      Unlink(alarm);
    }

    /** The removal, from the list or from a ring of its own. */
    method Unlink(alarm: Alarm)
      requires Linked() && alarm.Embedded() && (alarm in list || Ring([alarm.link]))
      modifies this`list, alarm.link`next, alarm.link`previous
      modifies head`next, head`previous, Links(list)`next, Links(list)`previous
      ensures Linked() && Ring([alarm.link]) && alarm !in list && forall a :: a in list ==> a in old(list)
      ensures alarm !in old(list) ==> list == old(list)
      ensures forall i :: 0 <= i < |old(list)| && old(list)[i] == alarm ==>
        list == old(list)[..i] + old(list)[i + 1..]
    {
      hide Ring;
      ghost var ring, i, rest := Surroundings(alarm);
      LinkedList.Remove(alarm.link, ring, i);
      list := rest;
    }

    /** The ring an alarm is in, its place there, and the list without it. */
    lemma Surroundings(alarm: Alarm) returns (ring: seq<Link>, i: nat, rest: seq<Alarm>)
      requires Linked() && alarm.Embedded() && (alarm in list || Ring([alarm.link]))
      ensures i < |ring| && ring[i] == alarm.link && Ring(ring) && (i > 0 || |ring| == 1)
      ensures if alarm in list then i > 0 && ring == [head] + Links(list)
                                    && [head] + Links(rest) == ring[..i] + ring[i + 1..]
              else ring == [alarm.link] && rest == list && alarm.link !in [head] + Links(list)
      ensures Owned(rest) && alarm !in rest && forall a :: a in rest ==> a in list
      ensures forall k :: 0 <= k < |list| && list[k] == alarm ==> rest == list[..k] + list[k + 1..]
    {
      hide Ring;
      ListApart();
      ring, i, rest := [alarm.link], 0, list;
      if alarm in list {
        var k :| 0 <= k < |list| && list[k] == alarm;
        LinksWithout(head, list, k);
        ring, i, rest := [head] + Links(list), k + 1, list[..k] + list[k + 1..];
      } else {
        NotLinked(alarm);
      }
    }

    static lemma LinksWithout(head: Link, all: seq<Alarm>, i: nat)
      requires i < |all|
      ensures var ring := [head] + Links(all); var fewer := all[..i] + all[i + 1..];
              && ring[i + 1] == all[i].link && ring[..i + 1] + ring[i + 2..] == [head] + Links(fewer)
              && (forall k :: 0 <= k < |fewer| ==> Links(fewer)[k] == Links(all)[if k < i then k else k + 1])
    {
    }

    /** Whatever the scheduler has been through: the calls of an alarm in its list are exactly those
        asked for since its start. */
    lemma InTime(alarm: Alarm, tick: nat)
      requires Valid() && alarm in list && tick <= now
      requires alarm.delay < WORD - 1 || alarm.start % WORD == WORD - 1
      ensures var first := alarm.start + alarm.delay + 1;
              tick in alarm.calls <==>
                exists j: nat :: Asked(alarm.callback, first, j, now) && tick == first + Total(alarm.callback, j)
    {
      alarm.CallsExactly(now, tick);
    }

    // ---------- the walk of a tick ----------

    static ghost function LinkSet(list: seq<Alarm>): set<Link> {
      set l | l in Links(list)
    }

    static ghost function States(list: seq<Alarm>): (states: seq<Timer>)
      reads list
      ensures |states| == |list|
    {
      seq(|list|, i requires 0 <= i < |list| reads list => list[i].State())
    }

    static lemma StatesAre(list: seq<Alarm>)
      ensures forall k :: 0 <= k < |list| ==> States(list)[k] == list[k].State()
    {
    }

    /** These alarms have had their tick. */
    static ghost predicate Ticked(done: seq<Alarm>, before: seq<Timer>, t: nat)
      requires |done| == |before|
      reads done
    {
      forall k :: 0 <= k < |done| ==> done[k].Advanced(before[k], t)
    }

    /** These are still to have it. */
    static ghost predicate Waiting(rest: seq<Alarm>, before: seq<Timer>, t: nat)
      requires |rest| == |before|
      reads rest
    {
      forall k :: 0 <= k < |rest| ==> rest[k].State() == before[k] && rest[k].Running(t)
    }

    /** Each of these is in no list, alone in a ring of its own. */
    static ghost predicate Outside(out: seq<Alarm>)
      reads LinkSet(out)`next, LinkSet(out)`previous
    {
      forall k :: 0 <= k < |out| ==> Ring([Links(out)[k]])
    }

    static ghost predicate Owned(list: seq<Alarm>)
      reads Links(list)`owner
    {
      forall k :: 0 <= k < |list| ==> Links(list)[k].owner == list[k]
    }

    static lemma TickedNext(all: seq<Alarm>, before: seq<Timer>, t: nat, p: nat)
      requires |before| == |all| && p < |all|
      requires Ticked(all[..p], before[..p], t) && all[p].Advanced(before[p], t)
      ensures Ticked(all[..p + 1], before[..p + 1], t)
    {
      hide Alarm.Advanced;
      assert forall k :: 0 <= k < p ==> all[..p + 1][k] == all[..p][k] && before[..p + 1][k] == before[..p][k];
    }

    static lemma WaitingNext(all: seq<Alarm>, before: seq<Timer>, t: nat, p: nat)
      requires |before| == |all| && p < |all| && Waiting(all[p..], before[p..], t)
      ensures all[p].State() == before[p] && all[p].Running(t) && Waiting(all[p + 1..], before[p + 1..], t)
    {
      hide Alarm.Running;
      assert all[p..][0] == all[p] && before[p..][0] == before[p];
      assert forall k :: 0 < k < |all| - p ==>
        all[p + 1..][k - 1] == all[p..][k] && before[p + 1..][k - 1] == before[p..][k];
    }

    static lemma OutsideNext(all: seq<Alarm>, before: seq<Timer>, t: nat, p: nat)
      requires |before| == |all| && p < |all|
      requires Outside(Leaving(all[..p], before[..p], t)) && (before[p].Ends(t) ==> Ring([all[p].link]))
      ensures Outside(Leaving(all[..p + 1], before[..p + 1], t))
    {
      hide Ring, Timer.Ends;
      assert all[..p + 1][..p] == all[..p] && before[..p + 1][..p] == before[..p];
      var out, more := Leaving(all[..p], before[..p], t), Leaving(all[..p + 1], before[..p + 1], t);
      assert forall k :: 0 <= k < |out| ==> Links(more)[k] == Links(out)[k];
    }

    /** The first p alarms of the list that was have been looked at; the walk has come to `link`. */
    ghost predicate Walking(all: seq<Alarm>, before: seq<Timer>, t: nat, p: nat, link: Link)
      reads this, head, Links(list), all, Links(all)
      reads if |before| == |all| && p <= |all| then Links(Leaving(all[..p], before[..p], t)) else []
    {
      && |before| == |all| && p <= |all| && nticks == (t + 1) % WORD && now == t + 1
      && Different(all) && Owned(all)
      && Ticked(all[..p], before[..p], t) && Waiting(all[p..], before[p..], t)
      && Outside(Leaving(all[..p], before[..p], t))
      && Linked() && list == Staying(all[..p], before[..p], t) + all[p..]
      && link == if p < |all| then all[p].link else head
    }

    /** The walk is over: of the alarms that were in the list, those that stay are in it. */
    ghost predicate WalkOver(all: seq<Alarm>, before: seq<Timer>, t: nat)
      reads this, head, Links(list), all, list
      reads if |before| == |all| then Links(Leaving(all, before, t)) else []
    {
      && |before| == |all| && nticks == now % WORD && now == t + 1 && Linked()
      && list == Staying(all, before, t) && (forall a :: a in list ==> a.Running(t + 1))
      && Ticked(all, before, t) && Outside(Leaving(all, before, t))
    }

    /** One clock tick: every alarm of the list is looked at once, those that end are removed while
        the list is walked, and the others keep their order. */
    method Tick()
      requires Valid()
      modifies this`nticks, this`list, this`now
      modifies list`time, list`rollover, list`fired, list`calls, list`life
      modifies head`next, head`previous, LinkSet(list)`next, LinkSet(list)`previous
      ensures Valid() && now == old(now) + 1
      ensures list == Staying(old(list), old(States(list)), old(now))
      ensures forall k :: 0 <= k < |old(list)| ==>
        (old(list)[k] in list <==> !old(States(list))[k].Ends(old(now)))
      ensures Ticked(old(list), old(States(list)), old(now))
      ensures Outside(Leaving(old(list), old(States(list)), old(now)))
    {
      hide Ticked, Outside, Staying, Leaving, States, Linked, Alarm.Running, Alarm.State, Walking, WalkOver;
      StatesAre(list);
      ListApart();
      ghost var all, before, t := list, States(list), now;
      StayingExactly(all, before, t);
      var link := First();
      NextTick(now);
      nticks, now := (nticks + 1) % WORD, now + 1;
      WalkStart(all, before, t, link);
      WalkList(all, before, t, link);
      Over(all, before, t);
    }

    lemma Over(all: seq<Alarm>, before: seq<Timer>, t: nat)
      requires WalkOver(all, before, t)
      ensures Valid() && now == t + 1 && list == Staying(all, before, t)
      ensures Ticked(all, before, t) && Outside(Leaving(all, before, t))
    {
    }

    method First() returns (link: Link)
      requires Linked()
      ensures link == if list == [] then head else list[0].link
    {
      LinkAt([head] + Links(list), 0);
      link := head.next;
    }

    method WalkList(ghost all: seq<Alarm>, ghost before: seq<Timer>, ghost t: nat, first: Link)
      requires list == all && Walking(all, before, t, 0, first)
      modifies this`list, list`time, list`rollover, list`fired, list`calls, list`life
      modifies head`next, head`previous, LinkSet(list)`next, LinkSet(list)`previous
      ensures WalkOver(all, before, t)
    {
      hide Walking, WalkOver, Linked;
      ghost var p := 0;
      var link := first;
      while link != head
        invariant p <= |all| && Walking(all, before, t, p, link)
        decreases |all| - p
      {
        WalkAt(all, before, t, p, link);
        link := Walk(link, all, before, t, p);
        p := p + 1;
      }
      WalkDone(all, before, t, p, link);
    }

    lemma WalkStart(all: seq<Alarm>, before: seq<Timer>, t: nat, link: Link)
      requires all == list && Linked() && nticks == (t + 1) % WORD && now == t + 1
      requires |before| == |all| && link == if list == [] then head else list[0].link
      requires forall k :: 0 <= k < |all| ==> all[k].State() == before[k] && all[k].Running(t)
      ensures Walking(all, before, t, 0, link)
    {
      hide Alarm.Running;
      ListApart();
      StayingNone(all, before, t);
      assert all[0..] == all && before[0..] == before && Leaving(all[..0], before[..0], t) == [];
    }

    lemma NotTheHead(all: seq<Alarm>, before: seq<Timer>, t: nat, p: nat, link: Link)
      requires Walking(all, before, t, p, link)
      ensures p < |all| <==> link != head
    {
      assert p < |all| ==> Links(all)[p].owner == all[p];
    }

    lemma WalkAt(all: seq<Alarm>, before: seq<Timer>, t: nat, p: nat, link: Link)
      requires Walking(all, before, t, p, link) && link != head
      ensures p < |all| && link == all[p].link && link.owner == all[p]
      ensures LinkSet(list) <= LinkSet(all)
    {
      hide Ticked, Waiting, Outside, Staying;
      NotTheHead(all, before, t, p, link);
      assert Links(all)[p].owner == all[p];
      forall l | l in Links(list)
        ensures l in Links(all)
      {
        var i :| 0 <= i < |list| && Links(list)[i] == l;
        var k := Origin(all, before, t, p, i);
        assert Links(all)[k] == l;
      }
    }

    /** Where an alarm of the list stood when the walk began; it has not ended. */
    lemma Origin(all: seq<Alarm>, before: seq<Timer>, t: nat, p: nat, i: nat) returns (k: nat)
      requires |before| == |all| && p <= |all| && i < |list|
      requires list == Staying(all[..p], before[..p], t) + all[p..]
      ensures k < |all| && list[i] == all[k] && (k < p ==> !before[k].Ends(t))
    {
      var kept := Staying(all[..p], before[..p], t);
      if i < |kept| {
        k := StayingFrom(all[..p], before[..p], t, list[i]);
      } else {
        k := p + (i - |kept|);
      }
    }

    lemma WalkDone(all: seq<Alarm>, before: seq<Timer>, t: nat, p: nat, link: Link)
      requires Walking(all, before, t, p, link) && link == head
      ensures WalkOver(all, before, t)
    {
      hide Alarm.Running, Outside, Linked;
      NotTheHead(all, before, t, p, link);
      assert all[..|all|] == all && before[..|all|] == before;
      forall a | a in Staying(all, before, t)
        ensures a.Running(t + 1)
      {
        var k := StayingFrom(all, before, t, a);
        assert all[k].Advanced(before[k], t);
      }
    }

    /** An alarm that has ended is out of the ring. */
    lemma EndedApart(all: seq<Alarm>, before: seq<Timer>, t: nat, p: nat, link: Link)
      requires Walking(all, before, t, p, link)
      ensures LinkSet(Leaving(all[..p], before[..p], t)) !! LinkSet(list) + {head}
    {
      hide Staying, Leaving, Ring, Ticked, Waiting, Outside, Timer.Ends;
      var out := Leaving(all[..p], before[..p], t);
      forall l | l in Links(out)
        ensures l !in [head] + Links(list)
      {
        var o :| 0 <= o < |out| && Links(out)[o] == l;
        var k := LeavingFrom(all[..p], before[..p], t, out[o]);
        assert Links(all)[k].owner == all[k];
        if l in [head] + Links(list) {
          LinkOfListed(all[k]);
          var i :| 0 <= i < |list| && list[i] == all[k];
          var j := Origin(all, before, t, p, i);
        }
      }
    }

    /** One turn of the walk. */
    method Walk(link: Link, ghost all: seq<Alarm>, ghost before: seq<Timer>, ghost t: nat, ghost p: nat)
      returns (next: Link)
      requires Walking(all, before, t, p, link) && p < |all| && link == all[p].link && link.owner == all[p]
      modifies this`list
      modifies {all[p]}`time, {all[p]}`rollover, {all[p]}`fired, {all[p]}`calls, {all[p]}`life
      modifies head`next, head`previous, LinkSet(list)`next, LinkSet(list)`previous
      ensures Walking(all, before, t, p + 1, next)
    {
      hide Alarm.Advanced, Alarm.Running, Alarm.State, Staying, Leaving, Ring, Linked, Timer.Ends;
      hide Ticked, Waiting, Outside;
      StayingNext(all, before, t, p);
      WaitingNext(all, before, t, p);
      EndedApart(all, before, t, p, link);
      ghost var out := Leaving(all[..p], before[..p], t);
      assert all[p] !in all[..p] && all[p] !in all[p + 1..];
      ghost var ended := LinkSet(out);
      assert Outside(out);
      var alarm := link.owner as Alarm;
      next := Visit(alarm, t, |Staying(all[..p], before[..p], t)|);
      assert forall l :: l in ended ==> l.next == old(l.next) && l.previous == old(l.previous);
      assert Outside(out);
      TickedNext(all, before, t, p);
      OutsideNext(all, before, t, p);
    }

    /** One alarm of the walk; returns the link the walk goes on with, read before the alarm is
        looked at. */
    method Visit(alarm: Alarm, ghost t: nat, ghost i: nat) returns (next: Link)
      requires Linked() && i < |list| && list[i] == alarm && nticks == (t + 1) % WORD && alarm.Running(t)
      modifies this`list
      modifies {alarm}`time, {alarm}`rollover, {alarm}`fired, {alarm}`calls, {alarm}`life
      modifies head`next, head`previous, LinkSet(list)`next, LinkSet(list)`previous
      ensures Linked() && alarm.Advanced(old(alarm.State()), t)
      ensures next == if i + 1 < |old(list)| then old(list)[i + 1].link else head
      ensures if old(alarm.State().Ends(t)) then list == old(list[..i] + list[i + 1..]) && Ring([alarm.link])
              else list == old(list)
    {
      hide Ring;
      assert Links(list)[i] == alarm.link;
      LinkAt([head] + Links(list), i + 1);
      next := alarm.link.next;
      var keep := alarm.OnTick(nticks, t);
      if !keep {
        Unlink(alarm);
      }
    }
  }
}
