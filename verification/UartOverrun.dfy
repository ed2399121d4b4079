// The receive overrun: the handler serves every status bit that is set, also one whose interrupt
// it has disabled, so a transmit interrupt can make it store into a full receive ring.

module UartOverrun {
  import opened Uart

  /** The state before event n of a schedule. */
  function At(ev: nat -> Event, n: nat): (s: State)
    ensures s.tx.Valid() && s.rx.Valid()
  {
    if n == 0 then Init() else Step(At(ev, n - 1), ev(n - 1))
  }

  /** Every schedule has its run. */
  lemma RunExists(ev: nat -> Event) returns (r: Run)
    ensures r.Valid() && r.events == ev
  {
    var states := (n: nat) => At(ev, n);
    r := Run(states, ev);
    assert states(0) == Init();
    forall n: nat
      ensures r.Follows(n)
    {
      AtNext(ev, n, states(n), states(n + 1));
    }
  }

  lemma AtNext(ev: nat -> Event, n: nat, s: State, t: State)
    requires s == At(ev, n) && t == At(ev, n + 1)
    ensures s.tx.Valid() && s.rx.Valid() && t == Step(s, ev(n))
  {
  }

  const FULL: nat := BUF_LEN - 1

  /** Receive until the ring is full, write one byte so that the transmit interrupt comes on, then
      let the device report both conditions at once. */
  function Flood(n: nat): Event {
    if n < FULL then Irq(Status(false, true, false, 7))
    else if n == FULL then CallWrite([1], false)
    else if n <= FULL + 6 then Fore
    else Irq(Status(true, true, false, 7))
  }

  /** Idle, nothing to send, n bytes received. */
  predicate Filled(s: State, n: nat) {
    && s.tx.Valid() && s.rx.Valid() && s.pc.Idle? && s.tx.Empty()
    && s.rx.start == 0 && s.rx.end == n && s.device == s.ctrl == Control(false, n < FULL, true)
  }

  lemma FilledNext(s: State, n: nat)
    requires Filled(s, n) && n < FULL
    ensures Filled(Step(s, Irq(Status(false, true, false, 7))), n + 1)
  {
  }

  lemma {:induction false} FloodFills(r: Run, n: nat)
    requires r.Valid() && r.events == Flood && n <= FULL
    ensures Filled(r.states(n), n)
  {
    if n > 0 {
      FloodFills(r, n - 1);
      assert r.Follows(n - 1);
      FilledNext(r.states(n - 1), n - 1);
    }
  }

  /** Writing one byte into an empty ring takes five foreground steps and leaves the transmit
      interrupt on and the receive ring alone. */
  lemma OneByteWrite(s: State)
    requires Filled(s, FULL)
    ensures var a := Step(s, CallWrite([1], false));
            var b := Step(Step(Step(Step(Step(a, Fore), Fore), Fore), Fore), Fore);
            b.pc == WriteExit([1], 1) && b.rx == s.rx
  {
    var a := Step(s, CallWrite([1], false));
    var b := Step(Step(a, Fore), Fore);
    assert b.pc == WriteStore([1], 0, false, Next(s.tx.end)) && b.tx == s.tx && b.rx == s.rx;
  }

  lemma ExitEnables(s: State)
    requires s.tx.Valid() && s.rx.Valid() && s.pc.WriteExit?
    ensures Step(s, Fore).device.trdy && Step(s, Fore).rx == s.rx
  {
  }

  /** The schedule overruns the ring, so the hypothesis of the receive order is needed. */
  lemma FloodOverruns(r: Run)
    requires r.Valid() && r.events == Flood
    ensures !NoOverrun(r, FULL + 8)
  {
    FloodFills(r, FULL);
    assert r.Follows(FULL) && r.Follows(FULL + 1) && r.Follows(FULL + 2) && r.Follows(FULL + 3)
           && r.Follows(FULL + 4) && r.Follows(FULL + 5) && r.Follows(FULL + 6);
    OneByteWrite(r.states(FULL));
    ExitEnables(r.states(FULL + 6));
    assert r.states(FULL).rx.Full();
    assert Overrun(r.states(FULL + 7), r.events(FULL + 7));
  }
}
