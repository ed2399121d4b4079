// What a driver has been through: a finite history of states and events, and what the bytes in it
// have to do with the outside: those that came in, and those that the calls handed over.

module UartTrace {
  import opened Uart

  ghost predicate OneStep(s: State, e: Event, t: State) {
    s.tx.Valid() && s.rx.Valid() && t == Step(s, e)
  }

  /** A finite run from initialisation. */
  ghost predicate History(log: seq<State>, trace: seq<Event>) {
    && |log| == |trace| + 1 && log[0] == Init()
    && forall i {:trigger OneStep(log[i], trace[i], log[i + 1])} ::
         0 <= i < |trace| ==> OneStep(log[i], trace[i], log[i + 1])
  }

  lemma {:induction false} HistoryKeepsTx(log: seq<State>, trace: seq<Event>, i: nat)
    requires History(log, trace) && i < |log|
    ensures TxInv(log[i])
  {
    if i == 0 {
      RingCounts(ZeroRing());
    } else {
      HistoryKeepsTx(log, trace, i - 1);
      var j := i - 1;
      assert OneStep(log[j], trace[j], log[j + 1]);
      StepKeepsTx(log[i - 1], trace[i - 1]);
    }
  }

  /** No event of the history stored into a full receive ring. */
  ghost predicate NeverOverrun(log: seq<State>, trace: seq<Event>)
    requires |log| == |trace| + 1
  {
    forall i :: 0 <= i < |trace| ==> !Overrun(log[i], trace[i])
  }

  lemma {:induction false} HistoryKeepsRx(log: seq<State>, trace: seq<Event>, i: nat)
    requires History(log, trace) && i < |log| && NeverOverrun(log, trace)
    ensures RxInv(log[i])
  {
    if i == 0 {
      RingCounts(ZeroRing());
    } else {
      HistoryKeepsRx(log, trace, i - 1);
      var j := i - 1;
      assert OneStep(log[j], trace[j], log[j + 1]);
      StepKeepsRx(log[j], trace[j]);
    }
  }

  lemma HistoryGrows(log: seq<State>, trace: seq<Event>, e: Event, t: State)
    requires History(log, trace) && OneStep(log[|log| - 1], e, t)
    ensures History(log + [t], trace + [e])
  {
    var l, r := log + [t], trace + [e];
    forall i | 0 <= i < |r|
      ensures OneStep(l[i], r[i], l[i + 1])
    {
      if i < |trace| {
        assert OneStep(log[i], trace[i], log[i + 1]);
      }
    }
  }

  lemma HistoryBefore(log: seq<State>, trace: seq<Event>)
    requires History(log, trace) && trace != []
    ensures var n := |trace| - 1;
            History(log[..|trace|], trace[..n]) && OneStep(log[n], trace[n], log[|trace|])
  {
    var n := |trace| - 1;
    var l, r := log[..|trace|], trace[..n];
    forall i | 0 <= i < n
      ensures OneStep(l[i], r[i], l[i + 1])
    {
      assert OneStep(log[i], trace[i], log[i + 1]);
    }
    assert OneStep(log[n], trace[n], log[n + 1]);
  }

  // ---------- the bytes that come in ----------

  /** An interrupt that is raised, with a byte received free of errors. */
  predicate BringsByte(s: State, e: Event) {
    && e.Irq? && ((e.status.trdy && s.device.trdy) || (e.status.rrdy && s.device.rrdy))
    && e.status.rrdy && !e.status.error
  }

  /** The bytes of these interrupts, in order. */
  function Incoming(log: seq<State>, trace: seq<Event>): seq<byte>
    requires |log| == |trace| + 1
  {
    if trace == [] then []
    else
      var n := |trace| - 1;
      Incoming(log[..|trace|], trace[..n]) + if BringsByte(log[n], trace[n]) then [trace[n].status.rxData] else []
  }

  lemma {:induction false} ReceivedIsIncoming(log: seq<State>, trace: seq<Event>)
    requires History(log, trace)
    ensures log[|trace|].received == Incoming(log, trace)
  {
    if trace != [] {
      HistoryBefore(log, trace);
      ReceivedIsIncoming(log[..|trace|], trace[..|trace| - 1]);
    }
  }

  /** Receive order: what the reads returned and took, then the live ring, is exactly what came in
      free of errors, as long as the handler never stored into a full ring. */
  lemma ReceiveFifo(log: seq<State>, trace: seq<Event>)
    requires History(log, trace) && NeverOverrun(log, trace)
    ensures var s := log[|trace|];
            s.rx.Valid() && Incoming(log, trace) == s.read + Taken(s.pc) + s.rx.Live()
  {
    HistoryKeepsRx(log, trace, |trace|);
    ReceivedIsIncoming(log, trace);
  }

  // ---------- runs ----------

  ghost function LogOf(r: Run, n: nat): seq<State> {
    seq(n + 1, i requires 0 <= i <= n => r.states(i))
  }

  ghost function TraceOf(r: Run, n: nat): seq<Event> {
    seq(n, i requires 0 <= i < n => r.events(i))
  }

  /** The beginning of a run is a history. */
  lemma RunIsHistory(r: Run, n: nat)
    requires r.Valid()
    ensures History(LogOf(r, n), TraceOf(r, n))
    ensures NoOverrun(r, n) ==> NeverOverrun(LogOf(r, n), TraceOf(r, n))
  {
    forall i: nat | i < n
      ensures OneStep(LogOf(r, n)[i], TraceOf(r, n)[i], LogOf(r, n)[i + 1])
    {
      assert r.Follows(i);
    }
  }

  /** So at every point of every run the receive order holds. */
  lemma RunReceives(r: Run, n: nat)
    requires r.Valid() && NoOverrun(r, n)
    ensures var s := r.states(n);
            s.rx.Valid() && Incoming(LogOf(r, n), TraceOf(r, n)) == s.read + Taken(s.pc) + s.rx.Live()
  {
    RunIsHistory(r, n);
    ReceiveFifo(LogOf(r, n), TraceOf(r, n));
  }

  // ---------- the bytes the calls hand over ----------

  datatype Call = Call(src: seq<byte>, noBlock: bool)

  /** The write calls that have begun, in order. */
  function Offered(log: seq<State>, trace: seq<Event>): seq<Call>
    requires |log| == |trace| + 1
  {
    if trace == [] then []
    else
      var n := |trace| - 1;
      Offered(log[..|trace|], trace[..n]) + Begins(log[n], trace[n])
  }

  function Begins(s: State, e: Event): seq<Call> {
    if e.CallWrite? && s.pc.Idle? then [Call(e.src, e.noBlock)] else []
  }

  /** The bytes are a part of each call's, from its start on, one call after the other; all of them
      for a call that may block. */
  ghost predicate Accepted(bytes: seq<byte>, calls: seq<Call>)
    decreases |calls|, 0
  {
    if calls == [] then bytes == []
    else exists k: nat :: k <= |bytes| && AcceptedFrom(bytes, calls, k)
  }

  /** And those from k on are of the last call. */
  ghost predicate AcceptedFrom(bytes: seq<byte>, calls: seq<Call>, k: nat)
    requires calls != [] && k <= |bytes|
    decreases |calls| - 1, 1
  {
    var c := calls[|calls| - 1];
    && bytes[k..] <= c.src && (!c.noBlock ==> bytes[k..] == c.src)
    && Accepted(bytes[..k], calls[..|calls| - 1])
  }

  /** The call under way is the last one; what the earlier ones put in is written. */
  ghost predicate CallsInv(s: State, calls: seq<Call>) {
    if InWrite(s.pc) then
      && calls != [] && calls[|calls| - 1].src == s.pc.src && (calls[|calls| - 1].noBlock || Blocking(s.pc))
      && Accepted(s.written, calls[..|calls| - 1])
    else Accepted(s.written, calls)
  }

  lemma StepKeepsCalls(s: State, e: Event, calls: seq<Call>)
    requires TxInv(s) && CallsInv(s, calls)
    ensures CallsInv(Step(s, e), calls + Begins(s, e))
  {
    hide Accepted;
    var t := Step(s, e);
    if e.Fore? && s.pc.WriteExit? {
      WriteReturns(s, calls);
      assert calls + [] == calls;
    } else if Begins(s, e) != [] {
      var more := calls + Begins(s, e);
      assert more[..|more| - 1] == calls;
    } else {
      assert calls + [] == calls;
      if e.Irq? && Raised(s, e.status) {
        HandleKeepsTx(s, e.status);
      }
    }
  }

  /** The return of a write. */
  lemma WriteReturns(s: State, calls: seq<Call>)
    requires TxInv(s) && CallsInv(s, calls) && s.pc.WriteExit?
    ensures Accepted(Step(s, Fore).written, calls)
  {
    var bytes, k := Step(s, Fore).written, |s.written|;
    assert bytes[..k] == s.written && bytes[k..] == s.pc.src[..s.pc.done];
    assert AcceptedFrom(bytes, calls, k);
  }

  lemma {:induction false} HistoryKeepsCalls(log: seq<State>, trace: seq<Event>)
    requires History(log, trace)
    ensures CallsInv(log[|trace|], Offered(log, trace))
  {
    if trace != [] {
      HistoryBefore(log, trace);
      HistoryKeepsCalls(log[..|trace|], trace[..|trace| - 1]);
      HistoryKeepsTx(log, trace, |trace| - 1);
      StepKeepsCalls(log[|trace| - 1], trace[|trace| - 1], Offered(log[..|trace|], trace[..|trace| - 1]));
    }
  }

  /** Transmit order: between writes, what was sent, then the live ring, is what the calls handed
      over, in order. */
  lemma TransmitsCalls(log: seq<State>, trace: seq<Event>)
    requires History(log, trace) && !InWrite(log[|trace|].pc)
    ensures var s := log[|trace|]; s.tx.Valid() && Accepted(s.sent + s.tx.Live(), Offered(log, trace))
  {
    HistoryKeepsCalls(log, trace);
    HistoryKeepsTx(log, trace, |trace|);
    var s := log[|trace|];
    assert s.written + [] == s.written;
  }

  function AllBytes(calls: seq<Call>): seq<byte> {
    if calls == [] then [] else AllBytes(calls[..|calls| - 1]) + calls[|calls| - 1].src
  }

  /** All of it, when every call may block. */
  lemma {:induction false} AcceptedAll(bytes: seq<byte>, calls: seq<Call>)
    requires Accepted(bytes, calls) && forall i :: 0 <= i < |calls| ==> !calls[i].noBlock
    ensures bytes == AllBytes(calls)
    decreases |calls|
  {
    if calls != [] {
      var k: nat :| k <= |bytes| && AcceptedFrom(bytes, calls, k);
      AcceptedAll(bytes[..k], calls[..|calls| - 1]);
      assert bytes == bytes[..k] + bytes[k..];
    }
  }

  // ---------- when a call stops short ----------

  ghost predicate SeenEmpty(log: seq<State>, from: nat, last: nat)
    requires last < |log|
  {
    exists m: nat :: from <= m <= last && log[m].rx.Empty()
  }

  ghost predicate SeenFull(log: seq<State>, from: nat, last: nat)
    requires last < |log|
  {
    exists m: nat :: from <= m <= last && log[m].tx.Full()
  }

  /** Where a read of len bytes that began at `from` can be, and why. */
  ghost predicate ReadSoFar(log: seq<State>, from: nat, m: nat, len: nat, block: bool)
    requires m < |log|
  {
    match log[m].pc
    case ReadTest(l, out, b) => l == len && b == block && |out| <= len
    case ReadTake(l, out, b) => l == len && b == block && |out| < len
    case ReadAdvance(l, out, b) => l == len && b == block && 0 < |out| <= len
    case ReadEmpty(l, out, b) => l == len && b == block && |out| <= len && (|out| == len || SeenEmpty(log, from, m))
    case ReadUnblock(l) => l == len && block && SeenEmpty(log, from, m)
    case ReadExit(out) =>
      |out| <= len && (|out| == len || SeenEmpty(log, from, m)) && (block && len > 0 ==> out != [])
    case _ => false
  }

  lemma ReadStepSoFar(log: seq<State>, trace: seq<Event>, from: nat, m: nat, len: nat, block: bool)
    requires History(log, trace) && from <= m < |trace| && InRead(log[m + 1].pc)
    requires ReadSoFar(log, from, m, len, block)
    ensures ReadSoFar(log, from, m + 1, len, block)
  {
    var s, e, t := log[m], trace[m], log[m + 1];
    assert OneStep(s, e, t);
    if s.rx.Empty() {
      assert SeenEmpty(log, from, m + 1);
    }
    if e.Irq? && Raised(s, e.status) {
      assert t.pc == s.pc;
    }
  }

  /** A read that returns fewer bytes than it was asked for has found the ring empty on the way; one
      that may block returns some. */
  lemma {:induction false} ReadFills(log: seq<State>, trace: seq<Event>, from: nat, last: nat, len: nat, block: bool)
    requires History(log, trace) && from <= last < |log|
    requires log[from].pc == ReadTest(len, [], block)
    requires forall m :: from <= m <= last ==> InRead(log[m].pc)
    ensures ReadSoFar(log, from, last, len, block)
    ensures log[last].pc.ReadExit? ==>
      var out := log[last].pc.out;
      && |out| <= len && (|out| < len ==> exists m: nat :: from <= m <= last && log[m].rx.Empty())
      && (block && len > 0 ==> out != [])
    decreases last
  {
    if last > from {
      ReadFills(log, trace, from, last - 1, len, block);
      ReadStepSoFar(log, trace, from, last - 1, len, block);
    }
  }

  /** Where a write that began at `from` can be, and why. */
  ghost predicate WriteSoFar(log: seq<State>, from: nat, m: nat, src: seq<byte>, noBlock: bool)
    requires m < |log|
  {
    && InWrite(log[m].pc) && log[m].pc.src == src
    && match log[m].pc
       case WriteTest(_, _, b) => b == noBlock
       case WriteCheck(_, _, b, _) => b == noBlock
       case WriteStore(_, _, b, _) => b == noBlock
       case WriteAdvance(_, _, b, _) => b == noBlock
       case WriteUnblock(_, _, _) => !noBlock
       case WriteWait(_, _, _) => !noBlock
       case WriteExit(_, done) => done == |src| || (noBlock && SeenFull(log, from, m))
       case _ => false
  }

  lemma WriteStepSoFar(log: seq<State>, trace: seq<Event>, from: nat, m: nat, src: seq<byte>, noBlock: bool)
    requires History(log, trace) && from <= m < |trace| && InWrite(log[m + 1].pc)
    requires WriteSoFar(log, from, m, src, noBlock)
    ensures WriteSoFar(log, from, m + 1, src, noBlock)
  {
    var s, e, t := log[m], trace[m], log[m + 1];
    assert OneStep(s, e, t);
    HistoryKeepsTx(log, trace, m);
    if s.tx.Full() {
      assert SeenFull(log, from, m + 1);
    }
    if e.Irq? && Raised(s, e.status) {
      assert t.pc == s.pc;
    }
  }

  /** A write that puts in fewer bytes than it was given may not block and has found the ring full. */
  lemma {:induction false} WriteFills(log: seq<State>, trace: seq<Event>, from: nat, last: nat,
                                      src: seq<byte>, noBlock: bool)
    requires History(log, trace) && from <= last < |log|
    requires log[from].pc == WriteTest(src, 0, noBlock)
    requires forall m :: from <= m <= last ==> InWrite(log[m].pc)
    ensures WriteSoFar(log, from, last, src, noBlock)
    ensures log[last].pc.WriteExit? && log[last].pc.done != |src| ==>
      noBlock && exists m: nat :: from <= m <= last && log[m].tx.Full()
    decreases last
  {
    if last > from {
      WriteFills(log, trace, from, last - 1, src, noBlock);
      WriteStepSoFar(log, trace, from, last - 1, src, noBlock);
    }
  }
}
