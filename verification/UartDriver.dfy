// The driver's own code: rings in arrays, a shadow control register, the handler, and the
// foreground calls with every point at which the handler may cut in made explicit.  The driver
// keeps a ghost history, and each piece of code is proved to extend it by steps of the step
// system; so whatever holds at every point of every run holds in every state of a driver.

module UartDriver {
  import opened Uart
  import opened UartTrace

  /** What the handler never touches while a call is under way. */
  lemma HandleLeavesCall(s: State, st: Status)
    requires s.tx.Valid() && s.rx.Valid()
    ensures Handle(s, st).pc == s.pc && Handle(s, st).written == s.written && Handle(s, st).read == s.read
  {
  }

  /** Interrupt requests, as events. */
  function Requests(sts: seq<Status>): (e: seq<Event>)
    ensures |e| == |sts|
  {
    seq(|sts|, i requires 0 <= i < |sts| => Irq(sts[i]))
  }

  /** A trace continued by accesses from..to: the requests before each, then the access. */
  function Accesses(trace: seq<Event>, pending: seq<seq<Status>>, from: nat, to: nat): seq<Event>
    requires from <= to <= |pending|
  {
    if from == to then trace
    else Accesses(trace, pending, from, to - 1) + Requests(pending[to - 1]) + [Fore]
  }

  lemma AccessesNone(trace: seq<Event>, pending: seq<seq<Status>>)
    ensures Accesses(trace, pending, 0, 0) == trace
  {
  }

  lemma AccessesNext(trace: seq<Event>, pending: seq<seq<Status>>, k: nat)
    requires k < |pending|
    ensures Accesses(trace, pending, 0, k + 1) == Accesses(trace, pending, 0, k) + Requests(pending[k]) + [Fore]
  {
  }

  lemma {:induction false} AccessesJoin(trace: seq<Event>, pending: seq<seq<Status>>, a: nat, b: nat, c: nat)
    requires a <= b <= c <= |pending|
    ensures Accesses(Accesses(trace, pending, a, b), pending, b, c) == Accesses(trace, pending, a, c)
  {
    if b < c {
      AccessesJoin(trace, pending, a, b, c - 1);
    }
  }

  class Driver {
    const txBuf: array<byte>
    const rxBuf: array<byte>
    var txStart: slot
    var txEnd: slot
    var rxStart: slot
    var rxEnd: slot
    var ctrl: Control
    var device: Control
    ghost var pc: Pc
    ghost var sent: seq<byte>
    ghost var received: seq<byte>
    ghost var written: seq<byte>
    ghost var read: seq<byte>
    ghost var log: seq<State>
    ghost var trace: seq<Event>

    ghost predicate Linked()
      reads this
    {
      txBuf.Length == rxBuf.Length == BUF_LEN && txBuf != rxBuf && History(log, trace)
    }

    /** The object is at the end of its history. */
    ghost predicate Valid()
      reads this, txBuf, rxBuf
    {
      Linked() && View() == log[|log| - 1]
    }

    ghost function View(): (s: State)
      requires txBuf.Length == rxBuf.Length == BUF_LEN
      reads this, txBuf, rxBuf
      ensures s.tx.Valid() && s.rx.Valid()
    {
      State(Ring(txBuf[..], txStart, txEnd), Ring(rxBuf[..], rxStart, rxEnd), ctrl, device, pc,
            sent, received, written, read)
    }

    /** In every state of every driver the transmit order holds and no wakeup is lost; between writes
        the bytes sent and in the ring are those its calls handed over. */
    lemma AlwaysInOrder()
      requires Valid()
      ensures TxInv(View())
      ensures !InWrite(pc) ==> Accepted(sent + View().tx.Live(), Offered(log, trace))
    {
      HistoryKeepsTx(log, trace, |log| - 1);
      if !InWrite(pc) {
        TransmitsCalls(log, trace);
      }
    }

    /** And while nothing overran the receive ring, what the reads returned and took, and what is in
        the ring, are the bytes that came in. */
    lemma ReceivesInOrder()
      requires Valid() && NeverOverrun(log, trace)
      ensures RxInv(View())
      ensures Incoming(log, trace) == read + Taken(pc) + View().rx.Live()
    {
      HistoryKeepsRx(log, trace, |log| - 1);
      ReceiveFifo(log, trace);
    }

    constructor ()
      ensures Valid() && View() == Init() && trace == [] && fresh(txBuf) && fresh(rxBuf)
    {
      txBuf := new byte[BUF_LEN](_ => 0);
      rxBuf := new byte[BUF_LEN](_ => 0);
      txStart, txEnd, rxStart, rxEnd := 0, 0, 0, 0;
      ctrl, device := Control(false, true, true), Control(false, true, true);
      pc, sent, received, written, read := Idle, [], [], [], [];
      log, trace := [Init()], [];
      new;
      assert txBuf[..] == ZeroRing().buf && rxBuf[..] == ZeroRing().buf;
    }

    /** The code has just done what event e does. */
    ghost method Record(e: Event)
      requires Linked() && OneStep(log[|log| - 1], e, View())
      modifies this`log, this`trace
      ensures Valid() && trace == old(trace) + [e]
    {
      HistoryGrows(log, trace, e, View());
      log, trace := log + [View()], trace + [e];
    }

    // ---------- the handler ----------

    method ServeReceive(st: Status)
      requires Linked()
      modifies this`rxEnd, this`ctrl, this`device, this`received, rxBuf
      ensures View() == RxIrq(old(View()), st)
    {
      if st.error {
        return;
      }
      var next := Next(rxEnd);
      rxBuf[rxEnd] := st.rxData;
      received := received + [st.rxData];
      rxEnd := next;
      next := Next(rxEnd);
      if next == rxStart {
        ctrl := ctrl.(rrdy := false);
        device := ctrl;
      }
    }

    method ServeTransmit()
      requires Linked()
      modifies this`txStart, this`ctrl, this`device, this`sent
      ensures View() == TxIrq(old(View()))
    {
      if txStart != txEnd {
        sent := sent + [txBuf[txStart]];
        txStart := Next(txStart);
        ctrl := ctrl.(trdy := true);
      }
      if txStart == txEnd {
        ctrl := ctrl.(trdy := false, dcts := false);
      }
      device := ctrl;
    }

    /** The handler, entered when the device raises its line. */
    method Interrupt(st: Status)
      requires Valid()
      modifies this, rxBuf
      ensures Valid() && trace == old(trace) + [Irq(st)]
      ensures pc == old(pc) && written == old(written) && read == old(read)
    {
      HandleLeavesCall(View(), st);
      if (st.trdy && device.trdy) || (st.rrdy && device.rrdy) {
        if st.rrdy {
          ServeReceive(st);
        }
        if st.trdy {
          ServeTransmit();
        }
      }
      Record(Irq(st));
    }

    /** All the requests that arrive before the next foreground access. */
    method Preempt(sts: seq<Status>)
      requires Valid()
      modifies this, rxBuf
      ensures Valid() && trace == old(trace) + Requests(sts)
      ensures pc == old(pc) && written == old(written) && read == old(read)
    {
      var i := 0;
      ghost var all := Requests(sts);
      assert old(trace) + all[..0] == old(trace);
      while i < |sts|
        invariant 0 <= i <= |sts| && Valid() && trace == old(trace) + all[..i]
        invariant pc == old(pc) && written == old(written) && read == old(read)
      {
        Interrupt(sts[i]);
        assert old(trace) + all[..i + 1] == (old(trace) + all[..i]) + [Irq(sts[i])];
        i := i + 1;
      }
      assert all[..|sts|] == all;
    }

    // ---------- write: one method per access to shared memory ----------

    /** while (count), and the slot after the end of the ring. */
    method NextSlot(src: seq<byte>, ptr: nat, noBlock: bool, sts: seq<Status>) returns (next: slot)
      requires Valid() && pc == WriteTest(src, ptr, noBlock) && ptr <= |src|
      modifies this, rxBuf
      ensures Valid() && trace == old(trace) + Requests(sts) + [Fore] && written == old(written)
      ensures pc == if ptr < |src| then WriteCheck(src, ptr, noBlock, next) else WriteExit(src, ptr)
    {
      Preempt(sts);
      next := Next(txEnd);
      pc := if ptr < |src| then WriteCheck(src, ptr, noBlock, next) else WriteExit(src, ptr);
      Record(Fore);
    }

    /** next == tx_start, and where the answer leads. */
    method IsFull(src: seq<byte>, ptr: nat, noBlock: bool, next: slot, sts: seq<Status>)
      returns (full: bool)
      requires Valid() && pc == WriteCheck(src, ptr, noBlock, next)
      modifies this, rxBuf
      ensures Valid() && trace == old(trace) + Requests(sts) + [Fore] && written == old(written)
      ensures pc == if !full then WriteStore(src, ptr, noBlock, next)
                    else if noBlock then WriteExit(src, ptr) else WriteUnblock(src, ptr, next)
    {
      Preempt(sts);
      full := next == txStart;
      pc := if !full then WriteStore(src, ptr, noBlock, next)
            else if noBlock then WriteExit(src, ptr) else WriteUnblock(src, ptr, next);
      Record(Fore);
    }

    /** Enable the transmit interrupt with interrupts masked, before waiting. */
    method Unblock(src: seq<byte>, ptr: nat, next: slot, sts: seq<Status>)
      requires Valid() && pc == WriteUnblock(src, ptr, next)
      modifies this, rxBuf
      ensures Valid() && trace == old(trace) + Requests(sts) + [Fore] && written == old(written)
      ensures pc == WriteWait(src, ptr, next)
    {
      Preempt(sts);
      ctrl := ctrl.(trdy := true, dcts := true);
      device := ctrl;
      pc := WriteWait(src, ptr, next);
      Record(Fore);
    }

    /** One poll of the wait loop. */
    method Poll(src: seq<byte>, ptr: nat, next: slot, sts: seq<Status>) returns (full: bool)
      requires Valid() && pc == WriteWait(src, ptr, next)
      modifies this, rxBuf
      ensures Valid() && trace == old(trace) + Requests(sts) + [Fore] && written == old(written)
      ensures pc == if full then WriteWait(src, ptr, next) else WriteStore(src, ptr, false, next)
    {
      Preempt(sts);
      full := next == txStart;
      pc := if full then WriteWait(src, ptr, next) else WriteStore(src, ptr, false, next);
      Record(Fore);
    }

    method Store(src: seq<byte>, ptr: nat, noBlock: bool, next: slot, sts: seq<Status>)
      requires Valid() && pc == WriteStore(src, ptr, noBlock, next) && ptr < |src|
      modifies this, txBuf, rxBuf
      ensures Valid() && trace == old(trace) + Requests(sts) + [Fore] && written == old(written)
      ensures pc == WriteAdvance(src, ptr, noBlock, next)
    {
      Preempt(sts);
      txBuf[txEnd] := src[ptr];
      pc := WriteAdvance(src, ptr, noBlock, next);
      Record(Fore);
    }

    method Publish(src: seq<byte>, ptr: nat, noBlock: bool, next: slot, sts: seq<Status>)
      requires Valid() && pc == WriteAdvance(src, ptr, noBlock, next)
      modifies this, rxBuf
      ensures Valid() && trace == old(trace) + Requests(sts) + [Fore] && written == old(written)
      ensures pc == WriteTest(src, ptr + 1, noBlock)
    {
      Preempt(sts);
      txEnd := next;
      pc := WriteTest(src, ptr + 1, noBlock);
      Record(Fore);
    }

    /** Enable the transmit interrupt with interrupts masked, on the way out. */
    method LeaveWrite(src: seq<byte>, ptr: nat, sts: seq<Status>)
      requires Valid() && pc == WriteExit(src, ptr) && ptr <= |src|
      modifies this, rxBuf
      ensures Valid() && trace == old(trace) + Requests(sts) + [Fore]
      ensures pc == Idle && written == old(written) + src[..ptr]
    {
      Preempt(sts);
      ctrl := ctrl.(trdy := true, dcts := true);
      device := ctrl;
      written := written + src[..ptr];
      pc := Idle;
      Record(Fore);
    }

    /** The blocking branch of write: enable the interrupt, then poll until there is space. */
    method AwaitSpace(src: seq<byte>, ptr: nat, next: slot, pending: seq<seq<Status>>, k0: nat)
      returns (full: bool, k: nat)
      requires Valid() && pc == WriteUnblock(src, ptr, next) && k0 <= |pending|
      modifies this, rxBuf
      ensures k0 <= k <= |pending| && Valid() && written == old(written)
      ensures trace == Accesses(old(trace), pending, k0, k)
      ensures full ==> k == |pending| && InWrite(pc) && !pc.WriteExit?
      ensures !full ==> pc == WriteStore(src, ptr, false, next)
    {
      k, full := k0, true;
      if k == |pending| { return; }
      ghost var begun := trace;
      Unblock(src, ptr, next, pending[k]);
      k := k + 1;
      while full && k < |pending|
        invariant k0 <= k <= |pending| && Valid() && written == old(written)
        invariant trace == Accesses(begun, pending, k0, k)
        invariant pc == if full then WriteWait(src, ptr, next) else WriteStore(src, ptr, false, next)
        decreases |pending| - k
      {
        full := Poll(src, ptr, next, pending[k]);
        k := k + 1;
      }
    }

    /** The test for space and what follows it; stopped means that the schedule has run out. */
    method FindRoom(src: seq<byte>, ptr: nat, noBlock: bool, next: slot, pending: seq<seq<Status>>,
                    k0: nat) returns (full: bool, stopped: bool, k: nat)
      requires Valid() && pc == WriteCheck(src, ptr, noBlock, next) && k0 <= |pending|
      modifies this, rxBuf
      ensures k0 <= k <= |pending| && Valid() && written == old(written)
      ensures trace == Accesses(old(trace), pending, k0, k)
      ensures stopped ==> k == |pending| && InWrite(pc) && !pc.WriteExit?
      ensures !stopped ==> k > k0
      ensures !stopped && full ==> noBlock && pc == WriteExit(src, ptr)
      ensures !stopped && !full ==> pc == WriteStore(src, ptr, noBlock, next)
    {
      full, stopped, k := true, true, k0;
      if k == |pending| { return; }
      ghost var begun := trace;
      full := IsFull(src, ptr, noBlock, next, pending[k]);
      k, stopped := k + 1, false;
      if full && !noBlock {
        full, k := AwaitSpace(src, ptr, next, pending, k);
        AccessesJoin(begun, pending, k0, k0 + 1, k);
        stopped := full;
      }
    }

    /** Store the byte, then move the end of the ring past it. */
    method PutByte(src: seq<byte>, ptr: nat, noBlock: bool, next: slot, pending: seq<seq<Status>>,
                   k0: nat) returns (put: bool, k: nat)
      requires Valid() && pc == WriteStore(src, ptr, noBlock, next) && ptr < |src| && k0 <= |pending|
      modifies this, txBuf, rxBuf
      ensures k0 <= k <= |pending| && Valid() && written == old(written)
      ensures trace == Accesses(old(trace), pending, k0, k)
      ensures put ==> k > k0 && pc == WriteTest(src, ptr + 1, noBlock)
      ensures !put ==> k == |pending| && InWrite(pc) && !pc.WriteExit?
    {
      put, k := false, k0;
      if k == |pending| { return; }
      ghost var begun := trace;
      Store(src, ptr, noBlock, next, pending[k]);
      k := k + 1;
      assert trace == Accesses(begun, pending, k0, k);
      if k == |pending| { return; }
      Publish(src, ptr, noBlock, next, pending[k]);
      put, k := true, k + 1;
    }

    /** One turn of the copying loop; stopped means that the schedule has run out. */
    method CopyByte(src: seq<byte>, ptr: nat, noBlock: bool, pending: seq<seq<Status>>, k0: nat)
      returns (copied: bool, stopped: bool, k: nat)
      requires Valid() && pc == WriteTest(src, ptr, noBlock) && ptr <= |src| && k0 < |pending|
      modifies this, txBuf, rxBuf
      ensures k0 < k <= |pending| && Valid() && written == old(written)
      ensures trace == Accesses(old(trace), pending, k0, k)
      ensures stopped ==> k == |pending| && InWrite(pc) && !copied
      ensures copied ==> ptr < |src| && pc == WriteTest(src, ptr + 1, noBlock)
      ensures !copied && !stopped ==> pc == WriteExit(src, ptr) && (noBlock || ptr == |src|)
    {
      k, copied, stopped := k0, false, false;
      ghost var begun := trace;
      var next := NextSlot(src, ptr, noBlock, pending[k]);
      k := k + 1;
      assert trace == Accesses(begun, pending, k0, k);
      if ptr == |src| { return; }
      var full, room;
      full, stopped, room := FindRoom(src, ptr, noBlock, next, pending, k);
      AccessesJoin(begun, pending, k0, k, room);
      k := room;
      if stopped || full { return; }
      var after;
      copied, after := PutByte(src, ptr, noBlock, next, pending, k);
      AccessesJoin(begun, pending, k0, k, after);
      k, stopped := after, !copied;
    }

    method BeginWrite(src: seq<byte>, noBlock: bool)
      requires Valid() && pc.Idle?
      modifies this`pc, this`log, this`trace
      ensures Valid() && trace == old(trace) + [CallWrite(src, noBlock)]
      ensures pc == WriteTest(src, 0, noBlock)
    {
      pc := WriteTest(src, 0, noBlock);
      Record(CallWrite(src, noBlock));
    }

    /** write(): copy src into the ring, waiting for space or giving up when it is full.  `pending`
        holds the interrupt requests before each access; when it runs out the call is left
        unfinished, in the state it has reached after `k` accesses. */
    method Write(src: seq<byte>, noBlock: bool, pending: seq<seq<Status>>)
      returns (n: nat, finished: bool, k: nat)
      requires Valid() && pc.Idle?
      modifies this, txBuf, rxBuf
      ensures Valid() && k <= |pending|
      ensures trace == Accesses(old(trace) + [CallWrite(src, noBlock)], pending, 0, k)
      ensures finished ==> pc.Idle? && n <= |src| && written == old(written) + src[..n]
      ensures finished && !noBlock ==> n == |src|
      ensures !finished ==> k == |pending| && InWrite(pc)
    {
      BeginWrite(src, noBlock);
      ghost var begun := trace;
      AccessesNone(begun, pending);
      hide Driver.Valid, Accesses;
      var count, copied := |src|, true;
      k, n, finished := 0, 0, false;
      while copied
        invariant 0 <= k <= |pending| && Valid() && trace == Accesses(begun, pending, 0, k)
        invariant 0 <= count <= |src| && written == old(written)
        invariant copied ==> pc == WriteTest(src, |src| - count, noBlock)
        invariant !copied ==> pc == WriteExit(src, |src| - count) && (noBlock || count == 0)
        decreases |pending| - k, copied
      {
        if k == |pending| { return; }
        var stopped, after;
        copied, stopped, after := CopyByte(src, |src| - count, noBlock, pending, k);
        AccessesJoin(begun, pending, 0, k, after);
        k := after;
        if stopped { return; }
        if copied {
          count := count - 1;
        }
      }
      if k == |pending| { return; }
      AccessesNext(begun, pending, k);
      LeaveWrite(src, |src| - count, pending[k]);
      k, n, finished := k + 1, |src| - count, true;
    }

    // ---------- read ----------

    /** count < len && rx_start != rx_end. */
    method HasMore(len: nat, out: seq<byte>, block: bool, sts: seq<Status>) returns (more: bool)
      requires Valid() && pc == ReadTest(len, out, block)
      modifies this, rxBuf
      ensures Valid() && trace == old(trace) + Requests(sts) + [Fore] && read == old(read)
      ensures pc == if more then ReadTake(len, out, block) else ReadEmpty(len, out, block)
      ensures more ==> |out| < len
    {
      Preempt(sts);
      more := |out| < len && rxStart != rxEnd;
      pc := if more then ReadTake(len, out, block) else ReadEmpty(len, out, block);
      Record(Fore);
    }

    method Take(len: nat, out: seq<byte>, block: bool, sts: seq<Status>) returns (b: byte)
      requires Valid() && pc == ReadTake(len, out, block)
      modifies this, rxBuf
      ensures Valid() && trace == old(trace) + Requests(sts) + [Fore] && read == old(read)
      ensures pc == ReadAdvance(len, out + [b], block)
    {
      Preempt(sts);
      b := rxBuf[rxStart];
      pc := ReadAdvance(len, out + [b], block);
      Record(Fore);
    }

    method Release(len: nat, out: seq<byte>, block: bool, sts: seq<Status>)
      requires Valid() && pc == ReadAdvance(len, out, block)
      modifies this, rxBuf
      ensures Valid() && trace == old(trace) + Requests(sts) + [Fore] && read == old(read)
      ensures pc == ReadTest(len, out, block)
    {
      Preempt(sts);
      rxStart := Next(rxStart);
      pc := ReadTest(len, out, block);
      Record(Fore);
    }

    /** !count && rx_start == rx_end, and where the answer leads. */
    method IsDry(len: nat, out: seq<byte>, block: bool, sts: seq<Status>) returns (dry: bool)
      requires Valid() && pc == ReadEmpty(len, out, block)
      modifies this, rxBuf
      ensures Valid() && trace == old(trace) + Requests(sts) + [Fore] && read == old(read)
      ensures dry ==> out == []
      ensures pc == if dry then (if block then ReadUnblock(len) else ReadExit([]))
                    else if out == [] && len > 0 then ReadTest(len, out, block) else ReadExit(out)
    {
      Preempt(sts);
      dry := out == [] && rxStart == rxEnd;
      pc := if dry then (if block then ReadUnblock(len) else ReadExit([]))
            else if out == [] && len > 0 then ReadTest(len, out, block) else ReadExit(out);
      Record(Fore);
    }

    /** Enable the receive interrupt with interrupts masked, before waiting. */
    method UnblockRead(len: nat, sts: seq<Status>)
      requires Valid() && pc == ReadUnblock(len)
      modifies this, rxBuf
      ensures Valid() && trace == old(trace) + Requests(sts) + [Fore] && read == old(read)
      ensures pc == if len > 0 then ReadTest(len, [], true) else ReadExit([])
    {
      Preempt(sts);
      ctrl := ctrl.(rrdy := true);
      device := ctrl;
      pc := if len > 0 then ReadTest(len, [], true) else ReadExit([]);
      Record(Fore);
    }

    /** Enable the receive interrupt with interrupts masked, on the way out. */
    method LeaveRead(out: seq<byte>, sts: seq<Status>)
      requires Valid() && pc == ReadExit(out)
      modifies this, rxBuf
      ensures Valid() && trace == old(trace) + Requests(sts) + [Fore]
      ensures pc == Idle && read == old(read) + out
    {
      Preempt(sts);
      ctrl := ctrl.(rrdy := true);
      device := ctrl;
      read := read + out;
      pc := Idle;
      Record(Fore);
    }

    /** The inner loop: copy until the ring is empty or the caller is satisfied. */
    method Drain(len: nat, block: bool, pending: seq<seq<Status>>, k0: nat)
      returns (out: seq<byte>, stopped: bool, k: nat)
      requires Valid() && pc == ReadTest(len, [], block) && k0 < |pending|
      modifies this, rxBuf
      ensures k0 < k <= |pending| && Valid() && read == old(read)
      ensures trace == Accesses(old(trace), pending, k0, k)
      ensures stopped ==> k == |pending| && InRead(pc)
      ensures !stopped ==> pc == ReadEmpty(len, out, block) && |out| <= len
    {
      ghost var begun := trace;
      out, k, stopped := [], k0, true;
      while true
        invariant k0 <= k <= |pending| && Valid() && read == old(read)
        invariant trace == Accesses(begun, pending, k0, k)
        invariant pc == ReadTest(len, out, block) && |out| <= len && stopped
        decreases |pending| - k
      {
        if k == |pending| { return; }
        var more := HasMore(len, out, block, pending[k]);
        k := k + 1;
        assert trace == Accesses(begun, pending, k0, k);
        if !more {
          stopped := false;
          return;
        }
        var copied, b, after := CopyOut(len, out, block, pending, k);
        AccessesJoin(begun, pending, k0, k, after);
        k := after;
        if !copied { return; }
        out := out + [b];
      }
    }

    /** One turn of the inner loop, past its test. */
    method CopyOut(len: nat, out: seq<byte>, block: bool, pending: seq<seq<Status>>, k0: nat)
      returns (copied: bool, b: byte, k: nat)
      requires Valid() && pc == ReadTake(len, out, block) && k0 <= |pending|
      modifies this, rxBuf
      ensures k0 <= k <= |pending| && Valid() && read == old(read)
      ensures trace == Accesses(old(trace), pending, k0, k)
      ensures copied ==> pc == ReadTest(len, out + [b], block)
      ensures !copied ==> k == |pending| && InRead(pc)
    {
      copied, b, k := false, 0, k0;
      if k == |pending| { return; }
      ghost var begun := trace;
      b := Take(len, out, block, pending[k]);
      k := k + 1;
      assert trace == Accesses(begun, pending, k0, k);
      if k == |pending| { return; }
      Release(len, out + [b], block, pending[k]);
      k, copied := k + 1, true;
    }

    /** The tail of the outer loop: stop, go round again, or wait for data. */
    method AfterDrain(len: nat, out: seq<byte>, block: bool, pending: seq<seq<Status>>, k0: nat)
      returns (again: bool, wouldBlock: bool, stopped: bool, k: nat)
      requires Valid() && pc == ReadEmpty(len, out, block) && k0 <= |pending|
      modifies this, rxBuf
      ensures k0 <= k <= |pending| && Valid() && read == old(read)
      ensures trace == Accesses(old(trace), pending, k0, k)
      ensures stopped ==> k == |pending| && InRead(pc)
      ensures !stopped && again ==> k > k0 && pc == ReadTest(len, [], block)
      ensures !stopped && !again ==> pc == ReadExit(out) && (len > 0 ==> wouldBlock == (out == []))
      ensures wouldBlock ==> !block && out == [] && !again
    {
      again, wouldBlock, stopped, k := false, false, true, k0;
      if k == |pending| { return; }
      ghost var begun := trace;
      var dry := IsDry(len, out, block, pending[k]);
      k := k + 1;
      assert trace == Accesses(begun, pending, k0, k);
      if dry && block {
        if k == |pending| { return; }
        UnblockRead(len, pending[k]);
        k := k + 1;
      }
      stopped, wouldBlock := false, dry && !block;
      again := out == [] && len > 0 && !wouldBlock;
    }

    /** read(): return what has arrived, up to len bytes; wait for the first unless told not to. */
    method Read(len: nat, block: bool, pending: seq<seq<Status>>)
      returns (out: seq<byte>, wouldBlock: bool, finished: bool, k: nat)
      requires Valid() && pc.Idle?
      modifies this, rxBuf
      ensures Valid() && k <= |pending|
      ensures trace == Accesses(old(trace) + [CallRead(len, block)], pending, 0, k)
      ensures finished ==> pc.Idle? && |out| <= len && read == old(read) + out
      ensures wouldBlock ==> !block && out == []
      ensures finished && len > 0 ==> wouldBlock == (out == [])
      ensures !finished ==> k == |pending| && InRead(pc)
    {
      pc := ReadTest(len, [], block);
      Record(CallRead(len, block));
      ghost var begun := trace;
      out, wouldBlock, k, finished := [], false, 0, false;
      var again := true;
      while again
        invariant 0 <= k <= |pending| && Valid() && trace == Accesses(begun, pending, 0, k)
        invariant read == old(read) && |out| <= len
        invariant wouldBlock ==> !block && out == []
        invariant again ==> pc == ReadTest(len, [], block) && !wouldBlock
        invariant !again ==> pc == ReadExit(out) && (len > 0 ==> wouldBlock == (out == []))
        decreases |pending| - k, again
      {
        if k == |pending| { return; }
        var stopped, after;
        out, stopped, after := Drain(len, block, pending, k);
        AccessesJoin(begun, pending, 0, k, after);
        k := after;
        if stopped { return; }
        again, wouldBlock, stopped, after := AfterDrain(len, out, block, pending, k);
        AccessesJoin(begun, pending, 0, k, after);
        k := after;
        if stopped { return; }
      }
      if k == |pending| { return; }
      LeaveRead(out, pending[k]);
      k, finished := k + 1, true;
    }

    // ---------- close ----------

    /** close(): wait until the transmit ring is empty, unless told not to. */
    method Close(noBlock: bool, pending: seq<seq<Status>>)
      returns (wouldBlock: bool, finished: bool, k: nat)
      requires Valid() && pc.Idle?
      modifies this, rxBuf
      ensures Valid() && k <= |pending|
      ensures trace == Accesses(old(trace) + [CallClose(noBlock)], pending, 0, k)
      ensures finished ==> pc.Idle? && (wouldBlock ==> noBlock) && (wouldBlock <==> !View().tx.Empty())
      ensures !finished ==> k == |pending| && pc == CloseWait(noBlock)
    {
      pc := CloseWait(noBlock);
      Record(CallClose(noBlock));
      ghost var begun := trace;
      wouldBlock, finished, k := false, false, 0;
      while !finished && k < |pending|
        invariant 0 <= k <= |pending| && Valid() && trace == Accesses(begun, pending, 0, k)
        invariant !finished ==> pc == CloseWait(noBlock)
        invariant finished ==> pc.Idle? && (wouldBlock ==> noBlock) && (wouldBlock <==> !View().tx.Empty())
        decreases |pending| - k
      {
        wouldBlock, finished := PollClose(noBlock, pending[k]);
        k := k + 1;
      }
    }

    method PollClose(noBlock: bool, sts: seq<Status>) returns (wouldBlock: bool, finished: bool)
      requires Valid() && pc == CloseWait(noBlock)
      modifies this, rxBuf
      ensures Valid() && trace == old(trace) + Requests(sts) + [Fore]
      ensures pc == if finished then Idle else CloseWait(noBlock)
      ensures finished ==> (wouldBlock ==> noBlock) && (wouldBlock <==> !View().tx.Empty())
    {
      Preempt(sts);
      wouldBlock := txStart != txEnd && noBlock;
      finished := txStart == txEnd || noBlock;
      if finished {
        pc := Idle;
      }
      Record(Fore);
    }
  }
}
