// Progress of the UART driver: with a device that keeps becoming ready and a foreground that
// keeps running, a blocking write and a blocking close return; with bytes that keep coming in
// and no overrun, a blocking read returns with at least one of them.

module UartLiveness {
  import opened Uart

  predicate ReadyEvent(e: Event) {
    e.Irq? && e.status.trdy
  }

  ghost predicate ForeFrom(r: Run, n: nat) {
    exists m: nat :: m >= n && r.events(m).Fore?
  }

  ghost predicate ReadyFrom(r: Run, n: nat) {
    exists m: nat :: m >= n && ReadyEvent(r.events(m))
  }

  /** The foreground runs again and again, and the device becomes ready again and again. */
  ghost predicate Fair(r: Run) {
    r.Valid() && forall n: nat :: ForeFrom(r, n) && ReadyFrom(r, n)
  }

  // ---------- single steps ----------

  /** t is what s becomes while the foreground of a call stands still: the ring may drain. */
  predicate Rests(s: State, t: State)
    requires s.tx.Valid() && t.tx.Valid()
  {
    t.pc == s.pc && t.written == s.written && t.tx.end == s.tx.end && t.tx.Count() <= s.tx.Count()
  }

  lemma InterruptRests(s: State, e: Event)
    requires TxInv(s) && !e.Fore? && !s.pc.Idle?
    ensures Rests(s, Step(s, e))
  {
    if e.Irq? && Raised(s, e.status) {
      HandleKeepsTx(s, e.status);
      TxEndFixed(s, e.status);
    }
  }

  lemma TxEndFixed(s: State, st: Status)
    requires s.tx.Valid() && s.rx.Valid()
    ensures Handle(s, st).tx.end == s.tx.end
  {
  }

  /** A ready event drains a non-empty ring whose interrupt is enabled by one byte. */
  lemma ReadyDrains(s: State, e: Event)
    requires TxInv(s) && ReadyEvent(e) && !s.tx.Empty()
    requires !InWrite(s.pc) || s.pc.WriteWait?
    ensures Rests(s, Step(s, e)) && Step(s, e).tx.Count() == s.tx.Count() - 1
  {
    RingCounts(s.tx);
    HandleKeepsTx(s, e.status);
    TxEndFixed(s, e.status);
  }

  lemma WaitTurn(s: State)
    requires TxInv(s) && s.pc.WriteWait?
    ensures s.tx.Full() ==> Step(s, Fore) == s
    ensures !s.tx.Full() ==>
      Step(s, Fore) == s.(pc := WriteStore(s.pc.src, s.pc.done, false, s.pc.next))
  {
  }

  /** A resting ring that has space keeps it. */
  lemma SpaceStays(s: State, t: State)
    requires s.tx.Valid() && t.tx.Valid() && Rests(s, t) && !s.tx.Full()
    ensures !t.tx.Full()
  {
    RingCounts(s.tx);
    RingCounts(t.tx);
  }

  // ---------- stretches of a run ----------

  /** The invariant at n, and the step that leads to n + 1. */
  lemma Around(r: Run, n: nat)
    requires r.Valid()
    ensures TxInv(r.states(n)) && r.states(n + 1) == Step(r.states(n), r.events(n))
    ensures TxInv(r.states(n + 1))
  {
    assert r.Follows(n);
    TxAlways(r, n);
    TxAlways(r, n + 1);
  }

  /** The next foreground step of a call; until then the call rests. */
  lemma {:induction false} NextForeBy(r: Run, n: nat, far: nat) returns (m: nat)
    requires r.Valid() && !r.states(n).pc.Idle? && n <= far && r.events(far).Fore?
    ensures m >= n && r.events(m).Fore? && TxInv(r.states(n)) && TxInv(r.states(m))
    ensures Rests(r.states(n), r.states(m))
    decreases far - n
  {
    Around(r, n);
    if r.events(n).Fore? {
      m := n;
    } else {
      InterruptRests(r.states(n), r.events(n));
      m := NextForeBy(r, n + 1, far);
    }
  }

  lemma NextFore(r: Run, n: nat) returns (m: nat)
    requires Fair(r) && !r.states(n).pc.Idle?
    ensures m >= n && r.events(m).Fore? && TxInv(r.states(n)) && TxInv(r.states(m))
    ensures Rests(r.states(n), r.states(m))
  {
    assert ForeFrom(r, n);
    var far: nat :| far >= n && r.events(far).Fore?;
    m := NextForeBy(r, n, far);
  }

  // ---------- a write that waits for space ----------

  /** Up to a ready event k, a waiting write has found space. */
  lemma {:induction false} SpaceBy(r: Run, n: nat, k: nat) returns (m: nat)
    requires r.Valid() && n <= k && ReadyEvent(r.events(k)) && r.states(n).pc.WriteWait?
    ensures m >= n && r.states(m).pc == r.states(n).pc && r.states(m).written == r.states(n).written
    ensures !r.states(m).tx.Full()
    decreases k - n
  {
    hide TxInv, Step;
    var s := r.states(n);
    Around(r, n);
    if !s.tx.Full() {
      m := n;
    } else if n == k {
      RingCounts(s.tx);
      ReadyDrains(s, r.events(n));
      RingCounts(r.states(n + 1).tx);
      m := n + 1;
    } else {
      if r.events(n).Fore? {
        WaitTurn(s);
      } else {
        InterruptRests(s, r.events(n));
      }
      m := SpaceBy(r, n + 1, k);
    }
  }

  /** A write does not wait for ever. */
  lemma WaitEnds(r: Run, n: nat) returns (m: nat)
    requires Fair(r) && r.states(n).pc.WriteWait?
    ensures m > n && r.states(m).written == r.states(n).written
    ensures var w := r.states(n).pc; r.states(m).pc == WriteStore(w.src, w.done, false, w.next)
  {
    assert ReadyFrom(r, n);
    var k: nat :| k >= n && ReadyEvent(r.events(k));
    var free := SpaceBy(r, n, k);
    var f := NextFore(r, free);
    SpaceStays(r.states(free), r.states(f));
    Around(r, f);
    WaitTurn(r.states(f));
    m := f + 1;
  }

  // ---------- a write as a whole ----------

  /** Foreground steps, waits aside, until the loop test or the return. */
  function Rank(pc: Pc): nat {
    match pc
    case WriteTest(_, _, _) => 6
    case WriteCheck(_, _, _, _) => 5
    case WriteUnblock(_, _, _) => 4
    case WriteWait(_, _, _) => 3
    case WriteStore(_, _, _, _) => 2
    case WriteAdvance(_, _, _, _) => 1
    case _ => 0
  }

  function Remaining(pc: Pc): nat {
    if InWrite(pc) && pc.done <= |pc.src| then |pc.src| - pc.done else 0
  }

  /** t goes on with the write of s, closer to its end. */
  predicate Advances(s: State, t: State) {
    && InWrite(s.pc) && InWrite(t.pc) && t.pc.src == s.pc.src && t.written == s.written
    && (Blocking(s.pc) ==> Blocking(t.pc))
    && (Remaining(t.pc) < Remaining(s.pc)
        || (Remaining(t.pc) == Remaining(s.pc) && Rank(t.pc) < Rank(s.pc)))
  }

  /** t has returned from the write of s. */
  predicate Returned(s: State, t: State) {
    && InWrite(s.pc) && t.pc.Idle? && s.written <= t.written <= s.written + s.pc.src
    && (Blocking(s.pc) ==> t.written == s.written + s.pc.src)
  }

  lemma WriteTurn(s: State)
    requires TxInv(s) && InWrite(s.pc) && !s.pc.WriteWait?
    ensures var t := Step(s, Fore);
            if s.pc.WriteExit? then Returned(s, t) else Advances(s, t)
  {
    hide TxInv, Draining;
    WriteBounds(s);
    if s.pc.WriteExit? {
      PutIn(s.written, s.pc.src, s.pc.done);
    }
  }

  lemma WriteBounds(s: State)
    requires TxInv(s) && InWrite(s.pc)
    ensures s.tx.Valid() && s.rx.Valid() && WriteLocals(s)
  {
  }

  lemma PutIn(written: seq<byte>, src: seq<byte>, done: nat)
    requires done <= |src|
    ensures written <= written + src[..done] <= written + src
    ensures done == |src| ==> written + src[..done] == written + src
  {
    assert src == src[..done] + src[done..];
    assert written + src == (written + src[..done]) + src[done..];
  }

  /** Every write returns, having put in a prefix of its bytes; a blocking one, all of them. */
  lemma {:induction false} WriteReturns(r: Run, n: nat) returns (m: nat)
    requires Fair(r) && InWrite(r.states(n).pc)
    ensures m > n && Returned(r.states(n), r.states(m))
    decreases Remaining(r.states(n).pc), Rank(r.states(n).pc)
  {
    if r.states(n).pc.WriteWait? {
      var k := WaitEnds(r, n);
      m := WriteReturns(r, k);
    } else {
      var f := NextFore(r, n);
      Around(r, f);
      WriteTurn(r.states(f));
      if r.states(n).pc.WriteExit? {
        m := f + 1;
      } else {
        m := WriteReturns(r, f + 1);
      }
    }
  }

  // ---------- close ----------

  /** A blocking close returns, with the ring empty. */
  lemma {:induction false} CloseReturns(r: Run, n: nat, c: nat) returns (m: nat)
    requires Fair(r) && r.states(n).pc == CloseWait(false)
    requires r.states(n).tx.Valid() && r.states(n).tx.Count() <= c
    ensures m > n && r.states(m).pc.Idle? && r.states(m).tx.Empty()
    decreases c, 1, 0
  {
    hide TxInv;
    Around(r, n);
    RingCounts(r.states(n).tx);
    if r.states(n).tx.Empty() {
      var f := NextFore(r, n);
      RingCounts(r.states(f).tx);
      Around(r, f);
      m := f + 1;
    } else {
      assert ReadyFrom(r, n);
      var k: nat :| k >= n && ReadyEvent(r.events(k));
      m := CloseReturnsBy(r, n, k, c);
    }
  }

  lemma {:induction false} CloseReturnsBy(r: Run, n: nat, k: nat, c: nat) returns (m: nat)
    requires Fair(r) && r.states(n).pc == CloseWait(false) && n <= k && ReadyEvent(r.events(k))
    requires r.states(n).tx.Valid() && 0 < r.states(n).tx.Count() <= c
    ensures m > n && r.states(m).pc.Idle? && r.states(m).tx.Empty()
    decreases c, 0, k - n
  {
    var s := r.states(n);
    Around(r, n);
    RingCounts(s.tx);
    if n == k {
      ReadyDrains(s, r.events(n));
      m := CloseReturns(r, n + 1, c - 1);
    } else {
      CloseTurn(s, r.events(n));
      if r.states(n + 1).tx.Count() < s.tx.Count() {
        m := CloseReturns(r, n + 1, c - 1);
      } else {
        m := CloseReturnsBy(r, n + 1, k, c);
      }
    }
  }

  lemma CloseTurn(s: State, e: Event)
    requires TxInv(s) && s.pc == CloseWait(false) && !s.tx.Empty()
    ensures Rests(s, Step(s, e))
  {
    if !e.Fore? {
      InterruptRests(s, e);
    }
  }

  // ---------- read ----------

  /** A byte comes in free of errors. */
  predicate ByteEvent(e: Event) {
    e.Irq? && e.status.rrdy && !e.status.error
  }

  ghost predicate ByteFrom(r: Run, n: nat) {
    exists m: nat :: m >= n && ByteEvent(r.events(m))
  }

  /** The foreground runs again and again, and bytes come in again and again without overrun. */
  ghost predicate Fed(r: Run) {
    r.Valid() && forall n: nat :: ForeFrom(r, n) && ByteFrom(r, n) && NoOverrun(r, n)
  }

  /** A blocking read of len bytes, at any of its steps. */
  predicate BlockingRead(pc: Pc, len: nat) {
    match pc
    case ReadTest(l, out, block) => l == len && block && |out| <= len
    case ReadTake(l, out, block) => l == len && block && |out| < len
    case ReadAdvance(l, out, block) => l == len && block && 0 < |out| <= len
    case ReadEmpty(l, out, block) => l == len && block && |out| <= len
    case ReadUnblock(l) => l == len
    case ReadExit(out) => 0 < |out| <= len
    case _ => false
  }

  /** A byte has been copied, or there is one to copy. */
  predicate HasByte(s: State) {
    Copied(s.pc) != [] || !s.rx.Empty()
  }

  /** Foreground steps, once there is a byte, until the next one is copied or the return. */
  function ReadRank(pc: Pc): nat {
    match pc
    case ReadUnblock(_) => 4
    case ReadAdvance(_, _, _) => 4
    case ReadTest(_, _, _) => 3
    case ReadTake(_, _, _) => 2
    case ReadEmpty(_, out, _) => if out == [] then 4 else 1
    case _ => 0
  }

  /** t goes on with the read of s. */
  predicate ReadsOn(s: State, t: State, len: nat) {
    && BlockingRead(s.pc, len) && BlockingRead(t.pc, len) && t.read == s.read
    && Copied(s.pc) <= Copied(t.pc) && (HasByte(s) ==> HasByte(t))
  }

  /** t has returned from the read of s with at least one byte. */
  predicate ReadReturned(s: State, t: State, len: nat) {
    && t.pc.Idle? && s.read <= t.read
    && Copied(s.pc) <= t.read[|s.read|..] && 0 < |t.read| - |s.read| <= len
  }

  lemma ReadTurn(s: State, len: nat)
    requires s.tx.Valid() && s.rx.Valid() && len > 0 && BlockingRead(s.pc, len)
    ensures var t := Step(s, Fore);
            if s.pc.ReadExit? then ReadReturned(s, t, len)
            else ReadsOn(s, t, len)
                 && (HasByte(s) && |Copied(t.pc)| == |Copied(s.pc)| ==> ReadRank(t.pc) < ReadRank(s.pc))
  {
  }

  /** Interrupts leave a read where it is and, short of an overrun, take no byte away. */
  lemma InterruptReads(s: State, e: Event, len: nat)
    requires RxInv(s) && !e.Fore? && BlockingRead(s.pc, len) && !Overrun(s, e)
    ensures ReadsOn(s, Step(s, e), len) && Step(s, e).pc == s.pc
  {
  }

  /** Both invariants at n, and the step that leads to n + 1. */
  lemma FedAround(r: Run, n: nat)
    requires Fed(r)
    ensures TxInv(r.states(n)) && RxInv(r.states(n)) && !Overrun(r.states(n), r.events(n))
    ensures r.states(n + 1) == Step(r.states(n), r.events(n))
  {
    assert r.Follows(n);
    TxAlways(r, n);
    assert NoOverrun(r, n + 1);
    RxAlways(r, n);
  }

  /** Up to an incoming byte k, a blocking read has one, copied or to copy. */
  lemma {:induction false} ByteBy(r: Run, n: nat, k: nat, len: nat) returns (m: nat)
    requires Fed(r) && n <= k && ByteEvent(r.events(k)) && len > 0 && BlockingRead(r.states(n).pc, len)
    ensures m >= n && ReadsOn(r.states(n), r.states(m), len) && HasByte(r.states(m))
    decreases k - n
  {
    var s := r.states(n);
    if HasByte(s) {
      m := n;
    } else {
      FedAround(r, n);
      if r.events(n).Fore? {
        ReadTurn(s, len);
      } else {
        InterruptReads(s, r.events(n), len);
      }
      if n == k {
        m := n + 1;
      } else {
        m := ByteBy(r, n + 1, k, len);
      }
    }
  }

  /** The next foreground step of a read; until then it rests, and keeps what it has. */
  lemma {:induction false} ReadForeBy(r: Run, n: nat, far: nat, len: nat) returns (m: nat)
    requires Fed(r) && n <= far && r.events(far).Fore? && BlockingRead(r.states(n).pc, len)
    ensures m >= n && r.events(m).Fore?
    ensures ReadsOn(r.states(n), r.states(m), len) && r.states(m).pc == r.states(n).pc
    decreases far - n
  {
    if r.events(n).Fore? {
      m := n;
    } else {
      FedAround(r, n);
      InterruptReads(r.states(n), r.events(n), len);
      m := ReadForeBy(r, n + 1, far, len);
    }
  }

  /** A blocking read that has a byte returns. */
  lemma {:induction false} ReadEnds(r: Run, n: nat, len: nat) returns (m: nat)
    requires Fed(r) && len > 0 && BlockingRead(r.states(n).pc, len) && HasByte(r.states(n))
    ensures m > n && ReadReturned(r.states(n), r.states(m), len)
    decreases len - |Copied(r.states(n).pc)|, ReadRank(r.states(n).pc)
  {
    assert ForeFrom(r, n);
    var far: nat :| far >= n && r.events(far).Fore?;
    var f := ReadForeBy(r, n, far, len);
    FedAround(r, f);
    ReadTurn(r.states(f), len);
    m := f + 1;
    if !r.states(n).pc.ReadExit? {
      m := ReadEnds(r, f + 1, len);
    }
  }

  /** Every blocking read of at least one byte returns, with one byte or more and no more than
      it asked for. */
  lemma ReadReturns(r: Run, n: nat, len: nat) returns (m: nat)
    requires Fed(r) && len > 0 && BlockingRead(r.states(n).pc, len)
    ensures m > n && ReadReturned(r.states(n), r.states(m), len)
  {
    assert ByteFrom(r, n);
    var k: nat :| k >= n && ByteEvent(r.events(k));
    var b := ByteBy(r, n, k, len);
    m := ReadEnds(r, b, len);
  }
}
