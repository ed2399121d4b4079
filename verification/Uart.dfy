// The interrupt-driven UART driver as a step system: two rings shared by the foreground calls
// and the interrupt handler.  A foreground step makes one access to shared memory, or runs one
// section with interrupts masked; the handler may run between any two of them.
// The instance has no flow control, so the CTS branches are absent.

module Uart {
  type byte = x: int | 0 <= x < 256

  const BUF_LEN: nat := 64

  type slot = i: nat | i < BUF_LEN

  /** (i + 1) & (BUF_LEN - 1). */
  function Next(i: slot): slot {
    (i + 1) % BUF_LEN
  }

  /** Interrupt enables of the control register, in its shadow copy or in the device. */
  datatype Control = Control(trdy: bool, rrdy: bool, dcts: bool)

  /** The status bits the handler looks at, and the byte waiting in RXDATA. */
  datatype Status = Status(trdy: bool, rrdy: bool, error: bool, rxData: byte)

  datatype Ring = Ring(buf: seq<byte>, start: slot, end: slot) {
    predicate Valid() {
      |buf| == BUF_LEN
    }

    predicate Empty() {
      start == end
    }

    predicate Full() {
      Next(end) == start
    }

    function Count(): nat
      requires Valid()
    {
      (end + BUF_LEN - start) % BUF_LEN
    }

    /** The bytes between start and end, oldest first. */
    function Live(): (s: seq<byte>)
      requires Valid()
      ensures |s| == Count()
    {
      seq(Count(), k requires 0 <= k < Count() => buf[(start + k) % BUF_LEN])
    }

    function Put(b: byte): Ring
      requires Valid()
    {
      this.(buf := buf[end := b], end := Next(end))
    }

    function Drop(): Ring {
      this.(start := Next(start))
    }
  }

  lemma RingCounts(r: Ring)
    requires r.Valid()
    ensures r.Empty() <==> r.Live() == []
    ensures r.Full() <==> r.Count() == 63
    ensures !r.Empty() ==> r.Live()[0] == r.buf[r.start]
  {
  }

  lemma EndSlot(r: Ring)
    requires r.Valid()
    ensures (r.start + r.Count()) % BUF_LEN == r.end
  {
  }

  lemma SlotsApart(start: slot, k: nat, n: nat)
    requires k < n < BUF_LEN
    ensures (start + k) % BUF_LEN != (start + n) % BUF_LEN
  {
  }

  lemma PutAppends(r: Ring, b: byte)
    requires r.Valid() && !r.Full()
    ensures r.Put(b).Valid() && r.Put(b).Live() == r.Live() + [b]
  {
    var p, n := r.Put(b), r.Count();
    EndSlot(r);
    assert p.Count() == n + 1;
    forall k | 0 <= k < n
      ensures p.Live()[k] == r.Live()[k]
    {
      SlotsApart(r.start, k, n);
    }
    assert p.Live() == r.Live() + [b];
  }

  lemma DropRemoves(r: Ring)
    requires r.Valid() && !r.Empty()
    ensures r.Drop().Valid() && r.Drop().Live() == r.Live()[1..]
  {
    var d, n := r.Drop(), r.Count();
    DropCounts(r);
    forall k | 0 <= k < n - 1
      ensures d.Live()[k] == r.Live()[1..][k]
    {
      NextSlot(r.start, k);
      assert r.Live()[1..][k] == r.Live()[k + 1];
    }
  }

  lemma DropCounts(r: Ring)
    requires r.Valid() && !r.Empty()
    ensures r.Count() > 0 && r.Drop().Count() == r.Count() - 1
  {
    hide Ring.Count, Next;
    CountCases(r);
    CountCases(r.Drop());
    NextCases(r.start);
  }

  lemma CountCases(r: Ring)
    requires r.Valid()
    ensures r.Count() == if r.end >= r.start then r.end - r.start else r.end + BUF_LEN - r.start
  {
  }

  lemma NextCases(i: slot)
    ensures Next(i) == if i == BUF_LEN - 1 then 0 else i + 1
  {
  }

  lemma NextSlot(start: slot, k: nat)
    ensures (Next(start) + k) % BUF_LEN == (start + (k + 1)) % BUF_LEN
  {
  }

  /** Storing past the end does not touch the live bytes. */
  lemma StoreIsInvisible(r: Ring, b: byte)
    requires r.Valid()
    ensures r.(buf := r.buf[r.end := b]).Live() == r.Live()
  {
    var t := r.(buf := r.buf[r.end := b]);
    forall k | 0 <= k < r.Count()
      ensures t.Live()[k] == r.Live()[k]
    {
      assert (r.start + k) % BUF_LEN != r.end;
    }
  }

  // ---------- states ----------

  /** Where the foreground is, with the locals of the call it is in.  `done` bytes of src are in
      the ring; `out` holds the bytes a read has copied. */
  datatype Pc =
    | Idle
    | WriteTest(src: seq<byte>, done: nat, noBlock: bool)
    | WriteCheck(src: seq<byte>, done: nat, noBlock: bool, next: slot)
    | WriteUnblock(src: seq<byte>, done: nat, next: slot)
    | WriteWait(src: seq<byte>, done: nat, next: slot)
    | WriteStore(src: seq<byte>, done: nat, noBlock: bool, next: slot)
    | WriteAdvance(src: seq<byte>, done: nat, noBlock: bool, next: slot)
    | WriteExit(src: seq<byte>, done: nat)
    | ReadTest(len: nat, out: seq<byte>, block: bool)
    | ReadTake(len: nat, out: seq<byte>, block: bool)
    | ReadAdvance(len: nat, out: seq<byte>, block: bool)
    | ReadEmpty(len: nat, out: seq<byte>, block: bool)
    | ReadUnblock(len: nat)
    | ReadExit(out: seq<byte>)
    | CloseWait(noBlock: bool)

  /** sent and received: what went through TXDATA and, free of errors, through RXDATA.
      written: the part of each finished write that was accepted; read: what each read returned. */
  datatype State = State(tx: Ring, rx: Ring, ctrl: Control, device: Control, pc: Pc,
                         sent: seq<byte>, received: seq<byte>,
                         written: seq<byte>, read: seq<byte>)

  datatype Event =
    | Fore
    | Irq(status: Status)
    | CallWrite(src: seq<byte>, noBlock: bool)
    | CallRead(len: nat, block: bool)
    | CallClose(noBlock: bool)

  function ZeroRing(): Ring {
    Ring(seq(BUF_LEN, _ => 0), 0, 0)
  }

  /** After altera_avalon_uart_init: receive and DCTS interrupts enabled. */
  function Init(): State {
    var c := Control(false, true, true);
    State(ZeroRing(), ZeroRing(), c, c, Idle, [], [], [], [])
  }

  // ---------- the handler ----------

  function RxIrq(s: State, st: Status): State
    requires s.rx.Valid()
  {
    if st.error then s
    else
      var rx := s.rx.Put(st.rxData);
      var t := s.(rx := rx, received := s.received + [st.rxData]);
      if rx.Full() then
        var c := s.ctrl.(rrdy := false);
        t.(ctrl := c, device := c)
      else t
  }

  function TxIrq(s: State): State
    requires s.tx.Valid()
  {
    var t := if s.tx.Empty() then s
             else s.(sent := s.sent + [s.tx.buf[s.tx.start]], tx := s.tx.Drop(),
                     ctrl := s.ctrl.(trdy := true));
    var c := if t.tx.Empty() then t.ctrl.(trdy := false, dcts := false) else t.ctrl;
    t.(ctrl := c, device := c)
  }

  /** The device raises the line for a status bit whose interrupt is enabled; the handler then
      serves every bit that is set, enabled or not. */
  predicate Raised(s: State, st: Status) {
    (st.trdy && s.device.trdy) || (st.rrdy && s.device.rrdy)
  }

  function Handle(s: State, st: Status): State
    requires s.rx.Valid() && s.tx.Valid()
  {
    var t := if st.rrdy then RxIrq(s, st) else s;
    if st.trdy then TxIrq(t) else t
  }

  // ---------- the foreground ----------

  function EnableTx(c: Control): Control {
    c.(trdy := true, dcts := true)
  }

  function WriteStep(s: State): State
    requires s.tx.Valid()
  {
    match s.pc
    case WriteTest(src, done, noBlock) =>
      s.(pc := if done < |src| then WriteCheck(src, done, noBlock, Next(s.tx.end)) else WriteExit(src, done))
    case WriteCheck(src, done, noBlock, next) =>
      s.(pc := if next != s.tx.start then WriteStore(src, done, noBlock, next)
               else if noBlock then WriteExit(src, done)
               else WriteUnblock(src, done, next))
    case WriteUnblock(src, done, next) =>
      var c := EnableTx(s.ctrl);
      s.(ctrl := c, device := c, pc := WriteWait(src, done, next))
    case WriteWait(src, done, next) =>
      s.(pc := if next == s.tx.start then s.pc else WriteStore(src, done, false, next))
    case WriteStore(src, done, noBlock, next) =>
      if done < |src| then
        s.(tx := s.tx.(buf := s.tx.buf[s.tx.end := src[done]]), pc := WriteAdvance(src, done, noBlock, next))
      else s
    case WriteAdvance(src, done, noBlock, next) =>
      s.(tx := s.tx.(end := next), pc := WriteTest(src, done + 1, noBlock))
    case WriteExit(src, done) =>
      var c := EnableTx(s.ctrl);
      s.(ctrl := c, device := c, pc := Idle,
         written := s.written + (if done <= |src| then src[..done] else src))
    case _ => s
  }

  function ReadStep(s: State): State
    requires s.rx.Valid()
  {
    match s.pc
    case ReadTest(len, out, block) =>
      s.(pc := if |out| < len && !s.rx.Empty() then ReadTake(len, out, block) else ReadEmpty(len, out, block))
    case ReadTake(len, out, block) =>
      s.(pc := ReadAdvance(len, out + [s.rx.buf[s.rx.start]], block))
    case ReadAdvance(len, out, block) =>
      s.(rx := s.rx.Drop(), pc := ReadTest(len, out, block))
    case ReadEmpty(len, out, block) =>
      s.(pc := if out == [] && s.rx.Empty() then (if block then ReadUnblock(len) else ReadExit([]))
               else if out == [] && len > 0 then ReadTest(len, out, block)
               else ReadExit(out))
    case ReadUnblock(len) =>
      var c := s.ctrl.(rrdy := true);
      s.(ctrl := c, device := c, pc := if len > 0 then ReadTest(len, [], true) else ReadExit([]))
    case ReadExit(out) =>
      var c := s.ctrl.(rrdy := true);
      s.(ctrl := c, device := c, pc := Idle, read := s.read + out)
    case _ => s
  }

  function CloseStep(s: State): State {
    match s.pc
    case CloseWait(noBlock) => if s.tx.Empty() || noBlock then s.(pc := Idle) else s
    case _ => s
  }

  predicate InWrite(pc: Pc) {
    pc.WriteTest? || pc.WriteCheck? || pc.WriteUnblock? || pc.WriteWait? || pc.WriteStore?
    || pc.WriteAdvance? || pc.WriteExit?
  }

  /** A write that will not stop early. */
  predicate Blocking(pc: Pc) {
    match pc
    case WriteTest(_, _, noBlock) => !noBlock
    case WriteCheck(_, _, noBlock, _) => !noBlock
    case WriteStore(_, _, noBlock, _) => !noBlock
    case WriteAdvance(_, _, noBlock, _) => !noBlock
    case WriteUnblock(_, _, _) => true
    case WriteWait(_, _, _) => true
    case WriteExit(src, done) => done == |src|
    case _ => false
  }

  function ForeStep(s: State): State
    requires s.tx.Valid() && s.rx.Valid()
  {
    if InWrite(s.pc) then WriteStep(s) else if s.pc.CloseWait? then CloseStep(s) else ReadStep(s)
  }

  /** One event.  An interrupt nobody raised, and a call while another is running, change nothing. */
  function Step(s: State, e: Event): (t: State)
    requires s.tx.Valid() && s.rx.Valid()
    ensures t.tx.Valid() && t.rx.Valid()
  {
    match e
    case Fore => ForeStep(s)
    case Irq(st) => if Raised(s, st) then Handle(s, st) else s
    case CallWrite(src, noBlock) => if s.pc.Idle? then s.(pc := WriteTest(src, 0, noBlock)) else s
    case CallRead(len, block) => if s.pc.Idle? then s.(pc := ReadTest(len, [], block)) else s
    case CallClose(noBlock) => if s.pc.Idle? then s.(pc := CloseWait(noBlock)) else s
  }

  // ---------- the transmit invariant ----------

  /** The part of the running write that is in the ring. */
  function InProgress(pc: Pc): seq<byte> {
    if InWrite(pc) && pc.done <= |pc.src| then pc.src[..pc.done] else []
  }

  /** What the locals of a write know about the ring. */
  predicate WriteLocals(s: State)
    requires s.tx.Valid()
  {
    && (InWrite(s.pc) ==> s.pc.done <= |s.pc.src|)
    && (s.pc.WriteCheck? || s.pc.WriteUnblock? || s.pc.WriteWait? || s.pc.WriteStore? || s.pc.WriteAdvance? ==>
          s.pc.done < |s.pc.src| && s.pc.next == Next(s.tx.end))
    && (s.pc.WriteStore? || s.pc.WriteAdvance? ==> !s.tx.Full())
    && (s.pc.WriteAdvance? ==> s.tx.buf[s.tx.end] == s.pc.src[s.pc.done])
  }

  /** Outside a write, and while a write waits for space, a ring with bytes in it is being drained. */
  predicate Draining(s: State) {
    (InWrite(s.pc) && !s.pc.WriteWait?) || s.ctrl.trdy || s.tx.Empty()
  }

  ghost predicate TxInv(s: State) {
    && s.tx.Valid() && s.rx.Valid() && s.device == s.ctrl
    && s.written + InProgress(s.pc) == s.sent + s.tx.Live()
    && WriteLocals(s) && Draining(s)
  }

  lemma TxIrqKeepsTx(s: State)
    requires TxInv(s)
    ensures TxInv(TxIrq(s))
    ensures TxIrq(s).pc == s.pc && TxIrq(s).written == s.written
    ensures TxIrq(s).tx.Live() == if s.tx.Empty() then s.tx.Live() else s.tx.Live()[1..]
    ensures s.tx.Empty() ==> TxIrq(s).tx == s.tx
  {
    RingCounts(s.tx);
    if !s.tx.Empty() {
      DropRemoves(s.tx);
      RingCounts(s.tx.Drop());
      assert s.sent + s.tx.Live() == s.sent + [s.tx.Live()[0]] + s.tx.Live()[1..];
    }
  }

  lemma RxIrqKeepsTx(s: State, st: Status)
    requires TxInv(s)
    ensures TxInv(RxIrq(s, st))
    ensures RxIrq(s, st).pc == s.pc && RxIrq(s, st).written == s.written && RxIrq(s, st).tx == s.tx
  {
  }

  lemma HandleKeepsTx(s: State, st: Status)
    requires TxInv(s)
    ensures TxInv(Handle(s, st))
    ensures Handle(s, st).pc == s.pc && Handle(s, st).written == s.written
    ensures Handle(s, st).tx.Live() == if st.trdy && !s.tx.Empty() then s.tx.Live()[1..] else s.tx.Live()
    ensures !st.trdy || s.tx.Empty() ==> Handle(s, st).tx == s.tx
  {
    RxIrqKeepsTx(s, st);
    TxIrqKeepsTx(if st.rrdy then RxIrq(s, st) else s);
  }

  lemma AdvanceKeepsTx(s: State)
    requires TxInv(s) && s.pc.WriteAdvance?
    ensures WriteStep(s).written + InProgress(WriteStep(s).pc) == WriteStep(s).sent + WriteStep(s).tx.Live()
  {
    var src, done := s.pc.src, s.pc.done;
    PutAppends(s.tx, src[done]);
    assert s.tx.buf[s.tx.end := src[done]] == s.tx.buf;
    assert src[..done + 1] == src[..done] + [src[done]];
    assert s.written + src[..done + 1] == s.written + src[..done] + [src[done]];
  }

  lemma WriteKeepsTx(s: State)
    requires TxInv(s) && InWrite(s.pc)
    ensures TxInv(WriteStep(s))
  {
    RingCounts(s.tx);
    if s.pc.WriteStore? {
      StoreIsInvisible(s.tx, s.pc.src[s.pc.done]);
    } else if s.pc.WriteAdvance? {
      AdvanceKeepsTx(s);
    }
  }

  /** Every event keeps the transmit invariant; the receive side may do what it likes. */
  lemma StepKeepsTx(s: State, e: Event)
    requires TxInv(s)
    ensures TxInv(Step(s, e))
  {
    match e
    case Fore =>
      if InWrite(s.pc) {
        WriteKeepsTx(s);
      }
    case Irq(st) =>
      if Raised(s, st) {
        HandleKeepsTx(s, st);
      }
    case _ =>
  }

  // ---------- runs ----------

  /** An infinite run: the events, and the state before each of them. */
  datatype Run = Run(states: nat -> State, events: nat -> Event) {
    ghost predicate Valid() {
      states(0) == Init() && forall n: nat :: Follows(n)
    }

    ghost predicate Follows(n: nat) {
      && states(n).tx.Valid() && states(n).rx.Valid()
      && states(n + 1) == Step(states(n), events(n))
    }
  }

  lemma {:induction false} TxAlways(r: Run, n: nat)
    requires r.Valid()
    ensures TxInv(r.states(n))
  {
    if n == 0 {
      RingCounts(ZeroRing());
    } else {
      TxAlways(r, n - 1);
      assert r.Follows(n - 1);
      StepKeepsTx(r.states(n - 1), r.events(n - 1));
    }
  }

  /** Transmit order, at every point of every run: what was sent, then the live ring, is exactly
      what the writes have put in, in order. */
  lemma TransmitFifo(r: Run, n: nat)
    requires r.Valid()
    ensures var s := r.states(n);
            s.tx.Valid() && s.sent + s.tx.Live() == s.written + InProgress(s.pc)
  {
    TxAlways(r, n);
  }

  /** No lost wakeup: with bytes in the ring, and the foreground outside write or waiting in it,
      the device has its transmit interrupt enabled. */
  lemma NoLostWakeup(r: Run, n: nat)
    requires r.Valid() && !r.states(n).tx.Empty()
    requires !InWrite(r.states(n).pc) || r.states(n).pc.WriteWait?
    ensures r.states(n).device.trdy
  {
    TxAlways(r, n);
  }

  // ---------- the receive invariant ----------

  predicate InRead(pc: Pc) {
    pc.ReadTest? || pc.ReadTake? || pc.ReadAdvance? || pc.ReadEmpty? || pc.ReadUnblock? || pc.ReadExit?
  }

  /** What the running read has copied. */
  function Copied(pc: Pc): seq<byte> {
    if InRead(pc) && !pc.ReadUnblock? then pc.out else []
  }

  /** The part of it that has left the ring. */
  function Taken(pc: Pc): seq<byte> {
    if pc.ReadAdvance? && pc.out != [] then pc.out[..|pc.out| - 1] else Copied(pc)
  }

  /** Reception is enabled, unless the ring is full or a read that will enable it has data. */
  predicate Receiving(s: State) {
    s.ctrl.rrdy || s.rx.Full() || Copied(s.pc) != []
  }

  ghost predicate RxInv(s: State) {
    && s.tx.Valid() && s.rx.Valid()
    && s.received == s.read + Taken(s.pc) + s.rx.Live()
    && (s.pc.ReadTake? ==> !s.rx.Empty())
    && (s.pc.ReadAdvance? ==>
          !s.rx.Empty() && s.pc.out != [] && s.pc.out[|s.pc.out| - 1] == s.rx.buf[s.rx.start])
    && Receiving(s)
  }

  /** The event makes the handler store an error-free byte while the ring is full. */
  predicate Overrun(s: State, e: Event) {
    e.Irq? && Raised(s, e.status) && e.status.rrdy && !e.status.error && s.rx.Full()
  }

  /** A receive service keeps its interrupt enabled as long as the ring has room for another byte. */
  lemma ReceiveService(s: State, st: Status)
    requires TxInv(s) && Raised(s, st) && st.rrdy
    ensures var t := Handle(s, st);
            if st.error then t.rx == s.rx && t.received == s.received && t.device.rrdy == s.device.rrdy
            else t.device.rrdy == (s.device.rrdy && t.rx.Count() < 63)
  {
    TxIrqKeepsRx(RxIrq(s, st));
    TxIrqKeepsRx(s);
    RingCounts(RxIrq(s, st).rx);
  }

  lemma TxIrqKeepsRx(s: State)
    requires s.tx.Valid() && s.rx.Valid()
    ensures TxIrq(s).rx == s.rx && TxIrq(s).received == s.received && TxIrq(s).ctrl.rrdy == s.ctrl.rrdy
    ensures TxIrq(s).device == TxIrq(s).ctrl
  {
  }

  /** A transmit service sends one byte, the oldest, and leaves its interrupt enabled exactly while
      more are to be sent; no other service sends anything. */
  lemma TransmitService(s: State, st: Status)
    requires TxInv(s) && Raised(s, st)
    ensures var t := Handle(s, st);
            if !st.trdy then t.sent == s.sent
            else
              && t.sent == (if s.tx.Empty() then s.sent else s.sent + [s.tx.Live()[0]])
              && (t.device.trdy <==> t.tx.Live() != [])
  {
    RingCounts(s.tx);
    HandleKeepsTx(s, st);
    RingCounts(Handle(s, st).tx);
  }

  lemma HandleKeepsRx(s: State, st: Status)
    requires RxInv(s) && (st.rrdy && !st.error ==> !s.rx.Full())
    ensures RxInv(Handle(s, st))
  {
    RingCounts(s.rx);
    if st.rrdy && !st.error {
      PutAppends(s.rx, st.rxData);
      RingCounts(s.rx.Put(st.rxData));
      var t := RxIrq(s, st);
      assert t.received == s.read + Taken(s.pc) + t.rx.Live();
      assert t.pc.ReadAdvance? ==> t.rx.buf[t.rx.start] == s.rx.buf[s.rx.start];
    }
  }

  lemma TakeKeepsRx(s: State)
    requires RxInv(s) && s.pc.ReadTake?
    ensures RxInv(ReadStep(s))
  {
    var out := s.pc.out + [s.rx.buf[s.rx.start]];
    assert out[..|out| - 1] == s.pc.out;
  }

  lemma DropKeepsRx(s: State)
    requires RxInv(s) && s.pc.ReadAdvance?
    ensures RxInv(ReadStep(s))
  {
    var out, live := s.pc.out, s.rx.Live();
    RingCounts(s.rx);
    DropRemoves(s.rx);
    assert out == out[..|out| - 1] + [live[0]];
    assert s.read + out[..|out| - 1] + live == s.read + out + live[1..];
  }

  lemma ReadKeepsRx(s: State)
    requires RxInv(s)
    ensures RxInv(ReadStep(s))
  {
    if s.pc.ReadAdvance? {
      DropKeepsRx(s);
    } else if s.pc.ReadTake? {
      TakeKeepsRx(s);
    }
  }

  lemma StepKeepsRx(s: State, e: Event)
    requires RxInv(s) && !Overrun(s, e)
    ensures RxInv(Step(s, e))
  {
    match e
    case Fore =>
      if !InWrite(s.pc) && !s.pc.CloseWait? {
        ReadKeepsRx(s);
      }
    case Irq(st) =>
      if Raised(s, st) {
        HandleKeepsRx(s, st);
      }
    case _ =>
  }

  /** An event keeps the receive order exactly when it is not an overrun. */
  lemma OverrunBreaksOrder(s: State, e: Event)
    requires RxInv(s)
    ensures RxInv(Step(s, e)) <==> !Overrun(s, e)
  {
    if Overrun(s, e) {
      RingCounts(s.rx);
      var t := Step(s, e);
      assert t.rx.Live() == [] by {
        RingCounts(t.rx);
      }
      assert |t.received| == |s.read + Taken(s.pc)| + |s.rx.Live()| + 1;
    } else {
      StepKeepsRx(s, e);
    }
  }

  /** None of the first n events is an overrun. */
  ghost predicate NoOverrun(r: Run, n: nat) {
    forall k :: 0 <= k < n ==> !Overrun(r.states(k), r.events(k))
  }

  lemma {:induction false} RxAlways(r: Run, n: nat)
    requires r.Valid() && NoOverrun(r, n)
    ensures RxInv(r.states(n))
  {
    if n == 0 {
      RingCounts(ZeroRing());
    } else {
      RxAlways(r, n - 1);
      assert r.Follows(n - 1);
      StepKeepsRx(r.states(n - 1), r.events(n - 1));
    }
  }

  /** The receive invariant holds throughout a run exactly when none of its events is an overrun. */
  lemma ReceiveOrderExactly(r: Run, n: nat)
    requires r.Valid()
    ensures (forall k :: 0 <= k <= n ==> RxInv(r.states(k))) <==> NoOverrun(r, n)
  {
    if NoOverrun(r, n) {
      forall k | 0 <= k <= n
        ensures RxInv(r.states(k))
      {
        RxAlways(r, k);
      }
    } else {
      var k: nat :| k < n && Overrun(r.states(k), r.events(k));
      assert r.Follows(k);
      if RxInv(r.states(k)) {
        OverrunBreaksOrder(r.states(k), r.events(k));
        assert !RxInv(r.states(k + 1));
      }
    }
  }

  /** A read that finds the ring empty and has nothing yet waits with reception enabled. */
  lemma BlockedReadIsServed(r: Run, n: nat)
    requires r.Valid() && NoOverrun(r, n)
    requires InRead(r.states(n).pc) && Copied(r.states(n).pc) == [] && r.states(n).rx.Empty()
    ensures r.states(n).device.rrdy
  {
    RxAlways(r, n);
    TxAlways(r, n);
  }
}
