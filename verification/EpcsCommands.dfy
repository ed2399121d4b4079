// The commands the driver sends to the serial flash chip, each a few SPI transactions: switch the
// address width if needed, enable the write, send the command with its address, wait for the chip.

module EpcsCommands {
  import opened Arith
  import opened Epcs
  import opened Spi

  const WREN: byte := 0x06
  const RDSR: byte := 0x05
  const READ: byte := 0x03
  const PP: byte := 0x02
  const SE: byte := 0xD8
  const EN4B: byte := 0xB7
  const DIS4B: byte := 0xE9

  /** The address bytes the chosen mode sends reach every cell. */
  ghost predicate Reaches(c: Chip, wide: bool) {
    |c.mem| <= Pow2(8 * if wide then 4 else 3)
  }

  ghost predicate Idle(p: Port)
    reads p
  {
    p.Valid() && p.chip.Ready()
  }

  function Header(op: byte, offset: nat, wide: bool): (f: seq<byte>)
    ensures |f| == if wide then 5 else 4
  {
    [op] + Encoded(offset, if wide then 4 else 3)
  }

  /** The bytes of a command on the wire: the operation, then the address, highest byte first. */
  lemma HeaderBytes(op: byte, offset: nat)
    ensures Header(op, offset, false) == [op, offset / 0x1_0000 % 256, offset / 0x100 % 256, offset % 256]
    ensures Header(op, offset, true) ==
            [op, offset / 0x100_0000 % 256, offset / 0x1_0000 % 256, offset / 0x100 % 256, offset % 256]
  {
    var a := offset / 256;
    var b := a / 256;
    var c := b / 256;
    assert Encoded(c, 0) == [] && Encoded(b, 0) == [] && Encoded(c / 256, 0) == [];
    assert Encoded(b, 1) == [b % 256] && Encoded(c, 1) == [c % 256];
    assert Encoded(a, 2) == [b % 256, a % 256] && Encoded(b, 2) == [c % 256, b % 256];
    assert Encoded(offset, 3) == [b % 256, a % 256, offset % 256];
    assert Encoded(a, 3) == [c % 256, b % 256, a % 256];
    assert b == offset / 0x1_0000 && c == offset / 0x100_0000;
  }

  /** The chip takes the address the driver put into the frame, and the rest as payload. */
  lemma Addressed(c: Chip, op: byte, offset: nat, payload: seq<byte>)
    requires offset < |c.mem| && offset < Pow2(8 * c.AddressBytes())
    requires c.frame == Header(op, offset, c.fourByte) + payload
    ensures FrameAddress(c) == offset && FramePayload(c) == payload
  {
    var n := c.AddressBytes();
    assert c.frame[1..1 + n] == Encoded(offset, n) && c.frame[1 + n..] == payload;
    EncodedExactly(offset, n);
    DivModUnique(offset, |c.mem|, 0, offset);
  }

  /** The address bytes count whole rounds of the memory, so that no address past its end is cut. */
  ghost predicate Folds(c: Chip, wide: bool) {
    |c.mem| > 0 && Pow2(8 * if wide then 4 else 3) % |c.mem| == 0
  }

  /** An address past the end of the memory is folded into it. */
  lemma AddressedAround(c: Chip, op: byte, offset: nat, payload: seq<byte>)
    requires (offset < |c.mem| && Reaches(c, c.fourByte)) || Folds(c, c.fourByte)
    requires c.frame == Header(op, offset, c.fourByte) + payload
    ensures FrameAddress(c) == offset % |c.mem| && FramePayload(c) == payload
  {
    var n, size := c.AddressBytes(), |c.mem|;
    assert c.frame[1..1 + n] == Encoded(offset, n) && c.frame[1 + n..] == payload;
    EncodedNumber(offset, n);
    if Folds(c, c.fourByte) {
      FoldedTwice(offset, Pow2(8 * n), size);
    } else {
      DivModUnique(offset, Pow2(8 * n), 0, offset);
    }
  }

  lemma FoldedTwice(x: nat, p: nat, m: nat)
    requires m > 0 && p > 0 && p % m == 0
    ensures x % p % m == x % m
  {
    DivModDef(x, p);
    DivModDef(p, m);
    AddMultiple(x % p, m, (x / p) * (p / m));
    MulAssoc(x / p, p / m, m);
  }

  /** Zero byte i behind a read command, and what follows its address, brings the next cell. */
  lemma ReadReply(c: Chip, offset: nat, lead: seq<byte>, i: nat)
    requires offset < |c.mem| && offset < Pow2(8 * c.AddressBytes()) && c.busy == 0
    requires c.frame == Header(READ, offset, c.fourByte) + lead
    ensures Reply(c.(frame := c.frame + Zeros(i + 1))) == c.mem[(offset + |lead| + i) % |c.mem|]
  {
    var d := c.(frame := c.frame + Zeros(i + 1));
    assert d.frame == Header(READ, offset, c.fourByte) + (lead + Zeros(i + 1));
    Addressed(d, READ, offset, lead + Zeros(i + 1));
    assert |FramePayload(d)| - 1 == |lead| + i;
  }

  /** All the zero bytes together bring a run of cells, and the release changes nothing. */
  lemma ReadRun(c: Chip, offset: nat, lead: seq<byte>, n: nat, latency: nat)
    requires c.Valid() && offset < |c.mem| && offset < Pow2(8 * c.AddressBytes()) && c.busy == 0
    requires c.frame == Header(READ, offset, c.fourByte) + lead
    ensures forall i :: 0 <= i < n ==> Replies(c, n)[i] == c.mem[(offset + |lead| + i) % |c.mem|]
    ensures Release(c.(frame := c.frame + Zeros(n)), latency) == c.(frame := [])
  {
    forall i | 0 <= i < n
      ensures Replies(c, n)[i] == c.mem[(offset + |lead| + i) % |c.mem|]
    {
      ReadReply(c, offset, lead, i);
    }
    assert (c.frame + Zeros(n))[0] == READ;
  }

  /** The first cell that a read brings: a chip that takes three address bytes of four looks at
      the offset without its last byte, and is already one cell further when that byte is in. */
  function FirstCell(offset: nat, wide: bool, chipWide: bool): nat {
    if wide && !chipWide then offset / 256 + 1 else offset
  }

  /** The header as the chip reads it, whichever mode it is in. */
  lemma HeaderRead(c: Chip, offset: nat, wide: bool) returns (at: nat, lead: seq<byte>)
    requires offset < |c.mem| && Reaches(c, wide) && (c.fourByte ==> wide)
    ensures at < |c.mem| && at < Pow2(8 * c.AddressBytes())
    ensures Header(READ, offset, wide) == Header(READ, at, c.fourByte) + lead
    ensures at + |lead| == FirstCell(offset, wide, c.fourByte)
  {
    if wide && !c.fourByte {
      at, lead := offset / 256, [offset % 256];
      Pow2Add(24, 8);
      assert Pow2(8) == 256;
    } else {
      at, lead := offset, [];
    }
  }

  /** A read command in whichever mode the chip is. */
  lemma ReadInMode(c: Chip, offset: nat, wide: bool, n: nat, latency: nat)
    requires c.Valid() && offset < |c.mem| && Reaches(c, wide) && (c.fourByte ==> wide)
    requires c.frame == Header(READ, offset, wide) && c.busy == 0
    ensures forall i :: 0 <= i < n ==>
      Replies(c, n)[i] == c.mem[(FirstCell(offset, wide, c.fourByte) + i) % |c.mem|]
    ensures Release(c.(frame := c.frame + Zeros(n)), latency) == c.(frame := [])
  {
    hide Replies, Release, Header, FirstCell, Reaches;
    var at, lead := HeaderRead(c, offset, wide);
    ReadRun(c, at, lead, n, latency);
  }

  method ReadStatusRegister(p: Port) returns (status: byte)
    requires p.Valid() && p.chip.frame == []
    modifies p
    ensures p.Valid() && status % 2 == (if old(p.chip.busy) > 0 then 1 else 0)
    ensures p.chip == old(p.chip).(busy := Max(0, old(p.chip.busy) - 1))
  {
    ghost var c := p.chip;
    var replies := p.Command([RDSR], 1, false);
    assert c.frame + [RDSR] == [RDSR] && c.frame + Outgoing([RDSR], 1) == [RDSR, 0];
    assert [RDSR] + Zeros(1) == [RDSR, 0];
    status := replies[0];
  }

  /** Poll until no write is in progress. */
  method AwaitWipReleased(p: Port)
    requires p.Valid() && p.chip.frame == []
    modifies p
    ensures p.Valid() && p.chip == old(p.chip).(busy := 0)
  {
    var status := ReadStatusRegister(p);
    while status % 2 == 1
      invariant p.Valid() && p.chip == old(p.chip).(busy := p.chip.busy)
      invariant status % 2 == 0 ==> p.chip.busy == 0
      decreases p.chip.busy + status % 2
    {
      status := ReadStatusRegister(p);
    }
  }

  /** A one-byte command. */
  method Single(p: Port, op: byte)
    requires p.Valid() && p.chip.frame == []
    modifies p
    ensures p.Valid() && p.chip == Release(old(p.chip).(frame := [op]), p.latency(old(p.releases)))
  {
    ghost var c := p.chip;
    var none := p.Command([op], 0, false);
    assert c.frame + Outgoing([op], 0) == [op];
  }

  /** Set the write enable latch; a busy chip does not listen. */
  method WriteEnable(p: Port)
    requires p.Valid() && p.chip.frame == []
    modifies p
    ensures p.Valid() && p.chip == if old(p.chip.busy) > 0 then old(p.chip) else old(p.chip).(wel := true)
  {
    Single(p, WREN);
  }

  method EnterFourBytesMode(p: Port)
    requires p.Valid() && p.chip.frame == []
    modifies p
    ensures p.Valid()
    ensures p.chip == if old(p.chip.busy) > 0 then old(p.chip) else old(p.chip).(fourByte := true, wel := false)
  {
    WriteEnable(p);
    Single(p, EN4B);
  }

  method ExitFourBytesMode(p: Port)
    requires p.Valid() && p.chip.frame == []
    modifies p
    ensures p.Valid()
    ensures p.chip == if old(p.chip.busy) > 0 then old(p.chip) else old(p.chip).(fourByte := false, wel := false)
  {
    WriteEnable(p);
    Single(p, DIS4B);
  }

  /** Erase the sector around an offset. */
  method SectorErase(p: Port, offset: nat, fourBytesMode: bool)
    requires Idle(p) && offset < |p.chip.mem| && Reaches(p.chip, fourBytesMode)
    modifies p
    ensures Idle(p) && p.chip.sector == old(p.chip.sector)
    ensures p.chip.mem == Erased(old(p.chip.mem), offset - offset % p.chip.sector, p.chip.sector)
  {
    if fourBytesMode {
      EnterFourBytesMode(p);
    }
    WriteEnable(p);
    SendErase(p, offset, fourBytesMode);
    AwaitWipReleased(p);
    if fourBytesMode {
      ExitFourBytesMode(p);
    }
  }

  method SendErase(p: Port, offset: nat, wide: bool)
    requires p.Valid() && p.chip.frame == [] && p.chip.busy == 0 && p.chip.wel && p.chip.fourByte == wide
    requires offset < |p.chip.mem| && Reaches(p.chip, wide)
    modifies p
    ensures p.Valid()
    ensures p.chip == old(p.chip).(mem := Erased(old(p.chip.mem), offset - offset % p.chip.sector, p.chip.sector),
                                   wel := false, busy := p.latency(old(p.releases)))
  {
    hide Encoded, Number, Erased;
    ghost var c := p.chip;
    var se := Header(SE, offset, wide);
    var none := p.Command(se, 0, false);
    assert c.frame + Outgoing(se, 0) == se && se + [] == se;
    Addressed(c.(frame := se), SE, offset, []);
  }

  /** Read from an offset on; past the end the chip wraps to its first cell.  The mode is switched
      before the wait: a chip that is still busy misses the switch and reads from elsewhere. */
  method ReadBuffer(p: Port, offset: nat, length: nat, fourBytesMode: bool) returns (dest: seq<byte>)
    requires p.Valid() && p.chip.frame == [] && !p.chip.fourByte
    requires offset < |p.chip.mem| && Reaches(p.chip, fourBytesMode)
    modifies p
    ensures Idle(p) && p.chip.mem == old(p.chip.mem) && p.chip.sector == old(p.chip.sector)
    ensures |dest| == length
    ensures var first := if fourBytesMode && old(p.chip.busy) > 0 then offset / 256 + 1 else offset;
            forall i :: 0 <= i < length ==> dest[i] == p.chip.mem[(first + i) % |p.chip.mem|]
  {
    if fourBytesMode {
      EnterFourBytesMode(p);
    }
    AwaitWipReleased(p);
    dest := SendRead(p, offset, length, fourBytesMode);
    if fourBytesMode {
      ExitFourBytesMode(p);
    }
  }

  method SendRead(p: Port, offset: nat, length: nat, wide: bool) returns (dest: seq<byte>)
    requires p.Valid() && p.chip.frame == [] && p.chip.busy == 0 && (p.chip.fourByte ==> wide)
    requires offset < |p.chip.mem| && Reaches(p.chip, wide)
    modifies p
    ensures p.Valid() && p.chip == old(p.chip)
    ensures |dest| == length
    ensures forall i :: 0 <= i < length ==>
      dest[i] == p.chip.mem[(FirstCell(offset, wide, p.chip.fourByte) + i) % |p.chip.mem|]
  {
    hide Header, FirstCell, Replies;
    ghost var c := p.chip;
    var command := Header(READ, offset, wide);
    dest := p.Command(command, length, false);
    assert c.frame + command == command && c.frame + Outgoing(command, length) == command + Zeros(length);
    ReadInMode(c.(frame := command), offset, wide, length, p.latency(old(p.releases)));
  }

  /** Program at most a page; the frame is built by two transactions without a release between. */
  method WriteBuffer(p: Port, offset: nat, src: seq<byte>, fourBytesMode: bool)
    requires Idle(p) && |src| > 0
    requires (offset < |p.chip.mem| && Reaches(p.chip, fourBytesMode)) || Folds(p.chip, fourBytesMode)
    modifies p
    ensures Idle(p) && p.chip.sector == old(p.chip.sector)
    ensures p.chip.mem == PageProgram(old(p.chip.mem), offset % |old(p.chip.mem)|, src, |src|)
  {
    if fourBytesMode {
      EnterFourBytesMode(p);
    }
    WriteEnable(p);
    SendProgram(p, offset, src, fourBytesMode);
    AwaitWipReleased(p);
    if fourBytesMode {
      ExitFourBytesMode(p);
    }
  }

  method SendProgram(p: Port, offset: nat, src: seq<byte>, wide: bool)
    requires p.Valid() && p.chip.frame == [] && p.chip.busy == 0 && p.chip.wel && p.chip.fourByte == wide
    requires (offset < |p.chip.mem| && Reaches(p.chip, wide)) || Folds(p.chip, wide)
    requires |src| > 0
    modifies p
    ensures p.Valid()
    ensures p.chip.mem == PageProgram(old(p.chip.mem), offset % |old(p.chip.mem)|, src, |src|)
    ensures p.chip == old(p.chip).(mem := p.chip.mem, wel := false, busy := p.chip.busy)
  {
    hide PageProgram, Encoded, Number;
    ghost var c := p.chip;
    var pp := Header(PP, offset, wide);
    var none := p.Command(pp, 0, true);
    assert c.frame + Outgoing(pp, 0) == pp;
    none := p.Command(src, 0, false);
    assert pp + Outgoing(src, 0) == pp + src;
    AddressedAround(c.(frame := pp + src), PP, offset, src);
  }
}
