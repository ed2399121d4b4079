// The serial flash chip as the driver sees it through its SPI port: what a command frame does
// when the chip select is released, and what the chip shifts out while a frame comes in.

module Epcs {
  import opened Arith

  type byte = x: int | 0 <= x < 256

  const PAGE: nat := 256
  const ERASED: byte := 255

  // ---------- bits ----------

  /** Bitwise and of the low `bits` bits. */
  function And(a: nat, b: nat, bits: nat): nat {
    if bits == 0 then 0 else (a % 2) * (b % 2) + 2 * And(a / 2, b / 2, bits - 1)
  }

  lemma {:induction false} AndBound(a: nat, b: nat, bits: nat)
    ensures And(a, b, bits) < Pow2(bits)
  {
    if bits > 0 {
      AndBound(a / 2, b / 2, bits - 1);
      assert a % 2 == 0 || a % 2 == 1;
    }
  }

  lemma {:induction false} AndOnes(b: nat, bits: nat)
    requires b < Pow2(bits)
    ensures And(Pow2(bits) - 1, b, bits) == b
  {
    if bits > 0 {
      var ones := Pow2(bits) - 1;
      DivModUnique(ones, 2, Pow2(bits - 1) - 1, 1);
      AndOnes(b / 2, bits - 1);
    }
  }

  /** Bit k of the result is set where it is in both. */
  lemma {:induction false} AndBit(a: nat, b: nat, bits: nat, k: nat)
    requires k < bits
    ensures And(a, b, bits) / Pow2(k) % 2 == (a / Pow2(k) % 2) * (b / Pow2(k) % 2)
  {
    var low, rest := (a % 2) * (b % 2), And(a / 2, b / 2, bits - 1);
    assert low == 0 || low == 1 by {
      assert (a % 2 == 0 || a % 2 == 1) && (b % 2 == 0 || b % 2 == 1);
    }
    var v := And(a, b, bits);
    DivModUnique(v, 2, rest, low);
    if k == 0 {
      assert Pow2(0) == 1;
    } else {
      AndBit(a / 2, b / 2, bits - 1, k - 1);
      Halved(v, k);
      Halved(a, k);
      Halved(b, k);
    }
  }

  lemma Halved(x: nat, k: nat)
    requires k > 0
    ensures x / Pow2(k) == x / 2 / Pow2(k - 1)
  {
    DivDiv(x, 2, Pow2(k - 1));
  }

  /** Programming can only clear bits. */
  function Program(was: byte, b: byte): byte {
    AndBound(was, b, 8);
    assert Pow2(8) == 256;
    And(was, b, 8)
  }

  lemma ProgramErased(b: byte)
    ensures Program(ERASED, b) == b
  {
    assert Pow2(8) == 256;
    AndOnes(b, 8);
  }

  // ---------- memory ----------

  /** Where byte i of a page program that starts at addr goes: it wraps inside the page. */
  function PageCell(addr: nat, i: nat): nat {
    addr - addr % PAGE + (addr % PAGE + i) % PAGE
  }

  /** The first n bytes of data programmed at addr. */
  function PageProgram(mem: seq<byte>, addr: nat, data: seq<byte>, n: nat): (m: seq<byte>)
    requires n <= |data| && addr < |mem| && |mem| % PAGE == 0
    ensures |m| == |mem|
  {
    if n == 0 then mem
    else
      var m := PageProgram(mem, addr, data, n - 1);
      PageCellInside(addr, n - 1, |mem|);
      m[PageCell(addr, n - 1) := Program(m[PageCell(addr, n - 1)], data[n - 1])]
  }

  lemma PageCellInside(addr: nat, i: nat, size: nat)
    requires addr < size && size % PAGE == 0
    ensures PageCell(addr, i) < size
  {
  }

  /** A run of bytes programmed straight through. */
  function Burned(mem: seq<byte>, addr: nat, data: seq<byte>): (m: seq<byte>)
    requires addr + |data| <= |mem|
    ensures |m| == |mem|
  {
    seq(|mem|, i requires 0 <= i < |mem| =>
        if addr <= i < addr + |data| then Program(mem[i], data[i - addr]) else mem[i])
  }

  function Erased(mem: seq<byte>, base: nat, size: nat): (m: seq<byte>)
    ensures |m| == |mem|
  {
    seq(|mem|, i requires 0 <= i < |mem| => if base <= i < base + size then ERASED else mem[i])
  }

  /** Inside one page the wrap of the chip does not show. */
  lemma {:induction false} PageProgramStraight(mem: seq<byte>, addr: nat, data: seq<byte>, n: nat)
    requires n <= |data| && addr < |mem| && |mem| % PAGE == 0
    requires addr % PAGE + n <= PAGE
    ensures addr + n <= |mem|
    ensures PageProgram(mem, addr, data, n) == Burned(mem, addr, data[..n])
  {
    if n > 0 {
      PageProgramStraight(mem, addr, data, n - 1);
      assert PageCell(addr, n - 1) == addr + (n - 1);
      PageCellInside(addr, n - 1, |mem|);
    } else {
      assert data[..0] == [];
    }
  }

  /** On erased cells programming stores the data. */
  lemma BurnedErased(mem: seq<byte>, addr: nat, data: seq<byte>)
    requires addr + |data| <= |mem| && forall i :: addr <= i < addr + |data| ==> mem[i] == ERASED
    ensures forall i :: 0 <= i < |mem| ==>
      Burned(mem, addr, data)[i] == if addr <= i < addr + |data| then data[i - addr] else mem[i]
  {
    forall i | addr <= i < addr + |data|
      ensures Burned(mem, addr, data)[i] == data[i - addr]
    {
      ProgramErased(data[i - addr]);
    }
  }

  /** A run of bytes programmed in order, around the end of the memory as often as it takes. */
  function BurnedAround(mem: seq<byte>, addr: nat, data: seq<byte>): (m: seq<byte>)
    requires |mem| > 0
    ensures |m| == |mem|
  {
    if data == [] then mem
    else
      var n := |data| - 1;
      var m := BurnedAround(mem, addr, data[..n]);
      m[(addr + n) % |mem| := Program(m[(addr + n) % |mem|], data[n])]
  }

  /** A run that ends before the memory does is programmed straight through. */
  lemma {:induction false} BurnedAroundInside(mem: seq<byte>, addr: nat, data: seq<byte>)
    requires |mem| > 0 && addr % |mem| + |data| <= |mem|
    ensures BurnedAround(mem, addr, data) == Burned(mem, addr % |mem|, data)
  {
    if data != [] {
      var n, a := |data| - 1, addr % |mem|;
      BurnedAroundInside(mem, addr, data[..n]);
      DivModDef(addr, |mem|);
      DivModUnique(addr + n, |mem|, addr / |mem|, a + n);
      BurnedLast(mem, a, data);
    }
  }

  lemma BurnedLast(mem: seq<byte>, a: nat, data: seq<byte>)
    requires data != [] && a + |data| <= |mem|
    ensures var n := |data| - 1; var m := Burned(mem, a, data[..n]);
            Burned(mem, a, data) == m[a + n := Program(m[a + n], data[n])]
  {
  }

  lemma {:induction false} BurnedAroundTwice(mem: seq<byte>, addr: nat, a: seq<byte>, b: seq<byte>)
    requires |mem| > 0
    ensures BurnedAround(BurnedAround(mem, addr, a), addr + |a|, b) == BurnedAround(mem, addr, a + b)
  {
    if b == [] {
      assert a + b == a;
    } else {
      var n := |b| - 1;
      BurnedAroundTwice(mem, addr, a, b[..n]);
      assert (a + b)[..|a + b| - 1] == a + b[..n];
      assert addr + |a| + n == addr + (|a| + n);
    }
  }

  // ---------- addresses ----------

  /** Big-endian number. */
  function Number(s: seq<byte>): nat {
    if s == [] then 0 else 256 * Number(s[..|s| - 1]) + s[|s| - 1]
  }

  /** The low n bytes of x, most significant first. */
  function Encoded(x: nat, n: nat): (s: seq<byte>)
    ensures |s| == n
  {
    if n == 0 then [] else Encoded(x / 256, n - 1) + [x % 256]
  }

  /** What the chip decodes is what the driver encoded, as far as the bytes reach. */
  lemma {:induction false} EncodedNumber(x: nat, n: nat)
    ensures Number(Encoded(x, n)) == x % Pow2(8 * n)
  {
    if n == 0 {
      assert Pow2(0) == 1;
    } else {
      EncodedNumber(x / 256, n - 1);
      NumberLast(Encoded(x / 256, n - 1), x % 256);
      LowBytes(x, n);
    }
  }

  lemma EncodedExactly(x: nat, n: nat)
    requires x < Pow2(8 * n)
    ensures Number(Encoded(x, n)) == x
  {
    EncodedNumber(x, n);
    DivModUnique(x, Pow2(8 * n), 0, x);
  }

  lemma NumberLast(s: seq<byte>, b: byte)
    ensures Number(s + [b]) == 256 * Number(s) + b
  {
    assert (s + [b])[..|s|] == s;
  }

  lemma LowBytes(x: nat, n: nat)
    requires n > 0
    ensures x % Pow2(8 * n) == 256 * (x / 256 % Pow2(8 * (n - 1))) + x % 256
  {
    Pow2Add(8 * (n - 1), 8);
    assert Pow2(8) == 256 && 8 * (n - 1) + 8 == 8 * n;
    DivDiv(x, 256, Pow2(8 * (n - 1)));
  }

  // ---------- the chip ----------

  /** wel: write enable latch.  busy: status reads that still report a write in progress.
      frame: the bytes received since the chip select went down. */
  datatype Chip = Chip(mem: seq<byte>, sector: nat, wel: bool, fourByte: bool, busy: nat, frame: seq<byte>) {
    ghost predicate Valid() {
      |mem| > 0 && sector > 0 && |mem| % PAGE == 0
    }

    function AddressBytes(): nat {
      if fourByte then 4 else 3
    }

    /** Idle between commands: selected by nobody, not busy, in three-byte mode. */
    predicate Ready() {
      frame == [] && busy == 0 && !fourByte
    }
  }

  /** The address a frame carries, folded into the memory. */
  function FrameAddress(c: Chip): nat
    requires |c.mem| > 0 && |c.frame| >= 1 + c.AddressBytes()
  {
    Number(c.frame[1..1 + c.AddressBytes()]) % |c.mem|
  }

  function FramePayload(c: Chip): seq<byte>
    requires |c.frame| >= 1 + c.AddressBytes()
  {
    c.frame[1 + c.AddressBytes()..]
  }

  // The operations, by the data sheet: 0x05 read status, 0x03 read, 0x06 write enable, 0xB7 and 0xE9
  // four and three address bytes, 0xD8 erase a sector, 0x02 program a page.

  /** The byte shifted out while the last byte of the frame comes in. */
  function Reply(c: Chip): byte
    requires |c.mem| > 0
  {
    if c.frame == [] then 0
    else if c.frame[0] == 0x05 then (if c.busy > 0 then 1 else 0) + (if c.wel then 2 else 0)
    else if c.frame[0] == 0x03 && c.busy == 0 && |c.frame| > 1 + c.AddressBytes() then
      c.mem[(FrameAddress(c) + |FramePayload(c)| - 1) % |c.mem|]
    else 0
  }

  /** What happens when the chip select is released; `latency` is how long the chip then is busy.
      A busy chip only answers status reads, and writes need the latch, which they clear. */
  function Release(c: Chip, latency: nat): (d: Chip)
    requires c.Valid()
    ensures d.Valid() && d.frame == [] && |d.mem| == |c.mem| && d.sector == c.sector
  {
    var d := c.(frame := []);
    if c.frame == [] then d
    else if c.frame[0] == 0x05 then d.(busy := if c.busy > 0 then c.busy - 1 else 0)
    else if c.busy > 0 then d
    else if c.frame[0] == 0x06 then d.(wel := true)
    else if !c.wel then d
    else Execute(c, latency)
  }

  /** A command that needs the latch. */
  function Execute(c: Chip, latency: nat): (d: Chip)
    requires c.Valid() && c.frame != []
    ensures d.Valid() && d.frame == [] && |d.mem| == |c.mem| && d.sector == c.sector
  {
    var d := c.(frame := []);
    if c.frame[0] == 0xB7 then d.(fourByte := true, wel := false)
    else if c.frame[0] == 0xE9 then d.(fourByte := false, wel := false)
    else if c.frame[0] == 0xD8 && |c.frame| == 1 + c.AddressBytes() then EraseSector(c, latency)
    else if c.frame[0] == 0x02 && |c.frame| > 1 + c.AddressBytes() then ProgramPage(c, latency)
    else d
  }

  function EraseSector(c: Chip, latency: nat): (d: Chip)
    requires c.Valid() && |c.frame| >= 1 + c.AddressBytes()
    ensures d.Valid() && d.frame == [] && |d.mem| == |c.mem| && d.sector == c.sector
  {
    var a := FrameAddress(c);
    c.(frame := [], mem := Erased(c.mem, a - a % c.sector, c.sector), wel := false, busy := latency)
  }

  function ProgramPage(c: Chip, latency: nat): (d: Chip)
    requires c.Valid() && |c.frame| >= 1 + c.AddressBytes()
    ensures d.Valid() && d.frame == [] && |d.mem| == |c.mem| && d.sector == c.sector
  {
    var data := FramePayload(c);
    c.(frame := [], mem := PageProgram(c.mem, FrameAddress(c), data, |data|), wel := false, busy := latency)
  }

  function Zeros(n: nat): (z: seq<byte>)
    ensures |z| == n && forall i :: 0 <= i < n ==> z[i] == 0
  {
    seq(n, _ => 0)
  }

  /** What n zero bytes clock out of the chip after its frame so far. */
  function Replies(c: Chip, n: nat): (r: seq<byte>)
    requires |c.mem| > 0
    ensures |r| == n
  {
    seq(n, i requires 0 <= i < n => Reply(c.(frame := c.frame + Zeros(i + 1))))
  }
}
