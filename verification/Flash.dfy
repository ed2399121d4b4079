// The flash device over the serial chip: read, compare, erase a block, write a block page by
// page, and the write that erases and programs only the blocks whose contents differ.

module Flash {
  import opened Arith
  import opened Epcs
  import opened EpcsCommands
  import opened Spi

  type int32 = x: int | -0x8000_0000 <= x < 0x8000_0000

  const EIO := 5
  const CHUNK := 32
  const PAGE_SIZE: nat := 256

  datatype Region = Region(offset: nat, size: nat, blockCount: nat, blockSize: nat)

  // ---------- the devices the driver knows ----------

  datatype Device = NoDevice | Known(region: Region, fourBytesMode: bool)

  /** The geometry by electronic signature, and for newer parts by device id. */
  function Query(signature: byte, deviceId: nat): (d: Device)
    ensures d.Known? ==>
      var r := d.region;
      && r.offset == 0 && r.size == r.blockCount * r.blockSize > 0 && r.blockSize % PAGE == 0
      && r.size <= (if d.fourBytesMode then 0x1_0000_0000 else 0x100_0000)
      && (if d.fourBytesMode then 0x1_0000_0000 else 0x100_0000) % r.size == 0
  {
    match signature
    case 0x16 => Known(Region(0, 0x80_0000, 128, 65536), false)
    case 0x14 => Known(Region(0, 0x20_0000, 32, 65536), false)
    case 0x13 => Known(Region(0, 0x10_0000, 16, 65536), false)
    case 0x12 => Known(Region(0, 0x8_0000, 8, 65536), false)
    case 0x10 => Known(Region(0, 0x2_0000, 4, 32768), false)
    case _ =>
      if deviceId == 0x20BA15 then Known(Region(0, 0x20_0000, 32, 65536), false)
      else if deviceId == 0x20BA16 then Known(Region(0, 0x40_0000, 64, 65536), false)
      else if deviceId == 0x20BA17 then Known(Region(0, 0x80_0000, 128, 65536), false)
      else if deviceId == 0x20BA18 then Known(Region(0, 0x100_0000, 256, 65536), false)
      else if deviceId % 256 == 0x18 then Known(Region(0, 0x100_0000, 64, 262144), false)
      else if deviceId % 256 == 0x19 then Known(Region(0, 0x200_0000, 512, 65536), true)
      else if deviceId % 256 == 0x20 then Known(Region(0, 0x400_0000, 1024, 65536), true)
      else if deviceId % 256 == 0x21 then Known(Region(0, 0x800_0000, 2048, 65536), true)
      else NoDevice
  }

  /** The capacities: 2^(signature + 1) bytes by the signature; by the low byte d of the id, 2^d up to
      0x19, and 2^(d - 6) for the two that count on from 0x20. */
  lemma QueryCapacity(signature: byte, deviceId: nat)
    ensures var d := Query(signature, deviceId);
            var low := deviceId % 256;
            && (signature in {0x10, 0x12, 0x13, 0x14, 0x16} ==> d.Known? && d.region.size == Pow2(signature + 1))
            && (signature !in {0x10, 0x12, 0x13, 0x14, 0x16} ==>
                  && (d.Known? <==> deviceId in {0x20BA15, 0x20BA16, 0x20BA17} || low in {0x18, 0x19, 0x20, 0x21})
                  && (d.Known? ==> d.region.size == Pow2(if low < 0x20 then low else low - 6)))
  {
    CapacityPowers();
  }

  lemma CapacityPowers()
    ensures Pow2(17) == 0x2_0000 && Pow2(19) == 0x8_0000 && Pow2(20) == 0x10_0000 && Pow2(21) == 0x20_0000
    ensures Pow2(22) == 0x40_0000 && Pow2(23) == 0x80_0000 && Pow2(24) == 0x100_0000
    ensures Pow2(25) == 0x200_0000 && Pow2(26) == 0x400_0000 && Pow2(27) == 0x800_0000
  {
    assert Pow2(8) == 256;
    Pow2Add(8, 8);
    assert Pow2(17) == 2 * Pow2(16);
    assert Pow2(19) == 4 * Pow2(17);
    assert Pow2(20) == 2 * Pow2(19) && Pow2(21) == 2 * Pow2(20) && Pow2(22) == 2 * Pow2(21);
    assert Pow2(23) == 2 * Pow2(22) && Pow2(24) == 2 * Pow2(23) && Pow2(25) == 2 * Pow2(24);
    assert Pow2(26) == 2 * Pow2(25) && Pow2(27) == 2 * Pow2(26);
  }

  /** The erase blocks: 64 KB, but for the smallest part and the one of 256 KB blocks; and four address
      bytes exactly where three do not reach. */
  lemma QueryBlocks(signature: byte, deviceId: nat)
    requires Query(signature, deviceId).Known?
    ensures var d := Query(signature, deviceId);
            var bySignature := signature in {0x10, 0x12, 0x13, 0x14, 0x16};
            && d.region.blockSize ==
               (if signature == 0x10 then 0x8000
                else if !bySignature && deviceId != 0x20BA18 && deviceId % 256 == 0x18 then 0x4_0000
                else 0x1_0000)
            && (d.fourBytesMode <==> d.region.size > 0x100_0000)
  {
  }

  /** The size of n blocks. */
  ghost function Span(n: nat, blockSize: nat): nat {
    if n == 0 then 0 else blockSize + Span(n - 1, blockSize)
  }

  lemma {:induction false} SpanIsProduct(n: nat, blockSize: nat)
    ensures Span(n, blockSize) == n * blockSize
  {
    if n > 0 {
      SpanIsProduct(n - 1, blockSize);
    }
  }

  /** A sector starts at x. */
  ghost predicate Boundary(x: nat, sector: nat)
    requires sector > 0
  {
    if x < sector then x == 0 else Boundary(x - sector, sector)
  }

  lemma {:induction false} BoundaryMod(x: nat, sector: nat)
    requires sector > 0
    ensures Boundary(x, sector) <==> x % sector == 0
  {
    if x >= sector {
      BoundaryMod(x - sector, sector);
      assert x - sector + 1 * sector == x;
      AddMultiple(x - sector, sector, 1);
    } else {
      DivModUnique(x, sector, 0, x);
    }
  }

  lemma {:induction false} BoundarySpan(x: nat, n: nat, sector: nat)
    requires sector > 0 && Boundary(x, sector)
    ensures Boundary(x + Span(n, sector), sector)
    decreases n
  {
    if n > 0 {
      BoundarySpan(x + sector, n - 1, sector);
    }
  }

  /** From region i on, the regions follow each other from `start` to the end of the device, cut
      into blocks that are the chip's sectors. */
  ghost predicate Layout(regions: seq<Region>, i: nat, start: nat, sector: nat, size: nat)
    requires i <= |regions|
    decreases |regions| - i
  {
    if i == |regions| then start == size
    else
      && regions[i].offset == start && regions[i].blockSize == sector
      && regions[i].size == Span(regions[i].blockCount, sector)
      && Layout(regions, i + 1, start + regions[i].size, sector, size)
  }

  lemma {:induction false} LayoutEnds(regions: seq<Region>, i: nat, start: nat, sector: nat, size: nat)
    requires i <= |regions| && Layout(regions, i, start, sector, size)
    ensures start <= size
    decreases |regions| - i
  {
    if i < |regions| {
      LayoutEnds(regions, i + 1, start + regions[i].size, sector, size);
    }
  }

  /** The next region starts where the one before ended. */
  lemma LayoutStep(regions: seq<Region>, i: nat, start: nat, sector: nat, size: nat)
    requires i < |regions| && Layout(regions, i, start, sector, size)
    ensures var r := regions[i];
            && r.offset == start && r.blockSize == sector && r.size == Span(r.blockCount, sector)
            && Layout(regions, i + 1, start + r.size, sector, size) && start + r.size <= size
  {
    LayoutEnds(regions, i + 1, start + regions[i].size, sector, size);
  }

  lemma LayoutDone(regions: seq<Region>, start: nat, sector: nat, size: nat)
    requires Layout(regions, |regions|, start, sector, size)
    ensures start == size
  {
  }

  // ---------- what a write leaves in every cell ----------

  /** Cell i is one a write of n bytes at offset asks for. */
  predicate Hit(offset: int, n: nat, i: nat) {
    0 <= offset <= i < offset + n
  }

  /** Some byte asked for in the sector at base is not there yet. */
  ghost predicate Differs(m: seq<byte>, sector: nat, offset: int, src: seq<byte>, base: nat) {
    exists i: nat {:trigger Hit(offset, |src|, i)} ::
      base <= i < base + sector && i < |m| && Hit(offset, |src|, i) && m[i] != src[i - offset]
  }

  ghost function Stored(m: seq<byte>, sector: nat, offset: int, src: seq<byte>, i: nat): byte
    requires i < |m| && sector > 0
  {
    if !Differs(m, sector, offset, src, i - i % sector) then m[i]
    else if Hit(offset, |src|, i) then src[i - offset]
    else ERASED
  }

  /** The memory once every sector below the limit is done. */
  ghost function WrittenBelow(m: seq<byte>, sector: nat, offset: int, src: seq<byte>, limit: nat): (w: seq<byte>)
    requires sector > 0
    ensures |w| == |m|
  {
    seq(|m|, i requires 0 <= i < |m| => if i < limit then Stored(m, sector, offset, src, i) else m[i])
  }

  /** The memory a write leaves. */
  ghost function Written(m: seq<byte>, sector: nat, offset: int, src: seq<byte>): (w: seq<byte>)
    requires sector > 0
    ensures |w| == |m|
  {
    WrittenBelow(m, sector, offset, src, |m|)
  }

  /** A write inside the device stores its bytes. */
  lemma WriteStores(m: seq<byte>, sector: nat, offset: nat, src: seq<byte>)
    requires sector > 0
    ensures forall i :: offset <= i < offset + |src| && i < |m| ==>
      Written(m, sector, offset, src)[i] == src[i - offset]
    ensures offset + |src| <= |m| ==> Written(m, sector, offset, src)[offset..offset + |src|] == src
  {
    var w := Written(m, sector, offset, src);
    forall i | offset <= i < offset + |src| && i < |m|
      ensures w[i] == src[i - offset]
    {
      var base := i - i % sector;
      assert base <= i < base + sector && Hit(offset, |src|, i);
    }
  }

  /** A sector differs when its share of the bytes is not there yet. */
  lemma DiffersSlice(m: seq<byte>, sector: nat, offset: nat, src: seq<byte>, base: nat, lo: nat, hi: nat)
    requires lo == Max(base, offset) && hi == Min(base + sector, offset + |src|) && lo <= hi <= |m|
    ensures Differs(m, sector, offset, src, base) <==> m[lo..hi] != src[lo - offset..hi - offset]
  {
    hide Differs;
    if m[lo..hi] == src[lo - offset..hi - offset] {
      ShareMatches(m, sector, offset, src, base, lo, hi);
    } else {
      var i := ByteMissing(m, offset, src, lo, hi);
      ShareDiffers(m, sector, offset, src, base, i);
    }
  }

  lemma ByteMissing(m: seq<byte>, offset: nat, src: seq<byte>, lo: nat, hi: nat) returns (i: nat)
    requires offset <= lo <= hi <= |m| && hi <= offset + |src|
    requires m[lo..hi] != src[lo - offset..hi - offset]
    ensures lo <= i < hi && m[i] != src[i - offset]
  {
    var share, asked := m[lo..hi], src[lo - offset..hi - offset];
    var k := FirstDifference(share, asked);
    i := lo + k;
    assert share[k] == m[i] && asked[k] == src[i - offset];
  }

  lemma ShareDiffers(m: seq<byte>, sector: nat, offset: nat, src: seq<byte>, base: nat, i: nat)
    requires base <= i < base + sector && i < |m| && offset <= i < offset + |src| && m[i] != src[i - offset]
    ensures Differs(m, sector, offset, src, base)
  {
    assert Hit(offset, |src|, i);
  }

  lemma ShareMatches(m: seq<byte>, sector: nat, offset: nat, src: seq<byte>, base: nat, lo: nat, hi: nat)
    requires lo == Max(base, offset) && hi == Min(base + sector, offset + |src|) && lo <= hi <= |m|
    requires m[lo..hi] == src[lo - offset..hi - offset]
    ensures !Differs(m, sector, offset, src, base)
  {
    forall i: nat | base <= i < base + sector && Hit(offset, |src|, i)
      ensures i < |m| && m[i] == src[i - offset]
    {
      ShareAt(m, offset, src, lo, hi, i);
    }
  }

  lemma ShareAt(m: seq<byte>, offset: nat, src: seq<byte>, lo: nat, hi: nat, i: nat)
    requires offset <= lo <= i < hi <= |m| && hi <= offset + |src|
    requires m[lo..hi] == src[lo - offset..hi - offset]
    ensures m[i] == src[i - offset]
  {
    assert m[lo..hi][i - lo] == src[lo - offset..hi - offset][i - lo];
  }

  lemma FirstDifference(a: seq<byte>, b: seq<byte>) returns (k: nat)
    requires |a| == |b| && a != b
    ensures k < |a| && a[k] != b[k]
  {
    k :| 0 <= k < |a| && a[k] != b[k];
  }

  lemma SectorStored(m: seq<byte>, sector: nat, offset: int, src: seq<byte>, base: nat, i: nat)
    requires sector > 0 && Boundary(base, sector) && base <= i < base + sector && i < |m|
    ensures Stored(m, sector, offset, src, i) ==
      if !Differs(m, sector, offset, src, base) then m[i] else if Hit(offset, |src|, i) then src[i - offset] else ERASED
  {
    BoundaryMod(base, sector);
    BlockBase(i, base, sector);
  }

  /** Around the bytes asked for: a sector out of range, or whose share of the bytes was there
      already, is left alone; in any other sector the rest is erased. */
  lemma WriteKeeps(m: seq<byte>, sector: nat, offset: nat, src: seq<byte>, base: nat, i: nat)
    requires sector > 0 && Boundary(base, sector) && base <= i < base + sector <= |m|
    ensures var lo, hi := Max(base, offset), Min(base + sector, offset + |src|);
            if lo >= hi || m[lo..hi] == src[lo - offset..hi - offset] then
              Written(m, sector, offset, src)[i] == m[i]
            else
              lo <= i < hi || Written(m, sector, offset, src)[i] == ERASED
  {
    var lo, hi := Max(base, offset), Min(base + sector, offset + |src|);
    SectorStored(m, sector, offset, src, base, i);
    if lo < hi {
      DiffersSlice(m, sector, offset, src, base, lo, hi);
    }
  }

  /** Writing the same bytes again changes nothing. */
  lemma WriteAgain(m: seq<byte>, sector: nat, offset: int, src: seq<byte>)
    requires sector > 0
    ensures Written(Written(m, sector, offset, src), sector, offset, src) == Written(m, sector, offset, src)
  {
    var w := Written(m, sector, offset, src);
    forall i: nat | i < |m| && Hit(offset, |src|, i)
      ensures w[i] == src[i - offset]
    {
      var base := i - i % sector;
      assert base <= i < base + sector;
    }
  }

  /** A start outside the device leaves it as it was. */
  lemma WriteOutside(m: seq<byte>, sector: nat, offset: int, src: seq<byte>)
    requires sector > 0 && (offset < 0 || offset >= |m|)
    ensures Written(m, sector, offset, src) == m
  {
  }

  lemma BlockBase(i: nat, base: nat, sector: nat)
    requires sector > 0 && base % sector == 0 && base <= i < base + sector
    ensures i - i % sector == base
  {
    DivModUnique(i, sector, base / sector, i - base);
    DivModDef(base, sector);
  }

  /** Sectors no byte is asked for in stay as they are. */
  lemma NothingBetween(m: seq<byte>, sector: nat, offset: int, src: seq<byte>, lo: nat, hi: nat)
    requires sector > 0 && lo <= hi <= |m| && lo % sector == 0
    requires forall i: nat :: lo <= i < |m| && Hit(offset, |src|, i) ==> i >= hi && i - i % sector >= hi
    ensures WrittenBelow(m, sector, offset, src, lo) == WrittenBelow(m, sector, offset, src, hi)
  {
    forall i: nat | lo <= i < hi
      ensures Stored(m, sector, offset, src, i) == m[i]
    {
      SectorsApart(i, lo, sector);
      var base := i - i % sector;
      if Differs(m, sector, offset, src, base) {
        var k: nat :| base <= k < base + sector && k < |m| && Hit(offset, |src|, k) && m[k] != src[k - offset];
        BlockBase(k, base, sector);
        assert false;
      }
    }
  }

  /** The sector of a cell at or past a sector boundary starts at or past it. */
  lemma SectorsApart(i: nat, boundary: nat, sector: nat)
    requires sector > 0 && boundary % sector == 0 && boundary <= i
    ensures i - i % sector >= boundary && (i - i % sector) % sector == 0
  {
    DivMonotonic(boundary, i, sector);
    DivModDef(i, sector);
    DivModDef(boundary, sector);
    MulMonotonic(boundary / sector, i / sector, sector);
    DivModUnique(i - i % sector, sector, i / sector, 0);
  }

  /** What one block's treatment does to the memory. */
  function Updated(m: seq<byte>, base: nat, sector: nat, offset: nat, data: seq<byte>): (w: seq<byte>)
    requires offset + |data| <= |m|
    ensures |w| == |m|
  {
    if m[offset..offset + |data|] == data then m else Burned(Erased(m, base, sector), offset, data)
  }

  lemma UpdatedCell(m: seq<byte>, base: nat, sector: nat, offset: nat, data: seq<byte>, i: nat)
    requires base <= offset && offset + |data| <= base + sector <= |m| && i < |m|
    ensures Updated(m, base, sector, offset, data)[i] ==
      if m[offset..offset + |data|] == data then m[i]
      else if offset <= i < offset + |data| then data[i - offset]
      else if base <= i < base + sector then ERASED
      else m[i]
  {
    BurnedErased(Erased(m, base, sector), offset, data);
  }

  /** Treating the next block brings the write one sector further. */
  lemma BlockDone(m: seq<byte>, sector: nat, offset: nat, src: seq<byte>, base: nat, from: nat, to: nat)
    requires sector > 0 && Boundary(base, sector) && base + sector <= |m|
    requires from == Max(offset, base) < base + sector && from <= offset + |src|
    requires to == Min(base + sector, offset + |src|)
    ensures Updated(WrittenBelow(m, sector, offset, src, base), base, sector, from, src[from - offset..to - offset])
            == WrittenBelow(m, sector, offset, src, base + sector)
  {
    hide Updated, Differs, Boundary, Stored;
    var before := WrittenBelow(m, sector, offset, src, base);
    var data := src[from - offset..to - offset];
    assert before[from..to] == m[from..to];
    DiffersSlice(m, sector, offset, src, base, from, to);
    forall i: nat | i < |m|
      ensures Updated(before, base, sector, from, data)[i] == WrittenBelow(m, sector, offset, src, base + sector)[i]
    {
      UpdatedCell(before, base, sector, from, data, i);
      if base <= i < base + sector {
        SectorStored(m, sector, offset, src, base, i);
      }
    }
  }

  // ---------- the driver ----------

  /** The library comparison: the difference at the first byte that differs. */
  function Compare(a: seq<byte>, b: seq<byte>): (r: int)
    requires |a| == |b|
    ensures r == 0 <==> a == b
  {
    if a == [] then 0
    else if a[0] != b[0] then a[0] - b[0]
    else
      assert a == [a[0]] + a[1..] && b == [b[0]] + b[1..];
      Compare(a[1..], b[1..])
  }

  /** Rounding down to a multiple: what the driver's mask does for a power of two. */
  function RoundDown(x: nat, unit: nat): nat
    requires unit > 0
  {
    x - x % unit
  }

  lemma AddressRange()
    ensures Pow2(24) == 0x100_0000 && Pow2(32) == 0x1_0000_0000
  {
    assert Pow2(8) == 256;
    Pow2Add(8, 8);
    Pow2Add(16, 8);
    Pow2Add(24, 8);
  }

  /** n cells from an offset on, around the end of the memory. */
  function Around(m: seq<byte>, offset: int, n: nat): (r: seq<byte>)
    requires |m| > 0
    ensures |r| == n
  {
    seq(n, i requires 0 <= i < n => m[(offset + i) % |m|])
  }

  lemma AroundInside(m: seq<byte>, offset: nat, n: nat)
    requires offset + n <= |m| && |m| > 0
    ensures Around(m, offset, n) == m[offset..offset + n]
  {
    forall i | 0 <= i < n
      ensures Around(m, offset, n)[i] == m[offset + i]
    {
      DivModUnique(offset + i, |m|, 0, offset + i);
    }
  }

  /** A chunk of the cells is the cells of the chunk. */
  lemma AroundSlice(m: seq<byte>, offset: int, total: nat, k: nat, n: nat)
    requires |m| > 0 && k + n <= total
    ensures Around(m, offset + k, n) == Around(m, offset, total)[k..k + n]
  {
    var part, whole := Around(m, offset + k, n), Around(m, offset, total);
    forall i | 0 <= i < n
      ensures part[i] == whole[k..k + n][i]
    {
      assert whole[k..k + n][i] == whole[k + i];
    }
  }

  /** Where the last chunk of n > 0 bytes starts. */
  function LastChunk(n: int): int {
    (n - 1) - (n - 1) % 32
  }

  /** The bytes are there from the offset on, around the end of the memory if need be, and the
      last chunk of them starts inside it. */
  ghost predicate Present(m: seq<byte>, offset: int, src: seq<byte>)
    requires |m| > 0
  {
    src == []
    || (0 <= offset && offset + LastChunk(|src|) < |m| && Around(m, offset, |src|) == src)
  }

  lemma NothingAsked(m: seq<byte>, offset: int, src: seq<byte>)
    requires |m| > 0
    ensures Present(m, offset, src[..0])
  {
  }

  /** With k bytes present, the next n are when their chunk is; and if not, the whole is not. */
  lemma NextChunk(m: seq<byte>, offset: int, src: seq<byte>, k: nat, n: nat)
    requires |m| > 0 && k % CHUNK == 0 && 0 < n && n == Min(|src| - k, CHUNK)
    requires Present(m, offset, src[..k])
    ensures k > 0 ==> 0 <= offset && offset + k < |m| + CHUNK
    ensures var chunk := 0 <= offset + k < |m| && Around(m, offset + k, n) == src[k..k + n];
            chunk == Present(m, offset, src[..k + n]) && (Present(m, offset, src) ==> chunk)
  {
    hide Around;
    var all := Around(m, offset, |src|);
    AroundSlice(m, offset, |src|, k, n);
    AroundSlice(m, offset, |src|, 0, k);
    AroundSlice(m, offset, |src|, 0, k + n);
    assert all[..k + n] == all[..k] + all[k..k + n] && src[..k + n] == src[..k] + src[k..k + n];
    assert all[k..k + n] == all[..k + n][k..] && src[k..k + n] == src[..k + n][k..];
  }

  /** The next piece of a run, cut at the page end, stays inside its page. */
  lemma PageCut(at: nat, left: nat, n: nat)
    requires left > 0 && n == Min(left, RoundDown(at + PAGE, PAGE) - at)
    ensures 0 < n <= left && at % PAGE + n <= PAGE
    ensures n < left ==> RoundDown(at + PAGE, PAGE) == at + n
  {
    AddMultiple(at, PAGE, 1);
    assert RoundDown(at + PAGE, PAGE) == at + PAGE - at % PAGE;
  }

  /** A piece inside a page extends what is programmed. */
  lemma PageDone(m: seq<byte>, offset: nat, data: seq<byte>, done: nat, n: nat)
    requires |m| > 0 && |m| % PAGE == 0
    requires done + n <= |data| && 0 < n && (offset + done) % PAGE + n <= PAGE
    ensures PageProgram(BurnedAround(m, offset, data[..done]), (offset + done) % |m|, data[done..done + n], n)
      == BurnedAround(m, offset, data[..done + n])
  {
    hide Burned, BurnedAround, PageProgram;
    var piece, now, at := data[done..done + n], BurnedAround(m, offset, data[..done]), offset + done;
    PageInside(at, |m|);
    PageProgramStraight(now, at % |m|, piece, n);
    assert piece[..n] == piece;
    BurnedAroundInside(now, at, piece);
    assert data[..done + n] == data[..done] + piece;
    BurnedAroundTwice(m, offset, data[..done], piece);
  }

  /** Folding an address into a memory of whole pages keeps its place in the page. */
  lemma PageInside(at: nat, size: nat)
    requires size > 0 && size % PAGE == 0
    ensures at % size % PAGE == at % PAGE
  {
    FoldedTwice(at, size, PAGE);
  }

  /** Past the last byte asked for nothing is left to do. */
  lemma NothingAfter(m: seq<byte>, sector: nat, offset: int, src: seq<byte>, limit: nat)
    requires sector > 0 && limit <= |m| && Boundary(limit, sector) && offset + |src| <= limit
    ensures WrittenBelow(m, sector, offset, src, limit) == Written(m, sector, offset, src)
  {
    BoundaryMod(limit, sector);
    NothingBetween(m, sector, offset, src, limit, |m|);
  }

  /** Nor is there anything below the first one. */
  lemma NothingBefore(m: seq<byte>, sector: nat, offset: int, src: seq<byte>, lo: nat, hi: nat)
    requires sector > 0 && lo <= hi <= |m| && Boundary(lo, sector) && Boundary(hi, sector)
    requires offset < 0 || offset >= hi || lo == hi
    ensures WrittenBelow(m, sector, offset, src, lo) == WrittenBelow(m, sector, offset, src, hi)
  {
    if lo < hi {
      BoundaryMod(lo, sector);
      BoundaryMod(hi, sector);
      forall i: nat | lo <= i < |m| && Hit(offset, |src|, i)
        ensures i >= hi && i - i % sector >= hi
      {
        SectorsApart(i, hi, sector);
      }
      NothingBetween(m, sector, offset, src, lo, hi);
    }
  }

  /** Where the write goes on once everything below `limit` is done. */
  ghost function Cursor(offset: int, limit: nat): int {
    if offset < 0 then offset else Max(offset, limit)
  }

  /** A write of src at offset to memory m that has dealt with everything below `limit`: what is
      left to write, and the memory as it is now. */
  ghost predicate Reached(m: seq<byte>, sector: nat, offset: int, src: seq<byte>, limit: nat,
                          at: int, rest: seq<byte>, now: seq<byte>)
    requires sector > 0
  {
    && limit <= |m| && Boundary(limit, sector)
    && at == Cursor(offset, limit) && (at == offset || at < offset + |src|)
    && rest == src[at - offset..]
    && now == WrittenBelow(m, sector, offset, src, limit)
  }

  lemma NothingYet(m: seq<byte>, sector: nat, offset: int, src: seq<byte>)
    requires sector > 0
    ensures WrittenBelow(m, sector, offset, src, 0) == m
  {
  }

  lemma AllDone(m: seq<byte>, sector: nat, offset: int, src: seq<byte>)
    requires sector > 0
    ensures WrittenBelow(m, sector, offset, src, |m|) == Written(m, sector, offset, src)
  {
  }

  lemma NextBoundary(base: nat, sector: nat)
    requires sector > 0 && Boundary(base, sector)
    ensures Boundary(base + sector, sector)
  {
  }

  /** A block with bytes to write: afterwards the write is complete or has reached the next block. */
  lemma BlockWritten(m: seq<byte>, sector: nat, offset: nat, src: seq<byte>, base: nat,
                     at: nat, rest: seq<byte>, now: seq<byte>, n: nat)
    requires sector > 0 && Reached(m, sector, offset, src, base, at, rest, now)
    requires base <= at < base + sector <= |m| && n == Min(base + sector - at, |rest|)
    ensures at + n <= |now| && var next := Updated(now, base, sector, at, rest[..n]);
            if |rest| == n then next == Written(m, sector, offset, src)
            else Reached(m, sector, offset, src, base + sector, base + sector, rest[n..], next)
  {
    hide WrittenBelow, Written, Updated, Boundary;
    NextBoundary(base, sector);
    assert rest[..n] == src[at - offset..at - offset + n];
    BlockDone(m, sector, offset, src, base, at, at + n);
    if |rest| == n {
      NothingAfter(m, sector, offset, src, base + sector);
    } else {
      assert rest[n..] == src[base + sector - offset..];
    }
  }

  /** Blocks before the first byte to write. */
  lemma BlocksSkipped(m: seq<byte>, sector: nat, offset: int, src: seq<byte>, lo: nat, hi: nat,
                      at: int, rest: seq<byte>, now: seq<byte>)
    requires sector > 0 && Reached(m, sector, offset, src, lo, at, rest, now)
    requires lo <= hi <= |m| && Boundary(hi, sector) && !(lo <= at < hi)
    ensures Reached(m, sector, offset, src, hi, at, rest, now)
  {
    NothingBefore(m, sector, offset, src, lo, hi);
  }

  lemma InsideTheDevice(m: seq<byte>, offset: nat, data: seq<byte>)
    requires offset < |m| && offset + |data| <= |m|
    ensures BurnedAround(m, offset, data) == Burned(m, offset, data)
  {
    DivModUnique(offset, |m|, 0, offset);
    BurnedAroundInside(m, offset, data);
  }

  class Controller {
    const port: Port
    const regions: seq<Region>
    const fourBytesMode: bool

    /** Between operations: the chip idle, addressable, and as large as the regions say. */
    ghost predicate Settled()
      reads this, port
    {
      && Idle(port) && Reaches(port.chip, fourBytesMode) && Folds(port.chip, fourBytesMode)
      && |port.chip.mem| <= 0x4000_0000
      && |regions| > 0 && regions[|regions| - 1].offset + regions[|regions| - 1].size == |port.chip.mem|
    }

    ghost predicate Valid()
      reads this, port
    {
      Settled() && port.chip.sector > 0 && Layout(regions, 0, 0, port.chip.sector, |port.chip.mem|)
    }

    /** The device found by the query, on a chip of that geometry. */
    constructor (p: Port, signature: byte, deviceId: nat)
      requires Query(signature, deviceId).Known? && Idle(p)
      requires var r := Query(signature, deviceId).region;
               |p.chip.mem| == r.size && p.chip.sector == r.blockSize
      ensures Valid() && port == p && fourBytesMode == Query(signature, deviceId).fourBytesMode
    {
      var d := Query(signature, deviceId);
      port, regions, fourBytesMode := p, [d.region], d.fourBytesMode;
      SpanIsProduct(d.region.blockCount, d.region.blockSize);
      AddressRange();
    }

    /** Reject a start outside the device; a negative offset is a large one unsigned. */
    method TestAddress(offset: int32) returns (ret: int)
      requires Settled()
      ensures ret == if 0 <= offset < |port.chip.mem| then 0 else -EIO
    {
      var last := regions[|regions| - 1];
      var lastDeviceAddress := last.offset + last.size - 1;
      ret := 0;
      if offset % 0x1_0000_0000 > lastDeviceAddress {
        ret := -EIO;
      }
    }

    /** Read from an offset on, wrapping at the end of the device. */
    method Read(offset: int32, length: nat) returns (ret: int, dest: seq<byte>)
      requires Settled()
      modifies port
      ensures Settled() && port.chip.mem == old(port.chip.mem) && port.chip.sector == old(port.chip.sector)
      ensures ret == if 0 <= offset < |port.chip.mem| then 0 else -EIO
      ensures ret == 0 ==> dest == Around(port.chip.mem, offset, length)
    {
      dest := [];
      ret := TestAddress(offset);
      if ret >= 0 {
        dest := ReadBuffer(port, offset, length, fourBytesMode);
        ret := |dest|;
        if ret == length {
          ret := 0;
        }
      }
    }

    /** One chunk of the comparison, read into a buffer. */
    method CompareChunk(src: seq<byte>, offset: int32) returns (cmp: int)
      requires Settled()
      modifies port
      ensures Settled() && port.chip.mem == old(port.chip.mem) && port.chip.sector == old(port.chip.sector)
      ensures cmp == 0 <==>
        0 <= offset < |port.chip.mem| && Around(port.chip.mem, offset, |src|) == src
    {
      var ret, buffer := Read(offset, |src|);
      if ret < 0 {
        return -1;
      }
      cmp := Compare(src, buffer);
    }

    lemma HasCells()
      requires Settled()
      ensures 0 < |port.chip.mem| <= 0x4000_0000
    {
    }

    /** Compare against the device, a chunk at a time. */
    method Memcmp(src: seq<byte>, offset: int32) returns (cmp: int)
      requires Settled()
      modifies port
      ensures Settled() && port.chip.mem == old(port.chip.mem) && port.chip.sector == old(port.chip.sector)
      ensures cmp == 0 <==> Present(port.chip.mem, offset, src)
    {
      hide Around, Present, Settled;
      HasCells();
      var n, current := |src|, 0;
      ghost var m := port.chip.mem;
      NothingAsked(m, offset, src);
      while n > 0
        invariant Settled() && port.chip.mem == m && port.chip.sector == old(port.chip.sector)
        invariant 0 <= n && 0 <= current && n + current == |src| && (n > 0 ==> current % CHUNK == 0)
        invariant Present(m, offset, src[..current])
      {
        var chunk := Min(n, CHUNK);
        NextChunk(m, offset, src, current, chunk);
        cmp := CompareChunk(src[current..current + chunk], offset + current);
        if cmp != 0 {
          return;
        }
        n := n - chunk;
        current := current + chunk;
      }
      assert src[..current] == src;
      return 0;
    }

    method EraseBlock(blockOffset: int32) returns (ret: int)
      requires Settled()
      modifies port
      ensures Settled()
      ensures ret == if 0 <= blockOffset < |old(port.chip.mem)| then 0 else -EIO
      ensures port.chip.mem == if ret < 0 then old(port.chip.mem)
              else Erased(old(port.chip.mem), RoundDown(blockOffset, port.chip.sector), port.chip.sector)
      ensures port.chip.sector == old(port.chip.sector)
    {
      ret := TestAddress(blockOffset);
      if ret >= 0 {
        SectorErase(port, blockOffset, fourBytesMode);
      }
    }

    /** Program a run of bytes page by page: no program crosses a page, so none wraps inside it.  A
        run past the end of the device goes on at its start.  The run must leave the address of the
        page after it an int. */
    method WriteBlock(blockOffset: int32, dataOffset: int32, data: seq<byte>) returns (ret: int)
      requires Settled() && (0 <= dataOffset < |port.chip.mem| ==> dataOffset + |data| + PAGE < 0x8000_0000)
      modifies port
      ensures Settled() && port.chip.sector == old(port.chip.sector)
      ensures ret == if 0 <= dataOffset < |old(port.chip.mem)| then 0 else -EIO
      ensures port.chip.mem ==
        if ret < 0 then old(port.chip.mem) else BurnedAround(old(port.chip.mem), dataOffset, data)
    {
      ret := TestAddress(dataOffset);
      if ret >= 0 {
        var at, done := dataOffset, 0;
        while done < |data|
          invariant Settled() && 0 <= done <= |data| && (done < |data| ==> at == dataOffset + done)
          invariant |port.chip.mem| == |old(port.chip.mem)| && port.chip.sector == old(port.chip.sector)
          invariant port.chip.mem == BurnedAround(old(port.chip.mem), dataOffset, data[..done])
        {
          var nextPage := RoundDown(at + PAGE_SIZE, PAGE_SIZE);
          var n := Min(|data| - done, nextPage - at);
          PageCut(at, |data| - done, n);
          PageDone(old(port.chip.mem), dataOffset, data, done, n);
          WriteBuffer(port, at, data[done..done + n], fourBytesMode);
          done, at := done + n, nextPage;
        }
        assert data[..done] == data;
      }
    }

    /** One block's part of a write: leave it if the bytes are there, else erase and program. */
    method UpdateBlock(base: int32, offset: int32, data: seq<byte>) returns (ret: int)
      requires Settled() && 0 <= base < |port.chip.mem| && Boundary(base, port.chip.sector)
      requires base <= offset < |port.chip.mem| && offset + |data| <= |port.chip.mem|
      modifies port
      ensures Settled() && port.chip.sector == old(port.chip.sector)
      ensures ret == 0
      ensures port.chip.mem == Updated(old(port.chip.mem), base, port.chip.sector, offset, data)
    {
      hide BurnedAround, Around;
      ret := 0;
      AroundInside(port.chip.mem, offset, |data|);
      var cmp := Memcmp(data, offset);
      if cmp != 0 {
        BoundaryMod(base, port.chip.sector);
        ret := EraseBlock(base);
        if ret == 0 {
          InsideTheDevice(port.chip.mem, offset, data);
          ret := WriteBlock(base, offset, data);
        }
      }
    }

    ghost predicate Progress(m: seq<byte>, offset: int, src: seq<byte>, limit: nat, at: int, rest: seq<byte>)
      reads this, port
    {
      Settled() && port.chip.sector > 0 && Reached(m, port.chip.sector, offset, src, limit, at, rest, port.chip.mem)
    }

    /** The next block.  `finished` when the last byte has been dealt with. */
    method WriteNext(ghost m: seq<byte>, ghost offset0: int32, ghost src0: seq<byte>,
                     current: nat, blockSize: nat, offset: int32, src: seq<byte>)
      returns (ret: int, at: int32, rest: seq<byte>, finished: bool)
      requires Progress(m, offset0, src0, current, offset, src) && offset0 >= 0
      requires blockSize == port.chip.sector && current + blockSize <= |m|
      modifies port
      ensures Settled() && port.chip.sector == old(port.chip.sector) && ret == 0
      ensures finished ==> port.chip.mem == Written(m, port.chip.sector, offset0, src0)
      ensures !finished ==> Progress(m, offset0, src0, current + blockSize, at, rest)
    {
      ret, at, rest, finished := 0, offset, src, false;
      if current <= at < current + blockSize {
        var n := Min(current + blockSize - at, |rest|);
        BlockWritten(m, blockSize, offset0, src0, current, at, rest, port.chip.mem, n);
        ret := UpdateBlock(current, at, rest[..n]);
        if |rest| == n || ret != 0 {
          finished := true;
        } else {
          rest := rest[n..];
          at := current + blockSize;
        }
      } else {
        BlocksSkipped(m, blockSize, offset0, src0, current, current + blockSize, at, rest, port.chip.mem);
      }
    }

    /** The blocks of one region. */
    method WriteRegion(ghost m: seq<byte>, ghost offset0: int32, ghost src0: seq<byte>, r: Region,
                       offset: int32, src: seq<byte>)
      returns (ret: int, at: int32, rest: seq<byte>, finished: bool)
      requires Progress(m, offset0, src0, r.offset, offset, src) && offset0 >= 0
      requires r.blockSize == port.chip.sector && r.size == Span(r.blockCount, r.blockSize) && r.offset + r.size <= |m|
      modifies port
      ensures Settled() && port.chip.sector == old(port.chip.sector) && ret == 0
      ensures finished ==> port.chip.mem == Written(m, port.chip.sector, offset0, src0)
      ensures !finished ==> Progress(m, offset0, src0, r.offset + r.size, at, rest)
    {
      hide Reached, Settled;
      ret, at, rest, finished := 0, offset, src, false;
      var current, j := r.offset, 0;
      while j < r.blockCount
        invariant 0 <= j <= r.blockCount && 0 <= current
        invariant current + Span(r.blockCount - j, r.blockSize) == r.offset + r.size
        invariant port.chip.sector == old(port.chip.sector) && ret == 0 && !finished
        invariant Progress(m, offset0, src0, current, at, rest)
      {
        ret, at, rest, finished := WriteNext(m, offset0, src0, current, r.blockSize, at, rest);
        if finished {
          return;
        }
        current := current + r.blockSize;
        j := j + 1;
      }
    }

    lemma WriteBegins(offset: int32, src: seq<byte>)
      requires Valid()
      ensures port.chip.sector > 0
      ensures Progress(port.chip.mem, offset, src, 0, offset, src)
      ensures Layout(regions, 0, 0, port.chip.sector, |port.chip.mem|)
    {
      NothingYet(port.chip.mem, port.chip.sector, offset, src);
    }

    /** The next region: its place, and that the cursor stands in it or passes it by. */
    lemma RegionNext(m: seq<byte>, offset: int32, src: seq<byte>, i: nat, reached: nat, at: int32, rest: seq<byte>)
      requires Progress(m, offset, src, reached, at, rest) && i < |regions|
      requires Layout(regions, i, reached, port.chip.sector, |m|)
      ensures var r := regions[i]; var next := reached + r.size;
              && r.offset == reached && r.blockSize == port.chip.sector
              && r.size == Span(r.blockCount, r.blockSize) && next <= |m|
              && Layout(regions, i + 1, next, port.chip.sector, |m|)
              && if reached <= at < next then offset >= 0 else Progress(m, offset, src, next, at, rest)
    {
      var r := regions[i];
      LayoutStep(regions, i, reached, port.chip.sector, |m|);
      BoundarySpan(reached, r.blockCount, port.chip.sector);
      if !(reached <= at < reached + r.size) {
        BlocksSkipped(m, port.chip.sector, offset, src, reached, reached + r.size, at, rest, port.chip.mem);
      }
    }

    lemma WriteEnds(m: seq<byte>, offset: int32, src: seq<byte>, reached: nat, at: int32, rest: seq<byte>)
      requires Progress(m, offset, src, reached, at, rest)
      requires Layout(regions, |regions|, reached, port.chip.sector, |m|)
      ensures Settled() && port.chip.mem == Written(m, port.chip.sector, offset, src)
    {
      LayoutDone(regions, reached, port.chip.sector, |m|);
      AllDone(m, port.chip.sector, offset, src);
    }

    /** The write: bytes past the end of the device are dropped, and a start outside it writes
        nothing, both without an error. */
    method Write(offset: int32, src: seq<byte>) returns (ret: int)
      requires Valid()
      modifies port
      ensures Valid() && port.chip.sector == old(port.chip.sector) && ret == 0
      ensures port.chip.mem == Written(old(port.chip.mem), port.chip.sector, offset, src)
    {
      hide Progress, Layout, Span, Settled, Written;
      ghost var m, reached: nat := port.chip.mem, 0;
      WriteBegins(offset, src);
      var at: int32, rest := offset, src;
      ret := 0;
      var i := 0;
      while i < |regions|
        invariant 0 <= i <= |regions| && port.chip.sector == old(port.chip.sector) && ret == 0
        invariant Progress(m, offset, src, reached, at, rest)
        invariant Layout(regions, i, reached, port.chip.sector, |m|)
      {
        var r := regions[i];
        RegionNext(m, offset, src, i, reached, at, rest);
        if r.offset <= at < r.offset + r.size {
          var finished;
          ret, at, rest, finished := WriteRegion(m, offset, src, r, at, rest);
          if finished {
            return;
          }
        }
        reached := reached + r.size;
        i := i + 1;
      }
      WriteEnds(m, offset, src, reached, at, rest);
    }
  }
}
