// The SPI master port and the polled exchange over it.  The ready bits of the status register
// may come in any order and as late as they like, as long as each keeps coming.

module Spi {
  import opened Arith
  import opened Epcs

  /** What a status read would show; rrdy counts only while a reply is due. */
  datatype Ready = Ready(trdy: bool, rrdy: bool, tmt: bool)

  ghost predicate TrdyFrom(polls: nat -> Ready, t: nat) {
    exists u: nat :: u >= t && polls(u).trdy
  }

  ghost predicate RrdyFrom(polls: nat -> Ready, t: nat) {
    exists u: nat :: u >= t && polls(u).rrdy
  }

  ghost predicate TmtFrom(polls: nat -> Ready, t: nat) {
    exists u: nat :: u >= t && polls(u).tmt
  }

  ghost predicate FairPolls(polls: nat -> Ready) {
    forall t: nat :: TrdyFrom(polls, t) && RrdyFrom(polls, t) && TmtFrom(polls, t)
  }

  /** The bytes of an exchange: the data, then a zero for every byte to be read. */
  function Outgoing(data: seq<byte>, readLength: nat): (tx: seq<byte>)
    ensures |tx| == |data| + readLength
  {
    data + Zeros(readLength)
  }

  lemma OutgoingPrefix(data: seq<byte>, readLength: nat, n: nat)
    requires |data| < n <= |data| + readLength
    ensures Outgoing(data, readLength)[..n] == data + Zeros(n - |data|)
  {
  }

  class Port {
    var chip: Chip
    const polls: nat -> Ready
    const latency: nat -> nat
    var time: nat
    var releases: nat
    var waiting: bool
    var rx: byte

    ghost predicate Valid()
      reads this
    {
      chip.Valid() && FairPolls(polls)
    }

    constructor (c: Chip, readyBits: nat -> Ready, busyTimes: nat -> nat, stale: bool)
      requires c.Valid() && FairPolls(readyBits)
      ensures Valid() && chip == c && polls == readyBits && latency == busyTimes
    {
      chip, polls, latency := c, readyBits, busyTimes;
      time, releases, waiting, rx := 0, 0, stale, 0;
    }

    /** One read of the status register. */
    method ReadStatus() returns (s: Ready)
      modifies this`time
      ensures s == Ready(polls(old(time)).trdy, waiting && polls(old(time)).rrdy, polls(old(time)).tmt)
      ensures time == old(time) + 1
    {
      s := polls(time).(rrdy := waiting && polls(time).rrdy);
      time := time + 1;
    }

    /** Start the exchange of one byte.  The receiver holds one byte, so none may be due. */
    method WriteTx(b: byte)
      requires Valid() && !waiting
      modifies this`chip, this`waiting, this`rx
      ensures Valid() && waiting
      ensures chip == old(chip).(frame := old(chip.frame) + [b]) && rx == Reply(chip)
    {
      chip := chip.(frame := chip.frame + [b]);
      rx, waiting := Reply(chip), true;
    }

    method ReadRx() returns (b: byte)
      modifies this`waiting
      ensures b == rx && !waiting
    {
      b, waiting := rx, false;
    }

    /** Release the chip select: the chip executes its frame. */
    method Deselect()
      requires Valid()
      modifies this`chip, this`releases
      ensures Valid() && chip == Release(old(chip), latency(old(releases))) && releases == old(releases) + 1
    {
      chip := Release(chip, latency(releases));
      releases := releases + 1;
    }

    /** Poll until a byte can go out on credit or one has come in. */
    method AwaitReady(credits: int) returns (s: Ready)
      requires Valid() && 0 <= credits <= 1 && (waiting <==> credits == 0)
      modifies this`time
      ensures (s.trdy && credits > 0) || s.rrdy
      ensures s.rrdy ==> waiting
    {
      assert TrdyFrom(polls, time) && RrdyFrom(polls, time);
      ghost var goal: nat :|
        goal >= time && (if credits > 0 then polls(goal).trdy else polls(goal).rrdy);
      s := ReadStatus();
      while (!s.trdy || credits == 0) && !s.rrdy
        invariant time > 0 && goal >= time - 1
        invariant s == Ready(polls(time - 1).trdy, waiting && polls(time - 1).rrdy, polls(time - 1).tmt)
        decreases goal - time
      {
        s := ReadStatus();
      }
    }

    /** Poll until the transmitter has run dry. */
    method AwaitTransmitted()
      requires Valid()
      modifies this`time
    {
      assert TmtFrom(polls, time);
      ghost var goal: nat :| goal >= time && polls(goal).tmt;
      var s := ReadStatus();
      while !s.tmt
        invariant time > 0 && goal >= time - 1 && s.tmt == polls(time - 1).tmt
        decreases goal - time
      {
        s := ReadStatus();
      }
    }

    /** s bytes have gone out and g replies have come in. */
    ghost predicate Exchanged(c0: Chip, tx: seq<byte>, s: nat, g: nat)
      reads this
    {
      && Valid() && g <= s <= g + 1 && s <= |tx| && c0.Valid()
      && chip == c0.(frame := c0.frame + tx[..s])
      && (waiting <==> s > g)
      && (waiting ==> rx == Reply(chip))
    }

    /** Send the next byte of the exchange: the data first, then the zeros. */
    method SendNext(ghost c0: Chip, data: seq<byte>, ghost readLength: nat, ghost s: nat,
                    written: nat, zerosLeft: int, creditsLeft: int)
      returns (w: nat, writeZeros: int, credits: int)
      requires Exchanged(c0, Outgoing(data, readLength), s, s) && s < |data| + readLength
      requires written == Min(s, |data|) && zerosLeft == readLength - (s - written)
      modifies this`chip, this`waiting, this`rx
      ensures Exchanged(c0, Outgoing(data, readLength), s + 1, s)
      ensures w == Min(s + 1, |data|) && writeZeros == readLength - (s + 1 - w) && credits == creditsLeft - 1
    {
      ghost var tx := Outgoing(data, readLength);
      assert tx[..s + 1] == tx[..s] + [tx[s]];
      assert c0.frame + tx[..s + 1] == c0.frame + tx[..s] + [tx[s]];
      w, writeZeros, credits := written, zerosLeft, creditsLeft - 1;
      if w < |data| {
        w := w + 1;
        WriteTx(data[w - 1]);
      } else if writeZeros > 0 {
        writeZeros := writeZeros - 1;
        WriteTx(0);
      } else {
        credits := -1024;
      }
    }

    /** Take a reply in: drop it while replies to the data are due, else keep it. */
    method ReceiveNext(ghost c0: Chip, ghost data: seq<byte>, ghost readLength: nat, ghost g: nat,
                       ignoreLeft: int, received: seq<byte>)
      returns (readIgnore: int, readData: seq<byte>)
      requires Exchanged(c0, Outgoing(data, readLength), g + 1, g) && g < |data| + readLength
      requires ignoreLeft == |data| - Min(g, |data|)
      requires received == Replies(c0.(frame := c0.frame + data), Max(0, g - |data|))
      modifies this`waiting
      ensures Exchanged(c0, Outgoing(data, readLength), g + 1, g + 1)
      ensures readIgnore == |data| - Min(g + 1, |data|)
      ensures readData == Replies(c0.(frame := c0.frame + data), Max(0, g + 1 - |data|))
    {
      readIgnore, readData := ignoreLeft, received;
      var rxData := ReadRx();
      if readIgnore > 0 {
        readIgnore := readIgnore - 1;
      } else {
        NextReply(c0, data, readLength, g + 1);
        readData := readData + [rxData];
      }
    }

    /** One transaction: send the data, then clock in readLength bytes.  At most one byte is ever
        under way, the replies to the data are dropped, and the loop always ends. */
    method Command(data: seq<byte>, readLength: nat, merge: bool) returns (readData: seq<byte>)
      requires Valid() && |data| + readLength > 0
      modifies this
      ensures Valid()
      ensures readData == Replies(old(chip).(frame := old(chip.frame) + data), readLength)
      ensures var full := old(chip).(frame := old(chip.frame) + Outgoing(data, readLength));
              chip == if merge then full else Release(full, latency(old(releases)))
      ensures releases == old(releases) + if merge then 0 else 1
    {
      readData := Exchange(data, readLength);
      AwaitTransmitted();
      if !merge {
        Deselect();
      }
    }

    /** The credit loop. */
    method Exchange(data: seq<byte>, readLength: nat) returns (readData: seq<byte>)
      requires Valid() && |data| + readLength > 0
      modifies this`chip, this`waiting, this`rx, this`time
      ensures Valid()
      ensures readData == Replies(old(chip).(frame := old(chip.frame) + data), readLength)
      ensures chip == old(chip).(frame := old(chip.frame) + Outgoing(data, readLength))
    {
      ghost var c0, tx := chip, Outgoing(data, readLength);
      ghost var s, g := 0, 0;
      var w, writeZeros, readIgnore, credits := 0, readLength, |data|, 1;
      readData := [];
      var stale := ReadRx();
      assert c0.frame + tx[..0] == c0.frame;
      while true
        invariant Exchanged(c0, tx, s, g) && g < |tx| && credits == g + 1 - s
        invariant w == Min(s, |data|) && writeZeros == readLength - (s - w)
        invariant readIgnore == |data| - Min(g, |data|)
        invariant readData == Replies(c0.(frame := c0.frame + data), Max(0, g - |data|))
        decreases 2 * (|tx| - g) + credits
      {
        var status := AwaitReady(credits);
        if status.trdy && credits > 0 {
          w, writeZeros, credits := SendNext(c0, data, readLength, s, w, writeZeros, credits);
          s := s + 1;
        }
        if status.rrdy {
          readIgnore, readData := ReceiveNext(c0, data, readLength, g, readIgnore, readData);
          credits := credits + 1;
          g := g + 1;
          if readIgnore == 0 && |readData| == readLength {
            break;
          }
        }
      }
      assert tx[..|tx|] == tx;
    }

    /** The reply to the last byte sent is the next byte to be read. */
    static lemma NextReply(c0: Chip, data: seq<byte>, readLength: nat, s: nat)
      requires c0.Valid() && |data| < s <= |data| + readLength
      ensures var c := c0.(frame := c0.frame + data);
              Replies(c, s - |data|) ==
              Replies(c, s - |data| - 1) + [Reply(c0.(frame := c0.frame + Outgoing(data, readLength)[..s]))]
    {
      OutgoingPrefix(data, readLength, s);
      assert c0.frame + (data + Zeros(s - |data|)) == c0.frame + data + Zeros(s - |data|);
    }
  }
}
