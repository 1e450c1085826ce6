/** Filling a PCAN-USB packet from the transmit FIFO. */
module PcanUsbEncode {
  import opened Can
  import opened PcanUsb
  import UsbPro
  import opened UsbProEncode

  /** Firmware before 4.1 does not know self reception. */
  function Sendable(revision: nat, m: TxMsg): TxMsg {
    if revision < 41 then m.(slf := false) else m
  }

  function Encoded(revision: nat, m: TxMsg): (f: seq<Byte>)
    requires |m.data| <= 8
    ensures 3 <= |f| <= 14
    ensures revision < 41 ==> |f| <= 13
  {
    FrameSize(Sendable(revision, m));
    FrameBytes(Sendable(revision, m), [])
  }

  ghost function Frames(revision: nat, ms: seq<TxMsg>): seq<Byte>
    requires Short(ms)
  {
    if ms == [] then [] else Encoded(revision, ms[0]) + Frames(revision, ms[1..])
  }

  lemma {:induction false} FramesAppend(revision: nat, ms: seq<TxMsg>, m: TxMsg)
    requires Short(ms) && |m.data| <= 8
    ensures Short(ms + [m])
    ensures Frames(revision, ms + [m]) == Frames(revision, ms) + Encoded(revision, m)
  {
    hide Encoded;
    if ms == [] {
      assert ms + [m] == [m] && Frames(revision, [m]) == Encoded(revision, m) + Frames(revision, []);
    } else {
      FramesAppend(revision, ms[1..], m);
      assert (ms + [m])[1..] == ms[1..] + [m];
    }
  }

  /** How many frames fit when filling stops `margin` bytes before the end of the packet. */
  ghost function Fit(revision: nat, margin: nat, size: nat, p: nat, fifo: seq<TxMsg>): (n: nat)
    requires Short(fifo)
    ensures n <= |fifo|
    decreases |fifo|
  {
    if fifo == [] || p >= size - margin then 0
    else 1 + Fit(revision, margin, size, p + |Encoded(revision, fifo[0])|, fifo[1..])
  }

  /** Where those frames end. */
  ghost function End(revision: nat, margin: nat, size: nat, p: nat, fifo: seq<TxMsg>): nat
    requires Short(fifo)
  {
    p + |Frames(revision, fifo[..Fit(revision, margin, size, p, fifo)])|
  }

  lemma EndStep(revision: nat, margin: nat, size: nat, p: nat, fifo: seq<TxMsg>)
    requires Short(fifo) && fifo != [] && p < size - margin
    ensures End(revision, margin, size, p, fifo)
         == End(revision, margin, size, p + |Encoded(revision, fifo[0])|, fifo[1..])
  {
    var n := Fit(revision, margin, size, p, fifo);
    assert fifo[..n][1..] == fifo[1..][..n - 1];
  }

  lemma EndHere(revision: nat, margin: nat, size: nat, p: nat, fifo: seq<TxMsg>)
    requires Short(fifo) && (fifo == [] || p >= size - margin)
    ensures End(revision, margin, size, p, fifo) == p
  {
  }

  /** With the margin of 14 bytes, frames never reach the last byte of the packet, where the
      telegram counter goes; and filling only stops early when the FIFO is empty. */
  lemma {:induction false} FourteenIsEnough(revision: nat, size: nat, p: nat, fifo: seq<TxMsg>)
    requires Short(fifo) && 2 <= p < size
    ensures
      var end := End(revision, 14, size, p, fifo);
      end < size && (Fit(revision, 14, size, p, fifo) == |fifo| || end >= size - 14)
    decreases |fifo|
  {
    if fifo == [] || p >= size - 14 {
      EndHere(revision, 14, size, p, fifo);
    } else {
      EndStep(revision, 14, size, p, fifo);
      FourteenIsEnough(revision, size, p + |Encoded(revision, fifo[0])|, fifo[1..]);
    }
  }

  ghost predicate Overwrites(revision: nat, margin: nat, size: nat, fifo: seq<TxMsg>) {
    Short(fifo) && End(revision, margin, size, 2, fifo) >= size
  }

  /** Remote frames and short frames that fill exactly `n` bytes. */
  ghost function Filler(n: nat): (ms: seq<TxMsg>)
    requires n >= 3
    ensures Short(ms) && ms != []
  {
    if n < 6 then [TxMsg(0, false, false, false, false, false, seq(n - 3, i => 0))]
    else [TxMsg(0, false, false, false, false, false, [])] + Filler(n - 3)
  }

  const LONGEST := TxMsg(0, true, false, true, false, false, [0, 0, 0, 0, 0, 0, 0, 0])

  lemma FillerFirst(revision: nat, n: nat)
    requires n >= 3
    ensures |Encoded(revision, Filler(n)[0])| == if n < 6 then n else 3
    ensures Filler(n)[1..] == if n < 6 then [] else Filler(n - 3)
  {
    var m := Filler(n)[0];
    assert Body(Sendable(revision, m), CLIENT) == m.data;
  }

  lemma {:induction false} FillerEnds(revision: nat, size: nat, p: nat, n: nat)
    requires revision >= 41 && n >= 3 && p + n == size - 14
    ensures Short(Filler(n) + [LONGEST]) && End(revision, 13, size, p, Filler(n) + [LONGEST]) == size
    decreases n
  {
    hide End, Encoded, Filler;
    var fifo := Filler(n) + [LONGEST];
    FillerFirst(revision, n);
    EndStep(revision, 13, size, p, fifo);
    assert fifo[1..] == Filler(n)[1..] + [LONGEST];
    if n < 6 {
      assert fifo[1..] == [LONGEST];
      LongestEnds(revision, size);
    } else {
      FillerEnds(revision, size, p + 3, n - 3);
    }
  }

  lemma LongestEnds(revision: nat, size: nat)
    requires revision >= 41 && size >= 14
    ensures Short([LONGEST]) && End(revision, 13, size, size - 14, [LONGEST]) == size
  {
    FrameSize(LONGEST);
    EndStep(revision, 13, size, size - 14, [LONGEST]);
    EndHere(revision, 13, size, size, []);
    assert [LONGEST][1..] == [];
  }

  lemma {:induction false} OldFirmwareFits(revision: nat, size: nat, p: nat, fifo: seq<TxMsg>)
    requires Short(fifo) && revision < 41 && 2 <= p < size
    ensures End(revision, 13, size, p, fifo) < size
    decreases |fifo|
  {
    if fifo == [] || p >= size - 13 {
      EndHere(revision, 13, size, p, fifo);
    } else {
      EndStep(revision, 13, size, p, fifo);
      OldFirmwareFits(revision, size, p + |Encoded(revision, fifo[0])|, fifo[1..]);
    }
  }

  /** In a small packet one frame closes the margin of 13 bytes. */
  lemma SmallPacketFits(revision: nat, size: nat, fifo: seq<TxMsg>)
    requires Short(fifo) && 3 <= size < 19 && size != 16
    ensures End(revision, 13, size, 2, fifo) < size
  {
    if fifo == [] || 2 >= size - 13 {
      EndHere(revision, 13, size, 2, fifo);
    } else {
      EndStep(revision, 13, size, 2, fifo);
      EndHere(revision, 13, size, 2 + |Encoded(revision, fifo[0])|, fifo[1..]);
    }
  }

  /** One byte less would not do: with firmware that knows self reception, and packets of
      16 or of 19 bytes and more, some FIFO then fills the last byte of the packet. */
  lemma ThirteenIsTooFew(revision: nat, size: nat)
    requires size >= 3
    ensures (exists fifo :: Overwrites(revision, 13, size, fifo))
        <==> revision >= 41 && (size == 16 || size >= 19)
  {
    hide End;
    if revision < 41 {
      forall fifo | Short(fifo) ensures !Overwrites(revision, 13, size, fifo) {
        OldFirmwareFits(revision, size, 2, fifo);
      }
    } else if size == 16 {
      LongestEnds(revision, size);
      assert Overwrites(revision, 13, size, [LONGEST]);
    } else if size < 19 {
      forall fifo | Short(fifo) ensures !Overwrites(revision, 13, size, fifo) {
        SmallPacketFits(revision, size, fifo);
      }
    } else {
      FillerEnds(revision, size, 2, size - 16);
      assert Overwrites(revision, 13, size, Filler(size - 16) + [LONGEST]);
    }
  }

  /** A packet of `size` bytes with `ms` in it. */
  ghost predicate IsTelegram(revision: nat, ms: seq<TxMsg>, counter: nat, size: nat, b: seq<Byte>) {
    && Short(ms) && |b| == size && 2 + |Frames(revision, ms)| < size
    && b[0] == 2 && b[1] == |ms| % 0x100
    && b[2..2 + |Frames(revision, ms)|] == Frames(revision, ms)
    && b[size - 1] == counter % 0x100
  }

  lemma FitStep(revision: nat, size: nat, p: nat, fifo: seq<TxMsg>)
    requires Short(fifo)
    ensures fifo == [] || p >= size - 14 ==> Fit(revision, 14, size, p, fifo) == 0
    ensures fifo != [] && p < size - 14 ==>
      Fit(revision, 14, size, p, fifo) == 1 + Fit(revision, 14, size, p + |Encoded(revision, fifo[0])|, fifo[1..])
  {
  }

  lemma NoFrames(revision: nat, fifo: seq<TxMsg>)
    ensures Frames(revision, fifo[..0]) == []
  {
  }

  /** Copies a frame behind the frames that stand from byte 2 to `p`. */
  method Append(buf: array<Byte>, p: nat, f: seq<Byte>)
    requires 2 <= p && p + |f| <= buf.Length
    modifies buf
    ensures buf[..2] == old(buf[..2]) && buf[2..p + |f|] == old(buf[2..p]) + f
    ensures buf[p + |f|..] == old(buf[p + |f|..])
  {
    Store(buf, p, f);
  }

  class PcanUsbPort {
    const revision: nat
    var writeFifo: seq<TxMsg>
    var telegramCount: nat
    var txFramesCounter: nat

    constructor (revision: nat)
      ensures this.revision == revision && writeFifo == [] && telegramCount == 0 && txFramesCounter == 0
    {
      this.revision, writeFifo, telegramCount, txFramesCounter := revision, [], 0, 0;
    }

    /** pcan_usb_EncodeMessage into the first `size` bytes of `buf`. */
    method EncodeMessage(buf: array<Byte>, size: nat) returns (err: Errno, len: nat, ghost taken: nat)
      requires 2 <= size <= buf.Length && Short(writeFifo)
      modifies this`writeFifo, this`telegramCount, this`txFramesCounter, buf
      ensures taken == Fit(revision, 14, size, 2, old(writeFifo))
      ensures writeFifo == old(writeFifo)[taken..]
      ensures len == if taken > 0 then size else 0
      ensures taken > 0 ==>
        IsTelegram(revision, old(writeFifo)[..taken], old(telegramCount), size, buf[..size])
      ensures telegramCount == old(telegramCount) + if taken > 0 then 1 else 0
      ensures txFramesCounter == old(txFramesCounter) + taken
      ensures buf[size..] == old(buf[size..])
      ensures err == ENODATA ==> writeFifo == []
      ensures err == OK || err == ENODATA
    {
      hide Encoded, Frames, Fit;
      ghost var fifo := writeFifo;
      NoFrames(revision, fifo);
      err, len, taken := OK, 0, 0;
      buf[0] := 2;
      var p, n := 2, 0;
      while p < size - 14
        invariant taken == n <= |fifo| && writeFifo == fifo[n..] && Short(writeFifo) && Short(fifo[..n])
        invariant 2 <= p < size || n == 0
        invariant p == 2 + |Frames(revision, fifo[..n])| <= size
        invariant buf[..2][0] == 2 && buf[2..p] == Frames(revision, fifo[..n])
        invariant n + Fit(revision, 14, size, p, writeFifo) == Fit(revision, 14, size, 2, fifo)
        invariant buf[size..] == old(buf[size..])
        invariant n == 0 <==> p == 2
        decreases |writeFifo|
        modifies this`writeFifo, buf
      {
        FitStep(revision, size, p, writeFifo);
        if writeFifo == [] {
          err := ENODATA;
          break;
        }
        var tx := writeFifo[0];
        writeFifo := writeFifo[1..];
        var f := Encoded(revision, tx);
        ghost var before := buf[..];
        Append(buf, p, f);
        FramesAppend(revision, fifo[..n], tx);
        assert fifo[..n + 1] == fifo[..n] + [tx];
        UsbPro.TailsAgree(before, buf[..], p + |f|, size);
        p, n, taken := p + |f|, n + 1, taken + 1;
      }
      FitStep(revision, size, p, writeFifo);
      ghost var frames := buf[2..p];
      if p > 2 {
        len := size;
        buf[size - 1] := telegramCount % 0x100;
        telegramCount := telegramCount + 1;
        buf[1] := n % 0x100;
        assert buf[..size][2..p] == frames;
        txFramesCounter := txFramesCounter + n;
      } else {
        buf[1] := 0;
      }
    }
  }

  lemma {:induction false} FramesLong(revision: nat, ms: seq<TxMsg>)
    requires Short(ms)
    ensures |Frames(revision, ms)| >= 3 * |ms|
  {
    if ms != [] {
      FramesLong(revision, ms[1..]);
    }
  }

  /** A telegram that the device returns with its time stamps in it is decoded into the
      frames it was made of. Telegrams of up to 768 bytes count their frames in a byte. */
  lemma EchoedTelegramReadsBack(revision: nat, fails: Event -> bool, ms: seq<TxMsg>, counter: nat, size: nat,
                                b: seq<Byte>, stamps: seq<Stamp>, echo: seq<Byte>)
    requires revision >= 41 && size <= 768 && IsTelegram(revision, ms, counter, size, b)
    requires AllInRange(ms) && |stamps| == |ms| && StampedFrom(stamps, 0)
    requires echo == b[..2] + Echo(ms, stamps, 0)
    requires forall e <- AllReceived(ms, stamps) :: !fails(e)
    ensures Rounds(revision, fails, echo, 2, 0, At(echo, 1)) == Telegram(AllReceived(ms, stamps), Decoded)
  {
    hide Echo, Frames, InRange, Rounds, AllReceived, StampOk;
    FramesLong(revision, ms);
    assert At(echo, 1) == |ms|;
    HoldsBehind(b[..2], Echo(ms, stamps, 0));
    EchoRoundTrip(revision, fails, ms, stamps, 0, echo, 2);
  }
}
