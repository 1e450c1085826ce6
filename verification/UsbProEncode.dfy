/** Encoding of queued frames into the packets of a PCAN-USB Pro URB, and what a reader
    of the record stream gets back. */
module UsbProEncode {
  import opened Can
  import opened Common
  import opened UsbPro

  // ---------------------------------------------------------------- records

  const TX_8: Byte := 0x41
  const TX_4: Byte := 0x42
  const TX_0: Byte := 0x43

  function Le32(x: Word): (b: seq<Byte>)
    ensures |b| == 4
  {
    [x % 0x100, x / 0x100 % 0x100, x / 0x1_0000 % 0x100, x / 0x100_0000]
  }

  function RecType(m: TxMsg): Byte {
    if m.rtr || |m.data| == 0 then TX_0 else if |m.data| <= 4 then TX_4 else TX_8
  }

  /** Bytes copied from the message's data array, whose unused part is taken as zero. */
  function Payload(m: TxMsg): (b: seq<Byte>)
    requires |m.data| <= 8
    ensures |b| == SizeOf(RecType(m)) - 8
  {
    var n := SizeOf(RecType(m)) - 8;
    seq(n, i requires 0 <= i < n => if i < |m.data| then m.data[i] else 0)
  }

  function FlagBits(m: TxMsg): Byte {
    (if m.ext then 2 else 0) + (if m.rtr then 1 else 0) + (if m.slf then 4 else 0)
  }

  function Client(m: TxMsg): Byte { if m.slf then 0x80 else 0 }

  function LenByte(channel: nat, m: TxMsg): Byte
    requires channel < 16
  {
    channel * 16 + |m.data| % 16
  }

  /** One transmit record. */
  function Encode(channel: nat, m: TxMsg): (r: Rec)
    requires channel < 16 && |m.data| <= 8
    ensures |r| == SizeOf(RecType(m)) && r[0] == RecType(m)
  {
    [RecType(m), Client(m), FlagBits(m), LenByte(channel, m)] + Le32(m.id) + Payload(m)
  }

  /** What the device learns about a frame: remote frames carry no data, and the
      single-shot bit is not sent. */
  datatype Wire = Wire(channel: nat, id: nat, ext: bool, rtr: bool, slf: bool, len: nat, data: seq<Byte>)

  function OnWire(channel: nat, m: TxMsg): Wire {
    Wire(channel, m.id, m.ext, m.rtr, m.slf, |m.data|, if m.rtr then [] else m.data)
  }

  predicate IsTransmit(r: Rec) {
    |r| >= 8 && |r| == SizeOf(r[0]) && (r[0] == TX_8 || r[0] == TX_4 || r[0] == TX_0)
  }

  /** Reading a transmit record back by the layout of struct pcan_usbpro_canmsg_tx. */
  function Decode(r: Rec): Wire
    requires IsTransmit(r)
  {
    var len, rtr := r[3] % 16, r[2] % 2 == 1;
    Wire(r[3] / 16, U32(r, 4), r[2] / 2 % 2 == 1, rtr, r[1] >= 0x80 && r[2] / 4 % 2 == 1, len,
         if rtr || 8 + len > |r| then [] else r[8..8 + len])
  }

  lemma Le32Reads(x: Word, r: seq<Byte>, at: nat)
    requires |r| >= at + 4 && r[at..at + 4] == Le32(x)
    ensures U32(r, at) == x
  {
    BytesOfWord(x);
    var le := r[at..at + 4];
    assert r[at] == le[0] && r[at + 1] == le[1] && r[at + 2] == le[2] && r[at + 3] == le[3];
  }

  lemma HeaderReadsBack(channel: nat, m: TxMsg)
    requires channel < 16 && |m.data| <= 8
    ensures
      var flags, len := FlagBits(m), LenByte(channel, m);
      && (flags / 2 % 2 == 1 <==> m.ext) && (flags % 2 == 1 <==> m.rtr) && (flags / 4 % 2 == 1 <==> m.slf)
      && len % 16 == |m.data| && len / 16 == channel
  {
  }

  /** Every record reads back as the frame it was made of. */
  lemma RecordRoundTrip(channel: nat, m: TxMsg)
    requires channel < 16 && |m.data| <= 8
    ensures Decode(Encode(channel, m)) == OnWire(channel, m)
  {
    hide U32, Le32, FlagBits, LenByte;
    var r := Encode(channel, m);
    HeaderReadsBack(channel, m);
    assert r[1] == Client(m) && r[2] == FlagBits(m) && r[3] == LenByte(channel, m);
    assert r[4..8] == Le32(m.id);
    Le32Reads(m.id, r, 4);
    if !m.rtr {
      assert r[8..8 + |m.data|] == m.data;
    }
  }

  /** A frame gets the smallest record that holds its data, filled up with zeroes; remote frames
      carry none. The client's byte tells self reception. */
  lemma RecordIsSmallest(channel: nat, m: TxMsg, ty: Byte)
    requires channel < 16 && |m.data| <= 8 && (ty == TX_0 || ty == TX_4 || ty == TX_8)
    ensures
      var r, n := Encode(channel, m), if m.rtr then 0 else |m.data|;
      && 8 + n <= |r| && (SizeOf(ty) < |r| ==> SizeOf(ty) < 8 + n)
      && (!m.rtr ==> forall i :: 8 + n <= i < |r| ==> r[i] == 0)
      && r[1] == if m.slf then 0x80 else 0
  {
  }

  // ---------------------------------------------------------------- packets

  lemma {:induction false} ConcatAppend(recs: seq<Rec>, r: Rec)
    ensures Concat(recs + [r]) == Concat(recs) + r
  {
    if recs == [] {
      assert recs + [r] == [r] && Concat([r]) == r + Concat([]);
    } else {
      ConcatAppend(recs[1..], r);
      assert (recs + [r])[1..] == recs[1..] + [r];
    }
  }

  /** Records whose first byte tells their length. */
  ghost predicate Sized(recs: seq<Rec>) {
    forall i :: 0 <= i < |recs| ==> |recs[i]| > 0 && SizeOf(recs[i][0]) == |recs[i]|
  }

  lemma FirstAndRest(b: seq<Byte>, off: nat, r: seq<Byte>, rest: seq<Byte>)
    requires off <= |b| && b[off..] == r + rest
    ensures off + |r| <= |b| && b[off..off + |r|] == r && b[off + |r|..] == rest
    ensures r != [] ==> b[off] == r[0]
  {
    assert b[off..off + |r|] == b[off..][..|r|];
    assert b[off + |r|..] == b[off..][|r|..];
    if r != [] {
      assert b[off] == b[off..][0];
    }
  }

  /** Walking over concatenated records visits exactly them and ends exactly behind. */
  lemma {:induction false} WalkOverConcat(b: seq<Byte>, off: nat, recs: seq<Rec>)
    requires Sized(recs) && off <= |b| && b[off..] == Concat(recs)
    ensures WellFormed(b, off, |recs|)
    ensures EndOf(b, off, |recs|) == |b| && Records(b, off, |recs|) == recs
    decreases |recs|
  {
    hide SizeOf;
    if recs != [] {
      var r := recs[0];
      FirstAndRest(b, off, r, Concat(recs[1..]));
      WalkOverConcat(b, off + |r|, recs[1..]);
    }
  }

  /** The frames that are sent; status messages are dropped on the way. */
  function Sent(fifo: seq<TxMsg>): seq<TxMsg> {
    if fifo == [] then []
    else (if fifo[0].status then [] else [fifo[0]]) + Sent(fifo[1..])
  }

  lemma {:induction false} SentAppend(fifo: seq<TxMsg>, m: TxMsg)
    ensures Sent(fifo + [m]) == Sent(fifo) + if m.status then [] else [m]
  {
    if fifo == [] {
      assert fifo + [m] == [m] && Sent([m]) == (if m.status then [] else [m]) + Sent([]);
    } else {
      SentAppend(fifo[1..], m);
      assert (fifo + [m])[1..] == fifo[1..] + [m];
    }
  }

  ghost predicate Short(fifo: seq<TxMsg>) {
    forall m :: m in fifo ==> |m.data| <= 8
  }

  lemma {:induction false} SentShort(fifo: seq<TxMsg>)
    requires Short(fifo)
    ensures Short(Sent(fifo)) && |Sent(fifo)| <= |fifo|
  {
    if fifo != [] {
      SentShort(fifo[1..]);
    }
  }

  function EncodeAll(channel: nat, ms: seq<TxMsg>): (recs: seq<Rec>)
    requires channel < 16 && forall m :: m in ms ==> |m.data| <= 8
    ensures |recs| == |ms|
    ensures forall i :: 0 <= i < |ms| ==> recs[i] == Encode(channel, ms[i])
  {
    if ms == [] then [] else [Encode(channel, ms[0])] + EncodeAll(channel, ms[1..])
  }

  /** A packet: the record counter and the records of the sent frames. */
  ghost predicate IsPacket(channel: nat, fifo: seq<TxMsg>, b: seq<Byte>) {
    && channel < 16 && Short(Sent(fifo)) && |Sent(fifo)| < 0x1_0000_0000
    && b == Le32(|Sent(fifo)|) + Concat(EncodeAll(channel, Sent(fifo)))
  }

  /** The device, walking such a packet with the size table, visits as many records as the
      counter says, stops exactly at its end, and gets the sent frames back in order. */
  lemma PacketReadsBack(channel: nat, fifo: seq<TxMsg>, b: seq<Byte>)
    requires IsPacket(channel, fifo, b)
    ensures
      var frames := Sent(fifo);
      && |b| >= 4 && U32(b, 0) == |frames| && WellFormed(b, 4, |frames|)
      && EndOf(b, 4, |frames|) == |b|
      && var recs := Records(b, 4, |frames|);
         forall i :: 0 <= i < |frames| ==>
           IsTransmit(recs[i]) && Decode(recs[i]) == OnWire(channel, frames[i])
  {
    hide U32, SizeOf, Decode, OnWire;
    var frames := Sent(fifo);
    var recs := EncodeAll(channel, frames);
    assert b[4..] == Concat(recs) && b[0..4] == Le32(|frames|);
    Le32Reads(|frames|, b, 0);
    WalkOverConcat(b, 4, recs);
    forall i | 0 <= i < |frames|
      ensures IsTransmit(recs[i]) && Decode(recs[i]) == OnWire(channel, frames[i])
    {
      EncodeIsTransmit(channel, frames[i]);
      RecordRoundTrip(channel, frames[i]);
    }
  }

  lemma EncodeIsTransmit(channel: nat, m: TxMsg)
    requires channel < 16 && |m.data| <= 8
    ensures IsTransmit(Encode(channel, m))
  {
  }

  lemma {:induction false} EncodeAllAppend(channel: nat, ms: seq<TxMsg>, m: TxMsg)
    requires channel < 16 && Short(ms) && |m.data| <= 8
    ensures Short(ms + [m])
    ensures EncodeAll(channel, ms + [m]) == EncodeAll(channel, ms) + [Encode(channel, m)]
  {
    if ms == [] {
      assert ms + [m] == [m] && EncodeAll(channel, [m]) == [Encode(channel, m)] + EncodeAll(channel, []);
    } else {
      EncodeAllAppend(channel, ms[1..], m);
      assert (ms + [m])[1..] == ms[1..] + [m];
    }
  }

  // ---------------------------------------------------------------- the encoder

  datatype Errno = OK | ENODATA | ENOSPC

  /** memcpy into a buffer. */
  method Store(buf: array<Byte>, at: nat, bytes: seq<Byte>)
    requires at + |bytes| <= buf.Length
    modifies buf
    ensures forall i :: 0 <= i < buf.Length ==>
      buf[i] == if at <= i < at + |bytes| then bytes[i - at] else old(buf[i])
  {
    forall i | 0 <= i < |bytes| {
      buf[at + i] := bytes[i];
    }
  }

  /** Two states of a buffer agree but from `at` to `end`. */
  ghost predicate Around(a: seq<Byte>, b: seq<Byte>, at: nat, end: nat) {
    at <= end <= |a| == |b| && a[..at] == b[..at] && a[end..] == b[end..]
  }

  lemma AroundNothing(a: seq<Byte>, at: nat, end: nat)
    requires at <= end <= |a|
    ensures Around(a, a, at, end)
  {
  }

  lemma AroundThen(a: seq<Byte>, b: seq<Byte>, c: seq<Byte>, at: nat, free: nat, end: nat)
    requires Around(a, b, at, end) && Around(b, c, at, free) && free <= end
    ensures Around(a, c, at, end)
  {
    TailsAgree(b, c, free, end);
  }

  lemma FirstStore(a: seq<Byte>, b: seq<Byte>, at: nat, end: nat)
    requires at + 4 <= end <= |a| == |b|
    requires forall i :: 0 <= i < |a| && !(at <= i < at + 4) ==> a[i] == b[i]
    ensures Around(a, b, at, end)
  {
  }

  class UsbProPort {
    const channel: nat
    var writeFifo: seq<TxMsg>
    var txFramesCounter: nat

    constructor (channel: nat)
      ensures this.channel == channel && writeFifo == [] && txFramesCounter == 0
    {
      this.channel, writeFifo, txFramesCounter := channel, [], 0;
    }

    /** pcan_usbpro_msg_add_rec for a transmit record: the bytes go behind the `recLen`
        bytes of the message at `at`, and its counter is bumped. */
    method AddRec(buf: array<Byte>, at: nat, recLen: nat, count: nat, m: TxMsg, ghost done: seq<TxMsg>)
      returns (len: nat)
      requires channel < 16 && |m.data| <= 8 && Short(done) && count == |done| < 0xffff_ffff
      requires 4 <= recLen && at + recLen + 16 <= buf.Length
      requires buf[at..at + recLen] == Le32(|done|) + Concat(EncodeAll(channel, done))
      modifies buf
      ensures Short(done + [m]) && recLen + 8 <= len <= recLen + 16
      ensures buf[at..at + len] == Le32(|done| + 1) + Concat(EncodeAll(channel, done + [m]))
      ensures Around(old(buf[..]), buf[..], at, at + recLen + 16)
    {
      hide SizeOf, Le32, Concat, EncodeAll, Encode;
      var rec := Encode(channel, m);
      RecSize(channel, m);
      ghost var before := buf[..];
      Store(buf, at + recLen, rec);
      Store(buf, at, Le32(count + 1));
      len := recLen + |rec|;
      EncodeAllAppend(channel, done, m);
      ConcatAppend(EncodeAll(channel, done), rec);
      TwoStores(before, buf[..], at, recLen, Le32(count + 1), rec);
      assert before[at..at + recLen][4..] == Concat(EncodeAll(channel, done));
      assert buf[at..at + len] == buf[..][at..at + len];
    }

    /** pcan_usbpro_msg_encode into the `size` bytes at `at`: `taken` frames leave the
        FIFO, and the buffer holds the packet of those of them that are sent. */
    method MsgEncode(buf: array<Byte>, at: nat, size: nat) returns (err: Errno, len: nat, ghost taken: nat)
      requires channel < 16 && at + size <= buf.Length && size < 0x1_0000_0000
      requires Short(writeFifo) && |writeFifo| < 0xffff_ffff
      modifies this`writeFifo, this`txFramesCounter, buf
      ensures taken <= |old(writeFifo)| && writeFifo == old(writeFifo)[taken..]
      ensures len <= size && (len == 0 <==> Sent(old(writeFifo)[..taken]) == [])
      ensures len > 0 ==> IsPacket(channel, old(writeFifo)[..taken], buf[at..at + len]) && len < size
      ensures Around(old(buf[..]), buf[..], at, at + size)
      ensures txFramesCounter == old(txFramesCounter) + |Sent(old(writeFifo)[..taken])|
      ensures err == ENODATA ==> writeFifo == []
      ensures err == ENOSPC <==> old(writeFifo) != [] && size < 16
      ensures err == OK && size > 20 ==> taken > 0 && len + 16 >= size
    {
      hide SizeOf, Le32, Sent, Concat, EncodeAll, Around;
      len, taken := 0, 0;
      ghost var fifo, base, done: seq<TxMsg> := writeFifo, buf[..], [];
      SentNone();
      AroundNothing(base, at, at + size);
      if writeFifo == [] {
        return ENODATA, len, taken;
      }
      if size < 16 {
        return ENOSPC, len, taken;
      }
      err := OK;
      Store(buf, at, Le32(0));
      var recLen, highWater, n := 4, size - 16, 0;
      FirstStore(base, buf[..], at, at + size);
      EmptyPacket(channel, buf[at..at + 4]);
      while recLen < highWater
        invariant taken <= |fifo| && writeFifo == fifo[taken..] && Short(writeFifo)
        invariant done == Sent(fifo[..taken]) && Short(done) && n == |done| <= taken
        invariant 4 <= recLen && recLen <= at + recLen <= at + size && (n == 0 ==> recLen == 4)
        invariant n > 0 ==> recLen < size
        invariant buf[at..at + recLen] == Le32(|done|) + Concat(EncodeAll(channel, done))
        invariant Around(base, buf[..], at, at + size)
        invariant txFramesCounter == old(txFramesCounter) + n
        invariant taken == 0 ==> recLen == 4
        decreases |writeFifo|
      {
        if writeFifo == [] {
          err := ENODATA;
          break;
        }
        var tx := writeFifo[0];
        writeFifo := writeFifo[1..];
        assert fifo[..taken + 1] == fifo[..taken] + [tx];
        SentAppend(fifo[..taken], tx);
        taken := taken + 1;
        if tx.status {
          continue;
        }
        ghost var was, free := buf[..], at + recLen + 16;
        recLen := AddRec(buf, at, recLen, n, tx, done);
        AroundThen(base, was, buf[..], at, free, at + size);
        done, n := done + [tx], n + 1;
        txFramesCounter := txFramesCounter + 1;
      }
      len := if n == 0 then 0 else recLen;
    }
  }

  lemma RecSize(channel: nat, m: TxMsg)
    requires channel < 16 && |m.data| <= 8
    ensures 8 <= |Encode(channel, m)| <= 16
  {
  }

  lemma SentNone()
    ensures forall fifo: seq<TxMsg> :: Sent(fifo[..0]) == []
  {
  }

  lemma EmptyPacket(channel: nat, b: seq<Byte>)
    requires channel < 16
    ensures Short([]) && Le32(0) + Concat(EncodeAll(channel, [])) == Le32(0)
  {
  }

  /** A record stored behind a message and a header stored over its first four bytes. */
  lemma TwoStores(a: seq<Byte>, c: seq<Byte>, at: nat, len: nat, head: seq<Byte>, rec: seq<Byte>)
    requires |a| == |c| && 4 <= len && |head| == 4 && at + len + |rec| <= |a|
    requires forall i :: 0 <= i < |a| ==>
      c[i] == if at <= i < at + 4 then head[i - at]
              else if at + len <= i < at + len + |rec| then rec[i - at - len] else a[i]
    ensures c[at..at + len + |rec|] == head + a[at..at + len][4..] + rec
    ensures c[..at] == a[..at] && c[at + len + |rec|..] == a[at + len + |rec|..]
  {
  }
}
