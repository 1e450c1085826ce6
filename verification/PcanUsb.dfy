/** The telegrams of the PCAN-USB: a type byte, a frame count, and frames with a
    status/length byte, a shifted identifier, a time stamp on the way back, and data. */
module PcanUsb {
  import opened Can

  // ---------------------------------------------------------------- one frame

  function StatusLen(m: TxMsg): Byte
    requires |m.data| < 16
  {
    |m.data| + (if m.rtr then 0x10 else 0) + (if m.ext then 0x20 else 0)
  }

  /** The identifier as it stands in the SJA1000 registers, in 32 bits; bit 0 asks for
      self reception. */
  function ShiftedId(m: TxMsg): Word {
    (if m.ext then m.id * 8 else m.id * 32) % 0x1_0000_0000 + if m.slf then 1 else 0
  }

  function IdBytes(m: TxMsg): (b: seq<Byte>)
    ensures |b| == if m.ext then 4 else 2
  {
    var x := ShiftedId(m);
    if m.ext then [x % 0x100, x / 0x100 % 0x100, x / 0x1_0000 % 0x100, x / 0x100_0000]
    else [x % 0x100, x / 0x100 % 0x100]
  }

  /** Behind a self-received frame stands the handle of its client. */
  function Body(m: TxMsg, client: Byte): seq<Byte> {
    (if m.rtr then [] else m.data) + if m.slf then [client] else []
  }

  const CLIENT: Byte := 0x80

  /** What a valid CAN 2.0 frame meets; pcanfd_send_msg enforces the length. */
  predicate InRange(m: TxMsg) {
    |m.data| <= 8 && Received(m)
  }

  /** A received frame may tell a length of up to 15 bytes. */
  predicate Received(m: TxMsg) {
    |m.data| < 16 && m.id < if m.ext then 0x2000_0000 else 0x800
  }

  /** A frame as sent, and as it comes back with a time stamp behind its identifier. */
  function FrameBytes(m: TxMsg, stamp: seq<Byte>): seq<Byte>
    requires |m.data| <= 8
  {
    FrameLayout(m, stamp, CLIENT)
  }

  function FrameLayout(m: TxMsg, stamp: seq<Byte>, client: Byte): seq<Byte>
    requires |m.data| < 16
  {
    [StatusLen(m)] + IdBytes(m) + stamp + Body(m, client)
  }

  /** No frame is longer than 14 bytes. */
  lemma FrameSize(m: TxMsg)
    requires |m.data| <= 8
    ensures 3 <= |FrameBytes(m, [])| <= 14
    ensures |FrameBytes(m, [])| == 14 <==> m.ext && m.slf && !m.rtr && |m.data| == 8
  {
  }

  // ---------------------------------------------------------------- decoding

  datatype Stamp = NoStamp | Stamp16(ticks: nat) | Stamp8(ticks: nat)

  /** A record of a received telegram. Status records carry a function and a number. */
  datatype Event =
    | Frame(id: nat, ext: bool, rtr: bool, slf: bool, len: nat, data: seq<Byte>, stamp: Stamp)
    | Status(fn: Byte, number: Byte, stamp: Stamp, payload: seq<Byte>)
    | Unexpected

  /** A byte of the receive buffer; what lies behind the transfer is unspecified, and any
      telegram that reaches there is rejected. */
  function At(b: seq<Byte>, i: nat): Byte { if i < |b| then b[i] else 0 }

  function Bytes(b: seq<Byte>, p: nat, n: nat): (r: seq<Byte>)
    ensures |r| == n
  {
    seq<Byte>(n, i requires 0 <= i < n => At(b, p + i))
  }

  /** The first time stamp of a telegram has 16 bits, the following ones have 8. */
  function ReadStamp(b: seq<Byte>, p: nat, ts8: nat): (Stamp, nat) {
    if ts8 == 0 then
      var lo: int, hi: int := At(b, p), At(b, p + 1);
      (Stamp16(lo + 0x100 * hi), p + 2)
    else
      (Stamp8(At(b, p)), p + 1)
  }

  /** Up to eight data bytes, the others being skipped, and zeroes behind them. */
  function Data(b: seq<Byte>, p: nat, n: nat): (r: seq<Byte>)
    ensures |r| == 8
  {
    seq<Byte>(8, i requires 0 <= i < 8 => var x: Byte := if i < n then At(b, p + i) else 0; x)
  }

  function LittleEndian(b: seq<Byte>, p: nat, wide: bool): nat {
    var b0: int, b1: int, b2: int, b3: int := At(b, p), At(b, p + 1), At(b, p + 2), At(b, p + 3);
    b0 + 0x100 * b1 + if wide then 0x1_0000 * b2 + 0x100_0000 * b3 else 0
  }

  datatype Turn = Turn(event: Event, next: nat, seen: nat)

  /** One round of pcan_usb_DecodeMessage at `p`: the record, the next position, and the
      number of time stamps seen. */
  function Round(revision: nat, b: seq<Byte>, p: nat, ts8: nat): Turn {
    var sl := At(b, p);
    var len := sl % 16;
    if sl / 0x40 % 2 == 0 then
      var rtr, ext := sl / 0x10 % 2 == 1, sl / 0x20 % 2 == 1;
      var slf := revision >= 41 && At(b, p + 1) % 2 == 1;
      var id := LittleEndian(b, p + 1, ext) / if ext then 8 else 32;
      var (stamp, q) := ReadStamp(b, p + 1 + (if ext then 4 else 2), ts8);
      var n := if rtr then 0 else len;
      Turn(Frame(id, ext, rtr, slf, if len > 8 then 8 else len, Data(b, q, n), stamp),
           q + n + (if slf then 1 else 0), ts8 + 1)
    else
      var fn, number := At(b, p + 1), At(b, p + 2);
      var stamped := sl / 0x80 == 1;
      var (stamp, q) := if stamped then ReadStamp(b, p + 3, ts8) else (NoStamp, p + 3);
      var seen := if stamped then ts8 + 1 else ts8;
      var n := match fn case 1 => len case 2 => 2 case 3 => 1 case 4 => 2 case 5 => len case _ => 0;
      if fn == 1 || fn == 2 || fn == 3 || fn == 4 || fn == 5 || fn == 10 then
        Turn(Status(fn, number, stamp, Bytes(b, q, n)), q + n, seen)
      else
        Turn(Unexpected, q, seen)
  }

  datatype Outcome = Decoded | OutOfSync | Refused | Overrun

  datatype Telegram = Telegram(events: seq<Event>, out: Outcome)

  /** The check for an overrun of the receive buffer; old firmware may use one byte more. */
  predicate RunsOver(revision: nat, b: seq<Byte>, p: nat) {
    p > |b| + if revision <= 3 then 1 else 0
  }

  /** The records of a telegram, and how its decoding ended; `fails` tells for which records
      the message made of them is refused, for instance because the read queue has overrun. */
  function Rounds(revision: nat, fails: Event -> bool, b: seq<Byte>, p: nat, ts8: nat, count: nat): Telegram
    decreases count
  {
    if count == 0 then Telegram([], Decoded)
    else
      var Turn(e, q, seen) := Round(revision, b, p, ts8);
      if e.Unexpected? then Telegram([], OutOfSync)
      else if fails(e) then Telegram([e], Refused)
      else if RunsOver(revision, b, q) then Telegram([e], Overrun)
      else
        var rest := Rounds(revision, fails, b, q, seen, count - 1);
        Telegram([e] + rest.events, rest.out)
  }

  /** What is still to come, behind the events so far, completes the telegram. */
  ghost predicate Completes(all: Telegram, events: seq<Event>, rest: Telegram) {
    all == Telegram(events + rest.events, rest.out)
  }

  lemma WholeCompletes(all: Telegram)
    ensures Completes(all, [], all)
  {
    assert [] + all.events == all.events;
  }

  /** What one more round does to a telegram of which `events` are decoded. */
  lemma Advance(all: Telegram, events: seq<Event>, revision: nat, fails: Event -> bool, b: seq<Byte>, p: nat,
                ts8: nat, left: nat)
    requires Completes(all, events, Rounds(revision, fails, b, p, ts8, left))
    ensures left == 0 ==> all == Telegram(events, Decoded)
    ensures left > 0 ==>
      var Turn(e, q, seen) := Round(revision, b, p, ts8);
      if e.Unexpected? then all == Telegram(events, OutOfSync)
      else if fails(e) then all == Telegram(events + [e], Refused)
      else if RunsOver(revision, b, q) then all == Telegram(events + [e], Overrun)
      else Completes(all, events + [e], Rounds(revision, fails, b, q, seen, left - 1))
  {
    hide Round, RunsOver;
    if left == 0 || Round(revision, b, p, ts8).event.Unexpected? {
      assert events + [] == events;
    } else {
      var Turn(e, q, seen) := Round(revision, b, p, ts8);
      if !fails(e) && !RunsOver(revision, b, q) {
        var rest := Rounds(revision, fails, b, q, seen, left - 1).events;
        assert events + ([e] + rest) == (events + [e]) + rest;
      }
    }
  }

  /** pcan_usb_DecodeMessage; the events are what the handlers of the records see. */
  method DecodeMessage(revision: nat, fails: Event -> bool, b: seq<Byte>) returns (events: seq<Event>, out: Outcome)
    ensures b == [] ==> events == [] && out == Decoded
    ensures b != [] ==> Telegram(events, out) == Rounds(revision, fails, b, 2, 0, At(b, 1))
  {
    hide Round, Rounds, RunsOver, At, Completes;
    events, out := [], Decoded;
    if b == [] {
      return;
    }
    var p, ts8, i, count: nat := 2, 0, 0, At(b, 1);
    ghost var all := Rounds(revision, fails, b, p, ts8, count);
    WholeCompletes(all);
    while i < count
      invariant 0 <= i <= count && out == Decoded
      invariant Completes(all, events, Rounds(revision, fails, b, p, ts8, count - i))
    {
      var Turn(e, q, seen) := Round(revision, b, p, ts8);
      Advance(all, events, revision, fails, b, p, ts8, count - i);
      if e.Unexpected? {
        return events, OutOfSync;
      }
      events, p, ts8, i := events + [e], q, seen, i + 1;
      if fails(e) {
        return events, Refused;
      }
      if RunsOver(revision, b, p) {
        return events, Overrun;
      }
    }
    Advance(all, events, revision, fails, b, p, ts8, 0);
  }

  // ---------------------------------------------------------------- echo

  /** Time stamps as the device adds them: 16 bits first, 8 bits then. */
  predicate StampOk(stamp: Stamp, ts8: nat) {
    if ts8 == 0 then stamp.Stamp16? && stamp.ticks < 0x1_0000
    else stamp.Stamp8? && stamp.ticks < 0x100
  }

  ghost predicate StampedFrom(stamps: seq<Stamp>, ts8: nat) {
    forall i :: 0 <= i < |stamps| ==> StampOk(stamps[i], i + ts8)
  }

  function StampBytes(stamp: Stamp, ts8: nat): (b: seq<Byte>)
    requires StampOk(stamp, ts8)
    ensures |b| == if ts8 == 0 then 2 else 1
  {
    if ts8 == 0 then [stamp.ticks % 0x100, stamp.ticks / 0x100] else [stamp.ticks]
  }

  ghost predicate AllInRange(ms: seq<TxMsg>) {
    forall i :: 0 <= i < |ms| ==> InRange(ms[i])
  }

  /** A frame with a time stamp put in behind its identifier, found by the bytes alone. */
  function Insert(f: seq<Byte>, stamp: seq<Byte>): seq<Byte>
    requires |f| >= 3 && (f[0] / 0x20 % 2 == 1 ==> |f| >= 5)
  {
    var k := if f[0] / 0x20 % 2 == 1 then 5 else 3;
    f[..k] + stamp + f[k..]
  }

  lemma InsertedStamp(m: TxMsg, stamp: seq<Byte>)
    requires |m.data| <= 8
    ensures
      var f := FrameBytes(m, []);
      && |f| >= 3 && (f[0] / 0x20 % 2 == 1 ==> |f| >= 5)
      && Insert(f, stamp) == FrameBytes(m, stamp)
  {
    hide IdBytes, Body;
    assert StatusLen(m) / 0x20 % 2 == 1 <==> m.ext;
    var f, k := FrameBytes(m, []), if m.ext then 5 else 3;
    assert f[..k] == [StatusLen(m)] + IdBytes(m) && f[k..] == Body(m, CLIENT);
  }

  /** The encoded frames of a telegram, each with its time stamp. */
  ghost function Echo(ms: seq<TxMsg>, stamps: seq<Stamp>, ts8: nat): seq<Byte>
    requires |ms| == |stamps| && AllInRange(ms) && StampedFrom(stamps, ts8)
  {
    if ms == [] then []
    else
      assert StampOk(stamps[0], 0 + ts8);
      assert forall i :: 0 <= i < |stamps[1..]| ==> StampOk(stamps[1..][i], (i + 1) + ts8);
      InsertedStamp(ms[0], StampBytes(stamps[0], ts8));
      Insert(FrameBytes(ms[0], []), StampBytes(stamps[0], ts8)) + Echo(ms[1..], stamps[1..], ts8 + 1)
  }

  const ZEROS: seq<Byte> := [0, 0, 0, 0, 0, 0, 0, 0]

  /** What is told of a frame: its first eight bytes, with zeroes behind them. */
  function FrameTold(m: TxMsg, stamp: Stamp): Event {
    var data := if m.rtr then [] else m.data;
    Frame(m.id, m.ext, m.rtr, m.slf, if |m.data| < 8 then |m.data| else 8, (data + ZEROS)[..8], stamp)
  }

  ghost function AllReceived(ms: seq<TxMsg>, stamps: seq<Stamp>): seq<Event>
    requires |ms| == |stamps| && AllInRange(ms)
  {
    seq(|ms|, i requires 0 <= i < |ms| => FrameTold(ms[i], stamps[i]))
  }

  lemma HeaderReadsBack(m: TxMsg)
    requires Received(m)
    ensures
      var sl := StatusLen(m);
      && sl / 0x40 % 2 == 0 && sl % 16 == |m.data|
      && (sl / 0x10 % 2 == 1 <==> m.rtr) && (sl / 0x20 % 2 == 1 <==> m.ext)
  {
  }

  /** The bytes `f` stand in the buffer from `p` on. */
  predicate Holds(b: seq<Byte>, p: nat, f: seq<Byte>) { p + |f| <= |b| && b[p..p + |f|] == f }

  /** A part of the buffer that holds two pieces holds each of them in its place. */
  lemma HoldsBoth(b: seq<Byte>, p: nat, x: seq<Byte>, y: seq<Byte>)
    requires Holds(b, p, x + y)
    ensures Holds(b, p, x) && Holds(b, p + |x|, y)
  {
    var s := b[p..p + |x| + |y|];
    assert b[p..p + |x|] == s[..|x|] && b[p + |x|..p + |x| + |y|] == s[|x|..];
  }

  lemma HoldsAt(b: seq<Byte>, p: nat, f: seq<Byte>, i: nat)
    requires Holds(b, p, f) && i < |f|
    ensures p + i < |b| && b[p + i] == At(b, p + i) == f[i]
  {
    assert b[p..p + |f|][i] == b[p + i];
  }

  lemma HoldsBehind(pre: seq<Byte>, f: seq<Byte>)
    ensures Holds(pre + f, |pre|, f)
  {
  }

  lemma WordReadsBack(x: Word, b: seq<Byte>, p: nat)
    requires Holds(b, p, [x % 0x100, x / 0x100 % 0x100, x / 0x1_0000 % 0x100, x / 0x100_0000])
    ensures LittleEndian(b, p, true) == x && At(b, p) == x % 0x100
  {
    BytesOfWord(x);
    var ids := [x % 0x100, x / 0x100 % 0x100, x / 0x1_0000 % 0x100, x / 0x100_0000];
    HoldsAt(b, p, ids, 0);
    HoldsAt(b, p, ids, 1);
    HoldsAt(b, p, ids, 2);
    HoldsAt(b, p, ids, 3);
  }

  lemma HalfReadsBack(x: Word, b: seq<Byte>, p: nat)
    requires x < 0x1_0000 && Holds(b, p, [x % 0x100, x / 0x100 % 0x100])
    ensures LittleEndian(b, p, false) == x && At(b, p) == x % 0x100
  {
    HoldsAt(b, p, [x % 0x100, x / 0x100 % 0x100], 0);
    HoldsAt(b, p, [x % 0x100, x / 0x100 % 0x100], 1);
  }

  lemma BitBelow(low: nat, bit: nat)
    requires bit < 2
    ensures (2 * low + bit) % 2 == bit
  {
  }

  lemma LowByte(high: nat, low: nat)
    requires low < 0x100
    ensures (0x100 * high + low) % 0x100 == low
  {
  }

  lemma Wide(high: nat, low: nat, bit: nat)
    requires low < 32 && high < 0x100_0000 && bit < 2
    ensures
      var id := 32 * high + low;
      id * 8 < 0x1_0000_0000 && (id * 8 + bit) / 8 == id && (id * 8 + bit) % 0x100 % 2 == bit
  {
    LowByte(high, 2 * (4 * low) + bit);
    BitBelow(4 * low, bit);
  }

  lemma Narrow(high: nat, low: nat, bit: nat)
    requires low < 8 && high < 0x100 && bit < 2
    ensures
      var id := 8 * high + low;
      id * 32 < 0x1_0000 && (id * 32 + bit) / 32 == id && (id * 32 + bit) % 0x100 % 2 == bit
  {
    LowByte(high, 2 * (16 * low) + bit);
    BitBelow(16 * low, bit);
  }

  lemma Unwrapped(x: nat)
    requires x < 0x1_0000_0000
    ensures x % 0x1_0000_0000 == x
  {
  }

  lemma ShiftedIs(m: TxMsg)
    requires Received(m)
    ensures ShiftedId(m) == (if m.ext then m.id * 8 else m.id * 32) + if m.slf then 1 else 0
  {
    Unwrapped(if m.ext then m.id * 8 else m.id * 32);
  }

  lemma ShiftedBack(m: TxMsg)
    requires Received(m)
    ensures
      var x := ShiftedId(m);
      && x / (if m.ext then 8 else 32) == m.id && (x % 0x100 % 2 == 1 <==> m.slf)
      && (!m.ext ==> x < 0x1_0000)
  {
    hide ShiftedId;
    ShiftedIs(m);
    var n := if m.ext then 32 else 8;
    var high, low, bit := m.id / n, m.id % n, if m.slf then 1 else 0;
    assert m.id == n * high + low;
    if m.ext {
      Wide(high, low, bit);
    } else {
      Narrow(high, low, bit);
    }
  }

  lemma IdReadsBack(m: TxMsg, b: seq<Byte>, p: nat)
    requires Received(m) && Holds(b, p, IdBytes(m))
    ensures LittleEndian(b, p, m.ext) / (if m.ext then 8 else 32) == m.id
    ensures At(b, p) % 2 == 1 <==> m.slf
  {
    ShiftedBack(m);
    hide ShiftedId, LittleEndian, At, Holds;
    if m.ext {
      WordReadsBack(ShiftedId(m), b, p);
    } else {
      HalfReadsBack(ShiftedId(m), b, p);
    }
  }

  lemma StampReadsBack(stamp: Stamp, ts8: nat, b: seq<Byte>, p: nat)
    requires StampOk(stamp, ts8) && Holds(b, p, StampBytes(stamp, ts8))
    ensures ReadStamp(b, p, ts8) == (stamp, p + |StampBytes(stamp, ts8)|)
  {
    HoldsAt(b, p, StampBytes(stamp, ts8), 0);
    if ts8 == 0 {
      HoldsAt(b, p, StampBytes(stamp, ts8), 1);
    }
  }

  lemma DataReadsBack(data: seq<Byte>, b: seq<Byte>, q: nat)
    requires Holds(b, q, data)
    ensures Data(b, q, |data|) == (data + ZEROS)[..8]
  {
    forall i | 0 <= i < |data|
      ensures At(b, q + i) == data[i]
    {
      HoldsAt(b, q, data, i);
    }
  }

  /** Where the pieces of a frame lie. */
  lemma FramePieces(m: TxMsg, st: seq<Byte>, client: Byte, b: seq<Byte>, p: nat)
    requires Received(m) && Holds(b, p, FrameLayout(m, st, client))
    ensures
      var ids, data := IdBytes(m), if m.rtr then [] else m.data;
      var q := p + 1 + |ids|;
      && |FrameLayout(m, st, client)| == 1 + |ids| + |st| + |Body(m, client)|
      && At(b, p) == StatusLen(m) && Holds(b, p + 1, ids) && Holds(b, q, st) && Holds(b, q + |st|, data)
  {
    var ids, data, slf := IdBytes(m), if m.rtr then [] else m.data, if m.slf then [client] else [];
    var q, body := p + 1 + |ids|, Body(m, client);
    assert FrameLayout(m, st, client) == [StatusLen(m)] + (ids + (st + body));
    assert body == data + slf;
    hide StatusLen, IdBytes, Body, FrameLayout, At, Holds;
    HoldsBoth(b, p, [StatusLen(m)], ids + (st + body));
    HoldsAt(b, p, [StatusLen(m)], 0);
    HoldsBoth(b, p + 1, ids, st + body);
    HoldsBoth(b, q, st, body);
    HoldsBoth(b, q + |st|, data, slf);
  }

  /** One round on a frame tells it and stops behind it. */
  lemma LayoutReadsBack(revision: nat, m: TxMsg, client: Byte, stamp: Stamp, ts8: nat, b: seq<Byte>, p: nat)
    requires (revision >= 41 || !m.slf) && Received(m) && StampOk(stamp, ts8)
    requires Holds(b, p, FrameLayout(m, StampBytes(stamp, ts8), client))
    ensures Round(revision, b, p, ts8)
         == Turn(FrameTold(m, stamp), p + |FrameLayout(m, StampBytes(stamp, ts8), client)|, ts8 + 1)
  {
    var st, ids, data := StampBytes(stamp, ts8), IdBytes(m), if m.rtr then [] else m.data;
    var q := p + 1 + |ids|;
    HeaderReadsBack(m);
    FramePieces(m, st, client, b, p);
    hide StatusLen, ShiftedId, LittleEndian, ReadStamp, StampBytes, Data, Holds;
    IdReadsBack(m, b, p + 1);
    StampReadsBack(stamp, ts8, b, q);
    DataReadsBack(data, b, q + |st|);
  }

  /** One round on an echoed frame gives the frame back and stops behind it. */
  lemma FrameReadsBack(revision: nat, m: TxMsg, stamp: Stamp, ts8: nat, b: seq<Byte>, p: nat)
    requires revision >= 41 && InRange(m) && StampOk(stamp, ts8)
    requires Holds(b, p, FrameBytes(m, StampBytes(stamp, ts8)))
    ensures Round(revision, b, p, ts8)
         == Turn(FrameTold(m, stamp), p + |FrameBytes(m, StampBytes(stamp, ts8))|, ts8 + 1)
  {
    hide FrameLayout, Round, FrameTold, Holds;
    LayoutReadsBack(revision, m, CLIENT, stamp, ts8, b, p);
  }

  /** Decoding telegrams in which the device has put its time stamps gives the sent frames
      back, in order, whatever their identifiers, flags, lengths and data. */
  lemma {:induction false} EchoRoundTrip(revision: nat, fails: Event -> bool, ms: seq<TxMsg>, stamps: seq<Stamp>,
                                         ts8: nat, b: seq<Byte>, p: nat)
    requires revision >= 41 && |ms| == |stamps| && AllInRange(ms) && StampedFrom(stamps, ts8)
    requires Holds(b, p, Echo(ms, stamps, ts8))
    requires forall e <- AllReceived(ms, stamps) :: !fails(e)
    ensures Rounds(revision, fails, b, p, ts8, |ms|) == Telegram(AllReceived(ms, stamps), Decoded)
    decreases |ms|
  {
    hide FrameBytes, StampBytes, Data, Round, StampOk, Insert;
    if ms != [] {
      assert StampOk(stamps[0], 0 + ts8);
      InsertedStamp(ms[0], StampBytes(stamps[0], ts8));
      assert forall i :: 0 <= i < |stamps[1..]| ==> StampOk(stamps[1..][i], (i + 1) + ts8);
      var f, rest := FrameBytes(ms[0], StampBytes(stamps[0], ts8)), Echo(ms[1..], stamps[1..], ts8 + 1);
      HoldsBoth(b, p, f, rest);
      FrameReadsBack(revision, ms[0], stamps[0], ts8, b, p);
      assert AllReceived(ms, stamps) == [FrameTold(ms[0], stamps[0])] + AllReceived(ms[1..], stamps[1..]);
      EchoRoundTrip(revision, fails, ms[1..], stamps[1..], ts8 + 1, b, p + |f|);
    }
  }

  // ---------------------------------------------------------------- records of both kinds

  /** A record as the device sends it. The low bits of a status record's first byte are free, but
      that they tell how long the payload of functions 1 and 5 is. */
  datatype Record =
    | CanRecord(m: TxMsg, client: Byte, stamp: Stamp)
    | StatusRecord(low: nat, fn: Byte, number: Byte, stamp: Stamp, payload: seq<Byte>)

  /** What stands behind a status record, by its function. */
  predicate PayloadOk(fn: Byte, low: nat, size: nat) {
    || (fn == 1 && size == low % 16)    // state of the controller, with the bytes it counts
    || (fn == 2 && size == 2)           // analog value
    || (fn == 3 && size == 1)           // bus load
    || (fn == 4 && size == 2)           // calibration
    || (fn == 5 && size == low % 16)    // error frame, with the bytes it counts
    || (fn == 10 && size == 0)
  }

  predicate RecordOk(revision: nat, x: Record, ts8: nat) {
    match x
    case CanRecord(m, _, stamp) => Received(m) && (revision >= 41 || !m.slf) && StampOk(stamp, ts8)
    case StatusRecord(low, fn, _, stamp, payload) =>
      low < 64 && PayloadOk(fn, low, |payload|) && (stamp == NoStamp || StampOk(stamp, ts8))
  }

  function Seen(x: Record, ts8: nat): nat { if x.StatusRecord? && x.stamp == NoStamp then ts8 else ts8 + 1 }

  function RecordBytes(revision: nat, x: Record, ts8: nat): (b: seq<Byte>)
    requires RecordOk(revision, x, ts8)
    ensures |b| >= 3
  {
    match x
    case CanRecord(m, client, stamp) => FrameLayout(m, StampBytes(stamp, ts8), client)
    case StatusRecord(low, fn, number, stamp, payload) =>
      if stamp == NoStamp then [0x40 + low, fn, number] + payload
      else [0xc0 + low, fn, number] + StampBytes(stamp, ts8) + payload
  }

  function Told(x: Record): Event {
    match x
    case CanRecord(m, _, stamp) => FrameTold(m, stamp)
    case StatusRecord(_, fn, number, stamp, payload) => Status(fn, number, stamp, payload)
  }

  lemma PayloadReadsBack(b: seq<Byte>, q: nat, payload: seq<Byte>)
    requires Holds(b, q, payload)
    ensures Bytes(b, q, |payload|) == payload
  {
    forall i | 0 <= i < |payload|
      ensures At(b, q + i) == payload[i]
    {
      HoldsAt(b, q, payload, i);
    }
  }

  /** Where the pieces of a status record lie. */
  lemma StatusPieces(first: Byte, fn: Byte, number: Byte, st: seq<Byte>, payload: seq<Byte>, b: seq<Byte>, p: nat)
    requires Holds(b, p, [first, fn, number] + st + payload)
    ensures At(b, p) == first && At(b, p + 1) == fn && At(b, p + 2) == number
    ensures Holds(b, p + 3, st) && Holds(b, p + 3 + |st|, payload)
  {
    var head := [first, fn, number];
    assert head + st + payload == head + (st + payload);
    HoldsBoth(b, p, head, st + payload);
    HoldsBoth(b, p + 3, st, payload);
    HoldsAt(b, p, head, 0);
    HoldsAt(b, p, head, 1);
    HoldsAt(b, p, head, 2);
  }

  lemma FirstByte(low: nat, stamped: bool)
    requires low < 64
    ensures
      var first := if stamped then 0xc0 + low else 0x40 + low;
      first / 0x40 % 2 == 1 && (first / 0x80 == 1 <==> stamped) && first % 16 == low % 16
  {
  }

  /** One round on a status record tells its function, number, stamp and payload, and stops behind
      it. */
  lemma StatusReadsBack(revision: nat, x: Record, ts8: nat, b: seq<Byte>, p: nat)
    requires x.StatusRecord? && RecordOk(revision, x, ts8) && Holds(b, p, RecordBytes(revision, x, ts8))
    ensures Round(revision, b, p, ts8) == Turn(Told(x), p + |RecordBytes(revision, x, ts8)|, Seen(x, ts8))
  {
    hide ReadStamp, StampBytes, Bytes, LittleEndian, Data, FrameLayout, StampOk, Holds, At;
    var StatusRecord(low, fn, number, stamp, payload) := x;
    var stamped := stamp != NoStamp;
    var first: Byte := if stamped then 0xc0 + low else 0x40 + low;
    var st := if stamped then StampBytes(stamp, ts8) else [];
    assert RecordBytes(revision, x, ts8) == [first, fn, number] + st + payload;
    StatusPieces(first, fn, number, st, payload, b, p);
    FirstByte(low, stamped);
    if stamped {
      StampReadsBack(stamp, ts8, b, p + 3);
    }
    PayloadReadsBack(b, p + 3 + |st|, payload);
  }

  lemma RecordReadsBack(revision: nat, x: Record, ts8: nat, b: seq<Byte>, p: nat)
    requires RecordOk(revision, x, ts8)
    requires Holds(b, p, RecordBytes(revision, x, ts8))
    ensures Round(revision, b, p, ts8) == Turn(Told(x), p + |RecordBytes(revision, x, ts8)|, Seen(x, ts8))
    ensures p + |RecordBytes(revision, x, ts8)| <= |b|
  {
    hide Round, FrameLayout, FrameTold, StampBytes, StampOk, Received;
    match x
    case CanRecord(m, client, stamp) => LayoutReadsBack(revision, m, client, stamp, ts8, b, p);
    case StatusRecord(_, _, _, _, _) => StatusReadsBack(revision, x, ts8, b, p);
  }

  /** Stamps are counted through a telegram. */
  predicate AllOk(revision: nat, xs: seq<Record>, ts8: nat)
    decreases |xs|
  {
    xs == [] || (RecordOk(revision, xs[0], ts8) && AllOk(revision, xs[1..], Seen(xs[0], ts8)))
  }

  function Layout(revision: nat, xs: seq<Record>, ts8: nat): seq<Byte>
    requires AllOk(revision, xs, ts8)
    decreases |xs|
  {
    if xs == [] then []
    else RecordBytes(revision, xs[0], ts8) + Layout(revision, xs[1..], Seen(xs[0], ts8))
  }

  function AllSeen(xs: seq<Record>, ts8: nat): nat
    decreases |xs|
  {
    if xs == [] then ts8 else AllSeen(xs[1..], Seen(xs[0], ts8))
  }

  function AllTold(xs: seq<Record>): (r: seq<Event>)
    ensures |r| == |xs|
  {
    seq(|xs|, i requires 0 <= i < |xs| => Told(xs[i]))
  }

  lemma RoundsStop(revision: nat, fails: Event -> bool, b: seq<Byte>, p: nat, ts8: nat, count: nat)
    requires count > 0
    requires
      var Turn(e, q, _) := Round(revision, b, p, ts8);
      e.Unexpected? || fails(e) || RunsOver(revision, b, q)
    ensures Rounds(revision, fails, b, p, ts8, count).out != Decoded
    ensures Round(revision, b, p, ts8).event.Unexpected? ==>
      Rounds(revision, fails, b, p, ts8, count) == Telegram([], OutOfSync)
  {
    hide Round, RunsOver;
  }

  lemma RoundsStep(revision: nat, fails: Event -> bool, b: seq<Byte>, p: nat, ts8: nat, turn: Turn, count: nat,
                   told: seq<Event>, tail: Telegram)
    requires turn == Round(revision, b, p, ts8) && !turn.event.Unexpected? && !fails(turn.event)
    requires turn.next <= |b|
    requires Rounds(revision, fails, b, turn.next, turn.seen, count) == Telegram(told + tail.events, tail.out)
    ensures
      Rounds(revision, fails, b, p, ts8, count + 1) == Telegram(([turn.event] + told) + tail.events, tail.out)
  {
    hide Round;
    assert [turn.event] + (told + tail.events) == ([turn.event] + told) + tail.events;
  }

  ghost predicate NoneFails(fails: Event -> bool, es: seq<Event>) { forall e <- es :: !fails(e) }

  lemma FirstOfMany(revision: nat, fails: Event -> bool, xs: seq<Record>, ts8: nat)
    requires xs != [] && AllOk(revision, xs, ts8) && NoneFails(fails, AllTold(xs))
    ensures
      var seen := Seen(xs[0], ts8);
      && RecordOk(revision, xs[0], ts8) && AllOk(revision, xs[1..], seen)
      && Layout(revision, xs, ts8) == RecordBytes(revision, xs[0], ts8) + Layout(revision, xs[1..], seen)
      && AllSeen(xs, ts8) == AllSeen(xs[1..], seen)
    ensures AllTold(xs) == [Told(xs[0])] + AllTold(xs[1..])
    ensures !fails(Told(xs[0])) && NoneFails(fails, AllTold(xs[1..]))
  {
    hide RecordBytes, RecordOk, Told, Seen;
    assert AllTold(xs)[0] == Told(xs[0]);
    assert AllTold(xs)[1..] == AllTold(xs[1..]);
  }

  lemma NoRecords(revision: nat, xs: seq<Record>, ts8: nat, all: Telegram)
    requires xs == []
    ensures AllOk(revision, xs, ts8) && Layout(revision, xs, ts8) == [] && AllSeen(xs, ts8) == ts8
    ensures Telegram(AllTold(xs) + all.events, all.out) == all
  {
    assert AllTold(xs) + all.events == all.events;
  }

  /** Records of both kinds, in any mix, are told one after the other, whatever follows. */
  lemma {:induction false} RecordsGoOn(revision: nat, fails: Event -> bool, xs: seq<Record>, ts8: nat,
                                       b: seq<Byte>, p: nat, more: nat)
    requires AllOk(revision, xs, ts8) && NoneFails(fails, AllTold(xs))
    requires Holds(b, p, Layout(revision, xs, ts8))
    ensures
      var rest := Rounds(revision, fails, b, p + |Layout(revision, xs, ts8)|, AllSeen(xs, ts8), more);
      Rounds(revision, fails, b, p, ts8, |xs| + more) == Telegram(AllTold(xs) + rest.events, rest.out)
    decreases |xs|
  {
    hide Rounds, Round, RunsOver, Layout, AllOk, AllSeen, AllTold, RecordBytes, RecordOk, Told, Seen, NoneFails, Holds;
    if xs == [] {
      NoRecords(revision, xs, ts8, Rounds(revision, fails, b, p, ts8, more));
    } else {
      FirstOfMany(revision, fails, xs, ts8);
      var f, rest, seen := RecordBytes(revision, xs[0], ts8), xs[1..], Seen(xs[0], ts8);
      var q, end := p + |f|, p + |Layout(revision, xs, ts8)|;
      var tail := Rounds(revision, fails, b, end, AllSeen(xs, ts8), more);
      HoldsBoth(b, p, f, Layout(revision, rest, seen));
      assert q + |Layout(revision, rest, seen)| == end;
      RecordsGoOn(revision, fails, rest, seen, b, q, more);
      OneMoreRecord(revision, fails, xs[0], ts8, b, p, |rest| + more, AllTold(rest), tail);
    }
  }

  lemma OneMoreRecord(revision: nat, fails: Event -> bool, x: Record, ts8: nat, b: seq<Byte>, p: nat, count: nat,
                      told: seq<Event>, tail: Telegram)
    requires RecordOk(revision, x, ts8) && Holds(b, p, RecordBytes(revision, x, ts8)) && !fails(Told(x))
    requires Rounds(revision, fails, b, p + |RecordBytes(revision, x, ts8)|, Seen(x, ts8), count)
          == Telegram(told + tail.events, tail.out)
    ensures Rounds(revision, fails, b, p, ts8, count + 1) == Telegram(([Told(x)] + told) + tail.events, tail.out)
  {
    hide Rounds, Round, RecordBytes, RecordOk, Told, Seen, Holds;
    RecordReadsBack(revision, x, ts8, b, p);
    ToldIsExpected(x);
    var turn := Turn(Told(x), p + |RecordBytes(revision, x, ts8)|, Seen(x, ts8));
    RoundsStep(revision, fails, b, p, ts8, turn, count, told, tail);
  }

  lemma ToldIsExpected(x: Record)
    ensures !Told(x).Unexpected?
  {
  }

  lemma NothingLeft(revision: nat, fails: Event -> bool, b: seq<Byte>, p: nat, ts8: nat)
    ensures Rounds(revision, fails, b, p, ts8, 0) == Telegram([], Decoded)
  {
  }

  /** A whole telegram: prefix, count and records are decoded into exactly these records. */
  lemma TelegramReadsBack(revision: nat, fails: Event -> bool, xs: seq<Record>, prefix: Byte, b: seq<Byte>)
    requires |xs| < 256 && AllOk(revision, xs, 0) && NoneFails(fails, AllTold(xs))
    requires b == [prefix, |xs|] + Layout(revision, xs, 0)
    ensures Rounds(revision, fails, b, 2, 0, At(b, 1)) == Telegram(AllTold(xs), Decoded)
  {
    hide Layout, AllOk, AllTold, Holds, Rounds, Round;
    HoldsBehind([prefix, |xs|], Layout(revision, xs, 0));
    assert At(b, 1) == |xs|;
    RecordsGoOn(revision, fails, xs, 0, b, 2, 0);
    NothingLeft(revision, fails, b, 2 + |Layout(revision, xs, 0)|, AllSeen(xs, 0));
    assert AllTold(xs) + [] == AllTold(xs);
  }

  lemma UnknownIsUnexpected(revision: nat, b: seq<Byte>, q: nat, ts8: nat)
    requires q + 1 < |b| && b[q] / 0x40 % 2 == 1 && b[q + 1] !in {1, 2, 3, 4, 5, 10}
    ensures Round(revision, b, q, ts8).event.Unexpected?
  {
    hide ReadStamp, Bytes, LittleEndian, Data;
  }

  /** A status record of any other function ends the decoding. */
  lemma UnknownFunctionEnds(revision: nat, fails: Event -> bool, xs: seq<Record>, ts8: nat, b: seq<Byte>, p: nat,
                            q: nat, more: nat)
    requires AllOk(revision, xs, ts8) && q == p + |Layout(revision, xs, ts8)|
    requires NoneFails(fails, AllTold(xs))
    requires q + 1 < |b| && Holds(b, p, Layout(revision, xs, ts8))
    requires b[q] / 0x40 % 2 == 1 && b[q + 1] !in {1, 2, 3, 4, 5, 10}
    ensures Rounds(revision, fails, b, p, ts8, |xs| + 1 + more) == Telegram(AllTold(xs), OutOfSync)
  {
    hide Round, Layout, AllOk, AllTold, AllSeen;
    UnknownIsUnexpected(revision, b, q, AllSeen(xs, ts8));
    RoundsStop(revision, fails, b, q, AllSeen(xs, ts8), 1 + more);
    hide Rounds;
    RecordsGoOn(revision, fails, xs, ts8, b, p, 1 + more);
    assert AllTold(xs) + [] == AllTold(xs);
  }

  /** From byte `q` on, the buffer holds a record, but ends inside it. */
  ghost predicate EndsInside(g: seq<Byte>, b: seq<Byte>, q: nat) {
    q <= |b| < q + |g| && forall i :: q <= i < |b| ==> b[i] == g[i - q]
  }

  /** A telegram that is cut inside a record is never taken for a whole one. */
  lemma CutTelegramIsNoticed(revision: nat, fails: Event -> bool, xs: seq<Record>, x: Record, ts8: nat, b: seq<Byte>,
                             p: nat, q: nat, more: nat)
    requires revision > 3 && AllOk(revision, xs, ts8) && q == p + |Layout(revision, xs, ts8)|
    requires NoneFails(fails, AllTold(xs))
    requires RecordOk(revision, x, AllSeen(xs, ts8))
    requires EndsInside(RecordBytes(revision, x, AllSeen(xs, ts8)), b, q) && Holds(b, p, Layout(revision, xs, ts8))
    ensures Rounds(revision, fails, b, p, ts8, |xs| + 1 + more).out != Decoded
  {
    hide Round, Layout, AllOk, AllTold, AllSeen, RecordOk, RecordBytes, RunsOver, Rounds;
    var seen := AllSeen(xs, ts8);
    assert q <= |b|;
    match x {
      case CanRecord(_, _, _) => CutFrameIsNoticed(revision, x, seen, b, q);
      case StatusRecord(_, _, _, _, _) => CutStatusIsNoticed(revision, x, seen, b, q);
    }
    RecordsGoOn(revision, fails, xs, ts8, b, p, 1 + more);
    RoundsStop(revision, fails, b, q, seen, 1 + more);
  }

  lemma CutFrameIsNoticed(revision: nat, x: Record, ts8: nat, b: seq<Byte>, q: nat)
    requires revision > 3 && x.CanRecord? && RecordOk(revision, x, ts8)
    requires EndsInside(RecordBytes(revision, x, ts8), b, q)
    ensures RunsOver(revision, b, Round(revision, b, q, ts8).next)
  {
    var g, m := RecordBytes(revision, x, ts8), x.m;
    HeaderReadsBack(m);
    ShiftedBack(m);
    assert g[0] == StatusLen(m) && g[1] == ShiftedId(m) % 0x100;
    hide StatusLen, ShiftedId, LittleEndian, Data;
  }

  lemma CutStatusIsNoticed(revision: nat, x: Record, ts8: nat, b: seq<Byte>, q: nat)
    requires revision > 3 && x.StatusRecord? && RecordOk(revision, x, ts8)
    requires EndsInside(RecordBytes(revision, x, ts8), b, q)
    ensures
      var turn := Round(revision, b, q, ts8);
      turn.event.Unexpected? || RunsOver(revision, b, turn.next)
  {
    var g := RecordBytes(revision, x, ts8);
    assert g[0] / 0x40 % 2 == 1 && (g[0] / 0x80 == 1 <==> x.stamp != NoStamp) && g[0] % 16 == x.low % 16;
    assert g[1] == x.fn;
    hide Bytes, LittleEndian, Data;
  }
}
