/** The records that a PCAN-USB Pro sends, by their fields, and streams of them. */
module UsbProRecords {
  import opened Can
  import opened Common
  import opened UsbPro

  /** What the device sends, by the fields of its records. */
  datatype Received =
    | CanMsg(client: Byte, flags: Byte, len: Byte, stamp: Word, id: Word, data: seq<Byte>)
    | RtrMsg(client: Byte, flags: Byte, len: Byte, stamp: Word, id: Word)
    | StatusError(channel: Byte, status: nat, stamp: Word, errorFrame: Word)
    | Calibration(low: Word, high: Word)
    | BusLoad(channel: Byte, load: nat, stamp: Word)

  /** Data come in records of eight, four or no bytes. */
  predicate Regular(x: Received) {
    match x
    case CanMsg(_, _, _, _, _, data) => |data| == 8 || |data| == 4 || |data| == 0
    case StatusError(_, status, _, _) => status < 0x1_0000
    case BusLoad(_, load, _) => load < 0x1_0000
    case _ => true
  }

  function Half(x: nat): (b: seq<Byte>)
    ensures |b| == 2
  {
    [x % 0x100, x / 0x100 % 0x100]
  }

  function Full(x: Word): (b: seq<Byte>)
    ensures |b| == 4
  {
    [x % 0x100, x / 0x100 % 0x100, x / 0x1_0000 % 0x100, x / 0x100_0000]
  }

  function Layout(x: Received): (b: seq<Byte>)
    ensures |b| > 0
  {
    match x
    case CanMsg(client, flags, len, stamp, id, data) =>
      var ty: Byte := if |data| == 8 then 0x80 else if |data| == 4 then 0x81 else 0x82;
      [ty, client, flags, len] + Full(stamp) + Full(id) + data
    case RtrMsg(client, flags, len, stamp, id) => [0x83, client, flags, len] + Full(stamp) + Full(id)
    case StatusError(channel, status, stamp, errorFrame) =>
      [0x84, channel] + Half(status) + Full(stamp) + Full(errorFrame)
    case Calibration(low, high) => [0x85, 0, 0, 0] + Full(low) + Full(high)
    case BusLoad(channel, load, stamp) => [0x86, channel] + Half(load) + Full(stamp)
  }

  lemma HalfReads(x: nat, b: seq<Byte>, at: nat)
    requires x < 0x1_0000 && at + 2 <= |b| && b[at..at + 2] == Half(x)
    ensures U16(b, at) == x
  {
    assert b[at] == b[at..at + 2][0] && b[at + 1] == b[at..at + 2][1];
  }

  lemma FullReads(x: Word, b: seq<Byte>, at: nat)
    requires at + 4 <= |b| && b[at..at + 4] == Full(x)
    ensures U32(b, at) == x
  {
    BytesOfWord(x);
    var f := b[at..at + 4];
    assert b[at] == f[0] && b[at + 1] == f[1] && b[at + 2] == f[2] && b[at + 3] == f[3];
  }

  /** Where the fields of a record stand. */
  lemma FieldsReadBack(x: Received)
    requires Regular(x)
    ensures
      var b := Layout(x);
      match x
      case CanMsg(client, flags, len, stamp, id, data) =>
        && b[1..4] == [client, flags, len] && U32(b, 4) == stamp && U32(b, 8) == id && b[12..] == data
      case RtrMsg(client, flags, len, stamp, id) =>
        b[1..4] == [client, flags, len] && U32(b, 4) == stamp && U32(b, 8) == id
      case StatusError(channel, status, stamp, errorFrame) =>
        b[1] == channel && U16(b, 2) == status && U32(b, 4) == stamp && U32(b, 8) == errorFrame
      case Calibration(low, high) => U32(b, 4) == low && U32(b, 8) == high
      case BusLoad(channel, load, stamp) => b[1] == channel && U16(b, 2) == load && U32(b, 4) == stamp
  {
    hide U16, U32, Half, Full;
    var b := Layout(x);
    match x
    case CanMsg(client, flags, len, stamp, id, data) =>
      assert b == [b[0], client, flags, len] + Full(stamp) + Full(id) + data;
      TwoWords([b[0], client, flags, len], stamp, id, data);
    case RtrMsg(client, flags, len, stamp, id) =>
      assert b == [b[0], client, flags, len] + Full(stamp) + Full(id) + [];
      TwoWords([b[0], client, flags, len], stamp, id, []);
    case StatusError(channel, status, stamp, errorFrame) =>
      var head := [b[0], channel] + Half(status);
      assert b == head + Full(stamp) + Full(errorFrame) + [];
      TwoWords(head, stamp, errorFrame, []);
      HalfReads(status, head, 2);
      HeadHalf(head, b);
    case Calibration(low, high) =>
      assert b == [b[0], 0, 0, 0] + Full(low) + Full(high) + [];
      TwoWords([b[0], 0, 0, 0], low, high, []);
    case BusLoad(channel, load, stamp) =>
      var head := [b[0], channel] + Half(load);
      assert b == head + Full(stamp);
      assert b[4..8] == Full(stamp);
      FullReads(stamp, b, 4);
      HalfReads(load, head, 2);
      HeadHalf(head, b);
  }

  lemma TwoWords(head: seq<Byte>, x: Word, y: Word, rest: seq<Byte>)
    requires |head| == 4
    ensures
      var b := head + Full(x) + Full(y) + rest;
      b[..4] == head && b[1..4] == head[1..] && U32(b, 4) == x && U32(b, 8) == y && b[12..] == rest
  {
    hide U32, Full;
    var b := head + Full(x) + Full(y) + rest;
    assert b[4..8] == Full(x);
    FullReads(x, b, 4);
    assert b[8..12] == Full(y);
    FullReads(y, b, 8);
  }

  lemma HeadHalf(head: seq<Byte>, b: seq<Byte>)
    requires |head| == 4 && head <= b
    ensures U16(b, 2) == U16(head, 2)
  {
    assert b[2] == head[2] && b[3] == head[3];
  }

  /** The bytes of the fields behind the first four of a record that is a command or its answer:
      words, halves of them, and texts. */
  function CommandFields(ty: Byte): nat
    requires 0x01 <= ty <= 0x1c
  {
    match ty
    case 0x01 => 4          // bit rate
    case 0x02 => 4
    case 0x06 => 4          // device number
    case 0x08 => 4          // identifier
    case 0x09 => 4 + 4      // first and last identifier
    case 0x0e => 4 + 4 + 4  // address, value and mask
    case 0x0f => 4 + 4      // address and value
    case 0x11 => 2 + 2      // prescaler and quanta
    case 0x12 => 4          // device number
    case 0x13 => 60         // part of a text
    case 0x15 => 250        // text
    case 0x19 => 4 + 2 + 2  // identifier and two counters
    case 0x1b => 4 + 4      // mask and code
    case 0x1c => 4          // time
    case _ => 0
  }

  lemma SizeOfCommand(ty: Byte)
    ensures 0x01 <= ty <= 0x1c ==> SizeOf(ty) == 4 + CommandFields(ty)
    ensures SizeOf(ty) > 0 <==> 0x01 <= ty <= 0x1c || 0x41 <= ty <= 0x43 || 0x80 <= ty <= 0x86
  {
  }

  ghost function Layouts(xs: seq<Received>): seq<Rec> {
    seq(|xs|, i requires 0 <= i < |xs| => Layout(xs[i]))
  }

  /** The size table agrees with the fields of every record that is received. */
  lemma SizeIsOfFields(x: Received)
    requires Regular(x)
    ensures SizeOf(Layout(x)[0]) == |Layout(x)|
  {
  }

  ghost predicate AllSized(recs: seq<Rec>) {
    forall i :: 0 <= i < |recs| ==> |recs[i]| > 0 && SizeOf(recs[i][0]) == |recs[i]|
  }

  /** Sized records, one behind the other, are walked one after the other. */
  lemma {:induction false} StreamWalks(pre: seq<Byte>, recs: seq<Rec>, tail: seq<Byte>)
    requires AllSized(recs)
    ensures
      var b := pre + (Concat(recs) + tail);
      && WellFormed(b, |pre|, |recs|) && Records(b, |pre|, |recs|) == recs
      && EndOf(b, |pre|, |recs|) == |pre| + |Concat(recs)|
    decreases |recs|
  {
    hide SizeOf, WellFormed, Records, EndOf;
    var b := pre + (Concat(recs) + tail);
    WalkFirst(b, |pre|, |recs|);
    if recs != [] {
      var first, rest := recs[0], recs[1..];
      assert Concat(recs) == first + Concat(rest);
      assert (pre + first) + (Concat(rest) + tail) == b;
      StreamWalks(pre + first, rest, tail);
      assert b[|pre|] == first[0] && b[|pre|..|pre| + |first|] == first;
    }
  }

  /** A message of received records holds exactly these records. */
  lemma ReceivedStreamWalks(head: seq<Byte>, xs: seq<Received>, tail: seq<Byte>)
    requires forall x <- xs :: Regular(x)
    ensures
      var b := head + (Concat(Layouts(xs)) + tail);
      WellFormed(b, |head|, |xs|) && Records(b, |head|, |xs|) == Layouts(xs)
  {
    forall i | 0 <= i < |xs|
      ensures |Layouts(xs)[i]| > 0 && SizeOf(Layouts(xs)[i][0]) == |Layouts(xs)[i]|
    {
      assert xs[i] in xs;
      SizeIsOfFields(xs[i]);
    }
    hide SizeOf, WellFormed, Records, Layout;
    StreamWalks(head, Layouts(xs), tail);
  }
}
