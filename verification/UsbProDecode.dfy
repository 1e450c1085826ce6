/** Decoding of the packets of a received URB. A record that goes past the end of its
    packet is left for the next call: the four bytes before it, which have been used,
    are overwritten with a message header holding the number of records left. */
module UsbProDecode {
  import opened Can
  import opened UsbPro

  class UsbInterface {
    var fragRecOffset: nat
    ghost var handled: seq<Rec>  // records given to their handlers

    constructor ()
      ensures fragRecOffset == 0 && handled == []
    {
      fragRecOffset, handled := 0, [];
    }

    /** pcan_usbpro_msg_decode on `len` bytes at `addr`; `m` records are handled. `fails` says
        for which records the handler reports an error, for instance a full receive FIFO.
        `beyond` is the byte behind the buffer, which is looked at when a message goes on
        where the buffer ends. */
    method MsgDecode(buf: array<Byte>, addr: nat, len: nat, beyond: Byte, fails: Rec -> bool)
      returns (err: int, ghost m: nat)
      requires fragRecOffset <= addr && addr + len <= buf.Length
      modifies this, buf
      ensures old(fragRecOffset) + len < 4 ==>
        err == 0 && m == 0 && handled == old(handled) && fragRecOffset == old(fragRecOffset) && buf[..] == old(buf[..])
      ensures old(fragRecOffset) + len >= 4 ==>
        var b, p := old(buf[..]), addr - old(fragRecOffset);
        && Handles(b, p, addr + len, beyond, fails, err, m)
        && handled == old(handled) + Records(b, p + 4, m)
        && Leaves(b, p, addr + len, err, m, buf[..], old(fragRecOffset), fragRecOffset)
    {
      hide SizeOf, U16, WellFormed, EndOf, Records, AnyFails;
      m, err := 0, 0;
      var p, end := addr - fragRecOffset, addr + len;
      if fragRecOffset + len < 4 {
        return;
      }
      var recPtr, count := p + 4, U16(buf[..], p);
      ghost var b, total := buf[..], count;
      WalkFirst(b, p + 4, 0);
      NoneFails(fails);
      while count > 0
        invariant count == total - m && m <= total && err == 0
        invariant buf[..] == b && fragRecOffset == old(fragRecOffset)
        invariant WellFormed(b, p + 4, m) && recPtr == EndOf(b, p + 4, m) <= end
        invariant handled == old(handled) + Records(b, p + 4, m)
        invariant !AnyFails(Records(b, p + 4, m), fails)
      {
        var size := SizeOf(if recPtr < buf.Length then buf[recPtr] else beyond);
        if size <= 0 {
          err := EOPNOTSUPP;
          break;
        }
        if recPtr + size > end {
          recPtr := recPtr - 4;
          err := count;
          PutHeader(buf, recPtr, count);
          break;
        }
        WalkMore(b, p + 4, m);
        var rec := buf[recPtr..recPtr + size];
        OneMoreFails(Records(b, p + 4, m), rec, fails);
        handled, m := handled + [rec], m + 1;
        if fails(rec) {
          return -1, m;
        }
        recPtr, count := recPtr + size, count - 1;
      }
      fragRecOffset := if count > 0 then end - recPtr else 0;
    }

    /** The packet loop of pcan_usb_read_notify over a URB of `readLen` bytes. The messages
        of the URB may be cut into packets anywhere: exactly their records are handled, in
        order, and no fragment is left over. */
    method ReadNotify(
        buf: array<Byte>, readLen: nat, packetSize: nat, packets: nat, beyond: Byte, fails: Rec -> bool)
      requires fragRecOffset == 0 && packetSize >= 4 && readLen <= buf.Length == packets * packetSize
      requires Messages(buf[..], 0, readLen, packetSize)
      requires !AnyFails(UrbRecords(buf[..], 0, readLen, packetSize), fails)
      modifies this, buf
      ensures handled == old(handled) + UrbRecords(old(buf[..]), 0, readLen, packetSize)
      ensures fragRecOffset == 0
    {
      hide SizeOf, U16, WellFormed, EndOf, Records, IsMessage, Count, First, Rest, EndAfter, CutAfter,
           Underway, Remaining, Messages, UrbRecords, AnyFails, Handles, Leaves;
      ghost var b, s: nat, m: nat, past: seq<Rec> := buf[..], 0, 0, [];
      ghost var all := UrbRecords(b, 0, readLen, packetSize);
      var at, i := 0, 0;
      if readLen > 0 {
        Fresh(b, b, 0, readLen, packetSize);
      } else {
        NoMessage(b, 0, readLen, packetSize);
      }
      while at < readLen
        invariant 0 <= i && at == i * packetSize && |buf[..]| == |b|
        invariant handled == old(handled) + past
        invariant at < readLen ==>
          && Underway(b, s, m, at, fragRecOffset, buf[..], readLen, packetSize)
          && all == past + Remaining(b, s, m, at, fragRecOffset, buf[..], readLen, packetSize)
        invariant at >= readLen ==> fragRecOffset == 0 && all == past
        decreases readLen - at
      {
        var l := if packetSize > readLen then readLen else packetSize;
        PacketFits(i, packets, packetSize, readLen);
        ghost var b', frag := buf[..], fragRecOffset;
        SimulatedMessage(b, s, m, at, frag, b', readLen, packetSize);
        ghost var k;
        var err;
        err, k := MsgDecode(buf, at, l, beyond, fails);
        WholeMessage(b', at - frag, at + l, beyond, fails, err, k, buf[..], frag, fragRecOffset);
        ghost var now := First(b', at - frag, k);
        PartOfRemaining(b, s, m, at, frag, b', k, readLen, packetSize);
        PartDoesNotFail(now, Remaining(b, s, m, at, frag, b', readLen, packetSize), past, all, fails);
        if err < 0 {
          break;
        }
        NextRecords(b, s, m, at, frag, b', k, readLen, packetSize);
        past := past + now;
        if m + k < Count(b, s) {
          MessageGoesOn(b, s, m, at, frag, b', l, k, buf[..], fragRecOffset, readLen, packetSize);
          m := m + k;
        } else {
          MessageDone(b, s, m, at, frag, b', l, k, buf[..], fragRecOffset, readLen, packetSize);
          s, m := at + packetSize, 0;
        }
        at, i := at + packetSize, i + 1;
      }
    }
  }

  const EOPNOTSUPP := -95

  /** The type of the record at `r`, also when the message goes on behind the buffer. */
  function TypeAt(b: seq<Byte>, r: nat, beyond: Byte): Byte { if r < |b| then b[r] else beyond }

  /** Which records of the message at `p` are handled, and why decoding ends: a handler has
      failed, an unknown record comes, the next record does not end in the packet, or none
      is left. */
  ghost predicate Handles(
      b: seq<Byte>, p: nat, end: nat, beyond: Byte, fails: Rec -> bool, err: int, m: nat)
  {
    && p + 4 <= |b| && m <= U16(b, p) && WellFormed(b, p + 4, m)
    && var r, rs := EndOf(b, p + 4, m), Records(b, p + 4, m);
       var size := SizeOf(TypeAt(b, r, beyond));
       && r <= end
       && (err == -1 || err == EOPNOTSUPP || err >= 0)
       && (err == -1 <==> AnyFails(rs, fails))
       && (err == -1 ==> m > 0 && fails(rs[m - 1]))
       && (err != -1 && m < U16(b, p) ==>
             if size <= 0 then err == EOPNOTSUPP else r + size > end && err == U16(b, p) - m)
       && (err != -1 && m == U16(b, p) ==> err == 0)
  }

  /** What then stands in the buffer, and where the next packet begins. */
  ghost predicate Leaves(
      b: seq<Byte>, p: nat, end: nat, err: int, m: nat, b': seq<Byte>, was: nat, frag: nat)
    requires p + 4 <= |b| && m <= U16(b, p) && WellFormed(b, p + 4, m)
  {
    var r := EndOf(b, p + 4, m);
    && |b'| == |b| && p + 4 <= r <= end <= |b|
    && if err == -1 then b' == b && frag == was
       else if m == U16(b, p) then b' == b && frag == 0
       else if err == EOPNOTSUPP then b' == b && frag == end - r
       else
         && frag == end - r + 4 && U16(b', r - 4) == U16(b, p) - m
         && b'[..r - 4] == b[..r - 4] && b'[r..] == b[r..]
  }

  lemma NoneFails(fails: Rec -> bool)
    ensures !AnyFails([], fails)
  {
  }

  lemma OneMoreFails(rs: seq<Rec>, r: Rec, fails: Rec -> bool)
    ensures AnyFails(rs + [r], fails) <==> AnyFails(rs, fails) || fails(r)
  {
    if AnyFails(rs, fails) {
      var x :| x in rs && fails(x);
      assert x in rs + [r];
    }
    if fails(r) {
      assert (rs + [r])[|rs|] == r;
    }
  }

  /** On a whole message nothing is unknown: all records that end in the packet are handled in
      order, and the rest of the message starts where the offset tells. */
  lemma WholeMessage(b: seq<Byte>, p: nat, end: nat, beyond: Byte, fails: Rec -> bool, err: int, m: nat,
                     b': seq<Byte>, was: nat, frag: nat)
    requires IsMessage(b, p) && Handles(b, p, end, beyond, fails, err, m)
    requires Leaves(b, p, end, err, m, b', was, frag)
    ensures m <= Count(b, p) && Records(b, p + 4, m) == First(b, p, m)
    ensures err >= 0 || (err == -1 && AnyFails(First(b, p, m), fails))
    ensures err >= 0 ==> CutAfter(b, p, end, m, b', frag)
  {
    hide SizeOf, U16, AnyFails;
    var total := U16(b, p);
    if m < total {
      WalkStep(b, p + 4, m, total);
    }
  }

  ghost predicate AnyFails(rs: seq<Rec>, fails: Rec -> bool) {
    exists r :: r in rs && fails(r)
  }

  /** A whole message, simulated or real, at `p`. */
  ghost predicate IsMessage(b: seq<Byte>, p: nat) {
    p + 4 <= |b| && WellFormed(b, p + 4, U16(b, p))
  }

  ghost function Count(b: seq<Byte>, p: nat): nat
    requires IsMessage(b, p)
  {
    U16(b, p)
  }

  /** Its first `m` records. */
  ghost function First(b: seq<Byte>, p: nat, m: nat): (r: seq<Rec>)
    requires IsMessage(b, p) && m <= Count(b, p)
    ensures |r| == m
  {
    WalkSplits(b, p + 4, m, Count(b, p));
    Records(b, p + 4, m)
  }

  /** The records after them. */
  ghost function Rest(b: seq<Byte>, p: nat, m: nat): (r: seq<Rec>)
    requires IsMessage(b, p) && m <= Count(b, p)
    ensures m == 0 ==> r == First(b, p, Count(b, p))
  {
    WalkSplits(b, p + 4, m, Count(b, p));
    Records(b, EndAfter(b, p, m), Count(b, p) - m)
  }

  ghost function EndAfter(b: seq<Byte>, p: nat, m: nat): (e: nat)
    requires IsMessage(b, p) && m <= Count(b, p)
    ensures p + 4 <= e <= |b|
  {
    WalkSplits(b, p + 4, m, Count(b, p));
    EndOf(b, p + 4, m)
  }

  /** The message at `p` has been read up to `end`, that is its first `m` records, and the
      rest stands behind a new header `frag` bytes before `end`. */
  ghost predicate CutAfter(b: seq<Byte>, p: nat, end: nat, m: nat, b': seq<Byte>, frag: nat)
    requires IsMessage(b, p) && m <= Count(b, p)
  {
    && |b'| == |b|
    && (m == Count(b, p) <==> EndAfter(b, p, Count(b, p)) <= end)
    && (m == Count(b, p) ==> frag == 0 && b' == b)
    && (m < Count(b, p) ==>
          && frag <= end <= |b| && end - frag + 4 == EndAfter(b, p, m)
          && U16(b', end - frag) == Count(b, p) - m
          && b'[end - frag + 4..] == b[end - frag + 4..])
  }

  // ---------------------------------------------------------------- whole URBs

  /** The first packet boundary from `at` on that is not before `e`. */
  function Boundary(at: nat, e: nat, packetSize: nat): (t: nat)
    requires packetSize > 0
    ensures t >= at && t >= e
    decreases e - at
  {
    if at >= e then at else Boundary(at + packetSize, e, packetSize)
  }

  /** From packet boundary `s` on the URB holds whole messages, each starting at the first
      packet boundary after the end of the one before. */
  ghost predicate Messages(b: seq<Byte>, s: nat, n: nat, packetSize: nat)
    requires packetSize > 0
    decreases n - s
  {
    s >= n ||
    (IsMessage(b, s) &&
     var e := EndAfter(b, s, Count(b, s));
     e <= n && Messages(b, Boundary(s + packetSize, e, packetSize), n, packetSize))
  }

  /** All their records, packets playing no part in this. */
  ghost function UrbRecords(b: seq<Byte>, s: nat, n: nat, packetSize: nat): seq<Rec>
    requires packetSize > 0 && Messages(b, s, n, packetSize)
    decreases n - s
  {
    if s >= n then []
    else First(b, s, Count(b, s)) +
         UrbRecords(b, Boundary(s + packetSize, EndAfter(b, s, Count(b, s)), packetSize), n, packetSize)
  }

  /** The URB held `b`; of its message at `s`, `m` records have been handled when the packet
      at `at` is due. The buffer now holds `b'`, the remaining records standing behind a
      header `frag` bytes before `at`. */
  ghost predicate Underway(
      b: seq<Byte>, s: nat, m: nat, at: nat, frag: nat, b': seq<Byte>, n: nat, packetSize: nat)
    requires packetSize > 0
  {
    && IsMessage(b, s) && m <= Count(b, s) && |b'| == |b| && frag <= at
    && var e, q := EndAfter(b, s, Count(b, s)), EndAfter(b, s, m);
       && e <= n && Messages(b, Boundary(s + packetSize, e, packetSize), n, packetSize)
       && Boundary(s + packetSize, e, packetSize) == Boundary(at + packetSize, e, packetSize)
       && at - frag + 4 == q && U16(b', at - frag) == Count(b, s) - m && b'[q..] == b[q..]
       && ((at == s && m == 0) || at < e)
  }

  ghost function Remaining(
      b: seq<Byte>, s: nat, m: nat, at: nat, frag: nat, b': seq<Byte>, n: nat, packetSize: nat): seq<Rec>
    requires packetSize > 0 && Underway(b, s, m, at, frag, b', n, packetSize)
  {
    Rest(b, s, m) +
    UrbRecords(b, Boundary(s + packetSize, EndAfter(b, s, Count(b, s)), packetSize), n, packetSize)
  }

  lemma NoMessage(b: seq<Byte>, s: nat, n: nat, packetSize: nat)
    requires packetSize > 0 && s >= n
    ensures Messages(b, s, n, packetSize) && UrbRecords(b, s, n, packetSize) == []
  {
  }

  lemma Fresh(b: seq<Byte>, b': seq<Byte>, s: nat, n: nat, packetSize: nat)
    requires packetSize > 0 && s < n && Messages(b, s, n, packetSize)
    requires |b'| == |b| && s <= |b| && b'[s..] == b[s..]
    ensures Underway(b, s, 0, s, 0, b', n, packetSize)
    ensures Remaining(b, s, 0, s, 0, b', n, packetSize) == UrbRecords(b, s, n, packetSize)
  {
    hide SizeOf;
    assert b'[s + 4..] == b'[s..][4..] && b[s + 4..] == b[s..][4..];
    assert b'[s] == b'[s..][0] && b'[s + 1] == b'[s..][1] && b[s] == b[s..][0] && b[s + 1] == b[s..][1];
  }

  lemma PacketFits(i: nat, packets: nat, packetSize: nat, readLen: nat)
    requires i * packetSize < readLen <= packets * packetSize
    ensures i * packetSize + packetSize <= packets * packetSize
    ensures i * packetSize + packetSize == (i + 1) * packetSize
    ensures i > 0 ==> packetSize <= i * packetSize
  {
    MulOrdered(packets, i, packetSize);
    MulOrdered(i + 1, packets, packetSize);
    MulOrdered(1, i, packetSize);
  }

  lemma MulOrdered(a: nat, b: nat, m: nat)
    ensures a <= b ==> a * m <= b * m
  {
  }

  /** What stands at the header is the message without its first `m` records. */
  lemma SimulatedMessage(
      b: seq<Byte>, s: nat, m: nat, at: nat, frag: nat, b': seq<Byte>, n: nat, packetSize: nat)
    requires packetSize > 0 && Underway(b, s, m, at, frag, b', n, packetSize)
    ensures frag <= at && n >= 4 && IsMessage(b', at - frag) && IsMessage(b, s)
    ensures Count(b', at - frag) == Count(b, s) - m
  {
    hide SizeOf, U16;
    WalkSplits(b, s + 4, m, Count(b, s));
    WalkIgnoresPast(b, b', EndAfter(b, s, m), Count(b, s) - m);
  }

  /** Its first `k` records are the next `k` of the message. */
  lemma NextRecords(
      b: seq<Byte>, s: nat, m: nat, at: nat, frag: nat, b': seq<Byte>, k: nat, n: nat, packetSize: nat)
    requires packetSize > 0 && Underway(b, s, m, at, frag, b', n, packetSize)
    requires IsMessage(b', at - frag) && k <= Count(b', at - frag)
    ensures m + k <= Count(b, s) && EndAfter(b', at - frag, k) == EndAfter(b, s, m + k)
    ensures Rest(b, s, m) == First(b', at - frag, k) + Rest(b, s, m + k)
  {
    hide SizeOf, U16, WellFormed, EndOf, Records, Messages;
    WalkSplits(b, s + 4, m, Count(b, s));
    WalkResumes(b, b', s + 4, m, k, Count(b, s));
  }

  lemma PartOfRemaining(
      b: seq<Byte>, s: nat, m: nat, at: nat, frag: nat, b': seq<Byte>, k: nat, n: nat, packetSize: nat)
    requires packetSize > 0 && Underway(b, s, m, at, frag, b', n, packetSize)
    requires IsMessage(b', at - frag) && k <= Count(b', at - frag)
    ensures forall r :: r in First(b', at - frag, k) ==> r in Remaining(b, s, m, at, frag, b', n, packetSize)
  {
    hide SizeOf, U16, IsMessage, Messages, First, Rest, EndAfter;
    NextRecords(b, s, m, at, frag, b', k, n, packetSize);
  }

  lemma PartDoesNotFail(now: seq<Rec>, rest: seq<Rec>, past: seq<Rec>, all: seq<Rec>, fails: Rec -> bool)
    requires all == past + rest && !AnyFails(all, fails) && forall r :: r in now ==> r in rest
    ensures !AnyFails(now, fails)
  {
  }

  /** A packet has ended inside the message, which goes on in the next one. */
  lemma MessageGoesOn(
      b: seq<Byte>, s: nat, m: nat, at: nat, frag: nat, b': seq<Byte>, l: nat, k: nat,
      b'': seq<Byte>, frag'': nat, n: nat, packetSize: nat)
    requires packetSize >= 4 && Underway(b, s, m, at, frag, b', n, packetSize)
    requires IsMessage(b', at - frag) && k <= Count(b', at - frag)
    requires CutAfter(b', at - frag, at + l, k, b'', frag'')
    requires l == packetSize || (at == 0 && l == n < packetSize)
    requires m + k < Count(b, s)
    ensures at + packetSize < n
    ensures Underway(b, s, m + k, at + packetSize, frag'', b'', n, packetSize)
    ensures Remaining(b, s, m, at, frag, b', n, packetSize) ==
      First(b', at - frag, k) + Remaining(b, s, m + k, at + packetSize, frag'', b'', n, packetSize)
  {
    hide SizeOf, U16, First, Rest, Messages, WellFormed, Records;
    var c := Count(b, s);
    SimulatedMessage(b, s, m, at, frag, b', n, packetSize);
    NextRecords(b, s, m, at, frag, b', k, n, packetSize);
    NextRecords(b, s, m, at, frag, b', c - m, n, packetSize);
    EndGrows(b, s, m, m + k);
    TailsAgree(b, b', EndAfter(b, s, m), EndAfter(b, s, m + k));
  }

  lemma EndGrows(b: seq<Byte>, s: nat, m: nat, k: nat)
    requires IsMessage(b, s) && m <= k <= Count(b, s)
    ensures EndAfter(b, s, m) <= EndAfter(b, s, k)
  {
    hide SizeOf, U16;
    WalkSplits(b, s + 4, k, Count(b, s));
    WalkSplits(b, s + 4, m, k);
  }

  /** The message has ended in this packet; the next packet, if any, starts another. */
  lemma MessageDone(
      b: seq<Byte>, s: nat, m: nat, at: nat, frag: nat, b': seq<Byte>, l: nat, k: nat,
      b'': seq<Byte>, frag'': nat, n: nat, packetSize: nat)
    requires packetSize >= 4 && Underway(b, s, m, at, frag, b', n, packetSize)
    requires IsMessage(b', at - frag) && k <= Count(b', at - frag)
    requires CutAfter(b', at - frag, at + l, k, b'', frag'')
    requires at + packetSize <= |b| && (l == packetSize || (at == 0 && l == n < packetSize))
    requires m + k == Count(b, s)
    ensures frag'' == 0
    ensures
      var t, rest := at + packetSize, Remaining(b, s, m, at, frag, b', n, packetSize);
      && (t >= n ==> rest == First(b', at - frag, k))
      && (t < n ==>
            && Underway(b, t, 0, t, 0, b'', n, packetSize)
            && rest == First(b', at - frag, k) + Remaining(b, t, 0, t, 0, b'', n, packetSize))
  {
    hide SizeOf, U16, First, Messages, WellFormed, EndOf;
    var t := at + packetSize;
    SimulatedMessage(b, s, m, at, frag, b', n, packetSize);
    NextRecords(b, s, m, at, frag, b', k, n, packetSize);
    assert Boundary(t, EndAfter(b, s, Count(b, s)), packetSize) == t;
    if t < n {
      TailsAgree(b, b', EndAfter(b, s, m), t);
      Fresh(b, b'', t, n, packetSize);
    } else {
      NoMessage(b, t, n, packetSize);
    }
  }

  /** The simulated message header, a little-endian 32-bit counter. */
  method PutHeader(buf: array<Byte>, at: nat, count: nat)
    requires at + 4 <= buf.Length && count < 0x1_0000
    modifies buf
    ensures U16(buf[..], at) == U32(buf[..], at) == count
    ensures buf[..at] == old(buf[..at]) && buf[at + 4..] == old(buf[at + 4..])
  {
    buf[at] := count % 0x100;
    buf[at + 1] := count / 0x100;
    buf[at + 2] := 0;
    buf[at + 3] := 0;
  }
}
