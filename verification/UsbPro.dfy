/** Record streams of the PCAN-USB Pro: a 4-byte record counter followed by records
    whose first byte tells their size. */
module UsbPro {
  import opened Can

  /** pcan_usbpro_sizeof_rec: the size of a record, or -1 for an unknown type. */
  function SizeOf(ty: Byte): int {
    match ty
    case 0x80 => 20  // CANMSG_RX_8
    case 0x81 => 16  // CANMSG_RX_4
    case 0x82 => 12  // CANMSG_RX_0
    case 0x83 => 12  // CANMSG_RTR_RX
    case 0x84 => 12  // CANMSG_STATUS_ERROR_RX
    case 0x85 => 12  // CALIBRATION_TIMESTAMP_RX
    case 0x86 => 8   // BUSLAST_RX
    case 0x41 => 16  // CANMSG_TX_8
    case 0x42 => 12  // CANMSG_TX_4
    case 0x43 => 8   // CANMSG_TX_0
    case 0x01 => 8   // FKT_GETBAUDRATE
    case 0x02 => 8   // FKT_SETBAUDRATE
    case 0x03 => 4   // FKT_GETCANBUSACTIVATE
    case 0x04 => 4   // FKT_SETCANBUSACTIVATE
    case 0x05 => 4   // FKT_SETSILENTMODE
    case 0x06 => 8   // FKT_SETDEVICENR
    case 0x07 => 4   // FKT_SETWARNINGLIMIT
    case 0x08 => 8   // FKT_SETLOOKUP_EXPLICIT
    case 0x09 => 12  // FKT_SETLOOKUP_GROUP
    case 0x0a => 4   // FKT_SETFILTERMODE
    case 0x0b => 4   // FKT_SETRESET_MODE
    case 0x0c => 4   // FKT_SETERRORFRAME
    case 0x0d => 4   // FKT_GETCANBUS_ERROR_STATUS
    case 0x0e => 16  // FKT_SETREGISTER
    case 0x0f => 12  // FKT_GETREGISTER
    case 0x10 => 4   // FKT_SETGET_CALIBRATION_MSG
    case 0x11 => 8   // FKT_SETGET_BUSLAST_MSG
    case 0x12 => 8   // FKT_GETDEVICENR
    case 0x13 => 64  // FKT_SETSTRING
    case 0x14 => 4   // FKT_GETSTRING
    case 0x15 => 254 // FKT_STRING
    case 0x16 => 4   // FKT_SAVEEEPROM
    case 0x17 => 4   // FKT_USB_IN_PACKET_DELAY
    case 0x18 => 4   // FKT_TIMESTAMP_PARAM
    case 0x19 => 12  // FKT_ERROR_GEN_ID
    case 0x1a => 4   // FKT_ERROR_GEN_NOW
    case 0x1b => 12  // FKT_SET_SOFTFILER
    case 0x1c => 8   // FKT_SET_CANLED
    case _ => -1
  }

  /** A record is its bytes, type included. */
  type Rec = seq<Byte>

  function U16(b: seq<Byte>, at: nat): (v: nat)
    requires at + 2 <= |b|
    ensures v < 0x1_0000
  {
    var lo: int, hi: int := b[at], b[at + 1];
    lo + 0x100 * hi
  }

  function U32(b: seq<Byte>, at: nat): nat
    requires at + 4 <= |b|
  {
    U16(b, at) + 0x1_0000 * U16(b, at + 2)
  }

  /** `count` whole records of known types stand one after the other from `off` on. */
  ghost predicate WellFormed(b: seq<Byte>, off: nat, count: nat)
    decreases count
  {
    || (count == 0 && off <= |b|)
    || (count > 0 && off < |b| && SizeOf(b[off]) > 0 && off + SizeOf(b[off]) <= |b|
        && WellFormed(b, off + SizeOf(b[off]), count - 1))
  }

  /** Where they end. */
  ghost function EndOf(b: seq<Byte>, off: nat, count: nat): (e: nat)
    requires WellFormed(b, off, count)
    ensures off <= e <= |b|
    decreases count
  {
    if count == 0 then off else EndOf(b, off + SizeOf(b[off]), count - 1)
  }

  ghost function Records(b: seq<Byte>, off: nat, count: nat): (r: seq<Rec>)
    requires WellFormed(b, off, count)
    ensures |r| == count
    decreases count
  {
    if count == 0 then []
    else [b[off..off + SizeOf(b[off])]] + Records(b, off + SizeOf(b[off]), count - 1)
  }

  lemma WalkFirst(b: seq<Byte>, off: nat, count: nat)
    ensures WellFormed(b, off, 0) <==> off <= |b|
    ensures off <= |b| ==> EndOf(b, off, 0) == off && Records(b, off, 0) == []
    ensures count > 0 ==>
      (WellFormed(b, off, count) <==>
        off < |b| && SizeOf(b[off]) > 0 && off + SizeOf(b[off]) <= |b|
        && WellFormed(b, off + SizeOf(b[off]), count - 1))
    ensures count > 0 && WellFormed(b, off, count) ==>
      var next := off + SizeOf(b[off]);
      && EndOf(b, off, count) == EndOf(b, next, count - 1)
      && Records(b, off, count) == [b[off..next]] + Records(b, next, count - 1)
  {
    hide SizeOf;
  }

  lemma WalkOffset(b: seq<Byte>, off: nat, count: nat)
    requires WellFormed(b, off, count)
    ensures off <= |b|
  {
  }

  /** The walk may be interrupted after any number of records. */
  lemma {:induction false} WalkSplits(b: seq<Byte>, off: nat, m: nat, count: nat)
    requires m <= count && WellFormed(b, off, count)
    ensures WellFormed(b, off, m) && WellFormed(b, EndOf(b, off, m), count - m)
    ensures EndOf(b, EndOf(b, off, m), count - m) == EndOf(b, off, count)
    ensures Records(b, off, m) + Records(b, EndOf(b, off, m), count - m) == Records(b, off, count)
    decreases m
  {
    hide SizeOf, WellFormed, EndOf, Records;
    WalkOffset(b, off, count);
    WalkFirst(b, off, m);
    if m == 0 {
      assert [] + Records(b, off, count) == Records(b, off, count);
    } else {
      WalkFirst(b, off, count);
      var next := off + SizeOf(b[off]);
      WalkSplits(b, next, m - 1, count - 1);
      var rest := Records(b, EndOf(b, off, m), count - m);
      assert ([b[off..next]] + Records(b, next, m - 1)) + rest == [b[off..next]] + (Records(b, next, m - 1) + rest);
    }
  }

  /** A walk can be extended by a record that is there. */
  lemma {:induction false} WalkMore(b: seq<Byte>, off: nat, m: nat)
    requires WellFormed(b, off, m)
    requires
      var r := EndOf(b, off, m);
      r < |b| && SizeOf(b[r]) > 0 && r + SizeOf(b[r]) <= |b|
    ensures
      var r := EndOf(b, off, m);
      && WellFormed(b, off, m + 1) && EndOf(b, off, m + 1) == r + SizeOf(b[r])
      && Records(b, off, m + 1) == Records(b, off, m) + [b[r..r + SizeOf(b[r])]]
    decreases m
  {
    hide SizeOf, WellFormed, EndOf, Records;
    WalkOffset(b, off, m);
    WalkFirst(b, off, m);
    WalkFirst(b, off, m + 1);
    if m == 0 {
      var next := off + SizeOf(b[off]);
      WalkFirst(b, next, 0);
    } else {
      var next := off + SizeOf(b[off]);
      WalkMore(b, next, m - 1);
      var r := EndOf(b, off, m);
      assert [b[off..next]] + (Records(b, next, m - 1) + [b[r..r + SizeOf(b[r])]])
        == ([b[off..next]] + Records(b, next, m - 1)) + [b[r..r + SizeOf(b[r])]];
    }
  }

  /** One step further on an interrupted walk. */
  lemma WalkStep(b: seq<Byte>, off: nat, m: nat, count: nat)
    requires m < count && WellFormed(b, off, count)
    ensures WellFormed(b, off, m) && WellFormed(b, off, m + 1)
    ensures
      var r := EndOf(b, off, m);
      && r < |b| && 0 < SizeOf(b[r]) && r + SizeOf(b[r]) <= EndOf(b, off, count)
      && EndOf(b, off, m + 1) == r + SizeOf(b[r])
      && Records(b, off, m + 1) == Records(b, off, m) + [b[r..r + SizeOf(b[r])]]
  {
    hide SizeOf;
    WalkSplits(b, off, m, count);
    WalkSplits(b, off, m + 1, count);
    WalkSplits(b, off, m, m + 1);
    var r := EndOf(b, off, m);
    assert EndOf(b, r, 1) == r + SizeOf(b[r]);
  }

  /** The walk looks at nothing before its start. */
  lemma {:induction false} WalkIgnoresPast(a: seq<Byte>, b: seq<Byte>, off: nat, count: nat)
    requires |a| == |b| && off <= |a| && a[off..] == b[off..] && WellFormed(a, off, count)
    ensures WellFormed(b, off, count)
    ensures EndOf(a, off, count) == EndOf(b, off, count)
    ensures Records(a, off, count) == Records(b, off, count)
    decreases count
  {
    hide SizeOf;
    if count > 0 {
      assert a[off] == a[off..][0] == b[off..][0];
      var n := SizeOf(a[off]);
      assert a[off + n..] == a[off..][n..] && b[off + n..] == b[off..][n..];
      assert a[off..off + n] == a[off..][..n] && b[off..off + n] == b[off..][..n];
      WalkIgnoresPast(a, b, off + n, count - 1);
    }
  }

  /** Interrupted after `m` records, `a` read on in a copy `b` of the rest for `k` more. */
  lemma WalkResumes(a: seq<Byte>, b: seq<Byte>, off: nat, m: nat, k: nat, count: nat)
    requires m + k <= count && WellFormed(a, off, count) && |a| == |b|
    requires WellFormed(a, off, m) && a[EndOf(a, off, m)..] == b[EndOf(a, off, m)..]
    ensures WellFormed(a, off, m + k) && WellFormed(a, EndOf(a, off, m), count - m)
    ensures WellFormed(a, EndOf(a, off, m + k), count - m - k)
    ensures WellFormed(b, EndOf(a, off, m), k)
    ensures EndOf(b, EndOf(a, off, m), k) == EndOf(a, off, m + k)
    ensures Records(a, EndOf(a, off, m), count - m) ==
      Records(b, EndOf(a, off, m), k) + Records(a, EndOf(a, off, m + k), count - m - k)
  {
    hide SizeOf, WellFormed, EndOf, Records;
    var q := EndOf(a, off, m);
    WalkSplits(a, off, m, count);
    WalkSplits(a, off, m + k, count);
    WalkSplits(a, off, m, m + k);
    WalkSplits(a, q, k, count - m);
    WalkIgnoresPast(a, b, q, k);
  }

  lemma TailsAgree(a: seq<Byte>, b: seq<Byte>, q: nat, r: nat)
    requires |a| == |b| && q <= r <= |a| && a[q..] == b[q..]
    ensures a[r..] == b[r..]
  {
    assert a[r..] == a[q..][r - q..] && b[r..] == b[q..][r - q..];
  }
}
