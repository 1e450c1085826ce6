/** The critical sections of the transmit path as the driver runs them on the
    fields of `struct pcandev`, each proved to be the step of TxEngine it stands for,
    and the non-blocking send call around them. */
module TxDevice {
  import opened Can
  import opened TxEngine

  datatype Errno = OK | EBADMSG | EINVAL | ENODEV | ENETDOWN | EAGAIN | ENODATA | EIO

  datatype MsgType = Can20 | CanFd | OtherType

  /** Frame sizes per packet of a URB: `rooms[n]` frames fit in packet `n`. */
  ghost predicate ValidRooms(rooms: seq<nat>) {
    rooms != [] && forall r <- rooms :: r >= 1
  }

  function Sum(rooms: seq<nat>): nat {
    if rooms == [] then 0 else Sum(rooms[..|rooms| - 1]) + rooms[|rooms| - 1]
  }

  lemma {:induction false} SumOfPrefix(rooms: seq<nat>, n: nat)
    requires n <= |rooms|
    ensures Sum(rooms[..n]) <= Sum(rooms)
  {
    if n < |rooms| {
      var front := rooms[..|rooms| - 1];
      SumOfPrefix(front, n);
      assert front[..n] == rooms[..n];
    } else {
      assert rooms[..n] == rooms;
    }
  }

  lemma SumStep(rooms: seq<nat>, n: nat)
    requires n < |rooms|
    ensures Sum(rooms[..n + 1]) == Sum(rooms[..n]) + rooms[n]
  {
    assert rooms[..n + 1][..n] == rooms[..n];
  }

  lemma SumNone(rooms: seq<nat>)
    ensures Sum(rooms[..0]) == 0
  {
  }

  function Min(a: nat, b: nat): nat { if a <= b then a else b }

  /** What pcanfd_send_msg lets through to the FIFO. */
  function Admit(fd: bool, stdOnly: bool, ty: MsgType, msg: TxMsg): Errno {
    if ty == CanFd && fd && |msg.data| <= 64 then
      StdCheck(stdOnly, msg)
    else if (ty == CanFd || ty == Can20) && |msg.data| <= 8 then
      StdCheck(stdOnly, msg)
    else
      EBADMSG
  }

  function StdCheck(stdOnly: bool, msg: TxMsg): Errno {
    if stdOnly && (msg.ext || msg.id > 2047) then EINVAL else OK
  }

  /** Channels that are not set up for CAN FD take eight bytes, in frames of both types; a frame
      of a type or length that a channel does not take is told before one with a wrong identifier. */
  lemma AdmittedLength(fd: bool, stdOnly: bool, ty: MsgType, msg: TxMsg)
    ensures
      var fits := ty != OtherType && |msg.data| <= if ty == CanFd && fd then 64 else 8;
      var standard := !msg.ext && msg.id <= 2047;
      && (Admit(fd, stdOnly, ty, msg) == OK <==> fits && (stdOnly ==> standard))
      && (Admit(fd, stdOnly, ty, msg) == EBADMSG <==> !fits)
      && (Admit(fd, stdOnly, ty, msg) == EINVAL <==> fits && stdOnly && !standard)
  {
  }

  function Msgs(list: seq<(MsgType, TxMsg)>): (r: seq<TxMsg>)
    ensures |r| == |list|
  {
    seq(|list|, i requires 0 <= i < |list| => list[i].1)
  }

  /** The device part of a state has no senders. */
  lemma NobodyToSignal(s: State)
    requires s.pcs == []
    ensures Signal(s) == s
  {
  }

  class PcanDev {
    const c: Config
    const fd: bool
    const stdOnly: bool
    var plugged: bool
    var writeFifo: seq<TxMsg>
    var engine: Engine
    var busState: BusState
    var transfer: Transfer
    var handler: Handler
    var wwakeup: bool
    ghost var accepted: seq<TxMsg>
    ghost var handed: seq<TxMsg>
    ghost var sent: seq<TxMsg>
    ghost var missed: bool

    /** The device part of the step system's state. */
    ghost function Device(): State
      reads this
    {
      State(writeFifo, engine, busState, transfer, handler, wwakeup, [], accepted, handed, sent, missed)
    }

    constructor (c: Config, fd: bool, stdOnly: bool)
      ensures this.c == c && this.fd == fd && this.stdOnly == stdOnly && plugged
      ensures Device() == Init(c.(senders := 0))
    {
      this.c, this.fd, this.stdOnly, plugged := c, fd, stdOnly, true;
      writeFifo, engine, busState, transfer, handler, wwakeup := [], Stopped, Unknown, Quiet, Free, false;
      accepted, handed, sent, missed := [], [], [], false;
    }

    /** `device_ctrl_msg_encode`: fill one packet with frames until it has no room
        left or the FIFO is empty. */
    method EncodePacket(room: nat) returns (frames: seq<TxMsg>, err: Errno)
      modifies this`writeFifo
      ensures frames + writeFifo == old(writeFifo)
      ensures |frames| == Min(room, |old(writeFifo)|)
      ensures err == if |old(writeFifo)| < room then ENODATA else OK
    {
      frames, err := [], OK;
      while |frames| < room
        invariant frames + writeFifo == old(writeFifo)
        invariant |frames| <= room && err == OK
      {
        if writeFifo == [] {
          err := ENODATA;
          break;
        }
        frames, writeFifo := frames + [writeFifo[0]], writeFifo[1..];
      }
    }

    /** The loop of pcan_usb_write: packets are filled one after the other into a single URB. */
    method FillUrb(rooms: seq<nat>) returns (urb: seq<TxMsg>)
      requires ValidRooms(rooms)
      modifies this`writeFifo
      ensures urb + writeFifo == old(writeFifo) && |urb| == Min(Sum(rooms), |old(writeFifo)|)
      ensures urb == [] <==> old(writeFifo) == []
    {
      hide Sum;
      var n, err := 0, OK;
      urb := [];
      SumNone(rooms);
      while n < |rooms|
        invariant n <= |rooms| && err == OK
        invariant urb + writeFifo == old(writeFifo)
        invariant |urb| == Sum(rooms[..n]) <= |old(writeFifo)|
        invariant n > 0 ==> urb != []
      {
        var frames;
        frames, err := EncodePacket(rooms[n]);
        assert rooms[n] in rooms;
        SumStep(rooms, n);
        urb, n := urb + frames, n + 1;
        if err != OK {
          SumOfPrefix(rooms, n);
          break;
        }
      }
      assert rooms[..|rooms|] == rooms;
    }

    /** pcan_usb_write: the URB is submitted, or with nothing in it the engine is stopped. */
    method UsbWrite(rooms: seq<nat>) returns (k: nat, err: Errno)
      requires plugged && c.hw == Usb && ValidRooms(rooms)
      modifies this`writeFifo, this`engine, this`transfer, this`handed, this`missed
      ensures k == Min(Sum(rooms), |old(writeFifo)|) && Batch(c, old(Device()), k)
      ensures Device() == Write(old(Device()), k)
      ensures err == if k > 0 then OK else ENODATA
    {
      hide Sum, ValidRooms;
      var urb := FillUrb(rooms);
      k, missed := |urb|, false;
      assert old(writeFifo)[..k] == urb && old(writeFifo)[k..] == writeFifo;
      if urb != [] {
        engine, transfer, err := Started, InFlight(urb), OK;
        handed := handed + urb;
      } else {
        assert writeFifo == old(writeFifo);
        engine, transfer, err := Stopped, Quiet, ENODATA;
      }
    }

    /** __sja1000_write: one frame into the transmit buffer; the engine is stopped by the
        interrupt handler, not here, when the FIFO is empty. */
    method SjaWriteNext() returns (err: Errno)
      modifies this`writeFifo, this`engine, this`transfer, this`handed, this`missed
      ensures old(writeFifo) != [] ==> err == OK && Device() == Write(old(Device()), 1)
      ensures old(writeFifo) == [] ==> err == ENODATA && Device() == old(Device())
    {
      if writeFifo == [] {
        return ENODATA;
      }
      var tx := writeFifo[0];
      writeFifo := writeFifo[1..];
      handed := handed + [tx];
      engine, transfer, missed := Started, InFlight([tx]), false;
      err := OK;
      assert old(writeFifo)[..1] == [tx];
    }

    /** sja1000_write; `ready` tells whether the transmit buffer became empty in time. */
    method SjaWrite(ready: bool) returns (err: Errno)
      modifies this`writeFifo, this`engine, this`transfer, this`handed, this`missed
      ensures !ready ==> err == EIO && Device() == old(Device())
      ensures ready && old(writeFifo) != [] ==> err == OK && Device() == Write(old(Device()), 1)
      ensures ready && old(writeFifo) == [] ==> err == ENODATA && Device() == old(Device())
    {
      err := EIO;
      if ready {
        err := SjaWriteNext();
      }
    }

    /** The controller whose transmit buffer stays busy is not written to. */
    predicate Stuck(ready: bool) {
      c.hw == Sja1000 && !ready
    }

    /** __pcan_dev_start_writing. A write that finds the FIFO empty is no error here. */
    method DevStartWriting(rooms: seq<nat>, ready: bool) returns (k: nat, err: Errno)
      requires plugged && ValidRooms(rooms) && SingleWriter(Device())
      modifies this`writeFifo, this`engine, this`transfer, this`handed, this`missed
      ensures err == if WillWrite(old(Device())) && Stuck(ready) then EIO else OK
      ensures err == OK && WillWrite(old(Device())) ==> Batch(c, old(Device()), k)
      ensures Device() == if err == OK then StartWriting(old(Device()), k) else old(Device()).(missed := true)
    {
      k, err := 0, OK;
      if busState == Unknown {
        return;
      }
      if engine == Stopped {
        if c.hw == Usb {
          k, err := UsbWrite(rooms);
        } else {
          k := Min(1, |writeFifo|);
          err := SjaWrite(ready);
        }
      }
      missed := if err == EIO then true else if err == ENODATA then false else missed;
      err := if err == ENODATA then OK else err;
    }

    /** Second half of pcan_usb_write_notify, after the senders have been signalled. */
    method UsbRefillAfterNotify(rooms: seq<nat>) returns (k: nat)
      requires plugged && ValidRooms(rooms)
      requires c.hw == Usb && transfer == Completing
      modifies this`writeFifo, this`engine, this`transfer, this`handed, this`missed
      ensures Enabled(c, old(Device()), UsbRefill(k))
      ensures Device() == Apply(c, old(Device()), UsbRefill(k))
    {
      var err;
      k, err := UsbWrite(rooms);
    }

    /** Transmit branch of __pcan_sja1000_irqhandler. */
    method SjaTransmitInterrupt() returns (k: nat)
      requires c.hw == Sja1000 && transfer.InFlight?
      modifies this`writeFifo, this`engine, this`transfer, this`handed, this`missed, this`sent, this`wwakeup
      ensures Enabled(c, old(Device()), SjaInterrupt(k))
      ensures Device() == Apply(c, old(Device()), SjaInterrupt(k))
    {
      sent := sent + transfer.msgs;
      var err := SjaWriteNext();
      if err == ENODATA {
        k, engine, transfer, missed := 0, Stopped, Quiet, false;
      } else {
        k, wwakeup := 1, true;
      }
    }

    /** pcan_handle_error_active: the state changes first, then writing starts; that the
        controller may be stuck goes unnoticed. */
    method HandleErrorActive(rooms: seq<nat>, ready: bool) returns (k: nat)
      requires plugged && ValidRooms(rooms) && handler == Free
      requires SingleWriter(Device()) && transfer != Completing
      modifies this
      ensures plugged == old(plugged)
      ensures
        var s := Apply(c, old(Device()), BusActive);
        if old(busState) != Unknown then
          Device() == s
        else if old(engine) == Stopped && Stuck(ready) then
          Enabled(c, s, HandlerGivesUp) && Device() == Apply(c, s, HandlerGivesUp)
        else
          Enabled(c, s, HandlerStart(k)) && Device() == Apply(c, s, HandlerStart(k))
    {
      var was := busState;
      k := 0;
      busState := Active;
      if was == Unknown {
        var err;
        k, err := DevStartWriting(rooms, ready);
      }
    }

    /** pcan_handle_error_status: no error bit is left to others; `known` is its answer. */
    method HandleErrorStatus(warning: bool, passive: bool) returns (known: bool)
      requires handler == Free
      modifies this`busState, this`missed
      ensures known <==> warning || passive || old(busState) == Active
      ensures
        if warning || passive then
          var e := BusErrors(if passive then Passive else Warning);
          Enabled(c, old(Device()), e) && Device() == Apply(c, old(Device()), e)
        else
          Device() == old(Device())
    {
      if !passive && !warning {
        return busState == Active;
      }
      missed := missed || busState == Unknown;
      busState := if passive then Passive else Warning;
      known := true;
    }

    /** pcan_handle_busoff: the state changes, and then the senders are signalled. */
    method HandleBusoff() returns (told: bool)
      requires handler == Free
      modifies this`busState, this`handler, this`missed
      ensures told <==> old(busState) != BusOff
      ensures
        if told then
          var s := Apply(c, old(Device()), BusGone);
          Enabled(c, s, HandlerSignal) && Device() == Apply(c, s, HandlerSignal)
        else
          Device() == old(Device())
    {
      if busState == BusOff {
        return false;
      }
      missed := missed || busState == Unknown;
      busState, handler := BusOff, MustSignal;
      NobodyToSignal(Device());
      hide Signal;
      handler := Free;
      told := true;
    }

    /** The channel takes frames of this type, length and identifier. */
    predicate Sendable(ty: MsgType, msg: TxMsg) {
      && (ty == Can20 || ty == CanFd)
      && |msg.data| <= (if ty == CanFd && fd then 64 else 8)
      && (stdOnly ==> !msg.ext && msg.id < 2048)
    }

    /** The device is there, and its bus is not off. */
    predicate Reachable()
      reads this`plugged, this`busState
    {
      plugged && busState != BusOff
    }

    /** One pass of pcanfd_send_msg on a descriptor opened with O_NONBLOCK. A CAN FD frame for a
        channel that is not set up for CAN FD is queued as a CAN 2.0 frame; `kind` tells this. */
    method SendMsg(ty: MsgType, msg: TxMsg) returns (err: Errno, kind: MsgType)
      requires |writeFifo| <= c.capacity
      modifies this`writeFifo, this`accepted
      ensures err == OK <==> Sendable(ty, msg) && Reachable() && |old(writeFifo)| < c.capacity
      ensures err == EBADMSG <==> ty == OtherType || |msg.data| > if ty == CanFd && fd then 64 else 8
      ensures err == EINVAL ==> stdOnly && (msg.ext || msg.id >= 2048)
      ensures err == ENODEV <==> Sendable(ty, msg) && !plugged
      ensures err == ENETDOWN <==> Sendable(ty, msg) && plugged && busState == BusOff
      ensures err == EAGAIN <==> Sendable(ty, msg) && Reachable() && |old(writeFifo)| == c.capacity
      ensures err in {OK, EBADMSG, EINVAL, ENODEV, ENETDOWN, EAGAIN}
      ensures err == OK ==>
        writeFifo == old(writeFifo) + [msg] && accepted == old(accepted) + [msg]
      ensures err == OK ==> kind == if fd then ty else Can20
      ensures err != OK ==> writeFifo == old(writeFifo) && accepted == old(accepted)
    {
      AdmittedLength(fd, stdOnly, ty, msg);
      hide Admit;
      kind := if ty == CanFd && !fd then Can20 else ty;
      err := Admit(fd, stdOnly, ty, msg);
      if err != OK {
        return;
      }
      if !plugged {
        return ENODEV, kind;
      }
      if busState == BusOff {
        return ENETDOWN, kind;
      }
      if |writeFifo| >= c.capacity {
        return EAGAIN, kind;
      }
      writeFifo, accepted := writeFifo + [msg], accepted + [msg];
    }

    /** `count` is the length of the longest prefix of `list` that can be queued behind `stored`
        frames without waiting: all of it is sendable and finds room, and the next message, if
        there is one, is not or does not. */
    ghost predicate LongestPrefix(stored: nat, list: seq<(MsgType, TxMsg)>, count: nat)
      reads this`plugged, this`busState
    {
      && count <= |list|
      && (forall i :: 0 <= i < count ==> Sendable(list[i].0, list[i].1))
      && (count > 0 ==> Reachable() && stored + count <= c.capacity)
      && (count < |list| ==>
            !Sendable(list[count].0, list[count].1) || !Reachable() || stored + count >= c.capacity)
    }

    /** The loop of pcanfd_ioctl_send_msgs, with no other task in between. */
    method QueueMsgs(list: seq<(MsgType, TxMsg)>) returns (count: nat, err: Errno)
      requires |writeFifo| <= c.capacity
      modifies this`writeFifo, this`accepted
      ensures LongestPrefix(|old(writeFifo)|, list, count)
      ensures accepted == old(accepted) + Msgs(list[..count])
      ensures writeFifo == old(writeFifo) + Msgs(list[..count])
      ensures err == OK <==> count == |list|
    {
      count, err := 0, OK;
      while count < |list|
        invariant count <= |list| && err == OK
        invariant forall i :: 0 <= i < count ==> Sendable(list[i].0, list[i].1)
        invariant count > 0 ==> Reachable()
        invariant |writeFifo| == |old(writeFifo)| + count <= c.capacity
        invariant accepted == old(accepted) + Msgs(list[..count])
        invariant writeFifo == old(writeFifo) + Msgs(list[..count])
      {
        var kind;
        err, kind := SendMsg(list[count].0, list[count].1);
        if err != OK {
          break;
        }
        assert Msgs(list[..count + 1]) == Msgs(list[..count]) + [list[count].1];
        count := count + 1;
      }
    }

    /** pcanfd_ioctl_send_msgs without another task in between: exactly the longest
        admissible prefix that fits is queued, behind everything queued before, and
        the engine is left running once the bus is known, unless the controller is stuck. */
    method SendMsgs(list: seq<(MsgType, TxMsg)>, rooms: seq<nat>, ready: bool) returns (count: nat, err: Errno)
      requires ValidRooms(rooms) && |writeFifo| <= c.capacity
      requires SingleWriter(Device()) && transfer != Completing
      modifies this
      ensures LongestPrefix(|old(writeFifo)|, list, count) && plugged == old(plugged)
      ensures accepted == old(accepted) + Msgs(list[..count])
      ensures handed + writeFifo == old(handed) + (old(writeFifo) + Msgs(list[..count]))
      ensures count > 0 && busState != Unknown && !Stuck(ready) ==> engine == Started
      ensures count == 0 ==> (err == OK <==> list == []) && Device() == old(Device())
      ensures count > 0 ==> err == if WillWrite(old(Device())) && Stuck(ready) then EIO else OK
      ensures SingleWriter(Device()) && busState == old(busState)
    {
      count, err := QueueMsgs(list);
      hide LongestPrefix, Sendable, ValidRooms, Msgs;
      ghost var queued := Device();
      if count > 0 {
        var k;
        k, err := DevStartWriting(rooms, ready);
        WriteKeepsOrder(queued, k);
      }
    }
  }
}
