/** What is put into the read queue of a device: status messages that are not repeated, and an
    overflow that the newest entry tells of. Each routine is what it is when nobody else touches
    the queue in the meantime; RxSteps has everybody's steps. */
module RxPolicy {
  import opened Can
  import RingFifo

  // ---------------------------------------------------------------- messages

  datatype Kind = NOP | CAN20 | CANFD | STATUS | ERROR_MSG

  /** `flags` of struct pcanfd_msg: the bits that say which fields are valid, and the others. */
  datatype Flags = Flags(bits: nat, timestamp: bool, errCnt: bool, busLoad: bool) {
    predicate Ext() { bits / 2 % 2 == 1 }
    predicate Rtr() { bits % 2 == 1 }
  }

  /** Bit 0 marks remote frames and bit 1 extended identifiers. */
  lemma FlagBits(rest: nat, ext: bool, rtr: bool, f: Flags)
    requires f.bits == 4 * rest + (if ext then 2 else 0) + if rtr then 1 else 0
    ensures f.Ext() == ext && f.Rtr() == rtr
  {
  }

  datatype Ctrlr = Ctrlr(rxErr: Byte, txErr: Byte, loadUnit: nat, loadDec: nat)

  /** `time` is the base time of the event in microseconds, `raw` that the user wants the
      device's own time. */
  datatype Msg = Msg(kind: Kind, id: nat, flags: Flags, len: nat, data: seq<Byte>, ctrlr: Ctrlr, time: int,
                     raw: bool)

  const UNKNOWN := 0
  const ACTIVE := 1
  const WARNING := 2
  const PASSIVE := 3
  const BUSOFF := 4
  const RX_OVERFLOW := 6
  const BUS_LOAD := 10

  const ERROR_BUS := 0x80
  const ERROR_INTERNAL := 0x400

  const EEXIST := -17
  const EINVAL := -22
  const ENOENT := -2
  const ENOSPC := -28
  const EAGAIN := -11
  const ENODEV := -19

  /** What times are relative to. */
  datatype Format = HOST | DRIVER | DEVICE

  /** subtract_timeval, with 0 for its failure. */
  function Since(time: int, start: int): int { if time >= start then time - start else 0 }

  // ---------------------------------------------------------------- the queue

  datatype Queue = Queue(fifo: seq<Msg>, overrun: bool)

  /** Two messages that differ in nothing but counters, data and time. */
  predicate Same(a: Msg, b: Msg) {
    a.kind == b.kind && a.id == b.id && a.flags == b.flags && a.len == b.len
  }

  /** The same in one equation. */
  lemma SameButForContents(a: Msg, b: Msg)
    ensures Same(a, b) <==> a.(ctrlr := b.ctrlr, data := b.data, time := b.time, raw := b.raw) == b
  {
  }

  /** pcan_do_patch_rxmsg and pcan_do_patch_last; both stop at the newest entry. */
  function PatchSame(item: Msg, rx: Msg): (Msg, Msg, int) {
    if Same(item, rx) then (rx, rx, EEXIST) else (item, rx, ENOENT)
  }

  function PatchLast(item: Msg, rx: Msg): (Msg, Msg, int) { (rx, rx, EEXIST) }

  /** The message that pcan_handle_error_internal makes of a lost one. */
  function Overflow(m: Msg): Msg {
    m.(kind := STATUS, id := RX_OVERFLOW, flags := Flags(ERROR_INTERNAL, false, false, false), len := 0)
  }

  predicate IsOverflow(m: Msg) { m == Overflow(m) }

  predicate IsBusLoad(m: Msg) { m.kind == STATUS && m.id == BUS_LOAD }

  /** The message is a status that the newest entry tells already. */
  predicate Repeats(q: Queue, m: Msg) {
    m.kind == STATUS && q.fifo != [] && Same(q.fifo[|q.fifo| - 1], m)
  }

  /** The message takes the place of the newest entry, if there is one. */
  function WithNewest(q: Queue, m: Msg): Queue {
    if q.fifo == [] then q else q.(fifo := q.fifo[|q.fifo| - 1 := m])
  }

  function Appended(q: Queue, m: Msg): Queue { q.(fifo := q.fifo + [m]) }

  /** What becomes of the queue and of a message that has passed all tests, when nobody else
      touches the queue in the meantime. */
  function Post(q: Queue, m: Msg, capacity: nat): (Queue, int) {
    if q.overrun then (q, ENOSPC)
    else if Repeats(q, m) then (WithNewest(q, m), 0)
    else if |q.fifo| < capacity then (Appended(q, m), 1)
    else (WithNewest(q, Overflow(m)).(overrun := true), ENOSPC)
  }

  /** What the timer does to the queue. */
  function TimerPut(q: Queue, m: Msg, capacity: nat): Queue {
    if |q.fifo| < capacity then Appended(q, m) else q
  }

  /** What clearing the overrun bit does, with the status it posts. */
  function Cleared(q: Queue, passed: bool, posted: Msg, capacity: nat): Queue {
    if !q.overrun then q
    else
      var q' := q.(overrun := false);
      if passed then Post(q', posted, capacity).0 else q'
  }

  // ---------------------------------------------------------------- the device

  class RxDevice {
    const capacity: nat
    /** The acceptance codes and masks, and the filter. */
    const accepts: (bool, nat) -> bool
    const filtered: Msg -> bool

    var readFifo: seq<Msg>
    var overrun: bool
    var plugged: bool
    var isOpen: bool
    var allowCan: bool
    var allowExt: bool
    var allowRtr: bool
    var allowStatus: bool
    var allowError: bool
    var busState: nat
    var busError: nat
    var rxErrorCounter: Byte
    var txErrorCounter: Byte
    var prevRxErrorCounter: Byte
    var prevTxErrorCounter: Byte
    var errCntReady: bool
    var busLoadReady: bool
    var busLoadInfo: bool
    var busLoad: nat
    var prevBusLoad: nat
    var busLoadTotal: nat
    var busLoadCount: nat
    var rxFramesCounter: nat
    var format: Format
    var driverStart: int
    var deviceStart: int

    function Q(): Queue
      reads this`readFifo, this`overrun
    {
      Queue(readFifo, overrun)
    }

    constructor (capacity: nat, accepts: (bool, nat) -> bool, filtered: Msg -> bool)
      ensures this.capacity == capacity && this.accepts == accepts && this.filtered == filtered
      ensures Q() == Queue([], false)
    {
      this.capacity, this.accepts, this.filtered := capacity, accepts, filtered;
      readFifo, overrun := [], false;
    }

    /** A time in the format the user has chosen. */
    function InFormat(time: int): (r: int)
      reads this`format, this`driverStart, this`deviceStart
      ensures format == HOST ==> r == time
      ensures format == DRIVER ==> if time >= driverStart then r + driverStart == time else r == 0
      ensures format == DEVICE ==> if time >= deviceStart then r + deviceStart == time else r == 0
    {
      match format case HOST => time case DRIVER => Since(time, driverStart) case DEVICE => Since(time, deviceStart)
    }

    /** The time, the error counters and the bus load as they go into every message. */
    function Stamped(m: Msg, now: int): (r: Msg)
      reads this`format, this`driverStart, this`deviceStart, this`errCntReady, this`rxErrorCounter,
            this`txErrorCounter, this`busLoadReady, this`busLoad
      ensures r.kind == m.kind && r.id == m.id && r.len == m.len && r.data == m.data
      ensures r.flags.bits == m.flags.bits && r.flags.errCnt == errCntReady && r.flags.busLoad == busLoadReady
      ensures r.raw == (m.raw && m.flags.timestamp) && (r.raw ==> r.time == m.time)
      ensures !r.raw ==> r.time == InFormat(if m.flags.timestamp then m.time else now)
      ensures r.ctrlr.rxErr == (if errCntReady then rxErrorCounter else m.ctrlr.rxErr)
      ensures r.ctrlr.txErr == (if errCntReady then txErrorCounter else m.ctrlr.txErr)
      ensures busLoadReady ==> r.ctrlr.loadUnit * 100 + r.ctrlr.loadDec == busLoad && r.ctrlr.loadDec < 100
      ensures !busLoadReady ==> r.ctrlr.loadUnit == m.ctrlr.loadUnit && r.ctrlr.loadDec == m.ctrlr.loadDec
    {
      var raw, time := m.raw && m.flags.timestamp, if m.flags.timestamp then m.time else now;
      var c := m.ctrlr;
      var c1 := if busLoadReady then c.(loadUnit := busLoad / 100, loadDec := busLoad % 100) else c;
      var c2 := if errCntReady then c1.(rxErr := rxErrorCounter, txErr := txErrorCounter) else c1;
      m.(time := if raw then time else InFormat(time), raw := raw, ctrlr := c2,
         flags := m.flags.(errCnt := errCntReady, busLoad := busLoadReady))
    }

    /** pcan_status_rx: nothing has changed since the last status, or the counters do not
        fit the state, or else the counters are noted. */
    method StatusRx(m: Msg) returns (err: int, r: Msg)
      modifies this`prevRxErrorCounter, this`prevTxErrorCounter
      ensures err == EEXIST <==>
        && busState == m.id && rxErrorCounter == old(prevRxErrorCounter)
        && txErrorCounter == old(prevTxErrorCounter)
      ensures err == EEXIST ==> r == m
      ensures err != EEXIST ==> r == m.(data := [], len := 0)
      ensures err == 0 ==>
        prevRxErrorCounter == rxErrorCounter && prevTxErrorCounter == txErrorCounter
      ensures err != 0 ==>
        prevRxErrorCounter == old(prevRxErrorCounter) && prevTxErrorCounter == old(prevTxErrorCounter)
      ensures err == EINVAL ==> errCntReady && !Fits(busState, rxErrorCounter, txErrorCounter)
      ensures err == EEXIST || err == EINVAL || err == 0
      ensures err == 0 && errCntReady ==> Fits(busState, rxErrorCounter, txErrorCounter)
    {
      if busState == m.id && rxErrorCounter == prevRxErrorCounter && txErrorCounter == prevTxErrorCounter {
        return EEXIST, m;
      }
      r := m.(data := [], len := 0);
      if errCntReady {
        if busState == ACTIVE {
          if rxErrorCounter >= 96 || txErrorCounter >= 96 {
            return EINVAL, r;
          }
        } else if busState == WARNING {
          if rxErrorCounter >= 128 || txErrorCounter >= 128 {
            return EINVAL, r;
          }
          if rxErrorCounter < 96 && txErrorCounter < 96 {
            return EINVAL, r;
          }
        } else if busState == PASSIVE {
          if rxErrorCounter < 128 && txErrorCounter < 128 {
            return EINVAL, r;
          }
        }
      }
      prevRxErrorCounter, prevTxErrorCounter := rxErrorCounter, txErrorCounter;
      err := 0;
    }

    /** pcan_error_rx: a bus error that the user knows is told again only with new counters. */
    method ErrorRx(m: Msg) returns (err: int)
      modifies this`busError, this`prevRxErrorCounter, this`prevTxErrorCounter
      ensures err == EEXIST <==>
        && m.id == old(busError)
        && (m.flags.errCnt ==> old(prevRxErrorCounter) == rxErrorCounter && old(prevTxErrorCounter) == txErrorCounter)
      ensures err == EEXIST || err == 0
      ensures busError == m.id
      ensures m.id == old(busError) && err == 0 ==>
        prevRxErrorCounter == rxErrorCounter && prevTxErrorCounter == txErrorCounter
      ensures m.id != old(busError) || err == EEXIST ==>
        prevRxErrorCounter == old(prevRxErrorCounter) && prevTxErrorCounter == old(prevTxErrorCounter)
    {
      if m.id == busError {
        if !m.flags.errCnt {
          return EEXIST;
        }
        if prevRxErrorCounter == rxErrorCounter && prevTxErrorCounter == txErrorCounter {
          return EEXIST;
        }
        prevRxErrorCounter, prevTxErrorCounter := rxErrorCounter, txErrorCounter;
      }
      busError := m.id;
      err := 0;
    }

    /** The tests before anything is changed: kinds of messages the user wants, and the
        acceptance of CAN frames. */
    predicate Admitted(m: Msg)
      reads this`allowCan, this`allowExt, this`allowRtr, this`allowStatus, this`allowError
    {
      match m.kind
      case NOP => false
      case STATUS => m.id != BUS_LOAD && allowStatus
      case ERROR_MSG => allowError
      case _ =>
        && allowCan && (m.flags.Ext() ==> allowExt) && accepts(m.flags.Ext(), m.id)
        && (m.flags.Rtr() ==> allowRtr)
    }

    /** The counters are those that were noted when the user was told last. */
    predicate CountersKnown()
      reads this`rxErrorCounter, this`txErrorCounter, this`prevRxErrorCounter, this`prevTxErrorCounter
    {
      rxErrorCounter == prevRxErrorCounter && txErrorCounter == prevTxErrorCounter
    }

    /** What is not told again: the state and the bus error that the user knows, with the
        counters he knows, and frames that are filtered. */
    predicate GivenUp(m: Msg, now: int)
      reads this`format, this`driverStart, this`deviceStart, this`errCntReady, this`rxErrorCounter,
            this`txErrorCounter, this`prevRxErrorCounter, this`prevTxErrorCounter, this`busLoadReady, this`busLoad,
            this`busState, this`busError
    {
      match m.kind
      case NOP => true
      case STATUS =>
        ACTIVE <= m.id <= BUSOFF && busState == Normalized(Stamped(m, now)).id && CountersKnown()
      case ERROR_MSG => m.id == busError && (errCntReady ==> CountersKnown())
      case _ => filtered(Stamped(m, now))
    }

    /** A bus state is told as it is, unless the counters in the message contradict it: then as the
        least state, not better than it, that they allow. Everything else keeps its identifier. */
    ghost predicate Tells(m: Msg, told: nat)
      reads this`errCntReady, this`rxErrorCounter, this`txErrorCounter
    {
      if m.kind == STATUS && ACTIVE <= m.id <= PASSIVE && errCntReady then
        && m.id <= told <= PASSIVE && Allows(told, rxErrorCounter, txErrorCounter)
        && forall state: nat :: m.id <= state < told ==> !Allows(state, rxErrorCounter, txErrorCounter)
      else
        told == m.id
    }

    /** The present counters are noted: with a bus state that they fit, and with the bus error that
        the user knows. */
    predicate Notes(m: Msg)
      reads this`busState, this`busError, this`errCntReady, this`rxErrorCounter, this`txErrorCounter
    {
      match m.kind
      case STATUS => ACTIVE <= m.id <= BUSOFF && (errCntReady ==> Fits(busState, rxErrorCounter, txErrorCounter))
      case ERROR_MSG => m.id == busError && errCntReady
      case _ => false
    }

    lemma NormalizedTells(m: Msg, now: int)
      ensures
        var s := Stamped(m, now);
        m.kind == STATUS && ACTIVE <= m.id <= BUSOFF ==>
          Tells(m, if m.id <= PASSIVE then Normalized(s).id else m.id)
    {
    }

    lemma GivenUpIs(m: Msg, now: int)
      ensures m.kind == STATUS ==>
        (GivenUp(m, now) <==> ACTIVE <= m.id <= BUSOFF && Tells(m, busState) && CountersKnown())
      ensures m.kind == ERROR_MSG ==> (GivenUp(m, now) <==> m.id == busError && (errCntReady ==> CountersKnown()))
      ensures m.kind == CAN20 || m.kind == CANFD ==> (GivenUp(m, now) <==> filtered(Stamped(m, now)))
    {
      NormalizedTells(m, now);
      hide Tells, Normalized;
      if m.kind == STATUS && ACTIVE <= m.id <= BUSOFF {
        NormalizedIs(m, now);
        OneIsTold(m, Normalized(Stamped(m, now)).id, busState);
      }
    }

    lemma NormalizedIs(m: Msg, now: int)
      ensures m.kind == STATUS && m.id == BUSOFF ==> Normalized(Stamped(m, now)).id == BUSOFF
    {
    }

    lemma OneIsTold(m: Msg, told: nat, other: nat)
      ensures Tells(m, told) && Tells(m, other) ==> told == other
    {
    }

    /** The middle of pcan_chardev_rx: the counters are put in, and repeated states, repeated
        errors and filtered frames are given up. */
    method Prepare(m: Msg, now: int) returns (keep: bool, rx: Msg)
      requires m.kind != NOP
      modifies this`busError, this`prevRxErrorCounter, this`prevTxErrorCounter
      ensures
        var s := old(Stamped(m, now));
        if m.kind != STATUS then rx == s else rx == s.(id := rx.id, len := rx.len, data := rx.data)
      ensures old(Tells(m, rx.id))
      ensures keep <==> !old(GivenUp(m, now))
      ensures keep && m.kind == STATUS ==>
        if ACTIVE <= m.id <= BUSOFF then rx.len == 0 && rx.data == [] else rx.len == m.len && rx.data == m.data
      ensures busError == if m.kind == ERROR_MSG then m.id else old(busError)
      ensures old(Notes(m)) ==> CountersKnown()
      ensures !old(Notes(m)) ==>
        prevRxErrorCounter == old(prevRxErrorCounter) && prevTxErrorCounter == old(prevTxErrorCounter)
    {
      NormalizedTells(m, now);
      keep, rx := true, Stamped(m, now);
      match m.kind {
        case STATUS =>
          var err := 0;
          if m.id == ACTIVE || m.id == WARNING || m.id == PASSIVE {
            rx := Normalized(rx);
          }
          if m.id == ACTIVE || m.id == WARNING || m.id == PASSIVE || m.id == BUSOFF {
            err, rx := StatusRx(rx);
          }
          keep := err != EEXIST;
        case ERROR_MSG =>
          var err := ErrorRx(rx);
          keep := err != EEXIST;
        case _ =>
          keep := !filtered(rx);
      }
    }

    /** The test for a repetition, under the lock of the queue. */
    method TryPatch(rx: Msg) returns (patched: bool)
      requires rx.kind == STATUS
      modifies this`readFifo
      ensures patched <==> Repeats(old(Q()), rx)
      ensures Q() == if patched then WithNewest(old(Q()), rx) else old(Q())
    {
      var visited := RingFifo.VisitBack(readFifo, |readFifo|, PatchSame, rx);
      NewestOnly(readFifo, PatchSame, rx);
      readFifo := visited.0;
      patched := visited.2 == EEXIST;
      assert !patched ==> readFifo == old(readFifo);
    }

    /** pcan_fifo_put. */
    method PutRx(rx: Msg) returns (err: int)
      modifies this`readFifo
      ensures err == if |old(readFifo)| < capacity then |old(readFifo)| else ENOSPC
      ensures Q() == if err >= 0 then Appended(old(Q()), rx) else old(Q())
    {
      err := ENOSPC;
      if |readFifo| < capacity {
        err := |readFifo|;
        readFifo := readFifo + [rx];
      }
    }

    /** pcan_handle_error_internal for an overflow of the queue. */
    method HandleOverflow(m: Msg) returns (rx: Msg)
      modifies this`overrun
      ensures rx == Overflow(m) && Q() == old(Q()).(overrun := true)
    {
      rx := m.(kind := STATUS, id := RX_OVERFLOW, flags := Flags(ERROR_INTERNAL, false, false, false), len := 0);
      overrun := true;
    }

    /** The newest entry is replaced, under the lock of the queue. */
    method ReplaceNewest(rx: Msg)
      modifies this`readFifo
      ensures Q() == WithNewest(old(Q()), rx)
    {
      NewestOnly(readFifo, PatchLast, rx);
      readFifo := RingFifo.VisitBack(readFifo, |readFifo|, PatchLast, rx).0;
    }

    /** The end of pcan_chardev_rx: a repeated status takes the place of the newest entry, and
        a message that finds the queue full turns the newest entry into the overflow mark. */
    method Store(rx: Msg) returns (err: int)
      requires !overrun
      modifies this`readFifo, this`overrun
      ensures (Q(), err) == Post(old(Q()), rx, capacity)
    {
      if rx.kind == STATUS {
        var patched := TryPatch(rx);
        if patched {
          return 0;
        }
      }
      err := PutRx(rx);
      if err >= 0 {
        return 1;
      }
      var mark := HandleOverflow(rx);
      ReplaceNewest(mark);
    }

    /** The beginning of pcan_chardev_rx: bus loads and frames are counted, and what the user
        does not want is left. */
    method Count(m: Msg) returns (wanted: bool)
      modifies this`rxFramesCounter, this`busLoadTotal, this`busLoadCount
      ensures wanted <==> old(Admitted(m))
      ensures rxFramesCounter == old(rxFramesCounter) + if m.kind == CAN20 || m.kind == CANFD then 1 else 0
      ensures m.kind == STATUS && m.id == BUS_LOAD ==>
        busLoadTotal == old(busLoadTotal) + busLoad && busLoadCount == old(busLoadCount) + 1
      ensures m.kind != STATUS || m.id != BUS_LOAD ==>
        busLoadTotal == old(busLoadTotal) && busLoadCount == old(busLoadCount)
    {
      match m.kind {
        case NOP =>
          return false;
        case STATUS =>
          if m.id == BUS_LOAD {
            busLoadTotal, busLoadCount := busLoadTotal + busLoad, busLoadCount + 1;
            return false;
          }
          if !allowStatus {
            return false;
          }
        case ERROR_MSG =>
          if !allowError {
            return false;
          }
        case _ =>
          rxFramesCounter := rxFramesCounter + 1;
          if !allowCan {
            return false;
          }
          if m.flags.Ext() {
            if !allowExt {
              return false;
            }
          }
          if !accepts(m.flags.Ext(), m.id) {
            return false;
          }
          if m.flags.Rtr() {
            if !allowRtr {
              return false;
            }
          }
      }
      wanted := true;
    }

    /** pcan_chardev_rx. `passed` says whether the message came to the queue, and `posted`
        in which form. */
    method ChardevRx(m: Msg, now: int) returns (err: int, ghost passed: bool, ghost posted: Msg)
      modifies this`readFifo, this`overrun, this`rxFramesCounter, this`busLoadTotal, this`busLoadCount,
               this`busError, this`prevRxErrorCounter, this`prevTxErrorCounter
      ensures (Q(), err) == if passed then Post(old(Q()), posted, capacity) else (old(Q()), 0)
      ensures passed ==> posted.kind == m.kind && !IsBusLoad(posted)
      ensures passed && !old(overrun) ==>
        && posted == old(Stamped(m, now)).(id := posted.id, len := posted.len, data := posted.data)
        && old(Tells(m, posted.id))
        && if m.kind == STATUS && ACTIVE <= m.id <= BUSOFF then posted.len == 0 && posted.data == []
           else posted.len == m.len && posted.data == m.data
      ensures m.kind == NOP ==> !passed
      ensures m.kind == STATUS ==>
        (passed <==>
          && isOpen && allowStatus && m.id != BUS_LOAD
          && (old(overrun) || !(ACTIVE <= m.id <= BUSOFF && old(Tells(m, busState)) && old(CountersKnown()))))
      ensures m.kind == ERROR_MSG ==>
        (passed <==>
          isOpen && allowError && (old(overrun) || m.id != old(busError) || (errCntReady && !old(CountersKnown()))))
      ensures m.kind == CAN20 || m.kind == CANFD ==>
        (passed <==>
          && isOpen && allowCan && (m.flags.Ext() ==> allowExt) && accepts(m.flags.Ext(), m.id)
          && (m.flags.Rtr() ==> allowRtr) && (old(overrun) || !filtered(old(Stamped(m, now)))))
      ensures
        var seen := old(Admitted(m)) && isOpen && !old(overrun);
        && busError == (if seen && m.kind == ERROR_MSG then m.id else old(busError))
        && (if seen && old(Notes(m)) then CountersKnown()
            else prevRxErrorCounter == old(prevRxErrorCounter) && prevTxErrorCounter == old(prevTxErrorCounter))
      ensures rxFramesCounter == old(rxFramesCounter) + if m.kind == CAN20 || m.kind == CANFD then 1 else 0
      ensures m.kind == STATUS && m.id == BUS_LOAD ==>
        busLoadTotal == old(busLoadTotal) + busLoad && busLoadCount == old(busLoadCount) + 1
      ensures m.kind != STATUS || m.id != BUS_LOAD ==>
        busLoadTotal == old(busLoadTotal) && busLoadCount == old(busLoadCount)
    {
      passed, posted := false, m;
      GivenUpIs(m, now);
      hide Normalized, Post, Tells, Notes, GivenUp, Stamped, CountersKnown, InFormat, Fits;
      var wanted := Count(m);
      if !wanted || !isOpen {
        return 0, passed, posted;
      }
      if overrun {
        OverrunStays(Q(), m, capacity);
        return ENOSPC, true, posted;
      }
      var keep, rx := Prepare(m, now);
      if !keep {
        return 0, passed, posted;
      }
      passed, posted := true, rx;
      err := Store(rx);
    }

    /** pcan_push_bus_load_ind, called by a timer. */
    method PushBusLoadInd(now: int) returns (ghost posted: seq<Msg>)
      modifies this`readFifo, this`prevBusLoad, this`busLoadTotal, this`busLoadCount
      ensures Q() == if posted == [] then old(Q()) else TimerPut(old(Q()), posted[0], capacity)
      ensures
        var mean := if old(busLoadCount) == 0 then busLoad else old(busLoadTotal) / old(busLoadCount);
        if busState == UNKNOWN || !busLoadInfo || mean == old(prevBusLoad) then
          && posted == [] && prevBusLoad == old(prevBusLoad)
          && busLoadTotal == old(busLoadTotal) && busLoadCount == old(busLoadCount)
        else
          && |posted| == 1 && prevBusLoad == mean && busLoadTotal == busLoadCount == 0
          && IsBusLoad(posted[0]) && posted[0].len == 0 && posted[0].data == []
          && posted[0].flags == Flags(0, false, errCntReady, true) && posted[0].time == now && !posted[0].raw
          && posted[0].ctrlr.loadUnit * 100 + posted[0].ctrlr.loadDec == mean && posted[0].ctrlr.loadDec < 100
          && posted[0].ctrlr.rxErr == (if errCntReady then rxErrorCounter else 0)
          && posted[0].ctrlr.txErr == (if errCntReady then txErrorCounter else 0)
    {
      posted := [];
      if busState == UNKNOWN || !busLoadInfo {
        return;
      }
      var bl := if busLoadCount != 0 then busLoadTotal / busLoadCount else busLoad;
      if bl != prevBusLoad {
        var c := if errCntReady then Ctrlr(rxErrorCounter, txErrorCounter, bl / 100, bl % 100)
                 else Ctrlr(0, 0, bl / 100, bl % 100);
        var rx := Msg(STATUS, BUS_LOAD, Flags(0, false, errCntReady, true), 0, [], c, now, false);
        posted := [rx];
        busLoadTotal, busLoadCount, prevBusLoad := 0, 0, bl;
        if |readFifo| < capacity {
          readFifo := readFifo + [rx];
        }
      }
    }

    /** The status that pcan_clear_status_bit posts. */
    function StateMsg(): Msg
      reads this`busState
    {
      Msg(STATUS, busState, Flags(ERROR_BUS, false, false, false), 0, [], Ctrlr(0, 0, 0, 0), 0, false)
    }

    /** `told` is the state of the bus, by its counters. */
    ghost predicate TellsState(told: nat)
      reads this`busState, this`errCntReady, this`rxErrorCounter, this`txErrorCounter
    {
      Tells(Msg(STATUS, busState, Flags(0, false, false, false), 0, [], Ctrlr(0, 0, 0, 0), 0, false), told)
    }

    /** pcan_clear_status_bit for the overrun bit: the state of the bus is told again, for
        its counters are made to look new. */
    method ClearOverrun(now: int) returns (ghost passed: bool, ghost posted: Msg)
      modifies this`readFifo, this`overrun, this`rxFramesCounter, this`busLoadTotal, this`busLoadCount,
               this`busError, this`prevRxErrorCounter, this`prevTxErrorCounter
      ensures Q() == Cleared(old(Q()), passed, posted, capacity)
      ensures passed <==> old(overrun) && allowStatus && isOpen && busState != BUS_LOAD
      ensures passed ==>
        && posted.kind == STATUS && !IsBusLoad(posted) && posted.flags.bits == ERROR_BUS && TellsState(posted.id)
        && posted.len == 0 && posted.data == [] && !posted.raw
      ensures !old(overrun) ==>
        prevRxErrorCounter == old(prevRxErrorCounter) && prevTxErrorCounter == old(prevTxErrorCounter)
      ensures old(overrun) ==>
        if passed && Notes(StateMsg()) then CountersKnown()
        else
          prevRxErrorCounter == (rxErrorCounter + 1) % 256 && prevTxErrorCounter == (txErrorCounter + 1) % 256
      ensures busError == old(busError) && rxFramesCounter == old(rxFramesCounter)
    {
      passed, posted := false, Msg(NOP, 0, Flags(0, false, false, false), 0, [], Ctrlr(0, 0, 0, 0), 0, false);
      if !overrun {
        return;
      }
      overrun := false;
      prevRxErrorCounter, prevTxErrorCounter := (rxErrorCounter + 1) % 256, (txErrorCounter + 1) % 256;
      var err;
      err, passed, posted := ChardevRx(StateMsg(), now);
    }

    /** One turn of pcanfd_recv_msg for a reader that does not wait. */
    method RecvMsg(now: int) returns (err: int, item: Msg, ghost passed: bool, ghost posted: Msg)
      modifies this`readFifo, this`overrun, this`rxFramesCounter, this`busLoadTotal, this`busLoadCount,
               this`busError, this`prevRxErrorCounter, this`prevTxErrorCounter
      ensures err == if !plugged || !isOpen then ENODEV else if old(readFifo) == [] then EAGAIN else 0
      ensures err != 0 ==> Q() == old(Q())
      ensures err == 0 ==>
        && old(readFifo) == [item] + old(readFifo)[1..]
        && Q() == Cleared(old(Q()).(fifo := old(readFifo)[1..]), passed, posted, capacity)
        && (passed <==> old(overrun) && allowStatus && busState != BUS_LOAD)
        && (passed ==>
              && posted.kind == STATUS && !IsBusLoad(posted) && posted.flags.bits == ERROR_BUS
              && TellsState(posted.id))
    {
      item := Msg(NOP, 0, Flags(0, false, false, false), 0, [], Ctrlr(0, 0, 0, 0), 0, false);
      passed, posted := false, item;
      if !plugged || !isOpen {
        return ENODEV, item, passed, posted;
      }
      if readFifo == [] {
        return EAGAIN, item, passed, posted;
      }
      item, readFifo := readFifo[0], readFifo[1..];
      passed, posted := ClearOverrun(now);
      err := 0;
    }
  }

  /** The counters are not too high for the state. */
  predicate Allows(state: nat, rxErr: Byte, txErr: Byte) {
    && (state == ACTIVE ==> rxErr < 96 && txErr < 96)
    && (state == WARNING ==> rxErr < 128 && txErr < 128)
  }

  /** The state that the counters stand for. */
  predicate Fits(state: nat, rxErr: Byte, txErr: Byte) {
    && (state == ACTIVE ==> rxErr < 96 && txErr < 96)
    && (state == WARNING ==> rxErr < 128 && txErr < 128 && (rxErr >= 96 || txErr >= 96))
    && (state == PASSIVE ==> rxErr >= 128 || txErr >= 128)
  }

  /** Counters fit exactly one state, the least one that they allow. */
  lemma FitsTheLeastAllowed(state: nat, rxErr: Byte, txErr: Byte)
    requires ACTIVE <= state <= PASSIVE
    ensures Fits(state, rxErr, txErr) <==>
      Allows(state, rxErr, txErr) && forall s: nat :: ACTIVE <= s < state ==> !Allows(s, rxErr, txErr)
  {
    assert Allows(WARNING, rxErr, txErr) || !Allows(WARNING, rxErr, txErr);
    assert Allows(ACTIVE, rxErr, txErr) || !Allows(ACTIVE, rxErr, txErr);
  }

  /** pcan_status_normalize_rx: a state is never better than its counters. */
  function Normalized(m: Msg): (r: Msg)
    ensures r == m.(id := r.id) && (r.id == m.id || r.id == WARNING || r.id == PASSIVE)
    ensures m.flags.errCnt && m.id == ACTIVE ==> Fits(r.id, m.ctrlr.rxErr, m.ctrlr.txErr)
    ensures m.flags.errCnt && m.id == WARNING ==>
      (r.id == WARNING <==> m.ctrlr.rxErr < 128 && m.ctrlr.txErr < 128)
  {
    if !m.flags.errCnt then m
    else
      var rxErr, txErr := m.ctrlr.rxErr, m.ctrlr.txErr;
      if m.id == ACTIVE && rxErr < 96 && txErr < 96 then m
      else if m.id == ACTIVE || m.id == WARNING then
        m.(id := if rxErr < 128 && txErr < 128 then WARNING else PASSIVE)
      else m
  }

  /** A callback that never returns 0 sees the newest entry and no other. */
  lemma NewestOnly(fifo: seq<Msg>, pf: (Msg, Msg) -> (Msg, Msg, int), rx: Msg)
    requires fifo != [] ==> pf(fifo[|fifo| - 1], rx).2 != 0
    ensures
      var n, r := |fifo|, RingFifo.VisitBack(fifo, |fifo|, pf, rx);
      if n == 0 then r.0 == fifo && r.2 == 0
      else r.0 == fifo[n - 1 := pf(fifo[n - 1], rx).0] && r.2 == pf(fifo[n - 1], rx).2
  {
  }

  lemma OverrunStays(q: Queue, m: Msg, capacity: nat)
    requires q.overrun
    ensures Post(q, m, capacity) == (q, ENOSPC)
  {
  }

  /** The queue is full, and its newest entry tells of an overflow. */
  ghost predicate Marked(q: Queue, capacity: nat) {
    |q.fifo| == capacity && q.fifo != [] && IsOverflow(q.fifo[|q.fifo| - 1])
  }

  /** When nobody comes in between, a message finds no room if and only if the queue is full and
      it is not a repetition of the newest entry; then all entries but the newest stay, and that
      one becomes the mark. */
  lemma OverflowTouchesTheNewest(q: Queue, m: Msg, capacity: nat)
    requires capacity > 1 && |q.fifo| <= capacity && !q.overrun
    ensures
      var (r, err) := Post(q, m, capacity);
      && (err == ENOSPC <==> r.overrun)
      && (err == 0 <==> m.kind == STATUS && q.fifo != [] && Same(q.fifo[|q.fifo| - 1], m))
      && (err == 0 ==> r.fifo == q.fifo[..|q.fifo| - 1] + [m])
      && (err != 0 && err != ENOSPC ==> err == 1 && r.fifo == q.fifo + [m])
      && (err == ENOSPC <==> |q.fifo| == capacity && !(m.kind == STATUS && Same(q.fifo[capacity - 1], m)))
      && (err == ENOSPC ==> r.fifo == q.fifo[..capacity - 1] + [Overflow(m)] && Marked(r, capacity))
      && (err == ENOSPC ==>
            var mark := r.fifo[capacity - 1];
            && mark.kind == STATUS && mark.id == RX_OVERFLOW && mark.len == 0
            && mark.flags == Flags(ERROR_INTERNAL, false, false, false) && mark.time == m.time)
      && (err != ENOSPC && q.fifo != [] ==> q.fifo[..|q.fifo| - 1] <= r.fifo)
  {
  }

  /** The read that ends an overrun leaves the mark in the queue, and the state of the bus
      behind it. */
  lemma ReadEndsOverrun(q: Queue, m: Msg, capacity: nat)
    requires capacity > 1 && q.overrun && Marked(q, capacity)
    requires m.kind == STATUS && m.flags.bits == ERROR_BUS
    ensures
      var r := Cleared(q.(fifo := q.fifo[1..]), true, m, capacity);
      !r.overrun && r.fifo == q.fifo[1..] + [m] && IsOverflow(r.fifo[capacity - 2])
  {
    assert !Same(q.fifo[capacity - 1], m);
  }
}
