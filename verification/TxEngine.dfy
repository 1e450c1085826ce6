/** The transmit path of one opened channel, as a system of atomic steps.

    Senders (tasks inside pcanfd_ioctl_send_msgs) put frames into the transmit
    FIFO without holding `isr_lock` and take that lock afterwards to start the
    engine. Completions of the hardware refill it from the FIFO, and the bus
    leaving UNKNOWN starts it too. Every interleaving of these steps is a run. */
module TxEngine {
  import opened Can

  // ---------------------------------------------------------------- state

  /** Which `device_write` the channel has: a USB adapter sends a batch of frames
      per URB, an SJA1000 takes one frame at a time. */
  datatype Hardware = Usb | Sja1000

  datatype BusState = Unknown | Active | Warning | Passive | BusOff

  datatype Engine = Started | Stopped

  /** The single URB (or transmit buffer) of the channel. `Completing` is the time
      in which the USB completion routine holds `isr_lock` after it has signalled
      the waiting senders and before it has refilled the URB. */
  datatype Transfer = Quiet | InFlight(msgs: seq<TxMsg>) | Completing

  /** Where a sender stands. `todo` are the messages still to queue, `done` counts
      those queued by this call, and `dirty` records a put since the last start. */
  datatype Pc =
    | Idle
    | Trying(todo: seq<TxMsg>, done: nat, dirty: bool)
    | Blocked(todo: seq<TxMsg>, done: nat, dirty: bool)
    | Waiting(todo: seq<TxMsg>, done: nat)
    | Asleep(todo: seq<TxMsg>, done: nat)
    | Starting(dirty: bool)

  /** What the routine handling bus state events still has to do. */
  datatype Handler = Free | MustStart | MustSignal

  datatype Config = Config(hw: Hardware, capacity: nat, senders: nat) {
    /** pcan_fifo_init refuses a FIFO of fewer than two entries. */
    ghost predicate Valid() { capacity >= 2 }
  }

  /** `accepted`, `handed` and `sent` are logs: the frames put so far, those taken
      from the FIFO by a write, and those whose write has completed. `missed` says that
      since the last write a start was given up, or the bus left UNKNOWN without one.
      `wwakeup` is the wake-up counter of the SJA1000 interrupt handler. */
  datatype State = State(
    fifo: seq<TxMsg>, engine: Engine, bus: BusState, transfer: Transfer,
    handler: Handler, wwakeup: bool, pcs: seq<Pc>,
    accepted: seq<TxMsg>, handed: seq<TxMsg>, sent: seq<TxMsg>, missed: bool)

  function Init(c: Config): State {
    State([], Stopped, Unknown, Quiet, Free, false, seq(c.senders, _ => Idle), [], [], [], false)
  }

  // ---------------------------------------------------------------- device_write

  /** `device_write`: the next `k` frames of the FIFO go to the hardware and the
      engine is STARTED; with nothing to send it is STOPPED. */
  function Write(s: State, k: nat): State
    requires k <= |s.fifo|
  {
    if k == 0 then
      s.(engine := Stopped, transfer := Quiet, missed := false)
    else
      s.(fifo := s.fifo[k..], handed := s.handed + s.fifo[..k],
         engine := Started, transfer := InFlight(s.fifo[..k]), missed := false)
  }

  /** How many frames one write may take: none only when none are queued. */
  predicate Batch(c: Config, s: State, k: nat) {
    && k <= |s.fifo|
    && (k == 0 <==> s.fifo == [])
    && (c.hw == Sja1000 ==> k <= 1)
  }

  predicate WillWrite(s: State) { s.bus != Unknown && s.engine == Stopped }

  /** `__pcan_dev_start_writing`, atomic under `isr_lock`. */
  function StartWriting(s: State, k: nat): State
    requires WillWrite(s) ==> k <= |s.fifo|
  {
    if WillWrite(s) then Write(s, k) else s
  }

  predicate LockFree(s: State) { s.transfer != Completing }

  predicate CanStart(c: Config, s: State, k: nat) {
    LockFree(s) && (WillWrite(s) ==> Batch(c, s, k))
  }

  /** sja1000_write answers -EIO when the transmit buffer stays busy, and has done nothing. */
  predicate CanGiveUp(c: Config, s: State) {
    c.hw == Sja1000 && LockFree(s) && WillWrite(s)
  }

  // ---------------------------------------------------------------- steps

  function Wake(pc: Pc): Pc {
    if pc.Asleep? then Waiting(pc.todo, pc.done) else pc
  }

  /** `pcan_event_signal(&dev->out_event)`: every sleeper re-evaluates its condition. */
  function Signal(s: State): State {
    s.(pcs := seq(|s.pcs|, i requires 0 <= i < |s.pcs| => Wake(s.pcs[i])))
  }

  predicate Full(c: Config, s: State) { |s.fifo| >= c.capacity }

  datatype Event =
    | Call(i: nat, msgs: seq<TxMsg>)  // a task enters pcanfd_ioctl_send_msgs
    | Put(i: nat)                     // pcan_fifo_put succeeds
    | Refused(i: nat)                 // pcanfd_send_msg returns an error
    | FoundFull(i: nat)               // pcan_fifo_put fails, the task may block
    | StartBlocked(i: nat, k: nat)    // start the engine before going to sleep
    | Check(i: nat)                   // evaluate the wait condition
    | Interrupted(i: nat)             // a signal ends the wait
    | StartDone(i: nat, k: nat)       // start the engine after the last put
    | GiveUp(i: nat)                  // one of these two starts ends with -EIO
    | BusActive                       // pcan_handle_error_active: change the state
    | HandlerStart(k: nat)            // ... then start writing
    | HandlerGivesUp                  // ... which ends with -EIO
    | BusErrors(to: BusState)         // pcan_handle_error_status
    | BusGone                         // pcan_handle_busoff: change the state
    | HandlerSignal                   // ... then signal the senders
    | UsbNotify                       // URB completed: senders are signalled
    | UsbRefill(k: nat)               // ... then the next URB is built
    | SjaInterrupt(k: nat)            // transmit interrupt: refill under the lock
    | SjaIsrEnd                       // end of the handler: signal if wwakeup

  /** A step that the code can take. */
  predicate Enabled(c: Config, s: State, e: Event) {
    match e
    case Call(i, msgs) => i < |s.pcs| && s.pcs[i].Idle? && msgs != []
    case Put(i) => i < |s.pcs| && s.pcs[i].Trying? && s.pcs[i].todo != [] && !Full(c, s)
    case Refused(i) => i < |s.pcs| && s.pcs[i].Trying?
    case FoundFull(i) => i < |s.pcs| && s.pcs[i].Trying? && Full(c, s)
    case StartBlocked(i, k) => i < |s.pcs| && s.pcs[i].Blocked? && CanStart(c, s, k)
    case Check(i) => i < |s.pcs| && s.pcs[i].Waiting?
    case Interrupted(i) => i < |s.pcs| && (s.pcs[i].Waiting? || s.pcs[i].Asleep?)
    case StartDone(i, k) => i < |s.pcs| && s.pcs[i].Starting? && CanStart(c, s, k)
    case GiveUp(i) => i < |s.pcs| && (s.pcs[i].Blocked? || s.pcs[i].Starting?) && CanGiveUp(c, s)
    case BusActive => s.handler == Free
    case HandlerStart(k) => s.handler == MustStart && CanStart(c, s, k)
    case HandlerGivesUp => s.handler == MustStart && CanGiveUp(c, s)
    case BusErrors(to) => s.handler == Free && (to == Warning || to == Passive)
    case BusGone => s.handler == Free && s.bus != BusOff
    case HandlerSignal => s.handler == MustSignal
    case UsbNotify => c.hw == Usb && s.transfer.InFlight?
    case UsbRefill(k) => c.hw == Usb && s.transfer.Completing? && Batch(c, s, k)
    case SjaInterrupt(k) => c.hw == Sja1000 && s.transfer.InFlight? && Batch(c, s, k)
    case SjaIsrEnd => c.hw == Sja1000
  }

  /** A call that leaves the loop over its messages starts the engine only if it
      queued at least one of them. */
  function Leave(done: nat, dirty: bool): Pc {
    if done > 0 then Starting(dirty) else Idle
  }

  function Apply(c: Config, s: State, e: Event): State
    requires Enabled(c, s, e)
  {
    match e
    case Call(i, msgs) => s.(pcs := s.pcs[i := Trying(msgs, 0, false)])
    case Put(i) =>
      var pc := s.pcs[i];
      var next := if |pc.todo| == 1 then Starting(true) else Trying(pc.todo[1..], pc.done + 1, true);
      s.(fifo := s.fifo + [pc.todo[0]], accepted := s.accepted + [pc.todo[0]], pcs := s.pcs[i := next])
    case Refused(i) => s.(pcs := s.pcs[i := Leave(s.pcs[i].done, s.pcs[i].dirty)])
    case FoundFull(i) => s.(pcs := s.pcs[i := Blocked(s.pcs[i].todo, s.pcs[i].done, s.pcs[i].dirty)])
    case StartBlocked(i, k) =>
      StartWriting(s, k).(pcs := s.pcs[i := Waiting(s.pcs[i].todo, s.pcs[i].done)])
    case Check(i) =>
      var pc := s.pcs[i];
      var next := if !Full(c, s) || s.bus == BusOff then Trying(pc.todo, pc.done, false) else Asleep(pc.todo, pc.done);
      s.(pcs := s.pcs[i := next])
    case Interrupted(i) => s.(pcs := s.pcs[i := Leave(s.pcs[i].done, false)])
    case StartDone(i, k) => StartWriting(s, k).(pcs := s.pcs[i := Idle])
    case GiveUp(i) =>
      var pc := s.pcs[i];
      s.(pcs := s.pcs[i := if pc.Blocked? then Waiting(pc.todo, pc.done) else Idle], missed := true)
    case BusActive => s.(bus := Active, handler := if s.bus == Unknown then MustStart else Free)
    case HandlerStart(k) => StartWriting(s, k).(handler := Free)
    case HandlerGivesUp => s.(handler := Free, missed := true)
    case BusErrors(to) => s.(bus := to, missed := s.missed || s.bus == Unknown)
    case BusGone => s.(bus := BusOff, handler := MustSignal, missed := s.missed || s.bus == Unknown)
    case HandlerSignal => Signal(s).(handler := Free)
    case UsbNotify => Signal(s).(transfer := Completing, sent := s.sent + s.transfer.msgs)
    case UsbRefill(k) => Write(s, k)
    case SjaInterrupt(k) =>
      Write(s, k).(sent := s.sent + s.transfer.msgs, wwakeup := s.wwakeup || k > 0)
    case SjaIsrEnd => (if s.wwakeup then Signal(s) else s).(wwakeup := false)
  }

  ghost predicate IsRun(c: Config, s: State, es: seq<Event>)
    decreases |es|
  {
    es == [] || (Enabled(c, s, es[0]) && IsRun(c, Apply(c, s, es[0]), es[1..]))
  }

  ghost function After(c: Config, s: State, es: seq<Event>): State
    requires IsRun(c, s, es)
    decreases |es|
  {
    if es == [] then s else After(c, Apply(c, s, es[0]), es[1..])
  }

  // ---------------------------------------------------------------- what every step keeps

  /** The sender has put a frame and its start step is still to come. */
  predicate Owes(pc: Pc) {
    (pc.Trying? || pc.Blocked? || pc.Starting?) && pc.dirty
  }

  ghost predicate SomebodyOwes(s: State) {
    s.handler == MustStart || exists i :: 0 <= i < |s.pcs| && Owes(s.pcs[i])
  }

  /** Frames wait although nobody is due to start them. */
  ghost predicate Lost(s: State) {
    s.fifo != [] && s.engine == Stopped && s.bus != Unknown && !SomebodyOwes(s)
  }

  /** Queued frames never wait like that, but after a start that was missed. */
  ghost predicate NoLostStart(s: State) {
    Lost(s) ==> s.missed
  }

  /** The engine is STARTED exactly while the one transfer is under way. */
  ghost predicate SingleWriter(s: State) {
    && (s.engine == Started <==> s.transfer != Quiet)
    && (s.transfer.InFlight? ==> s.transfer.msgs != [])
  }

  function Flying(t: Transfer): seq<TxMsg> { if t.InFlight? then t.msgs else [] }

  /** No frame is lost, duplicated or reordered between the senders and the bus. */
  ghost predicate OrderKept(s: State) {
    && s.accepted == s.handed + s.fifo
    && s.handed == s.sent + Flying(s.transfer)
  }

  /** A sleeper whose FIFO has room is about to be signalled. */
  ghost predicate WakeDue(c: Config, s: State) {
    && (s.bus == BusOff ==> s.handler == MustSignal)
    && (!Full(c, s) ==>
          if c.hw == Usb then s.transfer.InFlight?
          else s.wwakeup || (s.transfer.InFlight? && s.fifo != []))
  }

  ghost predicate PcValid(pc: Pc) {
    match pc
    case Idle => true
    case Trying(todo, done, dirty) => todo != [] && (dirty ==> done > 0)
    case Blocked(todo, done, dirty) => todo != [] && (dirty ==> done > 0)
    case Waiting(todo, _) => todo != []
    case Asleep(todo, _) => todo != []
    case Starting(_) => true
  }

  ghost predicate Inv(c: Config, s: State) {
    && |s.pcs| == c.senders
    && |s.fifo| <= c.capacity
    && SingleWriter(s)
    && OrderKept(s)
    && NoLostStart(s)
    && (s.bus == Unknown ==> s.engine == Stopped)
    && (s.missed ==> s.engine == Stopped && s.bus != Unknown)
    && (s.handler == MustStart ==> s.bus != Unknown)
    && (s.transfer.Completing? ==> c.hw == Usb)
    && (forall i :: 0 <= i < |s.pcs| ==> PcValid(s.pcs[i]))
    && (forall i :: 0 <= i < |s.pcs| && s.pcs[i].Asleep? ==> WakeDue(c, s))
  }

  lemma StepKeepsEngine(c: Config, s: State, e: Event)
    requires c.Valid() && Inv(c, s) && Enabled(c, s, e)
    ensures
      var s' := Apply(c, s, e);
      && |s'.pcs| == c.senders
      && |s'.fifo| <= c.capacity
      && SingleWriter(s')
      && (s'.bus == Unknown ==> s'.engine == Stopped)
      && (s'.missed ==> s'.engine == Stopped && s'.bus != Unknown)
      && (s'.handler == MustStart ==> s'.bus != Unknown)
      && (s'.transfer.Completing? ==> c.hw == Usb)
  {
  }

  lemma WriteKeepsOrder(s: State, k: nat)
    ensures k <= |s.fifo| ==> s.handed + s.fifo[..k] + s.fifo[k..] == s.handed + s.fifo
  {
    if k <= |s.fifo| {
      assert s.fifo[..k] + s.fifo[k..] == s.fifo;
    }
  }

  lemma StepKeepsOrder(c: Config, s: State, e: Event)
    requires c.Valid() && SingleWriter(s) && OrderKept(s) && Enabled(c, s, e)
    ensures OrderKept(Apply(c, s, e))
  {
    match e
    case Put(i) => assert s.handed + (s.fifo + [s.pcs[i].todo[0]]) == s.accepted + [s.pcs[i].todo[0]];
    case StartBlocked(_, k) => WriteKeepsOrder(s, k);
    case StartDone(_, k) => WriteKeepsOrder(s, k);
    case HandlerStart(k) => WriteKeepsOrder(s, k);
    case UsbRefill(k) => WriteKeepsOrder(s, k);
    case SjaInterrupt(k) => WriteKeepsOrder(s, k);
    case _ =>
  }

  lemma StepKeepsNoLostStart(c: Config, s: State, e: Event)
    requires c.Valid() && Inv(c, s) && Enabled(c, s, e)
    ensures NoLostStart(Apply(c, s, e))
  {
    var s' := Apply(c, s, e);
    if s'.fifo != [] && s'.engine == Stopped && s'.bus != Unknown && s'.handler != MustStart && !s'.missed {
      if e.Put? {
        assert Owes(s'.pcs[e.i]);
      } else {
        var j :| 0 <= j < |s.pcs| && Owes(s.pcs[j]);
        assert Owes(s'.pcs[j]);
      }
    }
  }

  lemma StepKeepsPcs(c: Config, s: State, e: Event)
    requires Enabled(c, s, e) && forall i :: 0 <= i < |s.pcs| ==> PcValid(s.pcs[i])
    ensures forall i :: 0 <= i < |Apply(c, s, e).pcs| ==> PcValid(Apply(c, s, e).pcs[i])
  {
    var s' := Apply(c, s, e);
    forall i | 0 <= i < |s'.pcs|
      ensures PcValid(s'.pcs[i])
    {
      assert PcValid(s.pcs[i]);
    }
  }

  /** The steps that move the hardware, the bus or the signals, not just one sender. */
  predicate OfDevice(e: Event) {
    e.BusActive? || e.HandlerStart? || e.HandlerGivesUp? || e.BusErrors? || e.BusGone? || e.HandlerSignal?
    || e.UsbNotify? || e.UsbRefill? || e.SjaInterrupt? || e.SjaIsrEnd?
  }

  lemma DeviceKeepsSleepers(c: Config, s: State, e: Event, i: nat)
    requires c.Valid() && SingleWriter(s) && Enabled(c, s, e) && OfDevice(e)
    requires i < |s.pcs| && (s.pcs[i].Asleep? ==> WakeDue(c, s))
    requires i < |Apply(c, s, e).pcs| && Apply(c, s, e).pcs[i].Asleep?
    ensures WakeDue(c, Apply(c, s, e))
  {
  }

  lemma SenderKeepsSleepers(c: Config, s: State, e: Event, i: nat)
    requires c.Valid() && SingleWriter(s) && Enabled(c, s, e) && !OfDevice(e)
    requires i < |s.pcs| && (s.pcs[i].Asleep? ==> WakeDue(c, s))
    requires i < |Apply(c, s, e).pcs| && Apply(c, s, e).pcs[i].Asleep?
    ensures WakeDue(c, Apply(c, s, e))
  {
  }

  lemma StepKeepsSleepers(c: Config, s: State, e: Event, i: nat)
    requires c.Valid() && SingleWriter(s) && Enabled(c, s, e)
    requires i < |s.pcs| && (s.pcs[i].Asleep? ==> WakeDue(c, s))
    requires i < |Apply(c, s, e).pcs| && Apply(c, s, e).pcs[i].Asleep?
    ensures WakeDue(c, Apply(c, s, e))
  {
    hide Apply, Enabled, WakeDue, SingleWriter;
    if OfDevice(e) {
      DeviceKeepsSleepers(c, s, e, i);
    } else {
      SenderKeepsSleepers(c, s, e, i);
    }
  }

  lemma StepKeepsInv(c: Config, s: State, e: Event)
    requires c.Valid() && Inv(c, s) && Enabled(c, s, e)
    ensures Inv(c, Apply(c, s, e))
  {
    StepKeepsEngine(c, s, e);
    StepKeepsOrder(c, s, e);
    StepKeepsNoLostStart(c, s, e);
    StepKeepsPcs(c, s, e);
    forall i | 0 <= i < |Apply(c, s, e).pcs| && Apply(c, s, e).pcs[i].Asleep?
      ensures WakeDue(c, Apply(c, s, e))
    {
      StepKeepsSleepers(c, s, e, i);
    }
  }

  // ---------------------------------------------------------------- every run

  lemma InitInv(c: Config)
    requires c.Valid()
    ensures Inv(c, Init(c))
  {
  }

  lemma {:induction false} RunKeepsInv(c: Config, s: State, es: seq<Event>)
    requires c.Valid() && Inv(c, s) && IsRun(c, s, es)
    ensures Inv(c, After(c, s, es))
    decreases |es|
  {
    if es != [] {
      StepKeepsInv(c, s, es[0]);
      RunKeepsInv(c, Apply(c, s, es[0]), es[1..]);
    }
  }

  /** No lost wake-up of the engine: whenever frames wait, the engine is stopped and
      the bus is known, a sender stands between its put and its start step, or the
      bus handler between its state change and its start step, or the last start was missed. */
  lemma QueuedFramesAreStarted(c: Config, es: seq<Event>)
    requires c.Valid() && IsRun(c, Init(c), es)
    ensures
      var s := After(c, Init(c), es);
      s.fifo != [] && s.engine == Stopped && s.bus != Unknown ==>
        s.missed || s.handler == MustStart || exists i :: 0 <= i < |s.pcs| && Owes(s.pcs[i])
  {
    InitInv(c);
    RunKeepsInv(c, Init(c), es);
  }

  /** One write at a time, and what reaches the bus is what was accepted, in order. */
  lemma SingleWriterInOrder(c: Config, es: seq<Event>)
    requires c.Valid() && IsRun(c, Init(c), es)
    ensures
      var s := After(c, Init(c), es);
      && (s.engine == Started <==> s.transfer != Quiet)
      && s.accepted == s.sent + Flying(s.transfer) + s.fifo
      && |s.fifo| <= c.capacity
  {
    InitInv(c);
    RunKeepsInv(c, Init(c), es);
  }

  // ---------------------------------------------------------------- sleepers are woken

  /** The sender whose step this is, if any. */
  predicate IsStepOf(e: Event, i: nat) {
    match e
    case Call(j, _) => i == j
    case Put(j) => i == j
    case Refused(j) => i == j
    case FoundFull(j) => i == j
    case StartBlocked(j, _) => i == j
    case Check(j) => i == j
    case Interrupted(j) => i == j
    case StartDone(j, _) => i == j
    case GiveUp(j) => i == j
    case _ => false
  }

  /** `es` leads on from `s`, without a step of sender `i`, to `i` being awake. */
  ghost predicate Wakes(c: Config, s: State, es: seq<Event>, i: nat)
    requires i < |s.pcs|
  {
    && IsRun(c, s, es)
    && (forall e <- es :: !IsStepOf(e, i))
    && i < |After(c, s, es).pcs| && !After(c, s, es).pcs[i].Asleep?
  }

  lemma WakesOneMore(c: Config, s: State, e: Event, es: seq<Event>, i: nat)
    requires i < |s.pcs| && Enabled(c, s, e) && !IsStepOf(e, i)
    requires i < |Apply(c, s, e).pcs| && Wakes(c, Apply(c, s, e), es, i)
    ensures Wakes(c, s, [e] + es, i)
  {
    assert ([e] + es)[1..] == es;
  }

  /** While a transfer or a wake-up is pending the hardware alone wakes the sleeper. */
  lemma HardwareWakes(c: Config, s: State, i: nat) returns (es: seq<Event>)
    requires c.Valid() && Inv(c, s) && i < |s.pcs| && s.pcs[i].Asleep?
    requires s.engine == Started || !Full(c, s)
    ensures Wakes(c, s, es, i) && |es| <= 2 && forall e <- es :: !FromOutside(e)
  {
    assert WakeDue(c, s);
    var last := if c.hw == Usb then UsbNotify else SjaIsrEnd;
    if c.hw == Usb && s.transfer.Completing? {
      var s1 := Apply(c, s, UsbRefill(1));
      WakesOneMore(c, s1, last, [], i);
      WakesOneMore(c, s, UsbRefill(1), [last], i);
      es := [UsbRefill(1), last];
    } else if c.hw == Sja1000 && !s.wwakeup {
      var s1 := Apply(c, s, SjaInterrupt(1));
      WakesOneMore(c, s1, last, [], i);
      WakesOneMore(c, s, SjaInterrupt(1), [last], i);
      es := [SjaInterrupt(1), last];
    } else {
      WakesOneMore(c, s, last, [], i);
      es := [last];
    }
    assert es == [es[0]] + es[1..];
  }

  /** Every sender waits for room in a full queue that nobody is going to empty. */
  ghost predicate Stranded(c: Config, s: State) {
    && Full(c, s) && s.engine == Stopped && s.handler == Free && s.bus != Unknown && s.bus != BusOff
    && forall i :: 0 <= i < |s.pcs| ==> s.pcs[i].Waiting? || s.pcs[i].Asleep?
  }

  /** A signal sent to a task, or the end of the bus. */
  predicate FromOutside(e: Event) { e.Interrupted? || e.BusGone? }

  /** On a bus that is known a sleeper can be woken within five steps, none of them its own and
      none from outside, unless all senders are stranded. */
  lemma SleeperIsWoken(c: Config, s: State, i: nat) returns (es: seq<Event>)
    requires c.Valid() && Inv(c, s) && s.bus != Unknown && !Stranded(c, s)
    requires i < |s.pcs| && s.pcs[i].Asleep?
    ensures Wakes(c, s, es, i) && |es| <= 5 && forall e <- es :: !FromOutside(e)
  {
    assert WakeDue(c, s);
    if s.handler == MustSignal {
      WakesOneMore(c, s, HandlerSignal, [], i);
      es := [HandlerSignal] + [];
    } else if s.engine == Started || !Full(c, s) {
      es := HardwareWakes(c, s, i);
    } else if s.handler == MustStart {
      StepKeepsInv(c, s, HandlerStart(1));
      es := HardwareWakes(c, Apply(c, s, HandlerStart(1)), i);
      WakesOneMore(c, s, HandlerStart(1), es, i);
      es := [HandlerStart(1)] + es;
    } else {
      var j :| 0 <= j < |s.pcs| && !s.pcs[j].Waiting? && !s.pcs[j].Asleep?;
      es := SenderWakes(c, s, i, j);
    }
  }

  /** The steps of a sender from here to its next start. */
  function StepsToStart(pc: Pc): nat {
    match pc case Idle => 3 case Trying(_, _, _) => 2 case _ => 1
  }

  lemma SenderWakes(c: Config, s: State, i: nat, j: nat) returns (es: seq<Event>)
    requires c.Valid() && Inv(c, s) && WillWrite(s) && s.bus != BusOff && Full(c, s)
    requires i < |s.pcs| && s.pcs[i].Asleep? && j < |s.pcs| && !s.pcs[j].Waiting? && !s.pcs[j].Asleep?
    ensures Wakes(c, s, es, i) && |es| <= 2 + StepsToStart(s.pcs[j]) && forall e <- es :: !FromOutside(e)
    decreases StepsToStart(s.pcs[j])
  {
    var e := if s.pcs[j].Idle? then Call(j, [s.fifo[0]])
             else if s.pcs[j].Trying? then FoundFull(j)
             else if s.pcs[j].Blocked? then StartBlocked(j, 1)
             else StartDone(j, 1);
    var s1 := Apply(c, s, e);
    StepKeepsInv(c, s, e);
    if s.pcs[j].Idle? || s.pcs[j].Trying? {
      es := SenderWakes(c, s1, i, j);
    } else {
      es := HardwareWakes(c, s1, i);
    }
    WakesOneMore(c, s, e, es, i);
    es := [e] + es;
  }

  /** Once stranded, the senders wait for ever: the wait has no timeout, and nothing but a step
      from outside ends this. */
  lemma {:induction false} StrandedForEver(c: Config, s: State, es: seq<Event>)
    requires Inv(c, s) && Stranded(c, s) && c.Valid() && IsRun(c, s, es)
    requires forall e <- es :: !FromOutside(e)
    ensures Stranded(c, After(c, s, es)) && After(c, s, es).fifo == s.fifo && After(c, s, es).sent == s.sent
    decreases |es|
  {
    hide Stranded, Apply, Enabled, Inv, FromOutside;
    if es != [] {
      assert es[0] in es;
      StepKeepsInv(c, s, es[0]);
      StepKeepsStranded(c, s, es[0]);
      StrandedForEver(c, Apply(c, s, es[0]), es[1..]);
    }
  }

  lemma StepKeepsStranded(c: Config, s: State, e: Event)
    requires c.Valid() && Inv(c, s) && Stranded(c, s) && Enabled(c, s, e)
    ensures Stranded(c, Apply(c, s, e)) <==> !FromOutside(e)
    ensures Apply(c, s, e).fifo == s.fifo && Apply(c, s, e).sent == s.sent
  {
    if e.Interrupted? {
      assert !Apply(c, s, e).pcs[e.i].Waiting? && !Apply(c, s, e).pcs[e.i].Asleep?;
    }
  }

  /** Once the engine runs, completions alone send everything accepted so far: the
      senders need take no further step. */
  lemma CompletionsDrainTheFifo(c: Config, s: State) returns (es: seq<Event>)
    requires c.Valid() && Inv(c, s) && s.engine == Started
    ensures IsRun(c, s, es) && After(c, s, es).sent == s.accepted
    ensures forall e <- es :: e.UsbNotify? || e.UsbRefill? || e.SjaInterrupt?
    decreases |s.fifo|, s.transfer.InFlight?
  {
    var k := if s.fifo == [] then 0 else 1;
    var e := if c.hw == Sja1000 then SjaInterrupt(k)
             else if s.transfer.InFlight? then UsbNotify else UsbRefill(k);
    var s1 := Apply(c, s, e);
    StepKeepsInv(c, s, e);
    var rest := [];
    if s1.engine == Started {
      rest := CompletionsDrainTheFifo(c, s1);
    }
    es := [e] + rest;
    assert es[1..] == rest;
  }

  // ---------------------------------------------------------------- every fair run

  /** The event wakes all sleepers. */
  predicate Signals(s: State, e: Event) {
    e.UsbNotify? || e.HandlerSignal? || (e.SjaIsrEnd? && s.wwakeup)
  }

  ghost predicate Signalled(c: Config, s: State, es: seq<Event>)
    requires IsRun(c, s, es)
    decreases |es|
  {
    es != [] && (Signals(s, es[0]) || Signalled(c, Apply(c, s, es[0]), es[1..]))
  }

  lemma StepStaysAwake(c: Config, s: State, e: Event, i: nat)
    requires Enabled(c, s, e) && !IsStepOf(e, i) && i < |s.pcs|
    ensures |Apply(c, s, e).pcs| == |s.pcs|
    ensures !s.pcs[i].Asleep? || Signals(s, e) ==> !Apply(c, s, e).pcs[i].Asleep?
    ensures s.pcs[i].Asleep? && !Signals(s, e) ==> Apply(c, s, e).pcs[i] == s.pcs[i]
  {
  }

  /** A run without a step of the sender leaves it awake, or wakes it when it signals. */
  lemma {:induction false} SignalWakes(c: Config, s: State, es: seq<Event>, i: nat)
    requires IsRun(c, s, es) && i < |s.pcs| && forall e <- es :: !IsStepOf(e, i)
    ensures |After(c, s, es).pcs| == |s.pcs|
    ensures !s.pcs[i].Asleep? || Signalled(c, s, es) ==> !After(c, s, es).pcs[i].Asleep?
    decreases |es|
  {
    hide Apply, Enabled, Signals, IsStepOf;
    if es != [] {
      StepStaysAwake(c, s, es[0], i);
      SignalWakes(c, Apply(c, s, es[0]), es[1..], i);
    }
  }

  /** The hardware gets its turn: a URB completes, or the transmit interrupt comes and the
      handler ends. */
  ghost predicate HardwareTurn(c: Config, es: seq<Event>) {
    if c.hw == Usb then exists n :: 0 <= n < |es| && es[n].UsbNotify?
    else exists n, m :: 0 <= n < m < |es| && es[n].SjaInterrupt? && es[m].SjaIsrEnd?
  }

  /** The interrupt handler will signal when it has had its turn. */
  predicate SjaDue(s: State) {
    s.wwakeup || (s.transfer.InFlight? && s.fifo != [])
  }

  lemma StepKeepsSjaDue(c: Config, s: State, e: Event)
    requires c.hw == Sja1000 && Enabled(c, s, e) && SingleWriter(s) && SjaDue(s) && !Signals(s, e)
    ensures SjaDue(Apply(c, s, e)) && (s.wwakeup || e.SjaInterrupt? ==> Apply(c, s, e).wwakeup)
  {
  }

  lemma {:induction false} SjaTurnSignals(c: Config, s: State, es: seq<Event>, n: int, m: nat)
    requires c.Valid() && c.hw == Sja1000 && Inv(c, s) && IsRun(c, s, es) && SjaDue(s)
    requires -1 <= n < m < |es| && es[m].SjaIsrEnd?
    requires if n < 0 then s.wwakeup else es[n].SjaInterrupt?
    ensures Signalled(c, s, es)
    decreases |es|
  {
    hide Inv, Apply, Enabled, SjaDue, SingleWriter;
    if !Signals(s, es[0]) {
      InvSingleWriter(c, s);
      StepKeepsSjaDue(c, s, es[0]);
      StepKeepsInv(c, s, es[0]);
      SjaTurnSignals(c, Apply(c, s, es[0]), es[1..], if n < 0 then n else n - 1, m - 1);
    }
  }

  lemma InvSingleWriter(c: Config, s: State)
    requires Inv(c, s)
    ensures SingleWriter(s)
  {
  }

  lemma {:induction false} UsbTurnSignals(c: Config, s: State, es: seq<Event>, n: nat)
    requires IsRun(c, s, es) && n < |es| && es[n].UsbNotify?
    ensures Signalled(c, s, es)
    decreases n
  {
    hide Apply, Enabled;
    if n > 0 {
      UsbTurnSignals(c, Apply(c, s, es[0]), es[1..], n - 1);
    }
  }

  /** While the engine runs or the queue has room, every run in which the hardware gets its
      turn wakes the sleeper, whatever else happens in it. */
  lemma EveryHardwareTurnWakes(c: Config, s: State, es: seq<Event>, i: nat)
    requires c.Valid() && Inv(c, s) && i < |s.pcs| && s.pcs[i].Asleep?
    requires s.engine == Started || !Full(c, s)
    requires IsRun(c, s, es) && (forall e <- es :: !IsStepOf(e, i)) && HardwareTurn(c, es)
    ensures i < |After(c, s, es).pcs| && !After(c, s, es).pcs[i].Asleep?
  {
    assert WakeDue(c, s);
    if c.hw == Usb {
      var n :| 0 <= n < |es| && es[n].UsbNotify?;
      UsbTurnSignals(c, s, es, n);
    } else {
      assert SjaDue(s);
      var n, m :| 0 <= n < m < |es| && es[n].SjaInterrupt? && es[m].SjaIsrEnd?;
      SjaTurnSignals(c, s, es, n, m);
    }
    SignalWakes(c, s, es, i);
  }

  /** A start step that a sender or the bus handler takes under the lock. */
  predicate IsStart(e: Event) { e.StartBlocked? || e.StartDone? || e.HandlerStart? }

  lemma StartStarts(c: Config, s: State, e: Event)
    requires c.Valid() && Enabled(c, s, e) && IsStart(e) && s.bus != Unknown
    ensures Apply(c, s, e).engine == Started || !Full(c, Apply(c, s, e))
  {
  }

  lemma BusStaysKnown(c: Config, s: State, e: Event)
    requires Enabled(c, s, e) && s.bus != Unknown
    ensures Apply(c, s, e).bus != Unknown
  {
  }

  /** On a known bus every run in which somebody starts the engine, and the hardware gets its
      turn after that, wakes the sleeper. QueuedFramesAreStarted says that, when the engine is
      stopped before a full queue, somebody owes that start. */
  lemma {:induction false} EveryStartAndTurnWakes(c: Config, s: State, es: seq<Event>, n: nat, i: nat)
    requires c.Valid() && Inv(c, s) && s.bus != Unknown && i < |s.pcs| && s.pcs[i].Asleep?
    requires IsRun(c, s, es) && (forall e <- es :: !IsStepOf(e, i))
    requires n < |es| && IsStart(es[n]) && HardwareTurn(c, es[n + 1..])
    ensures i < |After(c, s, es).pcs| && !After(c, s, es).pcs[i].Asleep?
    decreases n
  {
    hide Inv, Apply, Enabled, IsStart, IsStepOf, HardwareTurn, Signals, Full;
    var t, rest := Apply(c, s, es[0]), es[1..];
    StepKeepsInv(c, s, es[0]);
    BusStaysKnown(c, s, es[0]);
    StepStaysAwake(c, s, es[0], i);
    if !t.pcs[i].Asleep? {
      SignalWakes(c, t, rest, i);
    } else if n == 0 {
      StartStarts(c, s, es[0]);
      EveryHardwareTurnWakes(c, t, rest, i);
    } else {
      assert rest[n..] == es[n + 1..];
      EveryStartAndTurnWakes(c, t, rest, n - 1, i);
    }
  }

  predicate IsCompletion(e: Event) { e.UsbNotify? || e.UsbRefill? || e.SjaInterrupt? }

  /** What the hardware still has to do. */
  function Work(s: State): nat {
    2 * |s.fifo| + match s.transfer case Quiet => 0 case Completing => 1 case InFlight(_) => 2
  }

  lemma CompletionWorks(c: Config, s: State, e: Event)
    requires Inv(c, s) && Enabled(c, s, e) && IsCompletion(e)
    ensures Work(Apply(c, s, e)) < Work(s)
    ensures Apply(c, s, e).accepted == s.accepted
    ensures Apply(c, s, e).engine == Started || Apply(c, s, e).fifo == []
  {
  }

  /** No completion is left to come. */
  ghost predicate AtRest(c: Config, s: State) {
    forall e :: IsCompletion(e) ==> !Enabled(c, s, e)
  }

  lemma RestIsQuiet(c: Config, s: State)
    requires c.Valid() && Inv(c, s) && AtRest(c, s)
    ensures s.transfer == Quiet
  {
    var k := if s.fifo == [] then 0 else 1;
    assert IsCompletion(UsbNotify) && IsCompletion(UsbRefill(k)) && IsCompletion(SjaInterrupt(k));
  }

  /** Completions by themselves, in batches of any size, come to an end, and then everything
      that was accepted has been sent. */
  lemma {:induction false} EveryRunOfCompletionsDrains(c: Config, s: State, es: seq<Event>)
    requires c.Valid() && Inv(c, s) && (s.engine == Started || s.fifo == [])
    requires IsRun(c, s, es) && forall e <- es :: IsCompletion(e)
    ensures |es| <= Work(s)
    ensures AtRest(c, After(c, s, es)) ==> After(c, s, es).sent == s.accepted
    decreases |es|
  {
    if es == [] {
      if AtRest(c, s) {
        RestIsQuiet(c, s);
      }
    } else {
      hide Inv, Apply, Enabled, AtRest, IsCompletion, Work;
      assert es[0] in es;
      CompletionWorks(c, s, es[0]);
      StepKeepsInv(c, s, es[0]);
      EveryRunOfCompletionsDrains(c, Apply(c, s, es[0]), es[1..]);
    }
  }

  // ---------------------------------------------------------------- where it stops

  /** The bus leaves UNKNOWN through pcan_handle_error_status or pcan_handle_busoff, which do
      not start writing. This is harmless exactly when nothing is queued or a start is owed. */
  lemma LeavingUnknownUnstarted(c: Config, s: State, e: Event)
    requires c.Valid() && Inv(c, s) && s.bus == Unknown && (e.BusErrors? || e.BusGone?) && Enabled(c, s, e)
    ensures Lost(Apply(c, s, e)) <==> s.fifo != [] && !SomebodyOwes(s)
  {
    assert SomebodyOwes(Apply(c, s, e)) <==> SomebodyOwes(s);
  }

  ghost predicate AllIdle(s: State) {
    forall i :: 0 <= i < |s.pcs| ==> s.pcs[i] == Idle
  }

  /** Before the bus is known nothing is handed to the hardware. */
  lemma {:induction false} NothingHandedBefore(c: Config, s: State, es: seq<Event>)
    requires c.Valid() && Inv(c, s) && IsRun(c, s, es)
    requires s.bus == Unknown ==> s.handed == []
    ensures After(c, s, es).bus == Unknown ==> After(c, s, es).handed == []
    decreases |es|
  {
    if es != [] {
      StepKeepsInv(c, s, es[0]);
      NothingHandedBefore(c, Apply(c, s, es[0]), es[1..]);
    }
  }

  /** To a caller: when no sender is inside a call, it is harmless exactly when no frame has
      been accepted so far. */
  lemma LeavingUnknownBetweenCalls(c: Config, es: seq<Event>, e: Event)
    requires c.Valid() && IsRun(c, Init(c), es) && (e.BusErrors? || e.BusGone?)
    requires
      var s := After(c, Init(c), es);
      s.bus == Unknown && AllIdle(s) && Enabled(c, s, e)
    ensures
      var s := After(c, Init(c), es);
      Lost(Apply(c, s, e)) <==> s.accepted != []
  {
    var s := After(c, Init(c), es);
    InitInv(c);
    RunKeepsInv(c, Init(c), es);
    NothingHandedBefore(c, Init(c), es);
    LeavingUnknownUnstarted(c, s, e);
  }

  /** However frames were left behind, on a bus that is up the next call of a sender sends
      them, whether its own frame finds room or not. */
  lemma NextCallSendsThem(c: Config, s: State, i: nat, m: TxMsg) returns (es: seq<Event>)
    requires c.Valid() && Inv(c, s) && s.bus != Unknown && s.bus != BusOff && s.engine == Stopped
    requires i < |s.pcs| && s.pcs[i] == Idle
    ensures IsRun(c, s, es) && s.accepted <= After(c, s, es).sent
  {
    var full := Full(c, s);
    var calls := Call(i, [m]);
    var first := if full then FoundFull(i) else Put(i);
    var second := if full then StartBlocked(i, 1) else StartDone(i, 1);
    var s1 := Apply(c, s, calls);
    StepKeepsInv(c, s, calls);
    var s2 := Apply(c, s1, first);
    StepKeepsInv(c, s1, first);
    var s3 := Apply(c, s2, second);
    StepKeepsInv(c, s2, second);
    assert s.accepted <= s3.accepted && s3.engine == Started;
    hide Inv, Apply, Enabled;
    es := CompletionsDrainTheFifo(c, s3);
    RunFrom(c, s2, second, es);
    RunFrom(c, s1, first, [second] + es);
    RunFrom(c, s, calls, [first] + ([second] + es));
    es := [calls] + ([first] + ([second] + es));
  }

  lemma RunFrom(c: Config, s: State, e: Event, es: seq<Event>)
    requires Enabled(c, s, e) && IsRun(c, Apply(c, s, e), es)
    ensures IsRun(c, s, [e] + es) && After(c, s, [e] + es) == After(c, Apply(c, s, e), es)
  {
    assert ([e] + es)[1..] == es;
  }

  /** A start that a sender gives up, after its last put or before it waits, is harmless
      exactly when nothing is queued or somebody else owes a start. */
  lemma GivingUpStart(c: Config, s: State, i: nat)
    requires c.Valid() && Inv(c, s) && Enabled(c, s, GiveUp(i))
    ensures Lost(Apply(c, s, GiveUp(i))) <==>
      s.fifo != [] && s.handler != MustStart && forall j :: 0 <= j < |s.pcs| && j != i ==> !Owes(s.pcs[j])
  {
    var s' := Apply(c, s, GiveUp(i));
    assert forall j :: 0 <= j < |s.pcs| && j != i ==> s'.pcs[j] == s.pcs[j];
    assert !Owes(s'.pcs[i]);
  }

  /** A start that the bus handler gives up is harmless exactly when nothing is queued or a
      sender owes a start. */
  lemma GivingUpHandlerStart(c: Config, s: State)
    requires c.Valid() && Inv(c, s) && Enabled(c, s, HandlerGivesUp)
    ensures Lost(Apply(c, s, HandlerGivesUp)) <==>
      s.fifo != [] && forall j :: 0 <= j < |s.pcs| ==> !Owes(s.pcs[j])
  {
    assert Apply(c, s, HandlerGivesUp).pcs == s.pcs;
  }

  /** `es` is a run from `s` to `t`. */
  ghost predicate LeadsTo(c: Config, s: State, es: seq<Event>, t: State) {
    IsRun(c, s, es) && After(c, s, es) == t
  }

  lemma Then(c: Config, s: State, e: Event, es: seq<Event>, t: State)
    requires Enabled(c, s, e) && LeadsTo(c, Apply(c, s, e), es, t)
    ensures LeadsTo(c, s, [e] + es, t)
  {
    assert ([e] + es)[1..] == es;
  }

  /** One frame sent before the bus is known is enough to meet the bad case. */
  lemma FrameStrandedAfterErrorStatus(c: Config, m: TxMsg)
    requires c.Valid() && c.senders > 0
    ensures exists es, s :: LeadsTo(c, Init(c), es, s) && AllIdle(s) && Lost(s)
  {
    var s1 := Apply(c, Init(c), Call(0, [m]));
    var s2 := Apply(c, s1, Put(0));
    var s3 := Apply(c, s2, StartDone(0, 0));
    var s4 := Apply(c, s3, BusErrors(Warning));
    Then(c, s3, BusErrors(Warning), [], s4);
    Then(c, s2, StartDone(0, 0), [BusErrors(Warning)] + [], s4);
    Then(c, s1, Put(0), [StartDone(0, 0)] + ([BusErrors(Warning)] + []), s4);
    Then(c, Init(c), Call(0, [m]), [Put(0)] + ([StartDone(0, 0)] + ([BusErrors(Warning)] + [])), s4);
    assert AllIdle(s4);
  }

  /** The bus of an SJA1000 is up and a call with `msgs` has begun. */
  function Begun(c: Config, msgs: seq<TxMsg>): State
    requires c.senders > 0
  {
    Init(c).(bus := Active, pcs := Init(c).pcs[0 := Trying(msgs, 0, false)])
  }

  lemma BeginsWith(c: Config, msgs: seq<TxMsg>, es: seq<Event>, t: State)
    requires c.Valid() && c.senders > 0 && msgs != [] && LeadsTo(c, Begun(c, msgs), es, t)
    ensures LeadsTo(c, Init(c), [BusActive] + ([HandlerStart(0)] + ([Call(0, msgs)] + es)), t)
  {
    var s1 := Apply(c, Init(c), BusActive);
    var s2 := Apply(c, s1, HandlerStart(0));
    Then(c, s2, Call(0, msgs), es, t);
    Then(c, s1, HandlerStart(0), [Call(0, msgs)] + es, t);
    Then(c, Init(c), BusActive, [HandlerStart(0)] + ([Call(0, msgs)] + es), t);
  }

  /** One frame on an idle SJA1000 is enough for a start that is missed. */
  lemma FrameStrandedAfterGivenUpStart(c: Config, m: TxMsg)
    requires c.Valid() && c.hw == Sja1000 && c.senders > 0
    ensures exists es, s :: LeadsTo(c, Init(c), es, s) && AllIdle(s) && Lost(s)
  {
    var s3 := Begun(c, [m]);
    var s4 := Apply(c, s3, Put(0));
    var s5 := Apply(c, s4, GiveUp(0));
    Then(c, s4, GiveUp(0), [], s5);
    Then(c, s3, Put(0), [GiveUp(0)] + [], s5);
    BeginsWith(c, [m], [Put(0)] + ([GiveUp(0)] + []), s5);
    assert AllIdle(s5);
  }

  /** Three frames sent in one call through a FIFO of two entries are enough to leave their
      sender asleep for ever, beside a full queue and an idle controller. */
  lemma SenderStrandedAfterGivenUpStart(m: TxMsg, n: TxMsg)
    ensures
      var c := Config(Sja1000, 2, 1);
      exists es, s ::
        && LeadsTo(c, Init(c), es, s) && Stranded(c, s)
        && s.pcs == [Asleep([n], 2)] && s.fifo == [m, m] && s.engine == Stopped && s.bus == Active
  {
    var c, msgs := Config(Sja1000, 2, 1), [m, m, n];
    var s3 := Begun(c, msgs);
    var s4 := Apply(c, s3, Put(0));
    assert msgs[1..] == [m, n] && s4.pcs == [Trying([m, n], 1, true)];
    var s5 := Apply(c, s4, Put(0));
    assert [m, n][1..] == [n] && s5.pcs == [Trying([n], 2, true)];
    var es, t := GivesUpAndSleeps(c, s5, n);
    hide Apply;
    Then(c, s4, Put(0), es, t);
    Then(c, s3, Put(0), [Put(0)] + es, t);
    BeginsWith(c, msgs, [Put(0)] + ([Put(0)] + es), t);
    assert s5.fifo == [m, m];
  }

  lemma GivesUpAndSleeps(c: Config, s: State, n: TxMsg) returns (es: seq<Event>, t: State)
    requires c == Config(Sja1000, 2, 1) && s.pcs == [Trying([n], 2, true)] && |s.fifo| == 2
    requires CanGiveUp(c, s) && s.bus == Active && s.handler == Free
    ensures LeadsTo(c, s, es, t) && Stranded(c, t) && t == s.(pcs := [Asleep([n], 2)], missed := true)
  {
    var s6 := Apply(c, s, FoundFull(0));
    var s7 := Apply(c, s6, GiveUp(0));
    t := Apply(c, s7, Check(0));
    Then(c, s7, Check(0), [], t);
    Then(c, s6, GiveUp(0), [Check(0)] + [], t);
    Then(c, s, FoundFull(0), [GiveUp(0)] + ([Check(0)] + []), t);
    es := [FoundFull(0)] + ([GiveUp(0)] + ([Check(0)] + []));
    assert t.pcs == [Asleep([n], 2)];
  }

  /** The two-entry minimum of pcan_fifo_init is needed: with one entry an SJA1000
      sender is left asleep beside an empty FIFO and an idle controller. */
  lemma OneEntryFifoLosesTheSleeper(m: TxMsg)
    ensures
      var c := Config(Sja1000, 1, 2);
      exists es, s ::
        && LeadsTo(c, Init(c), es, s)
        && s.pcs == [Idle, Asleep([m], 0)] && s.fifo == []
        && s.transfer == Quiet && !s.wwakeup && s.handler == Free
  {
    var c := Config(Sja1000, 1, 2);
    var s0 := OneQueued(m);
    var es, s := SleeperMissed(c, m);
    FirstFrameQueued(c, m);
    Then(c, s0.(pcs := [Starting(true), Idle]), StartDone(0, 0), es, s);
    es := [StartDone(0, 0)] + es;
    Then(c, Apply(c, Init(c), Call(0, [m])), Put(0), es, s);
    es := [Put(0)] + es;
    Then(c, Init(c), Call(0, [m]), es, s);
  }

  /** Two senders, one of whom has queued `m` before the bus was known. */
  function OneQueued(m: TxMsg): State {
    State([m], Stopped, Unknown, Quiet, Free, false, [Idle, Idle], [m], [], [], false)
  }

  lemma FirstFrameQueued(c: Config, m: TxMsg)
    requires c == Config(Sja1000, 1, 2)
    ensures
      var s := OneQueued(m);
      && Apply(c, Apply(c, Init(c), Call(0, [m])), Put(0)) == s.(pcs := [Starting(true), Idle])
      && Apply(c, s.(pcs := [Starting(true), Idle]), StartDone(0, 0)) == s
  {
    assert Init(c).pcs == [Idle, Idle];
  }

  lemma SleeperMissed(c: Config, m: TxMsg) returns (es: seq<Event>, s: State)
    requires c == Config(Sja1000, 1, 2)
    ensures LeadsTo(c, OneQueued(m), es, s)
    ensures
      && s.pcs == [Idle, Asleep([m], 0)] && s.fifo == []
      && s.transfer == Quiet && !s.wwakeup && s.handler == Free
  {
    var s0 := OneQueued(m);
    var trying, blocked, waiting, asleep :=
      Trying([m], 0, false), Blocked([m], 0, false), Waiting([m], 0), Asleep([m], 0);
    es, s := SleeperLeftBehind(c, m);
    assert [Idle, waiting][1 := asleep] == [Idle, asleep];
    Then(c, s0.(pcs := [Idle, waiting]), Check(1), es, s);
    es := [Check(1)] + es;
    assert [Idle, blocked][1 := waiting] == [Idle, waiting];
    Then(c, s0.(pcs := [Idle, blocked]), StartBlocked(1, 0), es, s);
    es := [StartBlocked(1, 0)] + es;
    assert [Idle, trying][1 := blocked] == [Idle, blocked];
    Then(c, s0.(pcs := [Idle, trying]), FoundFull(1), es, s);
    es := [FoundFull(1)] + es;
    assert [Idle, Idle][1 := trying] == [Idle, trying];
    Then(c, s0, Call(1, [m]), es, s);
    es := [Call(1, [m])] + es;
  }

  lemma SleeperLeftBehind(c: Config, m: TxMsg) returns (es: seq<Event>, s: State)
    requires c == Config(Sja1000, 1, 2)
    ensures LeadsTo(c, OneQueued(m).(pcs := [Idle, Asleep([m], 0)]), es, s)
    ensures
      && s.pcs == [Idle, Asleep([m], 0)] && s.fifo == []
      && s.transfer == Quiet && !s.wwakeup && s.handler == Free
  {
    var s4 := OneQueued(m).(pcs := [Idle, Asleep([m], 0)]);
    var s5 := Apply(c, s4, BusActive);
    var s6 := Apply(c, s5, HandlerStart(1));
    s := Apply(c, s6, SjaInterrupt(0));
    Then(c, s6, SjaInterrupt(0), [], s);
    Then(c, s5, HandlerStart(1), [SjaInterrupt(0)] + [], s);
    es := [BusActive] + ([HandlerStart(1)] + ([SjaInterrupt(0)] + []));
    Then(c, s4, BusActive, [HandlerStart(1)] + ([SjaInterrupt(0)] + []), s);
  }
}
