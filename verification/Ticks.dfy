/** Time stamps of the PCAN-USB: the device counts ticks of 42.667 us and sends the lower
    16 or 8 bits of its counter; the driver rebuilds the count. */
module Ticks {

  const WINDOW := 0x1_0000

  /** Ticks of one second, between two calibration messages. */
  const PERIOD := 1000000 * 1000 / 42667

  /** struct pcan_usb_time. */
  datatype Time = Time(ticks16: nat, init: nat, low: nat, high: nat)

  const RESET := Time(0, 0, 0, 0)

  predicate Valid(s: Time) {
    s.ticks16 < WINDOW && s.init < WINDOW && s.low < WINDOW && s.high < 0x1_0000_0000
  }

  // ---------------------------------------------------------------- the counter in one step

  function Hi(s: Time, ticks: nat): nat {
    if ticks < s.low && ticks < PERIOD && (s.low + PERIOD) % WINDOW < s.low then WINDOW else 0
  }

  /** The count given to an event with a 16-bit stamp. */
  function Count(s: Time, ticks: nat): nat {
    (s.high + Hi(s, ticks) + ticks) % 0x1_0000_0000
  }

  /** An 8-bit stamp, completed with the bits of the previous stamp. */
  function Widen(ticks16: nat, ticks8: nat): nat
    requires ticks16 < WINDOW && ticks8 < 0x100
  {
    var hsb := if ticks8 < ticks16 % 0x100 then (ticks16 / 0x100 + 1) % 0x100 else ticks16 / 0x100;
    hsb * 0x100 + ticks8
  }

  function Synced(s: Time, ticks: nat): Time {
    if s.init != 0 then
      Time(s.ticks16, s.init, ticks, if ticks < s.low then (s.high + WINDOW) % 0x1_0000_0000 else s.high)
    else
      Time(ticks, ticks, ticks, s.high)
  }

  // ---------------------------------------------------------------- pcan_usb.c

  /** pcan_ticks_to_ts: microseconds, rounded up, in two 32-bit words. */
  method TicksToTs(ticks: nat) returns (tsLow: nat, tsHigh: nat)
    requires ticks < 0x1_0000_0000
    ensures tsLow < 0x1_0000_0000 && tsHigh < 0x1_0000_0000
    ensures
      var us := tsHigh * 0x1_0000_0000 + tsLow;
      us == Micros(ticks) && us * 1000 - 1000 < ticks * 42667 <= us * 1000
  {
    var ts := ticks * 42667;
    ts := (ts + 999) / 1000;
    tsHigh, tsLow := ts / 0x1_0000_0000, ts % 0x1_0000_0000;
  }

  function Micros(ticks: nat): nat { (ticks * 42667 + 999) / 1000 }

  /** Events keep their order when ticks become microseconds, and no two ticks merge. */
  lemma MicrosIncrease(a: nat, b: nat)
    requires a < b
    ensures Micros(a) + 42 <= Micros(b)
  {
  }

  datatype Stamp = NoStamp | Stamp(us: nat)

  class UsbTime {
    var ticks16: nat
    var syncTicksInit: nat
    var syncTicksLow: nat
    var syncTicksHigh: nat

    function State(): Time
      reads this
    {
      Time(ticks16, syncTicksInit, syncTicksLow, syncTicksHigh)
    }

    /** pcan_reset_timestamp. */
    constructor ()
      ensures State() == RESET
    {
      ticks16, syncTicksInit, syncTicksLow, syncTicksHigh := 0, 0, 0, 0;
    }

    /** pcan_updateTimeStampFromWord; before the first calibration there is no stamp. */
    method FromWord(ticks: nat) returns (stamp: Stamp)
      requires Valid(State()) && ticks < WINDOW
      modifies this`ticks16
      ensures State() == Next(old(State()), Word(ticks))
      ensures stamp == StampOf(Counted(old(State()), Word(ticks)))
    {
      if syncTicksInit == 0 {
        return NoStamp;
      }
      hide Micros;
      ghost var hi := Hi(State(), ticks);
      WrapAdd(syncTicksHigh + hi, ticks);
      var count := syncTicksHigh;
      if ticks < syncTicksLow {
        if ticks < PERIOD {
          var next := (syncTicksLow + PERIOD) % WINDOW;
          if next < syncTicksLow {
            count := (count + WINDOW) % 0x1_0000_0000;
          }
        }
      }
      ticks16 := ticks;
      assert count == if hi == 0 then syncTicksHigh else (syncTicksHigh + hi) % 0x1_0000_0000;
      count := (count + ticks) % 0x1_0000_0000;
      var tsLow, tsHigh := TicksToTs(count);
      stamp := Stamp(tsHigh * 0x1_0000_0000 + tsLow);
    }

    /** pcan_updateTimeStampFromByte. */
    method FromByte(ticks8: nat) returns (stamp: Stamp)
      requires Valid(State()) && ticks8 < 0x100
      modifies this`ticks16
      ensures State() == Next(old(State()), Byte(ticks8))
      ensures stamp == StampOf(Counted(old(State()), Byte(ticks8)))
    {
      hide Count, Next, Counted;
      ByteIsWord(State(), ticks8);
      var hsb := ticks16 / 0x100;
      stamp := NoStamp;
      if syncTicksInit != 0 {
        var lsb := ticks16 % 0x100;
        if ticks8 < lsb {
          hsb := (hsb + 1) % 0x100;
        }
        stamp := FromWord(hsb * 0x100 + ticks8);
      }
    }

    /** The counter part of pcan_usb_sync_times; `us` goes to pcan_sync_times. */
    method SyncTimes(ticks: nat) returns (us: nat)
      requires Valid(State()) && ticks < WINDOW
      modifies this
      ensures State() == Next(old(State()), Sync(ticks))
      ensures Stamp(us) == StampOf(Counted(old(State()), Sync(ticks)))
    {
      if syncTicksInit != 0 {
        if ticks < syncTicksLow {
          syncTicksHigh := (syncTicksHigh + WINDOW) % 0x1_0000_0000;
        }
      } else {
        syncTicksInit, ticks16 := ticks, ticks;
      }
      syncTicksLow := ticks;
      var tsLow, tsHigh := TicksToTs((syncTicksHigh + syncTicksLow) % 0x1_0000_0000);
      us := tsHigh * 0x1_0000_0000 + tsLow;
    }
  }

  // ---------------------------------------------------------------- whole runs

  /** What the device sends, with the value of its own counter, which does not wrap. */
  datatype Item = Sync(t: nat) | Word(t: nat) | Byte(t: nat)

  function Next(s: Time, x: Item): (r: Time)
    requires Valid(s)
    ensures Valid(r)
  {
    match x
    case Sync(t) => Synced(s, t % WINDOW)
    case Word(t) => if s.init == 0 then s else s.(ticks16 := t % WINDOW)
    case Byte(t) => if s.init == 0 then s else s.(ticks16 := Widen(s.ticks16, t % 0x100))
  }

  /** The count the driver makes of an item: `None` before it is calibrated. */
  datatype Known = None | At(count: nat)

  function Counted(s: Time, x: Item): Known
    requires Valid(s)
  {
    match x
    case Sync(t) => var n := Synced(s, t % WINDOW); At((n.high + n.low) % 0x1_0000_0000)
    case Word(t) => if s.init == 0 then None else At(Count(s, t % WINDOW))
    case Byte(t) => if s.init == 0 then None else At(Count(s, Widen(s.ticks16, t % 0x100)))
  }

  lemma ByteIsWord(s: Time, ticks8: nat)
    requires Valid(s) && ticks8 < 0x100
    ensures s.init == 0 ==> Next(s, Byte(ticks8)) == s && Counted(s, Byte(ticks8)) == None
    ensures s.init != 0 ==>
      var t := Widen(s.ticks16, ticks8);
      t < WINDOW && Next(s, Byte(ticks8)) == Next(s, Word(t)) && Counted(s, Byte(ticks8)) == Counted(s, Word(t))
  {
    hide Count;
    assert Widen(s.ticks16, ticks8) < WINDOW;
  }

  function StampOf(k: Known): Stamp {
    match k
    case None => NoStamp
    case At(count) => Stamp(Micros(count))
  }

  function Delivered(s: Time, run: seq<Item>): seq<Known>
    requires Valid(s)
    decreases |run|
  {
    if run == [] then [] else [Counted(s, run[0])] + Delivered(Next(s, run[0]), run[1..])
  }

  /** The device's side: since when the driver counts, the last calibration and the last
      stamp. A calibration at a multiple of 65536 does not start the counting, because the
      driver keeps its 16 bits as the mark of having been started. */
  datatype Clock = Stopped | Running(base: nat, sync: nat, stamp: nat)

  function Observe(c: Clock, x: Item): Clock {
    match c
    case Stopped =>
      if x.Sync? && x.t % WINDOW != 0 then Running(x.t - x.t % WINDOW, x.t, x.t) else Stopped
    case Running(base, sync, stamp) =>
      if x.Sync? then Running(base, x.t, stamp) else Running(base, sync, x.t)
  }

  /** Reach of the counter: the window of the last calibration and the next one, from 18662
      ticks before it to one period after it. */
  predicate InReach(sync: nat, t: nat) {
    && sync - 18662 <= t <= sync + PERIOD
    && (t / WINDOW == sync / WINDOW || t / WINDOW == sync / WINDOW + 1)
  }

  predicate Timely(c: Clock, x: Item) {
    c.Running? ==>
      match x
      case Sync(t) => c.sync <= t < c.sync + WINDOW
      case Word(t) => InReach(c.sync, t)
      case Byte(t) => InReach(c.sync, t) && c.stamp <= t < c.stamp + 0x100
  }

  predicate TimelyRun(c: Clock, run: seq<Item>)
    decreases |run|
  {
    run == [] || (Timely(c, run[0]) && TimelyRun(Observe(c, run[0]), run[1..]))
  }

  /** The true count, from the start of the window in which the driver was calibrated. */
  function TrueCount(c: Clock, x: Item): Known {
    match Observe(c, x)
    case Stopped => if x.Sync? then At(0) else None
    case Running(base, _, _) => if x.t >= base then At((x.t - base) % 0x1_0000_0000) else None
  }

  function TrueCounts(c: Clock, run: seq<Item>): seq<Known>
    decreases |run|
  {
    if run == [] then [] else [TrueCount(c, run[0])] + TrueCounts(Observe(c, run[0]), run[1..])
  }

  /** The driver agrees with the device on the last calibration and the last stamp. */
  predicate Agrees(s: Time, c: Clock) {
    && Valid(s)
    && match c
       case Stopped => s.init == 0 && s.high == 0
       case Running(base, sync, stamp) =>
         && s.init != 0 && base % WINDOW == 0 && base <= sync
         && s.low == sync % WINDOW && s.high == (sync - base - s.low) % 0x1_0000_0000
         && s.ticks16 == stamp % WINDOW
  }

  lemma WrapAdd(a: nat, b: nat)
    ensures (a % 0x1_0000_0000 + b) % 0x1_0000_0000 == (a + b) % 0x1_0000_0000
  {
  }

  lemma WrapDistinct(a: nat, d: nat)
    requires d < 0x1_0000_0000
    ensures (a + d) % 0x1_0000_0000 == a % 0x1_0000_0000 <==> d == 0
  {
  }

  /** A calibration less than 65536 ticks after the last one is counted exactly, one that
      is later is not: only one wrap of the 16 bits can be seen. */
  lemma SyncIsExact(s: Time, base: nat, sync: nat, stamp: nat, t: nat)
    requires Agrees(s, Running(base, sync, stamp)) && sync <= t < sync + 0x1_0000_0000
    ensures
      var n := Synced(s, t % WINDOW);
      && ((n.high + n.low) % 0x1_0000_0000 == (t - base) % 0x1_0000_0000 <==> t < sync + WINDOW)
      && (t < sync + WINDOW ==> n.high == (t - base - n.low) % 0x1_0000_0000)
  {
    var low, wrap, windows := t % WINDOW, if t % WINDOW < s.low then WINDOW else 0, sync - s.low - base;
    WrapAdd(windows, wrap);
    WrapAdd(windows + wrap, low);
    var missed := t - base - (windows + wrap + low);
    assert missed == (t / WINDOW - sync / WINDOW) * WINDOW - wrap;
    WrapDistinct(windows + wrap + low, missed);
  }

  /** An event of the window of the last calibration, or of the next one, is counted exactly
      if and only if the test for a wrap says which of the two it is. */
  lemma EventIsExact(s: Time, base: nat, sync: nat, stamp: nat, t: nat)
    requires Agrees(s, Running(base, sync, stamp)) && base <= t
    requires t / WINDOW == sync / WINDOW || t / WINDOW == sync / WINDOW + 1
    ensures Count(s, t % WINDOW) == (t - base) % 0x1_0000_0000
       <==> (t / WINDOW > sync / WINDOW <==> sync % WINDOW >= WINDOW - PERIOD && t % WINDOW < PERIOD)
  {
    var low, wrap := t % WINDOW, if t / WINDOW > sync / WINDOW then WINDOW else 0;
    var windows := sync - s.low - base;
    WrapAdd(windows, Hi(s, low) + low);
    assert t - base == windows + wrap + low;
    if wrap >= Hi(s, low) {
      WrapDistinct(windows + Hi(s, low) + low, wrap - Hi(s, low));
    } else {
      WrapDistinct(windows + wrap + low, Hi(s, low) - wrap);
    }
  }

  /** That is so within reach, and not one tick farther on either side. */
  lemma ReachIsExact(s: Time, base: nat, sync: nat, stamp: nat, t: nat)
    requires Agrees(s, Running(base, sync, stamp)) && InReach(sync, t)
    ensures base <= t && Count(s, t % WINDOW) == (t - base) % 0x1_0000_0000
  {
    assert base <= sync / WINDOW * WINDOW <= t;
    EventIsExact(s, base, sync, stamp, t);
  }

  lemma ReachIsTight()
    ensures
      var early, late := Time(1, 1, 42099, 0), Time(1, 1, 42098, 0);
      && Agrees(early, Running(0, 42099, 1)) && Agrees(late, Running(0, 42098, 1))
      && Count(early, 42099 - 18663) != 42099 - 18663
      && Count(late, (42098 + PERIOD + 1) % WINDOW) != 42098 + PERIOD + 1
  {
  }

  lemma WidenIsExact(stamp: nat, t: nat)
    requires stamp <= t < stamp + 0x100
    ensures Widen(stamp % WINDOW, t % 0x100) == t % WINDOW
  {
    var hi, lo := stamp / 0x100, stamp % 0x100;
    assert t / 0x100 == if t % 0x100 < lo then hi + 1 else hi;
    HighByte(stamp);
    HighByte(t);
  }

  lemma HighByte(t: nat)
    ensures t % WINDOW / 0x100 == t / 0x100 % 0x100 && t % WINDOW % 0x100 == t % 0x100
  {
  }

  lemma SyncAgrees(s: Time, base: nat, sync: nat, stamp: nat, t: nat)
    requires Agrees(s, Running(base, sync, stamp)) && sync <= t < sync + WINDOW
    ensures Agrees(Synced(s, t % WINDOW), Running(base, t, stamp))
    ensures Counted(s, Sync(t)) == At((t - base) % 0x1_0000_0000)
  {
    SyncIsExact(s, base, sync, stamp, t);
  }

  lemma EventAgrees(s: Time, base: nat, sync: nat, stamp: nat, t: nat)
    requires Agrees(s, Running(base, sync, stamp)) && InReach(sync, t)
    ensures Agrees(s.(ticks16 := t % WINDOW), Running(base, sync, t))
    ensures Count(s, t % WINDOW) == (t - base) % 0x1_0000_0000 && t >= base
  {
    ReachIsExact(s, base, sync, stamp, t);
  }

  lemma AgreesNext(s: Time, c: Clock, x: Item)
    requires Agrees(s, c) && Timely(c, x)
    ensures Agrees(Next(s, x), Observe(c, x)) && Counted(s, x) == TrueCount(c, x)
  {
    match c
    case Stopped =>
      if x.Sync? {
        assert Synced(s, x.t % WINDOW).high == 0;
      }
    case Running(base, sync, stamp) =>
      hide Count, Widen, InReach;
      assert s.init != 0 && s.ticks16 == stamp % WINDOW && base <= sync;
      match x {
        case Sync(t) => SyncAgrees(s, base, sync, stamp, t);
        case Word(t) => EventAgrees(s, base, sync, stamp, t);
        case Byte(t) =>
          WidenIsExact(stamp, t);
          EventAgrees(s, base, sync, stamp, t);
      }
  }

  /** In every timely run the driver gives each item the true count of the device. */
  lemma {:induction false} CountsAreTrue(s: Time, c: Clock, run: seq<Item>)
    requires Valid(s) && Agrees(s, c) && TimelyRun(c, run)
    ensures Delivered(s, run) == TrueCounts(c, run)
    decreases |run|
  {
    hide Agrees, Timely, Counted, TrueCount, Next, Observe;
    if run != [] {
      AgreesNext(s, c, run[0]);
      CountsAreTrue(Next(s, run[0]), Observe(c, run[0]), run[1..]);
    }
  }

  lemma CountsFromReset(run: seq<Item>)
    requires TimelyRun(Stopped, run)
    ensures Delivered(RESET, run) == TrueCounts(Stopped, run)
  {
    CountsAreTrue(RESET, Stopped, run);
  }

  /** The time stamps that a run delivers. */
  function Stamps(s: Time, run: seq<Item>): (r: seq<Stamp>)
    requires Valid(s)
    ensures |r| == |run|
    decreases |run|
  {
    if run == [] then [] else [StampOf(Counted(s, run[0]))] + Stamps(Next(s, run[0]), run[1..])
  }

  /** `us` are `ticks` of 42.667 us, rounded up to whole microseconds. */
  predicate TicksLast(ticks: nat, us: nat) { us * 1000 - 1000 < ticks * 42667 <= us * 1000 }

  ghost predicate StampTells(k: Known, stamp: Stamp) {
    match k
    case None => stamp == NoStamp
    case At(count) => stamp.Stamp? && TicksLast(count, stamp.us)
  }

  lemma StampOfTells(k: Known)
    ensures StampTells(k, StampOf(k))
  {
  }

  lemma {:induction false} StampsTell(s: Time, run: seq<Item>)
    requires Valid(s)
    ensures |Delivered(s, run)| == |run|
    ensures forall i :: 0 <= i < |run| ==> StampTells(Delivered(s, run)[i], Stamps(s, run)[i])
    decreases |run|
  {
    hide Counted, Next, StampOf, StampTells;
    if run != [] {
      StampOfTells(Counted(s, run[0]));
      StampsTell(Next(s, run[0]), run[1..]);
    }
  }

  /** In every timely run each item gets the time that the device's true count lasts, in whole
      microseconds, and no stamp before the first calibration. */
  lemma StampsFromReset(run: seq<Item>)
    requires TimelyRun(Stopped, run)
    ensures |TrueCounts(Stopped, run)| == |run|
    ensures forall i :: 0 <= i < |run| ==> StampTells(TrueCounts(Stopped, run)[i], Stamps(RESET, run)[i])
  {
    hide StampTells;
    CountsFromReset(run);
    StampsTell(RESET, run);
  }
}
