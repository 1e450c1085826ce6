/** Host time and device time: estimation of the drift between the two clocks, and the time
    stamps that are delivered to the reader. Times are in microseconds. */
module TimeSync {
  import opened Common

  const SECOND := 1000000
  const SHIFT := 0x2_0000
  const LONG := 0x8000_0000_0000_0000
  const U64 := 0x1_0000_0000_0000_0000

  // ---------------------------------------------------------------- struct timeval

  datatype Timeval = Timeval(sec: int, usec: int)

  predicate Normal(tv: Timeval) { 0 <= tv.usec < SECOND }

  function Us(tv: Timeval): int { tv.sec * SECOND + tv.usec }

  function FromUs(us: int): Timeval { Timeval(us / SECOND, us % SECOND) }

  lemma UsUnique(tv: Timeval)
    requires Normal(tv)
    ensures FromUs(Us(tv)) == tv
  {
  }

  /** timeval_add_us. */
  method AddUs(tv: Timeval, us: int) returns (r: Timeval)
    ensures Normal(r) && Us(r) == Us(tv) + us
    ensures r == FromUs(Us(tv) + us)
  {
    var sec, usec := tv.sec, tv.usec + us;
    while usec < 0
      invariant sec * SECOND + usec == Us(tv) + us
    {
      usec, sec := usec + SECOND, sec - 1;
    }
    r := Timeval(sec + usec / SECOND, usec % SECOND);
    UsUnique(r);
  }

  /** subtract_timeval, as to_drv_rel_time and to_dev_rel_time use it: a time before `y`
      becomes 0. */
  method Subtract(x: Timeval, y: Timeval) returns (r: Timeval)
    requires Normal(x) && Normal(y) && x.sec >= 0 && y.sec >= 0
    ensures Normal(r) && Us(r) == if Us(x) >= Us(y) then Us(x) - Us(y) else 0
  {
    var sec, usec := x.sec, x.usec;
    if usec >= y.usec {
      usec := usec - y.usec;
    } else {
      if sec == 0 {
        return Timeval(0, 0);
      }
      sec, usec := sec - 1, usec + (SECOND - y.usec);
    }
    if sec >= y.sec {
      return Timeval(sec - y.sec, usec);
    }
    r := Timeval(0, 0);
  }

  // ---------------------------------------------------------------- synchronisation

  /** struct pcan_time_sync without the nanoseconds. */
  datatype Sync = Sync(tv: Timeval, ts: nat, ttv: nat, tts: nat, drift: nat, fixed: nat)

  const RESET := Sync(Timeval(0, 0), 0, 0, 0, 0, 0)

  /** A call of pcan_sync_times: host time, device time, and offset of the host time. */
  datatype Call = Call(now: Timeval, ts: nat, off: int)

  predicate Sane(x: Call) {
    Normal(x.now) && x.ts < LONG
  }

  function Shifted(x: Call): Timeval {
    if x.off < 0 then FromUs(Us(x.now) + x.off) else x.now
  }

  /** The calls that move the synchronisation point. */
  predicate Accepted(s: Sync, x: Call) {
    s.ts == 0
    || (Us(x.now) - Us(s.tv) >= SECOND && x.ts >= s.ts && Us(Shifted(x)) > Us(s.tv))
  }

  /** DIV_ROUND_UP_SECTOR_T of the scaled device time, in 64 bits. */
  function Ratio(tts: nat, ttv: nat): nat
    requires ttv > 0
  {
    (tts * SHIFT % U64 + ttv - 1) % U64 / ttv
  }

  predicate Restarts(s: Sync, x: Call) {
    s.ttv + Us(Shifted(x)) - Us(s.tv) > 0xffff_ffff
  }

  function Step(s: Sync, x: Call): Sync {
    if !Accepted(s, x) then s
    else if s.ts == 0 then Sync(Shifted(x), x.ts, 0, 0, 0, 0)
    else
      var dtv, dts := Us(Shifted(x)) - Us(s.tv), x.ts - s.ts;
      if Restarts(s, x) then Sync(Shifted(x), x.ts, dtv, dts, s.drift, s.fixed)
      else Sync(Shifted(x), x.ts, s.ttv + dtv, s.tts + dts, Ratio(s.tts + dts, s.ttv + dtv), s.fixed)
  }

  function After(s: Sync, calls: seq<Call>): Sync
    decreases |calls|
  {
    if calls == [] then s else After(Step(s, calls[0]), calls[1..])
  }

  /** Where the accumulated times start, and whether the drift is theirs. */
  datatype Origin = Origin(host: int, device: int, exact: bool)

  function Tracked(s: Sync, o: Origin, x: Call): Origin {
    if !Accepted(s, x) then o
    else if s.ts == 0 then Origin(Us(Shifted(x)), x.ts, false)
    else if Restarts(s, x) then Origin(Us(s.tv), s.ts, false)
    else Origin(o.host, o.device, true)
  }

  function TrackedAfter(s: Sync, o: Origin, calls: seq<Call>): Origin
    decreases |calls|
  {
    if calls == [] then o else TrackedAfter(Step(s, calls[0]), Tracked(s, o, calls[0]), calls[1..])
  }

  /** The accumulated times are the way from the origin to the last synchronisation. */
  ghost predicate Telescopes(s: Sync, o: Origin) {
    s.ts != 0 ==>
      && Normal(s.tv)
      && s.ttv == Us(s.tv) - o.host && s.tts == s.ts - o.device
      && (o.exact ==> 0 < s.ttv <= 0xffff_ffff && s.drift == Ratio(s.tts, s.ttv))
  }

  lemma StepTelescopes(s: Sync, o: Origin, x: Call)
    requires Telescopes(s, o) && Sane(x)
    ensures Telescopes(Step(s, x), Tracked(s, o, x))
  {
    hide Ratio;
    UsUnique(x.now);
  }

  ghost predicate AllSane(calls: seq<Call>) {
    forall i :: 0 <= i < |calls| ==> Sane(calls[i])
  }

  lemma {:induction false} RunTelescopes(s: Sync, o: Origin, calls: seq<Call>)
    requires Telescopes(s, o) && AllSane(calls)
    ensures Telescopes(After(s, calls), TrackedAfter(s, o, calls))
    decreases |calls|
  {
    hide Step, Tracked, Telescopes, Sane;
    if calls != [] {
      StepTelescopes(s, o, calls[0]);
      RunTelescopes(Step(s, calls[0]), Tracked(s, o, calls[0]), calls[1..]);
    }
  }

  lemma {:induction false} CeilingBounds(a: nat, q: nat, b: nat)
    requires b > 0 && q == (a + b - 1) / b
    ensures (q - 1) * b < a <= q * b
  {
    assert (a + b - 1) == q * b + (a + b - 1) % b;
  }

  lemma RatioIsCeiling(tts: nat, ttv: nat)
    requires 0 < ttv && tts * SHIFT + ttv - 1 < U64
    ensures (Ratio(tts, ttv) - 1) * ttv < tts * SHIFT <= Ratio(tts, ttv) * ttv
  {
    assert tts * SHIFT % U64 == tts * SHIFT && (tts * SHIFT + ttv - 1) % U64 == tts * SHIFT + ttv - 1;
    CeilingBounds(tts * SHIFT, Ratio(tts, ttv), ttv);
  }

  /** Whatever the calls after a reset, the drift is the ratio of device time to host time
      since the origin, rounded up, except right behind the first synchronisation or a restart. */
  lemma DriftIsTheRatio(calls: seq<Call>)
    requires AllSane(calls)
    ensures
      var s, o := After(RESET, calls), TrackedAfter(RESET, Origin(0, 0, false), calls);
      s.ts != 0 && o.exact && s.tts < 0x2000_0000_0000 ==>
        var host, device := Us(s.tv) - o.host, s.ts - o.device;
        host > 0 && device >= 0 && (s.drift - 1) * host < device * SHIFT <= s.drift * host
  {
    RunTelescopes(RESET, Origin(0, 0, false), calls);
    var s, o := After(RESET, calls), TrackedAfter(RESET, Origin(0, 0, false), calls);
    if s.ts != 0 && o.exact && s.tts < 0x2000_0000_0000 {
      RatioIsCeiling(s.tts, s.ttv);
    }
  }

  function Moves(s: Sync, calls: seq<Call>): nat
    decreases |calls|
  {
    if calls == [] then 0 else (if Accepted(s, calls[0]) then 1 else 0) + Moves(Step(s, calls[0]), calls[1..])
  }

  /** Once synchronised, always synchronised; device time never goes back, and host time
      goes on with each synchronisation, even when the host's clock is set back. */
  lemma {:induction false} SyncTimesIncrease(s: Sync, calls: seq<Call>)
    requires s.ts != 0
    ensures
      var r := After(s, calls);
      && r.ts >= s.ts && Us(r.tv) >= Us(s.tv) + Moves(s, calls)
      && (Moves(s, calls) == 0 ==> r == s)
    decreases |calls|
  {
    hide Ratio;
    if calls != [] {
      SyncTimesIncrease(Step(s, calls[0]), calls[1..]);
    }
  }

  // ---------------------------------------------------------------- delivered time stamps

  datatype Mode = OFF | HOST | COOKED | RAW

  /** struct pcan_timeval: what an event keeps of the synchronisation until it is read. */
  datatype Event = Event(mode: Mode, tv: Timeval, base: nat, ts: nat, drift: nat)

  /** A delivered time stamp, and PCANFD_HWTIMESTAMP. */
  datatype Stamp = Stamp(tv: Timeval, hw: bool)

  /** Conversion of an unsigned 64-bit value to a signed one. */
  function ToLong(x: int): int {
    var u := x % U64;
    if u < LONG then u else u - U64
  }

  /** do_div divides by 32 bits. */
  predicate Divides(drift: nat) { drift == 0 || drift % 0x1_0000_0000 != 0 }

  /** Host microseconds of a device interval. */
  function Scaled(mode: Mode, drift: nat, dus: nat): nat
    requires Divides(drift)
  {
    if mode == COOKED && drift != 0 && drift != SHIFT then Quotient(dus * SHIFT % U64, drift % 0x1_0000_0000) else dus
  }

  /** The time of an event by the host's clock, before it is compared with the present. */
  function Corrected(e: Event): int
    requires Divides(e.drift)
  {
    var dus: int := Scaled(e.mode, e.drift, if e.ts < e.base then e.base - e.ts else e.ts - e.base);
    Us(e.tv) + ToLong(if e.ts < e.base then -dus else dus)
  }

  /** Intervals of less than 2 years. */
  predicate Near(e: Event) {
    e.base - 0x4000_0000_0000 < e.ts < e.base + 0x4000_0000_0000
  }

  /** `x` host microseconds are what `d` device microseconds are worth, rounded down. */
  predicate Worth(mode: Mode, drift: nat, d: nat, x: nat) {
    if mode == HOST || drift == 0 || drift == SHIFT then x == d
    else x * drift <= d * SHIFT < x * drift + drift
  }

  /** `us` is as far from the synchronisation, and on the same side of it, as the event was by
      the device's clock. */
  predicate InStep(e: Event, us: int) {
    if e.ts >= e.base then us >= Us(e.tv) && Worth(e.mode, e.drift, e.ts - e.base, us - Us(e.tv))
    else us <= Us(e.tv) && Worth(e.mode, e.drift, e.base - e.ts, Us(e.tv) - us)
  }

  lemma ScaledIsWorth(mode: Mode, drift: nat, d: nat)
    requires (mode == HOST || mode == COOKED) && drift < 0x1_0000_0000 && d < 0x4000_0000_0000
    ensures Worth(mode, drift, d, Scaled(mode, drift, d))
    ensures Scaled(mode, drift, d) < LONG
  {
    hide Quotient;
    assert d * SHIFT % U64 == d * SHIFT;
    if mode == COOKED && drift != 0 && drift != SHIFT {
      assert drift % 0x1_0000_0000 == drift;
      QuotientBounds(d * SHIFT, drift);
      MulMonotone(1, drift, Quotient(d * SHIFT, drift));
    }
  }

  /** The corrected time keeps the time that has passed since the synchronisation. */
  lemma CorrectedIsInStep(e: Event)
    requires (e.mode == HOST || e.mode == COOKED) && e.drift < 0x1_0000_0000 && Near(e)
    ensures InStep(e, Corrected(e))
  {
    hide Scaled, Worth;
    ScaledIsWorth(e.mode, e.drift, if e.ts < e.base then e.base - e.ts else e.ts - e.base);
  }

  class PcanTime {
    var timeSync: Sync
    var tsMode: Mode

    /** pcan_sync_init. */
    constructor (tsMode: Mode)
      ensures timeSync == RESET && this.tsMode == tsMode
    {
      timeSync, this.tsMode := RESET, tsMode;
    }

    /** pcan_sync_times; `now` is the host's clock. */
    method SyncTimes(ts: nat, now: Timeval, off: int) returns (ret: nat)
      requires ts < LONG && Normal(now)
      modifies this`timeSync
      ensures timeSync == Step(old(timeSync), Call(now, ts, off))
      ensures ret == 1 <==>
        || old(timeSync).ts == 0
        || (Us(now) - Us(old(timeSync).tv) >= SECOND && ts >= old(timeSync).ts
            && Us(now) + (if off < 0 then off else 0) > Us(old(timeSync).tv))
      ensures ret == 0 || ret == 1
      ensures ret == 0 ==> timeSync == old(timeSync)
      ensures ret == 1 ==>
        && timeSync.ts == ts && Normal(timeSync.tv) && Us(timeSync.tv) == Us(now) + if off < 0 then off else 0
      ensures ret == 1 && old(timeSync).ts != 0 ==>
        var dtv, dts := Us(timeSync.tv) - Us(old(timeSync).tv), ts - old(timeSync).ts;
        if old(timeSync).ttv + dtv <= 0xffff_ffff then
          timeSync.ttv == old(timeSync).ttv + dtv && timeSync.tts == old(timeSync).tts + dts
        else
          timeSync.ttv == dtv && timeSync.tts == dts && timeSync.drift == old(timeSync).drift
    {
      hide Ratio;
      if timeSync.ts == 0 {
        timeSync := Sync(now, ts, 0, 0, 0, 0);
        if off < 0 {
          var tv := AddUs(now, off);
          timeSync := timeSync.(tv := tv);
        }
        return 1;
      }
      var dtv := Us(now) - Us(timeSync.tv);
      if dtv < SECOND {
        return 0;
      }
      var dts := ts - timeSync.ts;
      if dts < 0 {
        return 0;
      }
      var tv := now;
      if off < 0 {
        tv := AddUs(now, off);
        dtv := dtv + off;
      }
      if dtv <= 0 {
        return 0;
      }
      var ttv, tts, drift := timeSync.ttv + dtv, timeSync.tts + dts, timeSync.drift;
      if ttv <= 0xffff_ffff {
        drift := Ratio(tts, ttv);
      } else {
        ttv, tts := dtv, dts;
      }
      timeSync := Sync(tv, ts, ttv, tts, drift, timeSync.fixed);
      ret := 1;
    }

    /** pcan_sync_decode. */
    method SyncDecode(ts: nat, now: Timeval) returns (ret: nat, e: Event)
      ensures e == Decoded(timeSync, tsMode, ts, now)
      ensures ret == 1 ==>
        && e.mode == tsMode && e.ts == ts
        && e.tv == timeSync.tv && e.base == timeSync.ts && e.drift == timeSync.drift
      ensures ret == 0 ==> e.mode == OFF && e.tv == now
      ensures ret == 1 <==> timeSync.ts != 0 && tsMode != OFF
      ensures ret == 0 || ret == 1
    {
      if timeSync.ts != 0 && tsMode != OFF {
        return 1, Event(tsMode, timeSync.tv, timeSync.ts, ts, timeSync.drift);
      }
      return 0, Event(OFF, now, 0, 0, 0);
    }

    /** pcan_sync_timestamps; `now` is the host's clock at the time of reading. A corrected time
        is delivered unless it lies in the future, where the present takes its place; from 100 us
        on this is told. `us` is the corrected time. */
    method SyncTimestamps(e: Event, now: Timeval) returns (r: Stamp, ghost us: int)
      requires Divides(e.drift) && Normal(now)
      modifies this`timeSync
      ensures r == Delivered(e, now)
      ensures e.mode == RAW ==> Normal(r.tv) && Us(r.tv) == e.ts && r.hw
      ensures e.mode == OFF ==> r == Stamp(e.tv, false)
      ensures e.mode == HOST || e.mode == COOKED ==>
        && Normal(r.tv) && Us(r.tv) == (if us <= Us(now) then us else Us(now)) && (r.hw <==> us < Us(now) + 100)
        && (e.drift < 0x1_0000_0000 && Near(e) ==> InStep(e, us))
      ensures timeSync == old(timeSync).(fixed := old(timeSync.fixed) +
        if (e.mode == HOST || e.mode == COOKED) && Corrected(e) > Us(now) then 1 else 0)
    {
      us := Corrected(e);
      if (e.mode == HOST || e.mode == COOKED) && e.drift < 0x1_0000_0000 && Near(e) {
        CorrectedIsInStep(e);
      }
      hide Scaled, ToLong, InStep, Near;
      if e.mode == RAW {
        return Stamp(Timeval(e.ts / SECOND, e.ts % SECOND), true), us;
      }
      if e.mode == OFF {
        return Stamp(e.tv, false), us;
      }
      var s, dus := 1, 0;
      if e.ts < e.base {
        dus, s := e.base - e.ts, -1;
      } else {
        dus := e.ts - e.base;
      }
      dus := Scaled(e.mode, e.drift, dus);
      var stamp := AddUs(e.tv, ToLong(s * dus));
      var hw, fix := true, 0;
      if stamp.usec >= SECOND || stamp.usec < 0 {
        fix := 1;
      } else {
        var dtv := Us(stamp) - Us(now);
        if dtv >= 100 {
          fix := 2;
        } else if dtv > 0 {
          fix := 3;
        }
      }
      if fix != 0 {
        if fix != 3 {
          hw := false;
        }
        stamp := now;
        timeSync := timeSync.(fixed := timeSync.fixed + 1);
      }
      r := Stamp(stamp, hw);
      UsUnique(now);
    }
  }

  /** What an event keeps when it is decoded: the last synchronisation, or the present. */
  function Decoded(s: Sync, mode: Mode, ts: nat, now: Timeval): Event {
    if s.ts != 0 && mode != OFF then Event(mode, s.tv, s.ts, ts, s.drift) else Event(OFF, now, 0, 0, 0)
  }

  /** The time stamp it is read with. */
  function Delivered(e: Event, now: Timeval): Stamp
    requires Divides(e.drift)
  {
    match e.mode
    case RAW => Stamp(FromUs(e.ts), true)
    case OFF => Stamp(e.tv, false)
    case _ => Read(e, now)
  }

  /** The corrected time or the present, whichever is earlier; a time that is 100 us or
      more in the future is not called a hardware time. */
  function Read(e: Event, now: Timeval): Stamp
    requires Divides(e.drift)
  {
    var us := Corrected(e);
    Stamp(FromUs(if us <= Us(now) then us else Us(now)), us < Us(now) + 100)
  }

  lemma QuotientMonotone(a: nat, b: nat, d: nat)
    requires a <= b && d > 0
    ensures Quotient(a, d) <= Quotient(b, d) <= b
  {
    hide Quotient;
    var p, q := Quotient(a, d), Quotient(b, d);
    QuotientBounds(a, d);
    QuotientBounds(b, d);
    MulMonotone(1, d, q);
    if p > q {
      MulMonotone(q + 1, p, d);
    }
  }

  lemma ScaledMonotone(mode: Mode, drift: nat, a: nat, b: nat)
    requires Divides(drift) && a <= b < 0x4000_0000_0000
    ensures Scaled(mode, drift, a) <= Scaled(mode, drift, b) < LONG
  {
    hide Quotient;
    assert a * SHIFT % U64 == a * SHIFT && b * SHIFT % U64 == b * SHIFT;
    if mode == COOKED && drift != 0 {
      QuotientMonotone(a * SHIFT, b * SHIFT, drift % 0x1_0000_0000);
    }
  }

  lemma ScaledZero(mode: Mode, drift: nat)
    requires Divides(drift)
    ensures Scaled(mode, drift, 0) == 0
  {
    hide Quotient;
    if mode == COOKED && drift != 0 {
      QuotientMonotone(0, 0, drift % 0x1_0000_0000);
    }
  }

  lemma CorrectedMonotone(e: Event, f: Event)
    requires Divides(e.drift) && Near(e) && Near(f)
    requires f == e.(ts := f.ts) && e.ts <= f.ts
    ensures Corrected(e) <= Corrected(f)
  {
    hide Scaled;
    ScaledZero(e.mode, e.drift);
    if f.ts < e.base {
      ScaledMonotone(e.mode, e.drift, e.base - f.ts, e.base - e.ts);
    } else if e.ts < e.base {
      ScaledMonotone(e.mode, e.drift, 0, e.base - e.ts);
      ScaledMonotone(e.mode, e.drift, 0, f.ts - e.base);
    } else {
      ScaledMonotone(e.mode, e.drift, e.ts - e.base, f.ts - e.base);
    }
  }

  /** Events of one synchronisation that are read in the order of their device times get
      normalised stamps in that order, none of them in the future. */
  lemma ReadStampsAreOrdered(e: Event, f: Event, now: Timeval, later: Timeval)
    requires Divides(e.drift) && Near(e) && Near(f) && Normal(now) && Normal(later)
    requires f == e.(ts := f.ts) && e.ts <= f.ts && Us(now) <= Us(later)
    ensures
      var r, t := Read(e, now).tv, Read(f, later).tv;
      Normal(r) && Normal(t) && Us(r) <= Us(now) && Us(r) <= Us(t)
  {
    CorrectedMonotone(e, f);
  }

  /** Whatever the mode: events that are decoded and read in the order of their device times,
      with no synchronisation between their decoding, are delivered in that order. */
  lemma DecodedStampsAreOrdered(s: Sync, mode: Mode, ts1: nat, at1: Timeval, ts2: nat, at2: Timeval,
                                now: Timeval, later: Timeval)
    requires Divides(s.drift) && Normal(now) && Normal(later) && Us(now) <= Us(later)
    requires ts1 <= ts2 && Us(at1) <= Us(at2)
    requires
      var e, f := Decoded(s, mode, ts1, at1), Decoded(s, mode, ts2, at2);
      mode == HOST || mode == COOKED ==> Near(e) && Near(f)
    ensures
      var e, f := Decoded(s, mode, ts1, at1), Decoded(s, mode, ts2, at2);
      Us(Delivered(e, now).tv) <= Us(Delivered(f, later).tv)
  {
    hide Read, Near;
    var e, f := Decoded(s, mode, ts1, at1), Decoded(s, mode, ts2, at2);
    if e.mode == HOST || e.mode == COOKED {
      ReadStampsAreOrdered(e, f, now, later);
    }
  }

  /** The device's clock runs at most 32767 times as fast as the host's from one synchronisation
      to the next. */
  predicate InPace(s: Sync, x: Call) {
    s.ts != 0 && Accepted(s, x) ==> x.ts - s.ts <= 32767 * (Us(Shifted(x)) - Us(s.tv))
  }

  ghost predicate Paced(s: Sync, calls: seq<Call>)
    decreases |calls|
  {
    calls == [] || (InPace(s, calls[0]) && Paced(Step(s, calls[0]), calls[1..]))
  }

  /** The drift fits the 32 bits of the divisor. */
  ghost predicate DriftFits(s: Sync) {
    s.tts <= 32767 * s.ttv && s.drift < 0x1_0000_0000
  }

  lemma StepKeepsDriftFits(s: Sync, x: Call)
    requires DriftFits(s) && Sane(x) && InPace(s, x)
    ensures DriftFits(Step(s, x))
  {
    hide Ratio, Shifted;
    if Accepted(s, x) && s.ts != 0 && !Restarts(s, x) {
      RatioFits(Step(s, x).tts, Step(s, x).ttv);
    }
  }

  lemma RatioFits(tts: nat, ttv: nat)
    requires 0 < ttv <= 0xffff_ffff && tts <= 32767 * ttv
    ensures Ratio(tts, ttv) < 0x1_0000_0000
  {
    hide Ratio;
    RatioIsCeiling(tts, ttv);
    if Ratio(tts, ttv) >= 0x1_0000_0000 {
      MulMonotone(32767 * SHIFT, Ratio(tts, ttv) - 1, ttv);
    }
  }

  lemma {:induction false} RunKeepsDriftFits(s: Sync, calls: seq<Call>)
    requires DriftFits(s) && AllSane(calls) && Paced(s, calls)
    ensures DriftFits(After(s, calls))
    decreases |calls|
  {
    hide Step, DriftFits, InPace, Sane;
    if calls != [] {
      StepKeepsDriftFits(s, calls[0]);
      RunKeepsDriftFits(Step(s, calls[0]), calls[1..]);
    }
  }

  /** After such calls nothing divides by zero, and stamps are delivered in order. */
  lemma PacedStampsAreOrdered(calls: seq<Call>, mode: Mode, ts1: nat, at1: Timeval, ts2: nat, at2: Timeval,
                              now: Timeval, later: Timeval)
    requires AllSane(calls) && Paced(RESET, calls)
    requires Normal(now) && Normal(later) && Us(now) <= Us(later)
    requires ts1 <= ts2 && Us(at1) <= Us(at2)
    requires
      var s := After(RESET, calls);
      mode == HOST || mode == COOKED ==> Near(Decoded(s, mode, ts1, at1)) && Near(Decoded(s, mode, ts2, at2))
    ensures
      var s := After(RESET, calls);
      var e, f := Decoded(s, mode, ts1, at1), Decoded(s, mode, ts2, at2);
      Divides(e.drift) && Divides(f.drift) && Us(Delivered(e, now).tv) <= Us(Delivered(f, later).tv)
  {
    RunKeepsDriftFits(RESET, calls);
    hide Delivered, Near;
    DecodedStampsAreOrdered(After(RESET, calls), mode, ts1, at1, ts2, at2, now, later);
  }

  /** A device that is 32768 seconds ahead after one second of the host makes do_div divide by 0. */
  lemma RacingDeviceDividesByZero()
    ensures
      var calls := [Call(Timeval(1, 0), 1, 0), Call(Timeval(2, 0), 1 + 32768 * SECOND, 0)];
      AllSane(calls) && !Divides(After(RESET, calls).drift)
  {
    var x, y := Call(Timeval(1, 0), 1, 0), Call(Timeval(2, 0), 1 + 32768 * SECOND, 0);
    var s := Step(RESET, x);
    assert Step(s, y).drift == 0x1_0000_0000;
    assert [x, y][1..] == [y] && [y][1..] == [];
    assert After(RESET, [x, y]) == After(s, [y]) == Step(s, y);
  }

  /** Stamps follow the host's clock: after any calls from a reset, an interval of the device on
      either side of the synchronisation becomes the interval that the host's clock would have
      shown at the ratio of the two clocks since the origin. It is never longer, and shorter by
      less than one microsecond and the rounding of the drift. */
  lemma StampsFollowTheHost(calls: seq<Call>, ts: nat, x: nat)
    requires AllSane(calls)
    ensures
      var s, o := After(RESET, calls), TrackedAfter(RESET, Origin(0, 0, false), calls);
      var host, device := Us(s.tv) - o.host, s.ts - o.device;
      var d := if ts < s.ts then s.ts - ts else ts - s.ts;
      s.ts != 0 && o.exact && 0 < s.tts < 0x2000_0000_0000 && Worth(COOKED, s.drift, d, x) ==>
        x * device <= d * host && d * host * SHIFT < (x + 1) * (device * SHIFT + host)
  {
    var s, o := After(RESET, calls), TrackedAfter(RESET, Origin(0, 0, false), calls);
    var d := if ts < s.ts then s.ts - ts else ts - s.ts;
    DriftIsTheRatio(calls);
    RunTelescopes(RESET, Origin(0, 0, false), calls);
    if s.ts != 0 && o.exact && 0 < s.tts < 0x2000_0000_0000 && Worth(COOKED, s.drift, d, x) {
      WorthIsTheRatio(s.drift, Us(s.tv) - o.host, s.ts - o.device, d, x);
    }
  }

  lemma WorthIsTheRatio(drift: nat, host: nat, device: nat, d: nat, x: nat)
    requires host > 0 && device > 0 && (drift - 1) * host < device * SHIFT <= drift * host
    requires Worth(COOKED, drift, d, x)
    ensures x * device <= d * host && d * host * SHIFT < (x + 1) * (device * SHIFT + host)
  {
    assert drift > 0;
    assert x * drift <= d * SHIFT < (x + 1) * drift;
    NotLonger(drift, host, device, d, x);
    assert drift * host < device * SHIFT + host;
    MulMonotone(drift * host, device * SHIFT + host, x + 1);
    assert d * SHIFT * host < (x + 1) * drift * host;
    assert (x + 1) * drift * host == (drift * host) * (x + 1);
  }

  lemma NotLonger(drift: nat, host: nat, device: nat, d: nat, x: nat)
    requires device * SHIFT <= drift * host && x * drift <= d * SHIFT
    ensures x * device <= d * host
  {
    assert x * (device * SHIFT) <= x * (drift * host);
    assert (x * drift) * host <= (d * SHIFT) * host;
    assert x * (drift * host) == (x * drift) * host;
    assert x * device * SHIFT <= d * host * SHIFT;
  }

  /** With an exact drift, the device time that has passed since the origin never becomes
      more than the host time that has, nor less by more than the rounding of the drift. */
  lemma DriftInverts(ttv: nat, tts: nat, drift: nat)
    requires 0 < ttv <= 0xffff_ffff && 0 < tts < 0x2000_0000_0000 && drift == Ratio(tts, ttv) < 0x1_0000_0000
    ensures drift > 0
    ensures
      var host := Scaled(COOKED, drift, tts);
      drift != SHIFT ==> host <= ttv && drift * (ttv - host) < ttv + drift
  {
    hide Quotient, Ratio;
    RatioIsCeiling(tts, ttv);
    var a := tts * SHIFT;
    if drift != SHIFT {
      assert drift % 0x1_0000_0000 == drift && a % U64 == a;
      var host := Quotient(a, drift);
      QuotientBounds(a, drift);
      if host > ttv {
        MulMonotone(ttv + 1, host, drift);
      }
      assert drift * (ttv - host) == drift * ttv - host * drift;
    }
  }
}
