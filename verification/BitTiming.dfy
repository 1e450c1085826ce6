/** From a requested bit rate to register values, and their normalisation. */
module BitTiming {
  import opened BitSplit
  import opened Common
  import opened BitSearch

  const HALF := 0x8000_0000

  // ---------------------------------------------------------------- from bit rate to registers

  /** struct pcan_bittiming */
  datatype Timing = Timing(
    brp: nat, tseg1: nat, tseg2: nat, sjw: nat, tsam: nat,
    bitrate: nat, samplePoint: nat, tq: nat, bitrateReal: nat)

  datatype Status = Ok | EInval | EDom

  /** The user's sample point, or the one CiA recommends for the bit rate. */
  function Nominal(bt: Timing): nat {
    if bt.samplePoint != 0 then bt.samplePoint
    else if bt.bitrate > 800000 then 7500
    else if bt.bitrate > 500000 then 8000
    else 8750
  }

  /** Recommended sample points fall with the rate, from 87.5 % up to 500 kbit/s to 75 % above
      800 kbit/s. */
  lemma RecommendedPointsFall(bt: Timing, faster: Timing)
    requires bt.samplePoint == faster.samplePoint == 0 && bt.bitrate <= faster.bitrate
    ensures 7500 <= Nominal(faster) <= Nominal(bt) <= 8750
    ensures Nominal(bt) == 8750 <==> bt.bitrate <= 500000
    ensures Nominal(bt) == 7500 <==> bt.bitrate > 800000
    ensures 500000 < bt.bitrate <= 800000 ==> Nominal(bt) == 8000
  {
  }

  function Sjw(wanted: nat, sjwMax: nat, tseg2: nat): nat {
    if wanted == 0 || sjwMax == 0 then 1
    else
      var capped := if wanted > sjwMax then sjwMax else wanted;
      if tseg2 < capped then tseg2 else capped
  }

  /** The error test rejects what the search could not place at all, although the
      scaled sentinel is cut to 32 bits. */
  lemma NothingFoundIsRejected(bitrate: nat)
    requires 0 < bitrate < U32
    ensures UINT_MAX * SAMPT_SCALE / bitrate % U32 > CALC_MAX_ERROR
  {
    var k, r := SAMPT_SCALE / bitrate, SAMPT_SCALE % bitrate;
    DivBounds(SAMPT_SCALE, bitrate);
    if bitrate > SAMPT_SCALE {
      QuotientIs(SAMPT_SCALE, bitrate, 0, SAMPT_SCALE);
    }
    if r == 0 {
      ExactSentinel(bitrate, k);
    } else {
      InexactSentinel(bitrate, k, r);
    }
  }

  lemma MulPull(k: nat, c: nat, n: nat)
    ensures (k * c) * n == c * (k * n)
  {
  }

  lemma ExactSentinel(bitrate: nat, k: nat)
    requires 0 < bitrate && SAMPT_SCALE == k * bitrate && k <= SAMPT_SCALE
    ensures UINT_MAX * SAMPT_SCALE / bitrate % U32 > CALC_MAX_ERROR
  {
    MulPull(k, UINT_MAX, bitrate);
    QuotientIs(UINT_MAX * SAMPT_SCALE, bitrate, k * UINT_MAX, 0);
    assert k * UINT_MAX == (k - 1) * U32 + (U32 - k);
    RemainderIs(k - 1, U32 - k);
  }

  lemma InexactSentinel(bitrate: nat, k: nat, r: nat)
    requires 0 < r < bitrate < U32 && SAMPT_SCALE == k * bitrate + r
    requires bitrate > SAMPT_SCALE ==> r == SAMPT_SCALE
    ensures UINT_MAX * SAMPT_SCALE / bitrate % U32 > CALC_MAX_ERROR
  {
    var rest := r * U32 - SAMPT_SCALE;
    var top := rest / bitrate;
    DivBounds(rest, bitrate);
    MulPull(k, U32, bitrate);
    MulAdd(k * U32, top, bitrate);
    QuotientIs(UINT_MAX * SAMPT_SCALE, bitrate, k * U32 + top, rest - top * bitrate);
    RestFits(bitrate, r, rest);
    RemainderIs(k, top);
  }

  lemma MulAdd(a: nat, b: nat, n: nat)
    ensures (a + b) * n == a * n + b * n
  {
  }

  lemma QuotientIs(a: nat, n: nat, q: nat, r: nat)
    requires n > 0 && a == q * n + r && r < n
    ensures a / n == q
  {
    DivAtMost(a, n, q);
    MulMonotone(q, a / n + 1, n);
    DivBounds(a, n);
    if a / n < q {
      MulMonotone(a / n + 1, q, n);
    }
  }

  lemma RemainderIs(k: nat, r: nat)
    requires r < U32
    ensures (k * U32 + r) % U32 == r
  {
  }

  lemma RestFits(bitrate: nat, r: nat, rest: nat)
    requires 0 < r < bitrate < U32 && r <= SAMPT_SCALE && rest == r * U32 - SAMPT_SCALE
    requires bitrate > SAMPT_SCALE ==> r == SAMPT_SCALE
    ensures CALC_MAX_ERROR < rest / bitrate < U32
  {
    assert (CALC_MAX_ERROR + 1) * bitrate <= rest < U32 * bitrate;
    DivAtMost(rest, bitrate, U32 - 1);
    DivAtMost(rest, bitrate, CALC_MAX_ERROR);
  }

  /** What a successful run leaves behind when its best length is `best`. */
  ghost predicate Result(caps: Range, clk: nat, bt: Timing, r: Timing, best: nat)
    requires caps.Valid() && bt.bitrate > 0 && clk > 0 && Nominal(bt) <= SAMPT_SCALE
  {
    && Chosen(caps, clk, bt.bitrate, Nominal(bt), best)
    && RateError(caps, clk, bt.bitrate, best) * SAMPT_SCALE < (CALC_MAX_ERROR + 1) * bt.bitrate
    && r.brp == Brp(caps, clk, bt.bitrate, best)
    && r.sjw == Sjw(bt.sjw, caps.sjwMax, r.tseg2)
    && r.tq == Wrap(Quotient(r.brp * GHZ, clk))
    && r.bitrate == bt.bitrate && r.tsam == bt.tsam
    && match Update(caps, Nominal(bt), best / 2)
       case NoChoice => r.samplePoint == 0
       case Choice(t1, t2, sp) => r.tseg1 == t1 && r.tseg2 == t2 && r.samplePoint == sp
  }

  /** Its test of the bit rate error, in tenths of a percent. */
  method RateRejected(caps: Range, clk: nat, bitrate: nat, nominal: nat, found: bool, rateError: nat, ghost best: nat)
    returns (rejected: bool)
    requires caps.Valid() && clk < U32 && 0 < bitrate < U32 && nominal <= SAMPT_SCALE
    requires !found ==> rateError == UINT_MAX
    requires found ==> Optimum(caps, clk, bitrate, nominal, best) && rateError == RateError(caps, clk, bitrate, best)
    ensures !rejected <==> found && rateError * SAMPT_SCALE < (CALC_MAX_ERROR + 1) * bitrate
  {
    hide Optimum, Usable, RateError, Brp;
    if rateError == 0 {
      return false;
    }
    var scaled := Quotient(rateError * SAMPT_SCALE, bitrate);
    if !found {
      NothingFoundIsRejected(bitrate);
    } else {
      ScaledErrorFits(caps, clk, bitrate, nominal, best, scaled);
      DivAtMost(rateError * SAMPT_SCALE, bitrate, CALC_MAX_ERROR);
    }
    rejected := scaled % U32 > CALC_MAX_ERROR;
  }

  /** pcan_bitrate_to_bittiming */
  method BitrateToBittiming(bt: Timing, caps: Range, clk: nat) returns (err: Status, r: Timing, ghost best: nat)
    requires caps.Valid() && 0 < clk < U32 && 0 < bt.bitrate < U32 && NoZeroDivisor(caps, bt.bitrate)
    ensures err == EInval <==> bt.samplePoint > SAMPT_SCALE
    ensures err != Ok ==> r == bt
    ensures err == EDom ==>
      || (forall y: nat :: !Usable(caps, clk, bt.bitrate, y))
      || (Chosen(caps, clk, bt.bitrate, Nominal(bt), best) &&
          RateError(caps, clk, bt.bitrate, best) * SAMPT_SCALE >= (CALC_MAX_ERROR + 1) * bt.bitrate)
    ensures err == Ok ==> Result(caps, clk, bt, r, best)
  {
    hide Usable, RateError, Brp, Update, Optimum;
    r, best := bt, 0;
    if bt.samplePoint > SAMPT_SCALE {
      return EInval, r, best;
    }
    var nominal := bt.samplePoint;
    if nominal == 0 {
      if bt.bitrate > 800000 {
        nominal := 7500;
      } else if bt.bitrate > 500000 {
        nominal := 8000;
      } else {
        nominal := 8750;
      }
    }
    var found, tseg, brp, rateError, tseg1, tseg2;
    found, tseg, brp, rateError, tseg1, tseg2, best := Search(caps, clk, bt.bitrate, nominal);
    var rejected := RateRejected(caps, clk, bt.bitrate, nominal, found, rateError, best);
    if rejected {
      return EDom, r, best;
    }
    var samplePoint, ignored;
    samplePoint, tseg1, tseg2, ignored := UpdateSamplePoint(caps, nominal, tseg, tseg1, tseg2);
    r := r.(samplePoint := samplePoint, tq := Wrap(Quotient(brp * GHZ, clk)),
            tseg1 := tseg1, tseg2 := tseg2, brp := brp);
    if r.sjw == 0 || caps.sjwMax == 0 {
      r := r.(sjw := 1);
    } else {
      if r.sjw > caps.sjwMax {
        r := r.(sjw := caps.sjwMax);
      }
      if tseg2 < r.sjw {
        r := r.(sjw := tseg2);
      }
    }
    err := Ok;
  }

  lemma ScaledErrorFits(caps: Range, clk: nat, bitrate: nat, nominal: nat, x: nat, scaled: nat)
    requires caps.Valid() && clk < U32 && 0 < bitrate < U32 && nominal <= SAMPT_SCALE
    requires Optimum(caps, clk, bitrate, nominal, x)
    requires scaled == Quotient(RateError(caps, clk, bitrate, x) * SAMPT_SCALE, bitrate)
    ensures scaled <= SAMPT_SCALE
  {
    hide Brp;
    RateErrorBounded(caps, clk, bitrate, x);
    DivAtMost(RateError(caps, clk, bitrate, x) * SAMPT_SCALE, bitrate, SAMPT_SCALE);
  }

  // ---------------------------------------------------------------- normalisation

  function Within(x: nat, lo: nat, hi: nat): nat {
    if x < lo then lo else if x > hi then hi else x
  }

  /** pcan_bittiming_normalize when the register values are given: they are clamped, and
      everything else is computed from them. */
  function FromRegisters(bt: Timing, caps: Range, clk: nat): Timing
    requires caps.Valid() && clk > 0 && bt.brp > 0
  {
    var brp := Within(bt.brp, caps.brpMin, caps.brpMax);
    var tseg1 := Within(bt.tseg1, caps.tseg1Min, caps.tseg1Max);
    var tseg2 := Within(bt.tseg2, caps.tseg2Min, caps.tseg2Max);
    var bps := RealRate(clk, brp, tseg1, tseg2);
    Timing(brp, tseg1, tseg2, if bt.sjw == 0 then 1 else bt.sjw, bt.tsam, bps,
           Quotient(SAMPT_SCALE * (1 + tseg1), 1 + tseg1 + tseg2), Wrap(Quotient(brp * GHZ, clk)), bps)
  }

  function RealRate(clk: nat, brp: nat, tseg1: nat, tseg2: nat): nat
    requires brp > 0
  {
    Quotient(clk, brp * (tseg1 + tseg2 + 1))
  }

  /** All register values lie where the controller takes them. */
  predicate InRange(caps: Range, r: Timing) {
    && caps.brpMin <= r.brp <= caps.brpMax
    && caps.tseg1Min <= r.tseg1 <= caps.tseg1Max
    && caps.tseg2Min <= r.tseg2 <= caps.tseg2Max
    && 1 <= r.sjw <= caps.sjwMax && r.sjw <= r.tseg2
  }

  function Distance(x: nat, y: nat): nat { if x < y then y - x else x - y }

  /** `y` is the value from `lo` to `hi` that is nearest to `x`. */
  ghost predicate NearestIn(x: nat, lo: nat, hi: nat, y: nat) {
    lo <= y <= hi && forall v: nat :: lo <= v <= hi ==> Distance(x, y) <= Distance(x, v)
  }

  /** `q` is the whole part of `a` / `n`. */
  predicate WholePart(a: nat, n: nat, q: nat) { q * n <= a < q * n + n }

  /** A rate or quantum that belongs to registers: quanta of `brp` periods of the clock, which
      has 32 bits in nanoseconds. */
  predicate TellsRate(clk: nat, brp: nat, quanta: nat, rate: nat) { WholePart(clk, brp * quanta, rate) }

  predicate TellsQuantum(clk: nat, brp: nat, tq: nat) {
    brp * GHZ < U32 * clk ==> WholePart(brp * GHZ, clk, tq)
  }

  predicate TellsSamplePoint(tseg1: nat, tseg2: nat, samplePoint: nat) {
    WholePart(SAMPT_SCALE * (1 + tseg1), 1 + tseg1 + tseg2, samplePoint)
  }

  /** The jump width: 1 by default, and otherwise the user's, as far as the limits allow. */
  ghost predicate JumpWidth(wanted: nat, sjwMax: nat, tseg2: nat, sjw: nat) {
    if wanted == 0 || sjwMax == 0 then sjw == 1
    else
      && sjw <= wanted && sjw <= sjwMax && sjw <= tseg2
      && (sjw == wanted || sjw == sjwMax || sjw == tseg2)
  }

  lemma ClampedIsNearest(x: nat, lo: nat, hi: nat)
    requires lo <= hi
    ensures NearestIn(x, lo, hi, Within(x, lo, hi))
  {
  }

  lemma QuotientIsWhole(a: nat, n: nat)
    requires n > 0
    ensures WholePart(a, n, Quotient(a, n))
  {
    QuotientBounds(a, n);
  }

  lemma QuantumIsWhole(clk: nat, brp: nat)
    requires clk > 0
    ensures TellsQuantum(clk, brp, Wrap(Quotient(brp * GHZ, clk)))
  {
    hide Quotient;
    var q := Quotient(brp * GHZ, clk);
    QuotientBounds(brp * GHZ, clk);
    if brp * GHZ < U32 * clk && q >= U32 {
      MulMonotone(U32, q, clk);
    }
  }

  /** Given registers become the nearest ones of their ranges, and everything else is what those
      registers mean. */
  ghost predicate TakenFrom(bt: Timing, caps: Range, clk: nat, r: Timing) {
    && NearestIn(bt.brp, caps.brpMin, caps.brpMax, r.brp)
    && NearestIn(bt.tseg1, caps.tseg1Min, caps.tseg1Max, r.tseg1)
    && NearestIn(bt.tseg2, caps.tseg2Min, caps.tseg2Max, r.tseg2)
    && r.sjw == (if bt.sjw == 0 then 1 else bt.sjw) && r.tsam == bt.tsam
    && TellsRate(clk, r.brp, 1 + r.tseg1 + r.tseg2, r.bitrate) && r.bitrateReal == r.bitrate
    && TellsQuantum(clk, r.brp, r.tq) && TellsSamplePoint(r.tseg1, r.tseg2, r.samplePoint)
  }

  lemma ValuesTell(clk: nat, brp: nat, tseg1: nat, tseg2: nat)
    requires clk > 0 && brp > 0
    ensures TellsRate(clk, brp, 1 + tseg1 + tseg2, RealRate(clk, brp, tseg1, tseg2))
    ensures TellsQuantum(clk, brp, Wrap(Quotient(brp * GHZ, clk)))
    ensures TellsSamplePoint(tseg1, tseg2, Quotient(SAMPT_SCALE * (1 + tseg1), 1 + tseg1 + tseg2))
  {
    hide Quotient, TellsQuantum, Wrap, WholePart;
    var quanta := 1 + tseg1 + tseg2;
    MulPositive(brp, quanta);
    assert tseg1 + tseg2 + 1 == quanta;
    QuotientIsWhole(clk, brp * quanta);
    QuotientIsWhole(SAMPT_SCALE * (1 + tseg1), quanta);
    QuantumIsWhole(clk, brp);
  }

  lemma RegistersTell(bt: Timing, caps: Range, clk: nat)
    requires caps.Valid() && clk > 0 && bt.brp > 0
    ensures TakenFrom(bt, caps, clk, FromRegisters(bt, caps, clk))
  {
    var r := FromRegisters(bt, caps, clk);
    ClampedIsNearest(bt.brp, caps.brpMin, caps.brpMax);
    ClampedIsNearest(bt.tseg1, caps.tseg1Min, caps.tseg1Max);
    ClampedIsNearest(bt.tseg2, caps.tseg2Min, caps.tseg2Max);
    hide NearestIn, Quotient, WholePart, TellsRate, TellsQuantum, TellsSamplePoint, Wrap, RealRate;
    ValuesTell(clk, r.brp, r.tseg1, r.tseg2);
  }

  lemma SjwIsJumpWidth(wanted: nat, sjwMax: nat, tseg2: nat)
    ensures JumpWidth(wanted, sjwMax, tseg2, Sjw(wanted, sjwMax, tseg2))
  {
  }

  /** The part of its body that clamps the registers. */
  method Clamped(bt: Timing, caps: Range) returns (r: Timing)
    requires caps.Valid()
    ensures NearestIn(bt.brp, caps.brpMin, caps.brpMax, r.brp)
    ensures NearestIn(bt.tseg1, caps.tseg1Min, caps.tseg1Max, r.tseg1)
    ensures NearestIn(bt.tseg2, caps.tseg2Min, caps.tseg2Max, r.tseg2)
    ensures r == bt.(brp := Within(bt.brp, caps.brpMin, caps.brpMax),
                     tseg1 := Within(bt.tseg1, caps.tseg1Min, caps.tseg1Max),
                     tseg2 := Within(bt.tseg2, caps.tseg2Min, caps.tseg2Max))
  {
    r := bt;
    if r.brp < caps.brpMin {
      r := r.(brp := caps.brpMin);
    } else if r.brp > caps.brpMax {
      r := r.(brp := caps.brpMax);
    }
    if r.tseg1 < caps.tseg1Min {
      r := r.(tseg1 := caps.tseg1Min);
    } else if r.tseg1 > caps.tseg1Max {
      r := r.(tseg1 := caps.tseg1Max);
    }
    if r.tseg2 < caps.tseg2Min {
      r := r.(tseg2 := caps.tseg2Min);
    } else if r.tseg2 > caps.tseg2Max {
      r := r.(tseg2 := caps.tseg2Max);
    }
  }

  /** pcan_bittiming_normalize */
  method Normalize(bt: Timing, caps: Range, clk: nat) returns (err: Status, r: Timing, ghost best: nat)
    requires caps.Valid() && 0 < clk < U32 && bt.bitrate < U32
    requires bt.brp == 0 && bt.bitrate > 0 ==> NoZeroDivisor(caps, bt.bitrate)
    ensures bt.brp > 0 ==> err == Ok && r == FromRegisters(bt, caps, clk)
    ensures bt.brp > 0 ==> TakenFrom(bt, caps, clk, r)
    ensures bt.brp == 0 && bt.bitrate == 0 ==> err == EInval
    ensures err != Ok ==> r == bt
    ensures bt.brp == 0 && bt.bitrate > 0 && err == Ok ==>
      && Nominal(bt) <= SAMPT_SCALE
      && Result(caps, clk, bt, r.(bitrateReal := bt.bitrateReal), best)
      && r.brp > 0 && r.bitrateReal == RealRate(clk, r.brp, r.tseg1, r.tseg2)
    ensures bt.brp == 0 && bt.bitrate > 0 && err == Ok ==>
      && TellsRate(clk, r.brp, 1 + r.tseg1 + r.tseg2, r.bitrateReal) && TellsQuantum(clk, r.brp, r.tq)
      && JumpWidth(bt.sjw, caps.sjwMax, r.tseg2, r.sjw) && r.tsam == bt.tsam
    ensures bt.brp == 0 && bt.bitrate > 0 && err == EDom ==>
      || (forall y: nat :: !Usable(caps, clk, bt.bitrate, y))
      || (Nominal(bt) <= SAMPT_SCALE && Chosen(caps, clk, bt.bitrate, Nominal(bt), best) &&
          RateError(caps, clk, bt.bitrate, best) * SAMPT_SCALE >= (CALC_MAX_ERROR + 1) * bt.bitrate)
    ensures err == EInval <==> bt.brp == 0 && (bt.bitrate == 0 || bt.samplePoint > SAMPT_SCALE)
  {
    hide RateError, Brp, Update, Optimum, TakenFrom, JumpWidth, TellsRate, TellsQuantum, TellsSamplePoint, Sjw,
         Quotient, Wrap, RealRate;
    err, r, best := EInval, bt, 0;
    if bt.brp != 0 {
      assert TakenFrom(bt, caps, clk, FromRegisters(bt, caps, clk)) by {
        RegistersTell(bt, caps, clk);
      }
      r := Clamped(r, caps);
      r := ToBitrate(r, clk);
      err := Ok;
    } else if bt.bitrate != 0 {
      err, r, best := BitrateToBittiming(bt, caps, clk);
      if err == Ok {
        OptimumIsUsable(caps, clk, bt.bitrate, Nominal(bt), best);
        ValuesTell(clk, r.brp, r.tseg1, r.tseg2);
        SjwIsJumpWidth(bt.sjw, caps.sjwMax, r.tseg2);
      }
    }
    if err == Ok {
      r := r.(bitrateReal := RealRate(clk, r.brp, r.tseg1, r.tseg2));
    }
  }

  /** pcan_bittiming_to_bitrate */
  method ToBitrate(bt: Timing, clk: nat) returns (r: Timing)
    requires bt.brp > 0 && clk > 0
    ensures r == bt.(sjw := if bt.sjw == 0 then 1 else bt.sjw,
                     samplePoint := Quotient(SAMPT_SCALE * (1 + bt.tseg1), 1 + bt.tseg1 + bt.tseg2),
                     bitrate := RealRate(clk, bt.brp, bt.tseg1, bt.tseg2),
                     tq := Wrap(Quotient(bt.brp * GHZ, clk)))
  {
    r := bt;
    if r.sjw == 0 {
      r := r.(sjw := 1);
    }
    r := r.(samplePoint := Quotient(SAMPT_SCALE * (1 + r.tseg1), 1 + r.tseg1 + r.tseg2));
    r := r.(bitrate := RealRate(clk, r.brp, r.tseg1, r.tseg2));
    r := r.(tq := Wrap(Quotient(r.brp * GHZ, clk)));
  }

  lemma OptimumIsUsable(caps: Range, clk: nat, bitrate: nat, nominal: nat, x: nat)
    requires caps.Valid() && bitrate > 0 && nominal <= SAMPT_SCALE && Optimum(caps, clk, bitrate, nominal, x)
    ensures Tried(caps, x) && 1 <= caps.brpMin <= Brp(caps, clk, bitrate, x) <= caps.brpMax
    ensures caps.tseg1Min + caps.tseg2Min <= x / 2 <= caps.tseg1Max + caps.tseg2Max
  {
    hide Brp;
  }

  /** What normalisation from a bit rate promises about the registers it returns. */
  ghost predicate Sound(caps: Range, clk: nat, bitrate: nat, r: Timing)
    requires caps.Valid() && clk > 0
  {
    && r.brp > 0 && InRange(caps, r)
    && Abs(r.bitrateReal - bitrate) * SAMPT_SCALE < (CALC_MAX_ERROR + 1) * bitrate
    && FromRegisters(r, caps, clk) == r.(bitrate := r.bitrateReal)
  }

  lemma ResultIsUsable(caps: Range, clk: nat, bt: Timing, r: Timing, best: nat)
    requires caps.Valid() && bt.bitrate > 0 && clk > 0 && Nominal(bt) <= SAMPT_SCALE
    requires Result(caps, clk, bt, r, best)
    ensures caps.brpMin <= r.brp <= caps.brpMax
    ensures caps.tseg1Min + caps.tseg2Min <= best / 2 <= caps.tseg1Max + caps.tseg2Max
  {
    hide Brp, Update;
    OptimumIsUsable(caps, clk, bt.bitrate, Nominal(bt), best);
  }

  /** Below 2^31 the error that the code computes is the distance of the two rates. From there
      on it is not, and no usable length comes near the requested rate. */
  lemma RateErrorIsDistance(caps: Range, clk: nat, bitrate: nat, x: nat)
    requires caps.Valid() && clk < HALF && 0 < bitrate < U32 && Usable(caps, clk, bitrate, x)
    ensures
      var d := Brp(caps, clk, bitrate, x) * TsegAll(x);
      && d > 0
      && (bitrate < HALF ==> RateError(caps, clk, bitrate, x) == Abs(Quotient(clk, d) - bitrate))
      && (bitrate >= HALF ==> Abs(Quotient(clk, d) - bitrate) * SAMPT_SCALE >= (CALC_MAX_ERROR + 1) * bitrate)
  {
    hide Brp, Quotient, AbsWord;
    var n, brp := TsegAll(x), Brp(caps, clk, bitrate, x);
    MulMonotone(1, brp, n);
    var d := brp * n;
    QuotientBounds(clk, d);
    MulMonotone(3, d, Quotient(clk, d));
    AbsWordAtMost(bitrate - Quotient(clk, d));
  }

  /** After a successful run, for every nominal sample point from 0 to 100 %: all registers are
      in range, the real rate is off by less than 0.51 % of the requested one, and normalising
      once more only replaces the requested rate by the real one, if and only if the bit length
      that the request leads to has a feasible split and the requested rate is below 2^31. */
  lemma SoundIffFeasible(caps: Range, clk: nat, bt: Timing, r: Timing, best: nat)
    requires caps.Valid() && 0 < bt.bitrate < U32 && 0 < clk < HALF && Nominal(bt) <= SAMPT_SCALE
    requires Tame(caps, Nominal(bt), best / 2)
    requires Result(caps, clk, bt, r.(bitrateReal := bt.bitrateReal), best)
    requires r.brp > 0 && r.bitrateReal == RealRate(clk, r.brp, r.tseg1, r.tseg2)
    ensures Sound(caps, clk, bt.bitrate, r) <==> Feasible(caps, Nominal(bt), best / 2) && bt.bitrate < HALF
  {
    hide Brp, Update, Chosen, Feasible, Tame, RateError;
    var tseg := best / 2;
    ResultIsUsable(caps, clk, bt, r.(bitrateReal := bt.bitrateReal), best);
    UpdateIsExact(caps, Nominal(bt), tseg);
    var c := Update(caps, Nominal(bt), tseg);
    if c.Choice? {
      SamplePointNotZero(tseg, c.tseg1, c.tseg2);
      assert r.tseg1 + r.tseg2 + 1 == TsegAll(best);
      RealRateIsNear(caps, clk, bt, r, best);
    } else if InRange(caps, r) {
      SamplePointNotZero(r.tseg1 + r.tseg2, r.tseg1, r.tseg2);
    }
  }

  /** The real rate is near the requested one exactly when that is below 2^31. */
  lemma RealRateIsNear(caps: Range, clk: nat, bt: Timing, r: Timing, best: nat)
    requires caps.Valid() && 0 < bt.bitrate < U32 && 0 < clk < HALF && Nominal(bt) <= SAMPT_SCALE
    requires Result(caps, clk, bt, r.(bitrateReal := bt.bitrateReal), best)
    requires r.brp > 0 && r.tseg1 + r.tseg2 + 1 == TsegAll(best)
    ensures
      Abs(RealRate(clk, r.brp, r.tseg1, r.tseg2) - bt.bitrate) * SAMPT_SCALE < (CALC_MAX_ERROR + 1) * bt.bitrate <==>
        bt.bitrate < HALF
  {
    ChosenIsUsable(caps, clk, bt.bitrate, Nominal(bt), best);
    RateErrorIsDistance(caps, clk, bt.bitrate, best);
    hide Brp, RateError, Quotient, Usable, Chosen, Update;
    assert r.brp * (r.tseg1 + r.tseg2 + 1) == Brp(caps, clk, bt.bitrate, best) * TsegAll(best);
  }

  lemma ChosenIsUsable(caps: Range, clk: nat, bitrate: nat, nominal: nat, x: nat)
    requires caps.Valid() && bitrate > 0 && nominal <= SAMPT_SCALE && Chosen(caps, clk, bitrate, nominal, x)
    ensures Usable(caps, clk, bitrate, x)
  {
  }

  /** The sample point of a successful run is not 0 if and only if a split was accepted. */
  lemma SplitLeavesSamplePoint(caps: Range, clk: nat, bt: Timing, r: Timing, best: nat)
    requires caps.Valid() && bt.bitrate > 0 && clk > 0 && Nominal(bt) <= SAMPT_SCALE
    requires Tame(caps, Nominal(bt), best / 2) && Result(caps, clk, bt, r, best)
    ensures r.samplePoint != 0 <==> Update(caps, Nominal(bt), best / 2).Choice?
  {
    hide Brp, Update, Chosen, Feasible, Tame;
    ResultIsUsable(caps, clk, bt, r, best);
    UpdateIsExact(caps, Nominal(bt), best / 2);
    var c := Update(caps, Nominal(bt), best / 2);
    if c.Choice? {
      SamplePointNotZero(best / 2, c.tseg1, c.tseg2);
    }
  }

  /** A usable length whose rate no other length comes nearer to. */
  ghost predicate NearestRate(caps: Range, clk: nat, bitrate: nat, x: nat)
    requires caps.Valid() && bitrate > 0
  {
    && Usable(caps, clk, bitrate, x)
    && forall y: nat :: Usable(caps, clk, bitrate, y) ==>
         RateError(caps, clk, bitrate, x) <= RateError(caps, clk, bitrate, y)
  }

  /** A run that succeeds has accepted a split if and only if the request has one, at some
      length with the nearest rate. */
  lemma SplitIffRequestHasOne(caps: Range, clk: nat, bitrate: nat, nominal: nat, best: nat)
    requires caps.Valid() && bitrate > 0 && nominal <= SAMPT_SCALE
    requires Optimum(caps, clk, bitrate, nominal, best)
    ensures Update(caps, nominal, best / 2).Choice? <==>
      exists y: nat :: NearestRate(caps, clk, bitrate, y) && Update(caps, nominal, y / 2).Choice?
  {
    hide Brp, RateError, Update, Usable;
    UpdateIsBounded(caps, nominal, best / 2);
    if y: nat :| NearestRate(caps, clk, bitrate, y) && Update(caps, nominal, y / 2).Choice? {
      UpdateIsBounded(caps, nominal, y / 2);
    }
    assert NearestRate(caps, clk, bitrate, best);
  }

  lemma UpdateIsBounded(caps: Range, nominal: nat, tseg: nat)
    requires nominal <= SAMPT_SCALE
    ensures Update(caps, nominal, tseg).Choice? <==> Update(caps, nominal, tseg).Error(nominal) < UINT_MAX
  {
    hide Candidate, SamplePoint;
  }

  /** With a late nominal that decides everything: a sample point other than 0 tells that the
      registers are sound, and they are if and only if the request has a feasible split at some
      length with the nearest rate. */
  lemma NormalizedIsSound(caps: Range, clk: nat, bt: Timing, r: Timing, best: nat)
    requires caps.Valid() && 0 < bt.bitrate < U32 && 0 < clk < HALF && Late(caps, Nominal(bt))
    requires Result(caps, clk, bt, r.(bitrateReal := bt.bitrateReal), best)
    requires r.brp > 0 && r.bitrateReal == RealRate(clk, r.brp, r.tseg1, r.tseg2)
    ensures Sound(caps, clk, bt.bitrate, r) <==> r.samplePoint != 0 && bt.bitrate < HALF
    ensures r.samplePoint != 0 <==>
      exists y: nat :: NearestRate(caps, clk, bt.bitrate, y) && Feasible(caps, Nominal(bt), y / 2)
  {
    hide Brp, RateError, Update, Usable, Sound, Feasible, Late;
    var nominal, done := Nominal(bt), r.(bitrateReal := bt.bitrateReal);
    assert nominal <= SAMPT_SCALE by {
      LateIsBelow(caps, nominal);
    }
    ResultIsUsable(caps, clk, bt, done, best);
    LateAcceptedIsSplit(caps, nominal, best / 2);
    SoundIffFeasible(caps, clk, bt, r, best);
    SplitLeavesSamplePoint(caps, clk, bt, done, best);
    SplitIffRequestHasOne(caps, clk, bt.bitrate, nominal, best);
    forall y: nat | NearestRate(caps, clk, bt.bitrate, y)
      ensures Update(caps, nominal, y / 2).Choice? <==> Feasible(caps, nominal, y / 2)
    {
      UsableIsTried(caps, clk, bt.bitrate);
      LateAcceptedIsSplit(caps, nominal, y / 2);
    }
  }

  lemma LateIsBelow(caps: Range, nominal: nat)
    requires Late(caps, nominal)
    ensures nominal < SAMPT_SCALE
  {
  }

  lemma SamplePointNotZero(tseg: nat, tseg1: nat, tseg2: nat)
    requires tseg1 + tseg2 == tseg < SAMPT_SCALE
    ensures SamplePoint(tseg, tseg2) == SAMPT_SCALE * (1 + tseg1) / (1 + tseg1 + tseg2) != 0
  {
    SamplePointInside(tseg, tseg2);
    DivBounds(SAMPT_SCALE * (1 + tseg1), tseg + 1);
  }

  /** Given registers are clamped once and for all; only the jump width is taken as it is. */
  lemma RegistersNormalizeOnce(bt: Timing, caps: Range, clk: nat)
    requires caps.Valid() && clk > 0 && bt.brp > 0
    ensures
      var r := FromRegisters(bt, caps, clk);
      && r.brp > 0 && FromRegisters(r, caps, clk) == r && r.bitrate == r.bitrateReal
      && (InRange(caps, r) <==> r.sjw <= caps.sjwMax && r.sjw <= r.tseg2)
      && (InRange(caps, bt) ==> r.brp == bt.brp && r.tseg1 == bt.tseg1 && r.tseg2 == bt.tseg2 && r.sjw == bt.sjw)
  {
    hide Quotient, RealRate;
  }

  /** The rate computed from registers is found again without error when it is requested,
      unless the prescaler that then belongs to their bit length is too large. */
  lemma RateOfRegistersIsFound(
      caps: Range, clk: nat, nominal: nat, best: nat, brp: nat, tseg1: nat, tseg2: nat, rate: nat)
    requires caps.Valid() && caps.brpInc == 1 && nominal <= SAMPT_SCALE && clk < U32
    requires caps.brpMin <= brp && Split(caps, tseg1 + tseg2, tseg1, tseg2)
    requires rate == RealRate(clk, brp, tseg1, tseg2) > 0
    requires Quotient(clk, (1 + tseg1 + tseg2) * rate) <= caps.brpMax
    ensures Usable(caps, clk, rate, 2 * (tseg1 + tseg2))
    ensures Optimum(caps, clk, rate, nominal, best) ==> RateError(caps, clk, rate, best) == 0
  {
    var tseg := tseg1 + tseg2;
    var n := 1 + tseg;
    MulPositive(n, rate);
    MulPositive(brp, n);
    var q := Quotient(clk, n * rate);
    ProductFits(clk, brp, n, rate);
    assert Brp(caps, clk, rate, 2 * tseg) == q by {
      hide Quotient;
    }
    hide Brp, Quotient;
    RateKept(clk, brp, n, rate, q);
    assert Usable(caps, clk, rate, 2 * tseg) && TsegAll(2 * tseg) == n;
    assert RateError(caps, clk, rate, 2 * tseg) == 0;
  }

  /** A rate that is reached with `n` quanta is at most the clock divided by them. */
  lemma ProductFits(clk: nat, brp: nat, n: nat, rate: nat)
    requires brp > 0 && n > 0 && brp * n > 0 && rate == Quotient(clk, brp * n)
    ensures n * rate <= clk
  {
    hide Quotient;
    QuotientBounds(clk, brp * n);
    MulSwap3(brp, n, rate);
    MulMonotone(1, brp, n * rate);
  }

  /** The largest prescaler for a rate still gives that rate. */
  lemma RateKept(clk: nat, brp: nat, n: nat, rate: nat, q: nat)
    requires brp > 0 && n > 0 && brp * n > 0 && rate == Quotient(clk, brp * n) > 0
    requires n * rate > 0 && q == Quotient(clk, n * rate)
    ensures brp <= q && q * n > 0 && Quotient(clk, q * n) == rate
  {
    QuotientBounds(clk, brp * n);
    QuotientBounds(clk, n * rate);
    MulSwap3(brp, n, rate);
    MulSwap3(q, n, rate);
    if q < brp {
      MulMonotone(q + 1, brp, n * rate);
    }
    MulPositive(q, n);
    MulMonotone(brp, q, n);
    MulMonotone(brp * n, q * n, rate + 1);
    QuotientIs(clk, q * n, rate, clk - rate * (q * n));
  }

  /** With a prescaler step of 1, a prescaler and a bit length that divide the clock
      exactly to the requested rate make the optimum exact. */
  lemma ExactRateIsFound(caps: Range, clk: nat, bitrate: nat, nominal: nat, best: nat, brp: nat, tseg: nat)
    requires caps.Valid() && caps.brpInc == 1 && bitrate > 0 && nominal <= SAMPT_SCALE && clk < U32
    requires caps.brpMin <= brp <= caps.brpMax
    requires caps.tseg1Min + caps.tseg2Min <= tseg <= caps.tseg1Max + caps.tseg2Max
    requires brp * ((1 + tseg) * bitrate) == clk
    ensures Usable(caps, clk, bitrate, 2 * tseg)
    ensures Optimum(caps, clk, bitrate, nominal, best) ==> RateError(caps, clk, bitrate, best) == 0
  {
    var n := 1 + tseg;
    MulPositive(n, bitrate);
    QuotientIs(clk, n * bitrate, brp, 0);
    MulMonotone(1, brp, n * bitrate);
    assert Brp(caps, clk, bitrate, 2 * tseg) == brp by {
      hide Quotient;
    }
    hide Brp, Quotient;
    MulPositive(brp, n);
    MulSwap3(brp, n, bitrate);
    QuotientIs(clk, brp * n, bitrate, 0);
    assert RateError(caps, clk, bitrate, 2 * tseg) == 0;
  }

  lemma MulPositive(a: nat, b: nat)
    requires a > 0 && b > 0
    ensures a * b > 0
  {
  }

  lemma MulSwap3(a: nat, b: nat, c: nat)
    ensures a * (b * c) == c * (a * b)
  {
  }
}
