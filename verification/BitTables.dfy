/** The capability tables of the controllers that the driver supports, and what they mean
    for the requests of users. */
module BitTables {
  import opened BitSearch
  import opened BitSplit
  import opened BitTiming
  import opened Common

  const SJA1000 := Range(1, 64, 1, 1, 16, 1, 8, 1, 4)
  const SJA2010 := Range(1, 1024, 1, 1, 16, 1, 8, 1, 4)
  const UCAN_SLOW := Range(1, 1024, 1, 1, 256, 1, 128, 1, 128)
  const UCAN_FAST := Range(1, 1024, 1, 1, 32, 1, 16, 1, 16)

  predicate Supported(caps: Range) {
    caps == SJA1000 || caps == SJA2010 || caps == UCAN_SLOW || caps == UCAN_FAST
  }

  /** The earliest nominal sample point that every bit length of every controller can meet. */
  const EARLIEST := 6800

  lemma TablesAreValid(caps: Range)
    requires Supported(caps)
    ensures caps.Valid() && caps.tseg2Max <= caps.tseg1Max && caps.brpInc == 1
  {
  }

  lemma EndsAreFeasible(caps: Range, nominal: nat)
    requires Supported(caps) && nominal <= SAMPT_SCALE
    ensures nominal >= EARLIEST ==>
      && Feasible(caps, nominal, caps.tseg1Min + caps.tseg2Min)
      && Feasible(caps, nominal, caps.tseg1Max + caps.tseg2Max)
    ensures caps == SJA1000 && nominal < EARLIEST ==> !Feasible(caps, nominal, caps.tseg1Max + caps.tseg2Max)
  {
  }

  /** From 68 % on, and no earlier, every bit length of every controller has a feasible split. */
  lemma LateEnough(nominal: nat)
    requires nominal <= SAMPT_SCALE
    ensures nominal >= EARLIEST <==>
      forall caps, tseg: nat ::
        Supported(caps) && caps.tseg1Min + caps.tseg2Min <= tseg <= caps.tseg1Max + caps.tseg2Max ==>
          Feasible(caps, nominal, tseg)
  {
    hide Feasible;
    forall caps, tseg: nat |
      && nominal >= EARLIEST && Supported(caps)
      && caps.tseg1Min + caps.tseg2Min <= tseg <= caps.tseg1Max + caps.tseg2Max
      ensures Feasible(caps, nominal, tseg)
    {
      EndsAreFeasible(caps, nominal);
      EveryLengthFeasible(caps, nominal);
    }
    EndsAreFeasible(SJA1000, nominal);
  }

  /** On every controller a successful request for a recommended sample point, or for any one
      from 68 % to 100 %, yields sound registers if and only if the rate is below 2^31. */
  lemma RecommendedIsSound(caps: Range, clk: nat, bt: Timing, r: Timing, best: nat)
    requires Supported(caps) && 0 < bt.bitrate < U32 && 0 < clk < HALF
    requires bt.samplePoint == 0 || EARLIEST <= bt.samplePoint <= SAMPT_SCALE
    requires caps.Valid() && Result(caps, clk, bt, r.(bitrateReal := bt.bitrateReal), best)
    requires r.brp > 0 && r.bitrateReal == RealRate(clk, r.brp, r.tseg1, r.tseg2)
    ensures Sound(caps, clk, bt.bitrate, r) <==> bt.bitrate < HALF
  {
    hide Result, Feasible, Sound;
    TablesAreValid(caps);
    ResultIsUsable(caps, clk, bt, r.(bitrateReal := bt.bitrateReal), best);
    LateEnough(Nominal(bt));
    SoundIffFeasible(caps, clk, bt, r, best);
  }

  // ---------------------------------------------------------------- requests beyond 32 bits

  function Pow2(e: nat): nat { if e == 0 then 1 else 2 * Pow2(e - 1) }

  lemma {:induction false} OddFactor(n: nat, rate: nat, k: nat, e: nat) returns (j: nat)
    requires n % 2 == 1 && n * rate == k * Pow2(e)
    ensures rate == j * Pow2(e)
  {
    if e == 0 {
      j := rate;
    } else {
      var half := rate / 2;
      EvenProduct(n, rate, k * Pow2(e - 1));
      MulHalves(n, half, k, Pow2(e - 1));
      j := OddFactor(n, half, k, e - 1);
    }
  }

  lemma EvenProduct(n: nat, rate: nat, half: nat)
    requires n % 2 == 1 && n * rate == 2 * half
    ensures rate == 2 * (rate / 2)
  {
    if rate % 2 == 1 {
      OddProduct(n / 2, rate / 2);
      assert false;
    }
  }

  lemma OddProduct(a: nat, b: nat)
    ensures (2 * a + 1) * (2 * b + 1) == 2 * (2 * a * b + a + b) + 1
  {
  }

  lemma MulHalves(n: nat, half: nat, k: nat, p: nat)
    requires n * (2 * half) == k * (2 * p)
    ensures n * half == k * p
  {
  }

  /** A product that a power of two divides leaves what is missing in its small factor to the
      other one. */
  lemma {:induction false} SmallFactor(n: nat, rate: nat, k: nat, e: nat, a: nat) returns (j: nat)
    requires 0 < n < Pow2(a) && a <= e + 1 && n * rate == k * Pow2(e)
    ensures a > 0 && rate == j * Pow2(e + 1 - a)
    decreases e
  {
    if n % 2 == 1 {
      j := OddFactor(n, rate, k, e);
      j := j * Pow2(a - 1);
      PowAdd(e + 1 - a, a - 1);
    } else {
      assert n == 2 * (n / 2) && e > 0;
      MulHalves(rate, n / 2, k, Pow2(e - 1));
      j := SmallFactor(n / 2, rate, k, e - 1, a - 1);
    }
  }

  lemma {:induction false} PowAdd(a: nat, b: nat)
    ensures Pow2(a + b) == Pow2(b) * Pow2(a)
    decreases b
  {
    if b > 0 {
      PowAdd(a, b - 1);
      assert Pow2(a + b) == 2 * Pow2(a + (b - 1));
    }
  }

  /** The power of two whose multiples, as requested rates, make a divisor vanish. */
  function Grain(caps: Range): (grain: nat)
    ensures 0 < grain < U32
  {
    if caps == UCAN_SLOW then 0x100_0000 else if caps == UCAN_FAST then 0x800_0000 else 0x1000_0000
  }

  /** The code divides by zero exactly for the multiples of 2^28 on an SJA1000, and of 2^24 and
      2^27 in the two phases of a CAN FD controller; these rates are users' requests. */
  lemma ZeroDivisorIff(caps: Range, bitrate: nat)
    requires Supported(caps)
    ensures NoZeroDivisor(caps, bitrate) <==> bitrate % Grain(caps) != 0
  {
    hide Divisor, Grain;
    if x: nat :| Tried(caps, x) && Divisor(bitrate, x) == 0 {
      ZeroDivisorNeedsGrain(caps, bitrate, x);
    }
    if bitrate % Grain(caps) == 0 {
      GrainGivesZero(caps, bitrate);
    }
  }

  lemma ZeroDivisorNeedsGrain(caps: Range, bitrate: nat, x: nat)
    requires Supported(caps) && Tried(caps, x) && Divisor(bitrate, x) == 0
    ensures bitrate % Grain(caps) == 0
  {
    hide Pow2;
    PowersAre();
    var n, a := TsegAll(x), if caps == UCAN_SLOW then 9 else if caps == UCAN_FAST then 6 else 5;
    var product := n * bitrate;
    var k := product / U32;
    assert product == k * U32;
    var j := SmallFactor(n, bitrate, k, 32, a);
    assert bitrate == j * Grain(caps);
    Multiple(j, Grain(caps));
  }

  lemma Multiple(j: nat, d: nat)
    requires d > 0
    ensures j * d % d == 0
  {
    FactorDivides(j, d, j * d);
  }

  /** The power of two that is tried as a length makes the product a multiple of 2^32. */
  lemma GrainGivesZero(caps: Range, bitrate: nat)
    requires Supported(caps) && bitrate % Grain(caps) == 0
    ensures
      var x := 2 * (U32 / Grain(caps) - 1);
      Tried(caps, x) && Divisor(bitrate, x) == 0
  {
    var k := bitrate / Grain(caps);
    assert bitrate == k * Grain(caps);
    assert U32 / Grain(caps) * bitrate == k * U32;
    Multiple(k, U32);
  }

  lemma PowersAre()
    ensures Pow2(32) == U32 && Pow2(28) == 0x1000_0000 && Pow2(27) == 0x800_0000 && Pow2(24) == 0x100_0000
    ensures Pow2(9) == 512 && Pow2(6) == 64 && Pow2(5) == 32
  {
    assert Pow2(8) == 256;
    PowAdd(8, 8);
    PowAdd(16, 8);
    PowAdd(24, 3);
    PowAdd(24, 4);
    PowAdd(16, 16);
  }

  /** The signed difference of the two rates hides how far a rate of nearly 2^32 is from what an
      SJA1000 can do: the request is accepted. */
  lemma HugeRateIsAccepted(best: nat)
    ensures SJA1000.Valid() && NoZeroDivisor(SJA1000, UINT_MAX)
    ensures Usable(SJA1000, 8_000_000, UINT_MAX, 49)
    ensures Optimum(SJA1000, 8_000_000, UINT_MAX, 8750, best) ==>
      RateError(SJA1000, 8_000_000, UINT_MAX, best) * SAMPT_SCALE < (CALC_MAX_ERROR + 1) * UINT_MAX
  {
    ZeroDivisorIff(SJA1000, UINT_MAX);
    assert Divisor(UINT_MAX, 49) == U32 - 25;
    assert RateError(SJA1000, 8_000_000, UINT_MAX, 49) == 320001;
  }

  // ---------------------------------------------------------------- requests that fail

  lemma FactorDivides(k: nat, n: nat, m: nat)
    requires n > 0 && k * n == m
    ensures m % n == 0
  {
    QuotientIs(m, n, k, 0);
    assert m == m / n * n + m % n;
  }

  /** The lengths of an SJA1000 that divide 23 and 145 quanta of the clock. */
  lemma OnlyLength(n: nat)
    requires 3 <= n <= 25
    ensures 23 % n == 0 ==> n == 23
    ensures 145 % n == 0 ==> n == 5
  {
    if n <= 13 {
      assert n == 3 || n == 4 || n == 5 || n == 6 || n == 7 || n == 8 || n == 9 || n == 10 || n == 11 || n == 12
          || n == 13;
    } else {
      assert n == 14 || n == 15 || n == 16 || n == 17 || n == 18 || n == 19 || n == 20 || n == 21 || n == 22
          || n == 23 || n == 24 || n == 25;
    }
  }

  /** How many periods of the clock make a bit of exactly the requested rate. */
  lemma Periods(clk: nat, bitrate: nat, k: nat, m: nat)
    requires k > 0 && m > 0 && Quotient(clk, k) == bitrate
    requires (bitrate + 1) * (m - 1) <= clk < bitrate * (m + 1)
    ensures k == m
  {
    hide Quotient;
    QuotientBounds(clk, k);
    assert k < m ==> k * (bitrate + 1) <= (m - 1) * (bitrate + 1) by {
      if k < m {
        MulMonotone(k, m - 1, bitrate + 1);
      }
    }
    assert k > m ==> (m + 1) * bitrate <= k * bitrate by {
      if k > m {
        MulMonotone(m + 1, k, bitrate);
      }
    }
  }

  /** A bit of 23 quanta of an SJA1000 cannot be sampled in its middle. At 8 MHz a request of
      347826 bit/s fits 23 quanta exactly, and no other length, so that with a sample point of
      50 % the search ends in success with no split at all. */
  lemma SuccessWithoutSplit(best: nat)
    ensures SJA1000.Valid() && NoZeroDivisor(SJA1000, 347826)
    ensures Usable(SJA1000, 8_000_000, 347826, 44)
    ensures Optimum(SJA1000, 8_000_000, 347826, 5000, best) ==>
      && RateError(SJA1000, 8_000_000, 347826, best) == 0
      && best / 2 == 22 && Update(SJA1000, 5000, best / 2) == NoChoice
  {
    assert RateError(SJA1000, 8_000_000, 347826, 44) == 0;
    assert Update(SJA1000, 5000, 22) == NoChoice;
    ZeroDivisorIff(SJA1000, 347826);
    if Optimum(SJA1000, 8_000_000, 347826, 5000, best) {
      ExactLength(347826, best, 23);
    }
  }

  /** At 8 MHz a request of 55172 bit/s fits five quanta exactly, and no other length. With a
      sample point of 20 % the first segment then has length 0. */
  lemma EarlyNominalLeavesRange(best: nat)
    ensures SJA1000.Valid() && NoZeroDivisor(SJA1000, 55172)
    ensures Usable(SJA1000, 8_000_000, 55172, 8)
    ensures Optimum(SJA1000, 8_000_000, 55172, 2000, best) ==>
      && RateError(SJA1000, 8_000_000, 55172, best) == 0
      && best / 2 == 4 && Update(SJA1000, 2000, best / 2) == Choice(0, 4, 2000)
  {
    assert RateError(SJA1000, 8_000_000, 55172, 8) == 0;
    assert Update(SJA1000, 2000, 4) == Choice(0, 4, 2000);
    ZeroDivisorIff(SJA1000, 55172);
    if Optimum(SJA1000, 8_000_000, 55172, 2000, best) {
      ExactLength(55172, best, 145);
    }
  }

  /** What such a request leaves behind: its registers are not those of any split. */
  lemma UnsplitIsUnsound(bt: Timing, r: Timing, best: nat)
    requires SJA1000.Valid() && bt.bitrate == 347826 && bt.samplePoint == 5000
    requires Result(SJA1000, 8_000_000, bt, r.(bitrateReal := bt.bitrateReal), best)
    requires r.brp > 0 && r.bitrateReal == RealRate(8_000_000, r.brp, r.tseg1, r.tseg2)
    ensures r.samplePoint == 0 && !Sound(SJA1000, 8_000_000, 347826, r)
  {
    hide Sound, Feasible, Usable, RateError;
    SuccessWithoutSplit(best);
    var done := r.(bitrateReal := bt.bitrateReal);
    SplitLeavesSamplePoint(SJA1000, 8_000_000, bt, done, best);
    SoundIffFeasible(SJA1000, 8_000_000, bt, r, best);
    assert !Feasible(SJA1000, 5000, 22) by {
      FeasibleIsFound(SJA1000, 5000, 22);
    }
  }

  lemma FeasibleIsFound(caps: Range, nominal: nat, tseg: nat)
    requires Supported(caps) && nominal <= SAMPT_SCALE
    ensures caps.Valid() && (Feasible(caps, nominal, tseg) ==> Update(caps, nominal, tseg).Choice?)
  {
    hide Update;
    if Feasible(caps, nominal, tseg) {
      UpdateIsExact(caps, nominal, tseg);
    }
  }

  /** The other request leaves a first segment that no controller takes. */
  lemma EarlyIsUnsound(bt: Timing, r: Timing, best: nat)
    requires SJA1000.Valid() && bt.bitrate == 55172 && bt.samplePoint == 2000
    requires Result(SJA1000, 8_000_000, bt, r.(bitrateReal := bt.bitrateReal), best)
    ensures r.tseg1 == 0 && r.samplePoint == 2000 && !InRange(SJA1000, r)
  {
    hide Usable, RateError, Update;
    EarlyNominalLeavesRange(best);
  }

  lemma ExactLength(bitrate: nat, x: nat, m: nat)
    requires (bitrate == 347826 && m == 23) || (bitrate == 55172 && m == 145)
    requires Usable(SJA1000, 8_000_000, bitrate, x) && RateError(SJA1000, 8_000_000, bitrate, x) == 0
    ensures TsegAll(x) == if m == 23 then 23 else 5
  {
    hide Brp;
    var brp, n := Brp(SJA1000, 8_000_000, bitrate, x), TsegAll(x);
    MulPositive(brp, n);
    Periods(8_000_000, bitrate, brp * n, m);
    UsableIsTried(SJA1000, 8_000_000, bitrate);
    FactorDivides(brp, n, m);
    OnlyLength(n);
  }
}
