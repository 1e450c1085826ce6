/** The search for the prescaler and bit length that come nearest to a requested bit
    rate and, among these, nearest to the nominal sample point. */
module BitSearch {
  import opened BitSplit
  import opened Common

  /** One bit length to try: `x` counts half quanta, an odd one rounding the prescaler up. */
  function TsegAll(x: nat): nat { 1 + x / 2 }

  /** What the clock is divided by: a product of 32 bits. */
  function Divisor(bitrate: nat, x: nat): nat { Wrap(TsegAll(x) * bitrate) }

  function Brp(caps: Range, clk: nat, bitrate: nat, x: nat): nat
    requires bitrate > 0 && caps.brpInc > 0
  {
    if Divisor(bitrate, x) == 0 then 0
    else (Quotient(clk, Divisor(bitrate, x)) + x % 2) / caps.brpInc * caps.brpInc
  }

  predicate Tried(caps: Range, x: nat) {
    (caps.tseg1Min + caps.tseg2Min) * 2 <= x <= (caps.tseg1Max + caps.tseg2Max) * 2 + 1
  }

  predicate Usable(caps: Range, clk: nat, bitrate: nat, x: nat)
    requires bitrate > 0 && caps.brpInc > 0
  {
    Tried(caps, x) && caps.brpMin <= Brp(caps, clk, bitrate, x) <= caps.brpMax
  }

  function Abs(x: int): nat { if x < 0 then -x else x }

  /** The kernel's abs of a 32-bit difference, which it takes for a signed number. */
  function AbsWord(x: int): nat {
    var w := Wrap(x);
    if w < 0x8000_0000 then w else U32 - w
  }

  function RateError(caps: Range, clk: nat, bitrate: nat, x: nat): nat
    requires caps.Valid() && bitrate > 0 && Usable(caps, clk, bitrate, x)
  {
    AbsWord(bitrate - Quotient(clk, Brp(caps, clk, bitrate, x) * TsegAll(x)))
  }

  function PointError(caps: Range, nominal: nat, x: nat): nat
    requires nominal <= SAMPT_SCALE
  {
    Update(caps, nominal, x / 2).Error(nominal)
  }

  /** Bit rate error first, sample point error second. */
  predicate LexLe(rate1: nat, point1: nat, rate2: nat, point2: nat) {
    rate1 < rate2 || (rate1 == rate2 && point1 <= point2)
  }

  /** `x` is a usable length, and no usable length beats it. */
  ghost predicate Optimum(caps: Range, clk: nat, bitrate: nat, nominal: nat, x: nat)
    requires caps.Valid() && bitrate > 0 && nominal <= SAMPT_SCALE
  {
    && Usable(caps, clk, bitrate, x)
    && forall y: nat :: Usable(caps, clk, bitrate, y) ==>
         LexLe(RateError(caps, clk, bitrate, x), PointError(caps, nominal, x),
               RateError(caps, clk, bitrate, y), PointError(caps, nominal, y))
  }

  /** No bit length that is tried makes the code divide by zero. */
  ghost predicate NoZeroDivisor(caps: Range, bitrate: nat) {
    forall x: nat :: Tried(caps, x) ==> Divisor(bitrate, x) != 0
  }

  lemma RoundDown(q: nat, n: nat)
    requires n > 0 && q / n * n > 0
    ensures q + 1 <= 2 * (q / n * n)
  {
    DivBounds(q, n);
    MultipleAtLeast(q / n, n);
  }

  lemma MulSwap(brp: nat, n: nat, bitrate: nat)
    ensures (2 * brp) * (n * bitrate) == (2 * bitrate) * (brp * n)
  {
    assert brp * (n * bitrate) == bitrate * (brp * n);
  }

  lemma DivLess(a: nat, q: nat, brp: nat, n: nat, bitrate: nat)
    requires a < (q + 1) * (n * bitrate) && q + 1 <= 2 * brp && brp * n > 0
    ensures a / (brp * n) < 2 * bitrate
  {
    MulMonotone(q + 1, 2 * brp, n * bitrate);
    MulSwap(brp, n, bitrate);
    var d := brp * n;
    assert a < (2 * bitrate) * d;
    DivAtMost(a, d, 2 * bitrate - 1);
  }

  /** The rate of a usable length is less than twice the requested one. */
  lemma RateBelowTwice(caps: Range, clk: nat, bitrate: nat, x: nat)
    requires caps.Valid() && clk < U32 && bitrate > 0 && Usable(caps, clk, bitrate, x)
    ensures
      var d := Brp(caps, clk, bitrate, x) * TsegAll(x);
      d > 0 && Quotient(clk, d) < 2 * bitrate
  {
    var n, brp := TsegAll(x), Brp(caps, clk, bitrate, x);
    var m := n * bitrate;
    if m < U32 {
      DivBounds(clk, m);
      var q := clk / m + x % 2;
      assert clk < (q + 1) * m;
      RoundDown(q, caps.brpInc);
      DivLess(clk, q, brp, n, bitrate);
    } else {
      hide Brp;
      DivLess(clk, 0, brp, n, bitrate);
    }
  }

  /** A usable prescaler never misses the requested rate by more than that rate. */
  lemma RateErrorBounded(caps: Range, clk: nat, bitrate: nat, x: nat)
    requires caps.Valid() && clk < U32 && 0 < bitrate < U32 && Usable(caps, clk, bitrate, x)
    ensures RateError(caps, clk, bitrate, x) <= bitrate
  {
    hide Brp, Quotient, AbsWord;
    RateBelowTwice(caps, clk, bitrate, x);
    AbsWordAtMost(bitrate - Quotient(clk, Brp(caps, clk, bitrate, x) * TsegAll(x)));
  }

  lemma AbsWordAtMost(d: int)
    requires Abs(d) < U32
    ensures AbsWord(d) <= Abs(d) && (AbsWord(d) == 0 <==> d == 0)
    ensures Abs(d) < 0x8000_0000 ==> AbsWord(d) == Abs(d)
  {
  }

  lemma MultipleAtLeast(k: nat, n: nat)
    requires k * n > 0
    ensures k * n >= n
  {
  }

  /** The part of its loop that chooses the prescaler of one bit length. */
  method TryLength(caps: Range, clk: nat, bitrate: nat, x: nat) returns (ok: bool, brp: nat, error: nat)
    requires caps.Valid() && clk < U32 && 0 < bitrate < U32 && Tried(caps, x) && Divisor(bitrate, x) != 0
    ensures ok <==> Usable(caps, clk, bitrate, x)
    ensures ok ==> brp == Brp(caps, clk, bitrate, x) && error == RateError(caps, clk, bitrate, x) <= bitrate
  {
    hide Quotient, Wrap, AbsWord;
    var tsegall := 1 + x / 2;
    brp := Quotient(clk, Wrap(tsegall * bitrate)) + x % 2;
    brp := brp / caps.brpInc * caps.brpInc;
    ok, error := caps.brpMin <= brp <= caps.brpMax, 0;
    if ok {
      RateBelowTwice(caps, clk, bitrate, x);
      error := AbsWord(bitrate - Quotient(clk, brp * tsegall));
      RateErrorBounded(caps, clk, bitrate, x);
    }
  }

  /** Every usable length beyond `x` loses to (`rate`, `point`). */
  ghost predicate BeatsBeyond(caps: Range, clk: nat, bitrate: nat, nominal: nat, x: int, rate: nat, point: nat)
    requires caps.Valid() && bitrate > 0 && nominal <= SAMPT_SCALE
  {
    forall y: nat :: x < y && Usable(caps, clk, bitrate, y) ==>
      LexLe(rate, point, RateError(caps, clk, bitrate, y), PointError(caps, nominal, y))
  }

  /** A step to the next shorter length keeps this if the values do not get worse and
      the length itself, where usable, loses too. */
  lemma BeatsOneMore(caps: Range, clk: nat, bitrate: nat, nominal: nat, x: nat,
                     rate: nat, point: nat, rate': nat, point': nat)
    requires caps.Valid() && bitrate > 0 && nominal <= SAMPT_SCALE
    requires BeatsBeyond(caps, clk, bitrate, nominal, x, rate, point) && LexLe(rate', point', rate, point)
    requires Usable(caps, clk, bitrate, x) ==>
      LexLe(rate', point', RateError(caps, clk, bitrate, x), PointError(caps, nominal, x))
    ensures BeatsBeyond(caps, clk, bitrate, nominal, x - 1, rate', point')
  {
    hide Usable, RateError, PointError;
  }

  lemma NothingBeats(caps: Range, clk: nat, bitrate: nat, nominal: nat, x: nat, best: nat, rate: nat, point: nat)
    requires caps.Valid() && bitrate > 0 && nominal <= SAMPT_SCALE
    requires Usable(caps, clk, bitrate, best)
    requires rate == RateError(caps, clk, bitrate, best) && point == PointError(caps, nominal, best)
    requires
      || rate == point == 0
      || (x < (caps.tseg1Min + caps.tseg2Min) * 2 && BeatsBeyond(caps, clk, bitrate, nominal, x, rate, point))
    ensures Optimum(caps, clk, bitrate, nominal, best)
  {
    hide Brp, RateError, PointError;
  }

  predicate Exact(rate: nat, point: nat) { rate == point == 0 }

  /** The optimum that the search picks among equals: the longest exact one, or else the
      shortest. It depends on the request alone. */
  ghost predicate Chosen(caps: Range, clk: nat, bitrate: nat, nominal: nat, x: nat)
    requires caps.Valid() && bitrate > 0 && nominal <= SAMPT_SCALE
  {
    && Optimum(caps, clk, bitrate, nominal, x)
    && forall y: nat :: Optimum(caps, clk, bitrate, nominal, y) ==>
         if Exact(RateError(caps, clk, bitrate, x), PointError(caps, nominal, x)) then y <= x else x <= y
  }

  lemma ChosenIsUnique(caps: Range, clk: nat, bitrate: nat, nominal: nat, x: nat, y: nat)
    requires caps.Valid() && bitrate > 0 && nominal <= SAMPT_SCALE
    requires Chosen(caps, clk, bitrate, nominal, x) && Chosen(caps, clk, bitrate, nominal, y)
    ensures x == y
  {
    hide RateError, PointError, Usable;
    assert LexLe(RateError(caps, clk, bitrate, x), PointError(caps, nominal, x),
                 RateError(caps, clk, bitrate, y), PointError(caps, nominal, y));
  }

  /** No usable length beyond `x` is exact, and those between `x` and `best` are worse. */
  ghost predicate Ahead(
      caps: Range, clk: nat, bitrate: nat, nominal: nat, x: int, best: nat, rate: nat, point: nat)
    requires caps.Valid() && bitrate > 0 && nominal <= SAMPT_SCALE
  {
    forall y: nat :: x < y && Usable(caps, clk, bitrate, y) ==>
      var r, p := RateError(caps, clk, bitrate, y), PointError(caps, nominal, y);
      !Exact(r, p) && (y < best ==> !LexLe(r, p, rate, point))
  }

  lemma AheadOneMore(caps: Range, clk: nat, bitrate: nat, nominal: nat, x: nat, best: nat, best': nat,
                     rate: nat, point: nat, rate': nat, point': nat)
    requires caps.Valid() && bitrate > 0 && nominal <= SAMPT_SCALE
    requires Ahead(caps, clk, bitrate, nominal, x, best, rate, point)
    requires best' == x || (best' == best && rate' == rate && point' == point)
    requires Usable(caps, clk, bitrate, x) ==>
      var r, p := RateError(caps, clk, bitrate, x), PointError(caps, nominal, x);
      !Exact(r, p) && (best' != x ==> !LexLe(r, p, rate, point))
    ensures Ahead(caps, clk, bitrate, nominal, x - 1, best', rate', point')
  {
    hide Usable, RateError, PointError;
  }

  lemma AheadOf(caps: Range, clk: nat, bitrate: nat, nominal: nat, x: nat, best: nat,
                rate: nat, point: nat, rate': nat, point': nat)
    requires caps.Valid() && bitrate > 0 && nominal <= SAMPT_SCALE
    requires Ahead(caps, clk, bitrate, nominal, x, best, rate, point)
    ensures Ahead(caps, clk, bitrate, nominal, x, x, rate', point')
  {
    hide Usable, RateError, PointError;
  }

  lemma OptimumIsChosen(caps: Range, clk: nat, bitrate: nat, nominal: nat, x: nat, best: nat, rate: nat, point: nat)
    requires caps.Valid() && bitrate > 0 && nominal <= SAMPT_SCALE && Optimum(caps, clk, bitrate, nominal, best)
    requires rate == RateError(caps, clk, bitrate, best) && point == PointError(caps, nominal, best)
    requires Ahead(caps, clk, bitrate, nominal, x, best, rate, point)
    requires
      || (Exact(rate, point) && x == best)
      || (!Exact(rate, point) && x < (caps.tseg1Min + caps.tseg2Min) * 2)
    ensures Chosen(caps, clk, bitrate, nominal, best)
  {
    hide RateError, PointError, Brp;
    forall y: nat | Optimum(caps, clk, bitrate, nominal, y)
      ensures if Exact(rate, point) then y <= best else best <= y
    {
      assert Usable(caps, clk, bitrate, y) && Usable(caps, clk, bitrate, best);
      assert LexLe(RateError(caps, clk, bitrate, y), PointError(caps, nominal, y), rate, point);
    }
  }

  /** `best` is the length the current best values come from. */
  ghost predicate ComesFrom(
      caps: Range, clk: nat, bitrate: nat, nominal: nat, best: nat, tseg: nat, brp: nat, rate: nat, point: nat)
    requires caps.Valid() && bitrate > 0 && nominal <= SAMPT_SCALE
  {
    && Usable(caps, clk, bitrate, best)
    && tseg == best / 2 && brp == Brp(caps, clk, bitrate, best)
    && rate == RateError(caps, clk, bitrate, best) && point == PointError(caps, nominal, best)
  }

  /** The search loop of pcan_bitrate_to_bittiming, with its early break. */
  method Search(caps: Range, clk: nat, bitrate: nat, nominal: nat)
    returns (found: bool, tseg: nat, brp: nat, rateError: nat, tseg1: nat, tseg2: nat, ghost best: nat)
    requires caps.Valid() && clk < U32 && 0 < bitrate < U32 && nominal <= SAMPT_SCALE
    requires NoZeroDivisor(caps, bitrate)
    ensures !found ==> tseg == brp == 0 && rateError == UINT_MAX
    ensures !found ==> forall y: nat :: !Usable(caps, clk, bitrate, y)
    ensures found ==>
      && Chosen(caps, clk, bitrate, nominal, best)
      && tseg == best / 2 && brp == Brp(caps, clk, bitrate, best)
      && rateError == RateError(caps, clk, bitrate, best)
  {
    hide Usable, RateError, PointError, Brp, Update, BeatsBeyond, Optimum, Ahead, Chosen;
    found, tseg, brp, rateError, tseg1, tseg2, best := false, 0, 0, UINT_MAX, 0, 0, 0;
    var pointError := UINT_MAX;
    var x := (caps.tseg1Max + caps.tseg2Max) * 2 + 1;
    var least := (caps.tseg1Min + caps.tseg2Min) * 2;
    NothingBeyond(caps, clk, bitrate, nominal, x);
    while x >= least
      invariant least - 1 <= x <= (caps.tseg1Max + caps.tseg2Max) * 2 + 1
      invariant !found ==> tseg == brp == 0 && rateError == pointError == UINT_MAX
      invariant !found ==> forall y: nat :: x < y ==> !Usable(caps, clk, bitrate, y)
      invariant found ==> ComesFrom(caps, clk, bitrate, nominal, best, tseg, brp, rateError, pointError)
      invariant BeatsBeyond(caps, clk, bitrate, nominal, x, rateError, pointError)
      invariant Ahead(caps, clk, bitrate, nominal, x, best, rateError, pointError)
      invariant found ==> !Exact(rateError, pointError)
    {
      var now := x;
      ghost var oldBest := best;
      ghost var oldRate, oldPoint := rateError, pointError;
      x := x - 1;
      var usable, p, error := TryLength(caps, clk, bitrate, now);
      if !usable {
        BeatsOneMore(caps, clk, bitrate, nominal, now, oldRate, oldPoint, oldRate, oldPoint);
        AheadOneMore(caps, clk, bitrate, nominal, now, best, best, oldRate, oldPoint, oldRate, oldPoint);
        continue;
      }
      if error > rateError {
        BeatsOneMore(caps, clk, bitrate, nominal, now, oldRate, oldPoint, oldRate, oldPoint);
        AheadOneMore(caps, clk, bitrate, nominal, now, best, best, oldRate, oldPoint, oldRate, oldPoint);
        continue;
      }
      if error < rateError {
        pointError := UINT_MAX;
      }
      var sp, spError;
      sp, tseg1, tseg2, spError := UpdatePoint(caps, nominal, now, tseg1, tseg2);
      if spError > pointError {
        BeatsOneMore(caps, clk, bitrate, nominal, now, oldRate, oldPoint, oldRate, oldPoint);
        AheadOneMore(caps, clk, bitrate, nominal, now, best, best, oldRate, oldPoint, oldRate, oldPoint);
        continue;
      }
      pointError, rateError, tseg, brp := spError, error, now / 2, p;
      found, best := true, now;
      BeatsOneMore(caps, clk, bitrate, nominal, now, oldRate, oldPoint, error, spError);
      if error == 0 && spError == 0 {
        AheadOf(caps, clk, bitrate, nominal, now, oldBest, oldRate, oldPoint, error, spError);
        NothingBeats(caps, clk, bitrate, nominal, x, best, rateError, pointError);
        OptimumIsChosen(caps, clk, bitrate, nominal, now, best, rateError, pointError);
        return;
      }
      AheadOneMore(caps, clk, bitrate, nominal, now, oldBest, now, oldRate, oldPoint, error, spError);
    }
    if found {
      NothingBeats(caps, clk, bitrate, nominal, x, best, rateError, pointError);
      OptimumIsChosen(caps, clk, bitrate, nominal, x, best, rateError, pointError);
    } else {
      UsableIsTried(caps, clk, bitrate);
    }
  }

  lemma NothingBeyond(caps: Range, clk: nat, bitrate: nat, nominal: nat, x: nat)
    requires caps.Valid() && bitrate > 0 && nominal <= SAMPT_SCALE
    requires x == (caps.tseg1Max + caps.tseg2Max) * 2 + 1
    ensures forall y: nat :: x < y ==> !Usable(caps, clk, bitrate, y)
    ensures BeatsBeyond(caps, clk, bitrate, nominal, x, UINT_MAX, UINT_MAX)
    ensures Ahead(caps, clk, bitrate, nominal, x, 0, UINT_MAX, UINT_MAX)
  {
  }

  lemma UsableIsTried(caps: Range, clk: nat, bitrate: nat)
    requires caps.Valid() && bitrate > 0
    ensures forall y: nat :: Usable(caps, clk, bitrate, y) ==> Tried(caps, y)
  {
  }

  /** pcan_update_sample_point for the bit length of round `x`. */
  method UpdatePoint(caps: Range, nominal: nat, x: nat, was1: nat, was2: nat)
    returns (samplePoint: nat, tseg1: nat, tseg2: nat, error: nat)
    requires nominal <= SAMPT_SCALE
    ensures error == PointError(caps, nominal, x) <= UINT_MAX
  {
    samplePoint, tseg1, tseg2, error := UpdateSamplePoint(caps, nominal, x / 2, was1, was2);
  }
}
