/** How one CAN bit is split around its sample point. Section 10 of the Bosch CAN
    Specification 2.0 Part B defines the segments; all arithmetic is that of 32-bit
    unsigned integers. */
module BitSplit {
  import opened Common

  const SAMPT_SCALE: nat := 10000
  const CALC_MAX_ERROR: nat := 50
  const GHZ: nat := 1_000_000_000
  const U32: nat := 0x1_0000_0000
  const UINT_MAX: nat := 0xffff_ffff

  /** struct pcanfd_bittiming_range */
  datatype Range = Range(
    brpMin: nat, brpMax: nat, brpInc: nat, tseg1Min: nat, tseg1Max: nat,
    tseg2Min: nat, tseg2Max: nat, sjwMin: nat, sjwMax: nat)
  {
    /** What every table of the driver meets: no divisor is zero, no bound is crossed,
        and the length of a bit in periods of the clock stays below 2^32. */
    ghost predicate Valid() {
      && 1 <= brpMin <= brpMax && 1 <= brpInc
      && 1 <= tseg1Min <= tseg1Max && 1 <= tseg2Min <= tseg2Max
      && 1 <= sjwMin <= sjwMax
      && tseg1Max + tseg2Max < SAMPT_SCALE
      && brpMax * (tseg1Max + tseg2Max + 1) < U32
    }
  }

  // ---------------------------------------------------------------- one bit length

  /** The value of a 32-bit unsigned integer expression. */
  function Wrap(x: int): nat { if 0 <= x < U32 then x else x % U32 }

  /** The kernel's clamp. */
  function Clamp(x: int, lo: int, hi: int): int {
    var y := if x < lo then lo else x;
    if y > hi then hi else y
  }

  /** The sample point of a bit of `tseg` + 1 quanta whose second segment is `tseg2`. */
  function SamplePoint(tseg: nat, tseg2: nat): nat {
    Quotient(Wrap(SAMPT_SCALE * Wrap(tseg + 1 - tseg2)), tseg + 1)
  }

  function SamplePoints(tseg: nat): nat -> nat {
    tseg2 => SamplePoint(tseg, tseg2)
  }

  /** The second segment that would meet the nominal sample point, rounded up. */
  function Ideal(nominal: nat, tseg: nat): int {
    tseg + 1 - nominal * (tseg + 1) / SAMPT_SCALE
  }

  /** The split that the loop of pcan_update_sample_point makes of a wanted second
      segment (which is -1, that is UINT_MAX, in the second round of a 100% nominal). */
  function Candidate(caps: Range, tseg: nat, wanted: int): (nat, nat)
    requires -1 <= wanted
  {
    var tseg2 := Clamp(Wrap(wanted), caps.tseg2Min, caps.tseg2Max);
    var tseg1 := Wrap(tseg - tseg2);
    if tseg1 > caps.tseg1Max then (caps.tseg1Max, Wrap(tseg - caps.tseg1Max)) else (tseg1, tseg2)
  }

  datatype Choice = NoChoice | Choice(tseg1: nat, tseg2: nat, samplePoint: nat) {
    /** What is reported through sample_point_error_ptr. */
    function Error(nominal: nat): nat {
      if NoChoice? || samplePoint > nominal then UINT_MAX else nominal - samplePoint
    }
  }

  /** One round: keep the new candidate if it is not above nominal and strictly nearer. */
  function Improve(best: Choice, nominal: nat, c: (nat, nat), sp: nat): Choice {
    if sp <= nominal && nominal - sp < best.Error(nominal) then Choice(c.0, c.1, sp) else best
  }

  function Update(caps: Range, nominal: nat, tseg: nat): Choice
    requires nominal <= SAMPT_SCALE
  {
    var x := Ideal(nominal, tseg);
    IdealNotNegative(nominal, tseg);
    var c0, c1 := Candidate(caps, tseg, x), Candidate(caps, tseg, x - 1);
    Improve(Improve(NoChoice, nominal, c0, SamplePoint(tseg, c0.1)), nominal, c1, SamplePoint(tseg, c1.1))
  }

  lemma IdealNotNegative(nominal: nat, tseg: nat)
    requires nominal <= SAMPT_SCALE
    ensures 0 <= Ideal(nominal, tseg) <= tseg + 1
  {
    assert nominal * (tseg + 1) <= SAMPT_SCALE * (tseg + 1);
  }

  /** The body of its loop up to the comparison. */
  method MakeCandidate(caps: Range, nominal: nat, tseg: nat, i: nat) returns (t1: nat, t2: nat, sp: nat)
    requires nominal <= SAMPT_SCALE && i <= 1
    ensures -1 <= Ideal(nominal, tseg) - i
    ensures (t1, t2) == Candidate(caps, tseg, Ideal(nominal, tseg) - i)
    ensures sp == SamplePoint(tseg, t2)
  {
    IdealNotNegative(nominal, tseg);
    t2 := Wrap(tseg + 1 - nominal * (tseg + 1) / SAMPT_SCALE - i);
    t2 := Clamp(t2, caps.tseg2Min, caps.tseg2Max);
    t1 := Wrap(tseg - t2);
    if t1 > caps.tseg1Max {
      t1 := caps.tseg1Max;
      t2 := Wrap(tseg - t1);
    }
    sp := SamplePoint(tseg, t2);
  }

  /** pcan_update_sample_point. `tseg1` and `tseg2` keep the values the pointers led to
      (`was1`, `was2`) when no candidate is accepted. */
  method UpdateSamplePoint(caps: Range, nominal: nat, tseg: nat, was1: nat, was2: nat)
    returns (samplePoint: nat, tseg1: nat, tseg2: nat, error: nat)
    requires nominal <= SAMPT_SCALE
    ensures error == Update(caps, nominal, tseg).Error(nominal) <= UINT_MAX
    ensures match Update(caps, nominal, tseg)
      case NoChoice => samplePoint == 0 && tseg1 == was1 && tseg2 == was2
      case Choice(t1, t2, sp) => samplePoint == sp <= nominal && tseg1 == t1 && tseg2 == t2
  {
    hide Candidate, SamplePoint;
    samplePoint, tseg1, tseg2, error := 0, was1, was2, UINT_MAX;
    ghost var best := NoChoice;
    ghost var x := Ideal(nominal, tseg);
    IdealNotNegative(nominal, tseg);
    for i := 0 to 2
      invariant i == 0 ==> best == NoChoice
      invariant i == 1 ==>
        var c := Candidate(caps, tseg, x);
        best == Improve(NoChoice, nominal, c, SamplePoint(tseg, c.1))
      invariant i == 2 ==> best == Update(caps, nominal, tseg)
      invariant error == best.Error(nominal)
      invariant best.NoChoice? ==> samplePoint == 0 && tseg1 == was1 && tseg2 == was2
      invariant best.Choice? ==> best == Choice(tseg1, tseg2, samplePoint) && samplePoint <= nominal
    {
      var t1, t2, sp := MakeCandidate(caps, nominal, tseg, i);
      best := Improve(best, nominal, (t1, t2), sp);
      if sp <= nominal && nominal - sp < error {
        samplePoint, error, tseg1, tseg2 := sp, nominal - sp, t1, t2;
      }
    }
  }

  // ---------------------------------------------------------------- two candidates suffice

  /** An in-range split of `tseg`. */
  predicate Split(caps: Range, tseg: nat, tseg1: nat, tseg2: nat) {
    && tseg1 + tseg2 == tseg
    && caps.tseg1Min <= tseg1 <= caps.tseg1Max
    && caps.tseg2Min <= tseg2 <= caps.tseg2Max
  }

  /** The longest second segment of an in-range split, hence the earliest sample point. */
  function Longest(caps: Range, tseg: nat): nat
    requires caps.tseg1Min <= tseg
  {
    if tseg - caps.tseg1Min < caps.tseg2Max then tseg - caps.tseg1Min else caps.tseg2Max
  }

  /** Some in-range split does not sample later than nominal. */
  predicate Feasible(caps: Range, nominal: nat, tseg: nat) {
    && caps.tseg1Min + caps.tseg2Min <= tseg <= caps.tseg1Max + caps.tseg2Max
    && SamplePoint(tseg, Longest(caps, tseg)) <= nominal
  }

  /** A wanted second segment leaves room for a first one, once clamped. */
  predicate Fits(caps: Range, tseg: nat, wanted: int)
    requires -1 <= wanted
  {
    Clamp(Wrap(wanted), caps.tseg2Min, caps.tseg2Max) <= tseg
  }

  predicate NoUnderflow(caps: Range, nominal: nat, tseg: nat)
    requires nominal <= SAMPT_SCALE
  {
    IdealNotNegative(nominal, tseg);
    Fits(caps, tseg, Ideal(nominal, tseg)) && Fits(caps, tseg, Ideal(nominal, tseg) - 1)
  }

  lemma DivAtMost(a: nat, n: nat, k: nat)
    requires n > 0
    ensures a / n <= k <==> a < (k + 1) * n
  {
    DivBounds(a, n);
    if a / n <= k {
      assert (a / n + 1) * n <= (k + 1) * n;
    } else {
      assert (a / n) * n >= (k + 1) * n;
    }
  }

  /** Inside a bit the sample point is the fraction before the second segment. */
  lemma SamplePointInside(tseg: nat, tseg2: nat)
    requires tseg2 <= tseg + 1 <= SAMPT_SCALE
    ensures SamplePoint(tseg, tseg2) == SAMPT_SCALE * (tseg + 1 - tseg2) / (tseg + 1)
  {
  }

  /** A longer second segment samples strictly earlier. */
  lemma SamplePointFalls(tseg: nat, short: nat, long: nat)
    requires short < long <= tseg + 1 <= SAMPT_SCALE
    ensures SamplePoint(tseg, long) < SamplePoint(tseg, short)
  {
    var n := tseg + 1;
    SamplePointInside(tseg, short);
    SamplePointInside(tseg, long);
    var k := SamplePoint(tseg, long);
    DivBounds(SAMPT_SCALE * (n - long), n);
    DivAtMost(SAMPT_SCALE * (n - short), n, k);
    assert SAMPT_SCALE * (n - short) >= SAMPT_SCALE * (n - long) + n;
  }

  /** The sample point is not above nominal from the ideal length on, and above it from
      two quanta less on. */
  lemma NominalBetween(nominal: nat, tseg: nat, tseg2: nat)
    requires nominal <= SAMPT_SCALE && tseg2 <= tseg + 1 <= SAMPT_SCALE
    ensures tseg2 >= Ideal(nominal, tseg) ==> SamplePoint(tseg, tseg2) <= nominal
    ensures tseg2 < Ideal(nominal, tseg) - 1 ==> SamplePoint(tseg, tseg2) > nominal
  {
    var n := tseg + 1;
    var q := n - Ideal(nominal, tseg);
    IdealNotNegative(nominal, tseg);
    DivBounds(nominal * n, SAMPT_SCALE);
    SamplePointInside(tseg, tseg2);
    DivAtMost(SAMPT_SCALE * (n - tseg2), n, nominal);
    assert (nominal + 1) * n == nominal * n + n;
    if tseg2 >= n - q {
      assert SAMPT_SCALE * (n - tseg2) <= SAMPT_SCALE * q;
    }
    if tseg2 < tseg - q {
      assert SAMPT_SCALE * (n - tseg2) >= SAMPT_SCALE * (q + 2);
    }
  }

  /** What the sample point is as a function of the second segment: strictly falling,
      and crossing nominal at the ideal length or one quantum before. */
  ghost predicate Falls(f: nat -> nat, nominal: nat, tseg: nat, x: int) {
    && (forall a, b :: 0 <= a < b <= tseg + 1 ==> f(b) < f(a))
    && (forall a: nat :: x <= a <= tseg + 1 ==> f(a) <= nominal)
    && (forall a: nat :: a < x - 1 && a <= tseg + 1 ==> f(a) > nominal)
  }

  /** A candidate that fits is one clamp of the wanted length. */
  lemma CandidateIs(caps: Range, tseg: nat, wanted: int)
    requires caps.Valid() && -1 <= wanted <= tseg + 1
    requires tseg <= caps.tseg1Max + caps.tseg2Max && Fits(caps, tseg, wanted)
    ensures
      var c := Candidate(caps, tseg, wanted);
      && c.0 + c.1 == tseg
      && c.0 <= caps.tseg1Max && caps.tseg2Min <= c.1 <= caps.tseg2Max
      && (forall t1, t2 :: Split(caps, tseg, t1, t2) && 0 <= wanted <= t2 ==> wanted <= c.1 <= t2)
  {
  }

  /** For every in-range split not above nominal some candidate does as well. */
  lemma SomeCandidateAsGood(caps: Range, f: nat -> nat, nominal: nat, tseg: nat, x: int, t1: nat, t2: nat)
    requires caps.Valid() && Falls(f, nominal, tseg, x) && 0 <= x <= tseg + 1
    requires Fits(caps, tseg, x) && Fits(caps, tseg, x - 1)
    requires Split(caps, tseg, t1, t2) && f(t2) <= nominal
    ensures
      || f(t2) <= f(Candidate(caps, tseg, x).1) <= nominal
      || f(t2) <= f(Candidate(caps, tseg, x - 1).1) <= nominal
  {
    CandidateIs(caps, tseg, x);
    CandidateIs(caps, tseg, x - 1);
  }

  /** Two rounds keep a candidate as good as either, and one of the two. */
  lemma BestOfTwo(nominal: nat, c0: (nat, nat), sp0: nat, c1: (nat, nat), sp1: nat)
    requires nominal <= SAMPT_SCALE
    ensures
      var best := Improve(Improve(NoChoice, nominal, c0, sp0), nominal, c1, sp1);
      && (best == NoChoice || best == Choice(c0.0, c0.1, sp0) || best == Choice(c1.0, c1.1, sp1))
      && (best.Choice? ==> best.samplePoint <= nominal)
      && (sp0 <= nominal ==> best.Choice? && sp0 <= best.samplePoint)
      && (sp1 <= nominal ==> best.Choice? && sp1 <= best.samplePoint)
  {
  }

  /** `best` is an in-range split and no in-range split that samples not above nominal
      samples later. */
  ghost predicate IsBestSplit(caps: Range, f: nat -> nat, nominal: nat, tseg: nat, best: Choice) {
    && best.Choice?
    && Split(caps, tseg, best.tseg1, best.tseg2)
    && best.samplePoint == f(best.tseg2) <= nominal
    && forall t1, t2 :: Split(caps, tseg, t1, t2) && f(t2) <= nominal ==> f(t2) <= best.samplePoint
  }

  lemma BestCandidateIsBestSplit(
      caps: Range, f: nat -> nat, nominal: nat, tseg: nat, x: int, best: Choice)
    requires caps.Valid() && nominal <= SAMPT_SCALE && Falls(f, nominal, tseg, x) && 0 <= x <= tseg + 1
    requires Fits(caps, tseg, x) && Fits(caps, tseg, x - 1)
    requires caps.tseg1Min + caps.tseg2Min <= tseg <= caps.tseg1Max + caps.tseg2Max
    requires f(Longest(caps, tseg)) <= nominal
    requires
      var c0, c1 := Candidate(caps, tseg, x), Candidate(caps, tseg, x - 1);
      best == Improve(Improve(NoChoice, nominal, c0, f(c0.1)), nominal, c1, f(c1.1))
    ensures IsBestSplit(caps, f, nominal, tseg, best)
  {
    var c0, c1 := Candidate(caps, tseg, x), Candidate(caps, tseg, x - 1);
    var long := Longest(caps, tseg);
    BestOfTwo(nominal, c0, f(c0.1), c1, f(c1.1));
    forall t1, t2 | Split(caps, tseg, t1, t2) && f(t2) <= nominal
      ensures f(t2) <= f(c0.1) <= nominal || f(t2) <= f(c1.1) <= nominal
    {
      SomeCandidateAsGood(caps, f, nominal, tseg, x, t1, t2);
    }
    assert Split(caps, tseg, tseg - long, long);
    CandidateIs(caps, tseg, x);
    CandidateIs(caps, tseg, x - 1);
  }

  lemma SamplePointsFall(nominal: nat, tseg: nat)
    requires nominal <= SAMPT_SCALE && tseg < SAMPT_SCALE
    ensures Falls(SamplePoints(tseg), nominal, tseg, Ideal(nominal, tseg))
  {
    var f := SamplePoints(tseg);
    forall a, b | 0 <= a < b <= tseg + 1 ensures f(b) < f(a) {
      SamplePointFalls(tseg, a, b);
    }
    forall a: nat | a <= tseg + 1
      ensures Ideal(nominal, tseg) <= a ==> f(a) <= nominal
      ensures a < Ideal(nominal, tseg) - 1 ==> f(a) > nominal
    {
      NominalBetween(nominal, tseg, a);
    }
  }

  lemma UpdateIs(caps: Range, nominal: nat, tseg: nat)
    requires nominal <= SAMPT_SCALE
    ensures
      var f, x := SamplePoints(tseg), Ideal(nominal, tseg);
      -1 <= x - 1 &&
      var c0, c1 := Candidate(caps, tseg, x), Candidate(caps, tseg, x - 1);
      Update(caps, nominal, tseg) ==
        Improve(Improve(NoChoice, nominal, c0, f(c0.1)), nominal, c1, f(c1.1))
  {
    IdealNotNegative(nominal, tseg);
  }

  /** Given a feasible split and no underflow, the two candidates suffice. */
  lemma TwoCandidatesSuffice(caps: Range, nominal: nat, tseg: nat)
    requires caps.Valid() && nominal <= SAMPT_SCALE
    requires Feasible(caps, nominal, tseg) && NoUnderflow(caps, nominal, tseg)
    ensures IsBestSplit(caps, SamplePoints(tseg), nominal, tseg, Update(caps, nominal, tseg))
  {
    hide Update, SamplePoint;
    var f, x := SamplePoints(tseg), Ideal(nominal, tseg);
    IdealNotNegative(nominal, tseg);
    SamplePointsFall(nominal, tseg);
    UpdateIs(caps, nominal, tseg);
    BestCandidateIsBestSplit(caps, f, nominal, tseg, x, Update(caps, nominal, tseg));
  }

  // ---------------------------------------------------------------- when a split is in range

  /** An accepted pair is in range exactly when the bit length has an in-range split that
      is not above nominal; tseg1Min itself is never looked at. */
  lemma AcceptedInRangeIff(caps: Range, nominal: nat, tseg: nat)
    requires caps.Valid() && nominal <= SAMPT_SCALE && NoUnderflow(caps, nominal, tseg)
    requires caps.tseg1Min + caps.tseg2Min <= tseg <= caps.tseg1Max + caps.tseg2Max
    requires Update(caps, nominal, tseg).Choice?
    ensures
      var best := Update(caps, nominal, tseg);
      Split(caps, tseg, best.tseg1, best.tseg2) <==> Feasible(caps, nominal, tseg)
  {
    var best := Update(caps, nominal, tseg);
    if Feasible(caps, nominal, tseg) {
      TwoCandidatesSuffice(caps, nominal, tseg);
    } else if Split(caps, tseg, best.tseg1, best.tseg2) {
      UpdateIs(caps, nominal, tseg);
      if best.tseg2 < Longest(caps, tseg) {
        SamplePointFalls(tseg, best.tseg2, Longest(caps, tseg));
      }
    }
  }

  /** What keeps a candidate that does not fit from being accepted by accident: the second
      segment is nowhere longer than the first may be, as in every table of the driver, or
      both candidates fit. */
  predicate Tame(caps: Range, nominal: nat, tseg: nat)
    requires nominal <= SAMPT_SCALE
  {
    caps.tseg2Max <= caps.tseg1Max || NoUnderflow(caps, nominal, tseg)
  }

  /** A candidate whose first segment underflows samples behind the end of the bit. */
  lemma UnderflowIsRejected(caps: Range, tseg: nat, wanted: int)
    requires caps.Valid() && caps.tseg2Max <= caps.tseg1Max && -1 <= wanted && !Fits(caps, tseg, wanted)
    ensures SamplePoint(tseg, Candidate(caps, tseg, wanted).1) > SAMPT_SCALE
  {
    var t2 := Candidate(caps, tseg, wanted).1;
    assert tseg < caps.tseg1Max && t2 == U32 + tseg - caps.tseg1Max;
    var n, m := tseg + 1, caps.tseg1Max + 1;
    assert Wrap(n - t2) == m && SAMPT_SCALE * m < U32;
    assert SAMPT_SCALE * m >= (SAMPT_SCALE + 1) * n;
    DivAtMost(SAMPT_SCALE * m, n, SAMPT_SCALE);
  }

  /** What an update that accepts a pair may rely on. */
  predicate Partly(caps: Range, tseg: nat, best: Choice) {
    best.Choice? ==>
      && best.tseg1 + best.tseg2 == tseg && best.tseg1 <= caps.tseg1Max
      && caps.tseg2Min <= best.tseg2 <= caps.tseg2Max
      && best.samplePoint == SamplePoint(tseg, best.tseg2)
  }

  lemma FittingIsPartly(caps: Range, nominal: nat, tseg: nat)
    requires caps.Valid() && nominal <= SAMPT_SCALE && Tame(caps, nominal, tseg)
    requires caps.tseg1Min + caps.tseg2Min <= tseg <= caps.tseg1Max + caps.tseg2Max
    ensures Partly(caps, tseg, Update(caps, nominal, tseg))
  {
    hide SamplePoint, Candidate, Fits, Update;
    var f, x := SamplePoints(tseg), Ideal(nominal, tseg);
    IdealNotNegative(nominal, tseg);
    UpdateIs(caps, nominal, tseg);
    var c0, c1 := Candidate(caps, tseg, x), Candidate(caps, tseg, x - 1);
    BestOfTwo(nominal, c0, f(c0.1), c1, f(c1.1));
    if Fits(caps, tseg, x) {
      CandidateIs(caps, tseg, x);
    } else {
      UnderflowIsRejected(caps, tseg, x);
    }
    if Fits(caps, tseg, x - 1) {
      CandidateIs(caps, tseg, x - 1);
    } else {
      UnderflowIsRejected(caps, tseg, x - 1);
    }
  }

  lemma SamplePointAtMost(tseg: nat, tseg2: nat)
    requires tseg2 <= tseg + 1 <= SAMPT_SCALE
    ensures SamplePoint(tseg, tseg2) <= SAMPT_SCALE
  {
    SamplePointInside(tseg, tseg2);
    hide SamplePoint;
    DivAtMost(SAMPT_SCALE * (tseg + 1 - tseg2), tseg + 1, SAMPT_SCALE);
  }

  /** A nominal of 100 % is met by the first candidate, the shortest second segment. */
  lemma FullNominal(caps: Range, tseg: nat)
    requires caps.Valid() && Tame(caps, SAMPT_SCALE, tseg) && !NoUnderflow(caps, SAMPT_SCALE, tseg)
    requires caps.tseg1Min + caps.tseg2Min <= tseg <= caps.tseg1Max + caps.tseg2Max
    ensures IsBestSplit(caps, SamplePoints(tseg), SAMPT_SCALE, tseg, Update(caps, SAMPT_SCALE, tseg))
  {
    hide SamplePoint, Update;
    var f := SamplePoints(tseg);
    assert Ideal(SAMPT_SCALE, tseg) == 0 && Fits(caps, tseg, 0);
    UpdateIs(caps, SAMPT_SCALE, tseg);
    SamplePointsFall(SAMPT_SCALE, tseg);
    CandidateIs(caps, tseg, 0);
    UnderflowIsRejected(caps, tseg, -1);
    var c := Candidate(caps, tseg, 0);
    SamplePointAtMost(tseg, c.1);
    assert Update(caps, SAMPT_SCALE, tseg) == Choice(c.0, c.1, f(c.1));
    forall t1, t2 | Split(caps, tseg, t1, t2)
      ensures f(t2) <= f(c.1)
    {
      assert c.1 <= t2;
    }
  }

  /** A nominal inside the first quantum is met by no split. */
  lemma EarliestNominal(caps: Range, nominal: nat, tseg: nat)
    requires caps.Valid() && nominal < SAMPT_SCALE && Tame(caps, nominal, tseg) && !NoUnderflow(caps, nominal, tseg)
    requires caps.tseg1Min + caps.tseg2Min <= tseg <= caps.tseg1Max + caps.tseg2Max
    ensures !Feasible(caps, nominal, tseg)
    ensures
      var best := Update(caps, nominal, tseg);
      best.Choice? ==> best.tseg1 == 0
  {
    var f, x := SamplePoints(tseg), Ideal(nominal, tseg);
    IdealNotNegative(nominal, tseg);
    IdealPositive(nominal, tseg);
    assert Fits(caps, tseg, x - 1) && x == tseg + 1;
    SamplePointsFall(nominal, tseg);
    assert f(Longest(caps, tseg)) > nominal;
    UpdateIs(caps, nominal, tseg);
    UnderflowIsRejected(caps, tseg, x);
    assert Candidate(caps, tseg, x - 1) == (0, tseg);
    hide SamplePoint, Candidate, Update, Ideal;
    var c0, c1 := Candidate(caps, tseg, x), Candidate(caps, tseg, x - 1);
    BestOfTwo(nominal, c0, f(c0.1), c1, f(c1.1));
  }

  lemma IdealPositive(nominal: nat, tseg: nat)
    requires nominal < SAMPT_SCALE
    ensures Ideal(nominal, tseg) >= 1
  {
    assert nominal * (tseg + 1) < SAMPT_SCALE * (tseg + 1);
  }

  /** For every nominal sample point: the update yields the best split if there is a feasible
      one, and otherwise nothing or a first segment that is too short. */
  lemma UpdateIsExact(caps: Range, nominal: nat, tseg: nat)
    requires caps.Valid() && nominal <= SAMPT_SCALE && Tame(caps, nominal, tseg)
    requires caps.tseg1Min + caps.tseg2Min <= tseg <= caps.tseg1Max + caps.tseg2Max
    ensures
      var best := Update(caps, nominal, tseg);
      && Partly(caps, tseg, best)
      && (Feasible(caps, nominal, tseg) ==> IsBestSplit(caps, SamplePoints(tseg), nominal, tseg, best))
      && (!Feasible(caps, nominal, tseg) ==> best.NoChoice? || best.tseg1 < caps.tseg1Min)
  {
    FittingIsPartly(caps, nominal, tseg);
    if NoUnderflow(caps, nominal, tseg) {
      if Feasible(caps, nominal, tseg) {
        TwoCandidatesSuffice(caps, nominal, tseg);
      } else if Update(caps, nominal, tseg).Choice? {
        AcceptedInRangeIff(caps, nominal, tseg);
      }
    } else if nominal == SAMPT_SCALE {
      FullNominal(caps, tseg);
      var best := Update(caps, nominal, tseg);
      EarliestSplit(caps, nominal, tseg, best.tseg1, best.tseg2);
    } else {
      EarliestNominal(caps, nominal, tseg);
    }
  }

  /** A split that is not above nominal makes the length feasible. */
  lemma EarliestSplit(caps: Range, nominal: nat, tseg: nat, tseg1: nat, tseg2: nat)
    requires caps.Valid() && Split(caps, tseg, tseg1, tseg2) && SamplePoint(tseg, tseg2) <= nominal
    ensures Feasible(caps, nominal, tseg)
  {
    hide SamplePoint;
    if tseg2 < Longest(caps, tseg) {
      SamplePointFalls(tseg, tseg2, Longest(caps, tseg));
    }
  }

  /** Every bit length has a split not above nominal if the shortest and the longest have. */
  lemma EveryLengthFeasible(caps: Range, nominal: nat)
    requires caps.Valid() && nominal <= SAMPT_SCALE
    ensures
      (forall tseg: nat :: caps.tseg1Min + caps.tseg2Min <= tseg <= caps.tseg1Max + caps.tseg2Max ==>
        Feasible(caps, nominal, tseg))
      <==>
      && Feasible(caps, nominal, caps.tseg1Min + caps.tseg2Min)
      && Feasible(caps, nominal, caps.tseg1Max + caps.tseg2Max)
  {
    var short, long := caps.tseg1Min + caps.tseg2Min, caps.tseg1Max + caps.tseg2Max;
    if Feasible(caps, nominal, short) && Feasible(caps, nominal, long) {
      forall tseg: nat | short <= tseg <= long
        ensures Feasible(caps, nominal, tseg)
      {
        if tseg <= caps.tseg1Min + caps.tseg2Max {
          ShorterFeasible(caps, nominal, tseg);
        } else {
          LongerFeasible(caps, nominal, tseg);
        }
      }
    }
  }

  lemma ShorterFeasible(caps: Range, nominal: nat, tseg: nat)
    requires caps.Valid() && caps.tseg1Min + caps.tseg2Min <= tseg <= caps.tseg1Min + caps.tseg2Max
    requires tseg <= caps.tseg1Max + caps.tseg2Max
    requires Feasible(caps, nominal, caps.tseg1Min + caps.tseg2Min)
    ensures Feasible(caps, nominal, tseg)
  {
    hide SamplePoint;
    var n, least, a := tseg + 1, caps.tseg1Min + caps.tseg2Min + 1, SAMPT_SCALE * (caps.tseg1Min + 1);
    SamplePointInside(least - 1, caps.tseg2Min);
    SamplePointInside(tseg, Longest(caps, tseg));
    DivAtMost(a, least, nominal);
    DivAtMost(a, n, nominal);
    MulMonotone(least, n, nominal + 1);
  }

  lemma LongerFeasible(caps: Range, nominal: nat, tseg: nat)
    requires caps.Valid() && caps.tseg1Min + caps.tseg2Max < tseg <= caps.tseg1Max + caps.tseg2Max
    requires Feasible(caps, nominal, caps.tseg1Max + caps.tseg2Max)
    ensures Feasible(caps, nominal, tseg)
  {
    hide SamplePoint;
    var n, most, t2 := tseg + 1, caps.tseg1Max + caps.tseg2Max + 1, caps.tseg2Max;
    SamplePointInside(most - 1, t2);
    SamplePointInside(tseg, t2);
    DivAtMost(SAMPT_SCALE * (most - t2), most, nominal);
    DivAtMost(SAMPT_SCALE * (n - t2), n, nominal);
    LongerFraction(n, most, t2, nominal + 1);
  }

  /** Of two bits with the same second segment the shorter one is sampled earlier. */
  lemma LongerFraction(n: nat, most: nat, t2: nat, limit: nat)
    requires t2 <= n <= most && SAMPT_SCALE * (most - t2) < limit * most
    requires t2 > 0
    ensures SAMPT_SCALE * (n - t2) < limit * n
  {
    if limit >= SAMPT_SCALE {
      MulMonotone(SAMPT_SCALE, limit, n);
    } else {
      MulMonotone(n, most, SAMPT_SCALE - limit);
      Complement(limit, n);
      Complement(limit, most);
    }
  }

  lemma Complement(limit: nat, n: nat)
    requires limit <= SAMPT_SCALE
    ensures limit * n + (SAMPT_SCALE - limit) * n == SAMPT_SCALE * n
  {
  }

  /** The nominal sample point leaves room for tseg1Min even in the shortest bit. */
  predicate Late(caps: Range, nominal: nat) {
    && nominal < SAMPT_SCALE
    && nominal * (caps.tseg1Min + caps.tseg2Min + 1) >= SAMPT_SCALE * (caps.tseg1Min + 1)
  }

  /** Every nominal from two thirds on is late on every controller of the driver. */
  lemma DefaultsAreLate(caps: Range, nominal: nat)
    requires caps.tseg1Min == caps.tseg2Min == 1 && 6667 <= nominal < SAMPT_SCALE
    ensures Late(caps, nominal)
  {
  }

  lemma LateIdeal(caps: Range, nominal: nat, tseg: nat)
    requires caps.Valid() && Late(caps, nominal) && caps.tseg1Min + caps.tseg2Min <= tseg
    ensures 1 <= Ideal(nominal, tseg) <= tseg - caps.tseg1Min
  {
    var n := tseg + 1;
    var least := caps.tseg1Min + caps.tseg2Min + 1;
    assert nominal * n >= nominal * least;
    assert nominal * n < SAMPT_SCALE * n;
  }

  /** With a late nominal both candidates are in-range splits. */
  lemma LateCandidate(caps: Range, tseg: nat, wanted: int)
    requires caps.Valid() && 0 <= wanted <= tseg - caps.tseg1Min
    requires caps.tseg1Min + caps.tseg2Min <= tseg <= caps.tseg1Max + caps.tseg2Max
    ensures Fits(caps, tseg, wanted)
    ensures var c := Candidate(caps, tseg, wanted); Split(caps, tseg, c.0, c.1)
  {
  }

  /** With a late nominal an accepted pair is always an in-range split. */
  lemma LateAcceptedIsSplit(caps: Range, nominal: nat, tseg: nat)
    requires caps.Valid() && Late(caps, nominal)
    requires caps.tseg1Min + caps.tseg2Min <= tseg <= caps.tseg1Max + caps.tseg2Max
    ensures NoUnderflow(caps, nominal, tseg)
    ensures
      var best := Update(caps, nominal, tseg);
      && (best.Choice? <==> Feasible(caps, nominal, tseg))
      && (best.Choice? ==>
            && Split(caps, tseg, best.tseg1, best.tseg2)
            && best.samplePoint == SamplePoint(tseg, best.tseg2) <= nominal)
  {
    var f, x := SamplePoints(tseg), Ideal(nominal, tseg);
    LateIdeal(caps, nominal, tseg);
    LateCandidate(caps, tseg, x);
    LateCandidate(caps, tseg, x - 1);
    UpdateIs(caps, nominal, tseg);
    var c0, c1 := Candidate(caps, tseg, x), Candidate(caps, tseg, x - 1);
    BestOfTwo(nominal, c0, f(c0.1), c1, f(c1.1));
    if Feasible(caps, nominal, tseg) {
      TwoCandidatesSuffice(caps, nominal, tseg);
    } else if Update(caps, nominal, tseg).Choice? {
      AcceptedInRangeIff(caps, nominal, tseg);
    }
  }
}
