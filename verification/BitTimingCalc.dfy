/** gsusb_calc_bittiming as its callers see it: argument checks, the default
    sample point, the search, and the registers written through the output
    pointers, here the fields of one object. */
module BitTimingCalc {
  import opened Words
  import opened Errors
  import opened RealArith
  import opened BitTiming
  import opened BitTimingCounter
  import opened BitTimingErrors
  import opened BitTimingTheorems
  import opened BitTimingSearch

  class TimingRegisters {
    var propSeg: u32
    var phaseSeg1: u32
    var phaseSeg2: u32
    var sjw: u32
    var brp: u32

    constructor ()
    {
      propSeg, phaseSeg1, phaseSeg2, sjw, brp := 0, 0, 0, 0, 0;
    }
  }

  /** What the call refuses outright. */
  predicate BadArguments(clock: u32, bitrate: u32, btc: BittimingConst) {
    clock == 0 || bitrate == 0 || btc.brpMin == 0 || btc.brpMax < btc.brpMin
  }

  /** The search problem of accepted arguments. */
  function ProblemOf(clock: u32, bitrate: u32, samplePoint: real, btc: BittimingConst): (p: Problem)
    requires !BadArguments(clock, bitrate, btc)
    ensures p.Valid()
  {
    Problem(clock, bitrate,
            if samplePoint <= 0.0 || samplePoint >= 1.0 then DefaultSamplePoint(bitrate) else samplePoint,
            btc)
  }

  /** An answer the registers hold: rounded quanta, split within the limits, at
      a prescaler that is at most brpMax and, if the counter did not wrap, on
      the grid. */
  ghost predicate Answers(p: Problem, c: Candidate)
    requires p.Valid()
  {
    && 0 < c.brp <= p.btc.brpMax
    && c.Tq() >= 3 && IsRounded(p, c.brp, c.Tq())
    && IsSplit(p.btc, c.Tq(), c.tseg1, c.tseg2)
    && (p.btc.CounterFits() ==> Feasible(p, c.brp, c.tseg1, c.tseg2))
  }

  lemma KeptAnswers(p: Problem)
    requires p.Valid() && LoopEnds(p.btc)
    ensures Kept(p).Some? ==> Answers(p, Kept(p).value)
    ensures p.btc.CounterFits() ==> (Kept(p).None? <==> forall brp, t1, t2 :: !Feasible(p, brp, t1, t2))
  {
    if p.btc.CounterFits() {
      FittingKeepsSelected(p);
      FailsOnlyWithoutSolution(p);
    }
    if Kept(p).Some? {
      KeptIsAccepted(p);
      MulIsPositive(Kept(p).value.brp, p.bitrate);
      CandidateIsNearestSplit(p, Kept(p).value.brp);
    }
  }

  /** How far, in quanta, a sample point behind the sync segment and tseg1 more
      of tq quanta is from the position sp * tq. */
  function Offset(tq: nat, tseg1: nat, sp: real): real { Abs(1.0 + tseg1 as real - sp * tq as real) }

  /** tseg1 is nearer to sp than u, or as near and not smaller. */
  predicate AtLeastAsNear(tq: nat, tseg1: nat, u: nat, sp: real) {
    Offset(tq, tseg1, sp) < Offset(tq, u, sp) || (Offset(tq, tseg1, sp) == Offset(tq, u, sp) && u <= tseg1)
  }

  /** Of all splits of the tq quanta within the limits none is nearer to sp, and
      of two equally near the one with the larger tseg1 is taken. */
  ghost predicate NearestTo(btc: BittimingConst, tq: nat, tseg1: nat, sp: real) {
    forall u: nat | btc.tseg1Min <= u <= btc.tseg1Max && btc.tseg2Min <= tq - 1 - u <= btc.tseg2Max ::
      AtLeastAsNear(tq, tseg1, u, sp)
  }

  /** tq is the number of quanta of denom ticks nearest to the clock, halves
      upwards, and at least three. */
  predicate Rounded(clock: nat, denom: nat, tq: nat) {
    tq >= 3 && 2 * (clock - denom * tq) < denom && 2 * (denom * tq - clock) <= denom
  }

  /** What an answer with sample point sp is in numbers. */
  ghost predicate InNumbers(clock: u32, bitrate: u32, sp: real, btc: BittimingConst,
                            brp: nat, tseg1: nat, tseg2: nat) {
    && 0 < brp <= btc.brpMax
    && btc.tseg1Min <= tseg1 <= btc.tseg1Max && btc.tseg2Min <= tseg2 <= btc.tseg2Max
    && Rounded(clock, brp * bitrate, 1 + tseg1 + tseg2)
    && NearestTo(btc, 1 + tseg1 + tseg2, tseg1, sp)
  }

  lemma MovedIsNear(tq: nat, sp: real, x: real, lo: nat, hi: nat, m: nat, u: nat)
    requires x == sp * tq as real && x > 0.0 && lo <= u <= hi && m == MovedInto(Lround(x) - 1, lo, hi)
    ensures AtLeastAsNear(tq, m, u, sp)
  {
    RoundedThenMoved(x, lo, hi, u);
  }

  lemma NearestIsMoved(btc: BittimingConst, tq: nat, sp: real, x: real)
    requires tq > 0 && sp > 0.0 && Splittable(btc, tq) && x == sp * tq as real && x > 0.0
    ensures NearestTseg1(btc, tq, sp) == MovedInto(Lround(x) - 1, LowestTseg1(btc, tq), HighestTseg1(btc, tq))
  {}

  lemma NearestToPosition(btc: BittimingConst, tq: nat, sp: real, m: nat, x: real)
    requires tq > 0 && sp > 0.0 && Splittable(btc, tq) && x == sp * tq as real && x > 0.0
    requires m == NearestTseg1(btc, tq, sp)
    ensures NearestTo(btc, tq, m, sp)
  {
    NearestIsMoved(btc, tq, sp, x);
    forall u: nat | btc.tseg1Min <= u <= btc.tseg1Max && btc.tseg2Min <= tq - 1 - u <= btc.tseg2Max
      ensures AtLeastAsNear(tq, m, u, sp)
    {
      MovedIsNear(tq, sp, x, LowestTseg1(btc, tq), HighestTseg1(btc, tq), m, u);
    }
  }

  lemma NearestSplitIsNearest(btc: BittimingConst, tq: nat, sp: real)
    requires tq > 0 && sp > 0.0 && Splittable(btc, tq)
    ensures NearestTo(btc, tq, NearestTseg1(btc, tq, sp), sp)
  {
    MulPositive(sp, tq as real);
    NearestToPosition(btc, tq, sp, NearestTseg1(btc, tq, sp), sp * tq as real);
  }

  lemma CandidateInNumbers(p: Problem, c: Candidate)
    requires p.Valid() && c.brp > 0 && CandidateAt(p, c.brp) == Some(c)
    ensures IsSplit(p.btc, c.Tq(), c.tseg1, c.tseg2)
    ensures Rounded(p.clock, c.brp * p.bitrate, c.Tq())
    ensures NearestTo(p.btc, c.Tq(), c.tseg1, p.samplePoint)
  {
    MulIsPositive(c.brp, p.bitrate);
    CandidateIsNearestSplit(p, c.brp);
    RoundingDistance(p.clock, c.brp * p.bitrate);
    NearestSplitIsNearest(p.btc, c.Tq(), p.samplePoint);
  }

  /** The sample point is the one asked for, or, where none between 0 and 1 is,
      3/4 above 800 kbit/s, 4/5 above 500 kbit/s and 7/8 otherwise. */
  lemma KeptInNumbers(clock: u32, bitrate: u32, samplePoint: real, btc: BittimingConst, c: Candidate)
    requires !BadArguments(clock, bitrate, btc) && LoopEnds(btc)
    requires Kept(ProblemOf(clock, bitrate, samplePoint, btc)) == Some(c)
    ensures InNumbers(clock, bitrate,
                      if 0.0 < samplePoint < 1.0 then samplePoint
                      else if bitrate > 800000 then 3.0 / 4.0
                      else if bitrate > 500000 then 4.0 / 5.0
                      else 7.0 / 8.0,
                      btc, c.brp, c.tseg1, c.tseg2)
  {
    var p := ProblemOf(clock, bitrate, samplePoint, btc);
    KeptIsAccepted(p);
    CandidateInNumbers(p, c);
  }

  /** Fails without touching the registers when an argument is bad or when the
      loop keeps nothing, which, unless its counter wraps, is when no grid
      prescaler is feasible. Otherwise the registers hold the search's answer,
      within the limits, and a jump width that is positive and, where the
      limits leave room, no larger than the second segment or its own limit.
      Only limits whose loop never ends are excluded. */
  method CalcBittiming(clock: u32, bitrate: u32, samplePoint: real,
                       btc: Option<BittimingConst>, out: TimingRegisters?) returns (rc: int)
    requires btc.Some? && !BadArguments(clock, bitrate, btc.value) ==> LoopEnds(btc.value)
    modifies out
    ensures rc == GSUSB_ERR_INVALID <==>
      || btc.None? || out == null || clock == 0 || bitrate == 0
      || btc.value.brpMin == 0 || btc.value.brpMax < btc.value.brpMin
    ensures rc != GSUSB_ERR_INVALID ==>
      var p := ProblemOf(clock, bitrate, samplePoint, btc.value);
      && (rc == GSUSB_ERR_NO_BITTIMING_SOLUTION || rc == GSUSB_OK)
      && (rc == GSUSB_ERR_NO_BITTIMING_SOLUTION <==> Kept(p).None?)
      && (btc.value.CounterFits() ==>
           Kept(p) == Selected(p) && (Kept(p).None? <==> forall brp, t1, t2 :: !Feasible(p, brp, t1, t2)))
    ensures rc != GSUSB_OK && out != null ==> unchanged(out)
    ensures rc == GSUSB_OK ==>
      var p := ProblemOf(clock, bitrate, samplePoint, btc.value);
      var c := Candidate(out.brp, out.phaseSeg1, out.phaseSeg2);
      Kept(p) == Some(c) && Answers(p, c) && out.propSeg == 0
    ensures rc == GSUSB_OK ==>
      InNumbers(clock, bitrate,
                if 0.0 < samplePoint < 1.0 then samplePoint
                else if bitrate > 800000 then 3.0 / 4.0
                else if bitrate > 500000 then 4.0 / 5.0
                else 7.0 / 8.0,
                btc.value, out.brp, out.phaseSeg1, out.phaseSeg2)
    ensures rc == GSUSB_OK ==>
      && 1 <= out.sjw <= Max(1, out.phaseSeg2) && out.sjw <= Max(1, btc.value.sjwMax)
      && (out.sjw == Max(1, out.phaseSeg2) || out.sjw == Max(1, btc.value.sjwMax))
  {
    if btc.None? || out == null {
      return GSUSB_ERR_INVALID;
    }
    if clock == 0 || bitrate == 0 {
      return GSUSB_ERR_INVALID;
    }
    if btc.value.brpMin == 0 || btc.value.brpMax < btc.value.brpMin {
      return GSUSB_ERR_INVALID;
    }
    var p := ProblemOf(clock, bitrate, samplePoint, btc.value);
    var best := Search(p);
    KeptAnswers(p);
    if btc.value.CounterFits() { FittingKeepsSelected(p); }
    if best.None? {
      return GSUSB_ERR_NO_BITTIMING_SOLUTION;
    }
    KeptInNumbers(clock, bitrate, samplePoint, btc.value, best.value);
    out.propSeg := 0;
    out.phaseSeg1 := best.value.tseg1;
    out.phaseSeg2 := best.value.tseg2;
    out.brp := best.value.brp;
    var sjwVal := best.value.tseg2;
    if sjwVal > btc.value.sjwMax {
      sjwVal := btc.value.sjwMax;
    }
    if sjwVal == 0 {
      sjwVal := 1;
    }
    out.sjw := sjwVal;
    return GSUSB_OK;
  }
}
