/** The bit-timing problem of driver/src/bittiming.c: which register values a
    request may be answered with, how good each of them is, and the selection
    the search makes among them. */
module BitTiming {
  import opened Words
  import opened RealArith

  /** The device's limits, as gsusb_bittiming_const reports them. */
  datatype BittimingConst = BittimingConst(
    tseg1Min: u32, tseg1Max: u32, tseg2Min: u32, tseg2Max: u32,
    sjwMax: u32, brpMin: u32, brpMax: u32, brpInc: u32)
  {
    function Inc(): u32 { if brpInc == 0 then 1 else brpInc }

    /** The last grid prescaler. */
    function LastBrp(): int { brpMax - (brpMax - brpMin) % Inc() }

    /** The loop counter's uint32 arithmetic does not wrap when it steps past
        the last grid prescaler. */
    predicate CounterFits() { LastBrp() + Inc() < 0x1_0000_0000 }
  }

  datatype Problem = Problem(clock: u32, bitrate: u32, samplePoint: real, btc: BittimingConst)
  {
    /** What holds once the argument checks and the default sample point are past. */
    ghost predicate Valid() {
      && clock > 0 && bitrate > 0
      && 0.0 < samplePoint < 1.0
      && 0 < btc.brpMin <= btc.brpMax
    }
  }

  /** One way of filling the registers. */
  datatype Candidate = Candidate(brp: nat, tseg1: nat, tseg2: nat)
  {
    function Tq(): nat { 1 + tseg1 + tseg2 }
  }

  function DefaultSamplePoint(bitrate: u32): real {
    if bitrate > 800000 then 0.75
    else if bitrate > 500000 then 0.80
    else 0.875
  }

  /** Relative bitrate error of brp * tq clock ticks per bit. */
  function BitrateError(p: Problem, brp: nat, tq: nat): real
    requires p.bitrate > 0 && brp > 0 && tq > 0
  {
    Abs(p.clock as real / (brp as real * tq as real) - p.bitrate as real) / p.bitrate as real
  }

  /** Distance of the achieved sample point from the requested one. */
  function SamplePointError(samplePoint: real, tq: nat, tseg1: nat): real
    requires tq > 0
  {
    Abs((1.0 + tseg1 as real) / tq as real - samplePoint)
  }

  /** Total quanta per bit nearest to clock / denom, halves upwards. */
  function Quanta(clock: nat, denom: nat): nat
    requires denom > 0
  {
    (clock + denom / 2) / denom
  }

  // ---- Splitting the quanta between the two segments ----

  /** tq quanta are the sync segment's one, tseg1 and tseg2. */
  ghost predicate IsSplit(btc: BittimingConst, tq: nat, tseg1: nat, tseg2: nat) {
    && btc.tseg1Min <= tseg1 <= btc.tseg1Max
    && btc.tseg2Min <= tseg2 <= btc.tseg2Max
    && 1 + tseg1 + tseg2 == tq
  }

  /** The smallest and the largest tseg1 a split can have. */
  function LowestTseg1(btc: BittimingConst, tq: nat): nat { Max(btc.tseg1Min, tq - 1 - btc.tseg2Max) }

  function HighestTseg1(btc: BittimingConst, tq: nat): int { Min(btc.tseg1Max, tq - 1 - btc.tseg2Min) }

  predicate Splittable(btc: BittimingConst, tq: nat) {
    LowestTseg1(btc, tq) <= HighestTseg1(btc, tq)
  }

  /** The split whose sample point is nearest to the requested one: the
      rounded position, moved into the range of the possible ones. */
  function NearestTseg1(btc: BittimingConst, tq: nat, samplePoint: real): nat
    requires tq > 0 && samplePoint > 0.0
    requires Splittable(btc, tq)
  {
    MovedInto(WantedTseg1(tq, samplePoint), LowestTseg1(btc, tq), HighestTseg1(btc, tq))
  }

  /** The sample position samplePoint * tq, rounded, as a tseg1. */
  function WantedTseg1(tq: nat, samplePoint: real): int
    requires tq > 0 && samplePoint > 0.0
  {
    MulPositive(samplePoint, tq as real);
    Lround(samplePoint * tq as real) - 1
  }

  function MovedInto(x: int, lo: int, hi: int): int { Max(lo, Min(hi, x)) }

  // ---- What one prescaler contributes ----

  /** Whole steps lead from brpMin to brp. */
  predicate Stepped(btc: BittimingConst, brp: int) {
    brp >= btc.brpMin && (brp - btc.brpMin) % btc.Inc() == 0
  }

  function CandidateAt(p: Problem, brp: nat): Option<Candidate>
    requires p.Valid() && brp > 0
  {
    MulIsPositive(brp, p.bitrate);
    var tq := Quanta(p.clock, brp * p.bitrate);
    if tq < 3 || !Splittable(p.btc, tq) then None
    else
      var tseg1 := NearestTseg1(p.btc, tq, p.samplePoint);
      Some(Candidate(brp, tseg1, tq - 1 - tseg1))
  }

  /** The accepted candidates from prescaler brp upwards, in loop order. */
  function Accepted(p: Problem, brp: nat): seq<Candidate>
    requires p.Valid() && brp > 0
    decreases p.btc.brpMax + 1 - brp
  {
    if brp > p.btc.brpMax then []
    else
      var rest := Accepted(p, brp + p.btc.Inc());
      match CandidateAt(p, brp)
      case None => rest
      case Some(c) => [c] + rest
  }

  // ---- Comparing candidates ----

  /** The comparison tolerance, 1e-12. */
  const TOLERANCE := 1.0 / 1_000_000_000_000.0

  predicate Proper(c: Candidate) { c.brp > 0 }

  function ErrorOf(p: Problem, c: Candidate): real
    requires p.Valid() && Proper(c)
  {
    BitrateError(p, c.brp, c.Tq())
  }

  function SpErrorOf(p: Problem, c: Candidate): real {
    SamplePointError(p.samplePoint, c.Tq(), c.tseg1)
  }

  /** Whether errors (err, sp) replace errors (bestErr, bestSp): a clearly
      smaller bitrate error wins, a clearly larger one loses, and otherwise
      the sample point decides. */
  predicate Beats(err: real, sp: real, bestErr: real, bestSp: real) {
    if err + TOLERANCE < bestErr then true
    else if err > bestErr + TOLERANCE then false
    else sp < bestSp
  }

  predicate Better(p: Problem, c: Candidate, best: Candidate)
    requires p.Valid() && Proper(c) && Proper(best)
  {
    Beats(ErrorOf(p, c), SpErrorOf(p, c), ErrorOf(p, best), SpErrorOf(p, best))
  }

  ghost predicate AllProper(cs: seq<Candidate>) { forall i :: 0 <= i < |cs| ==> Proper(cs[i]) }

  /** The candidate kept after going through cs with best in hand. */
  function Keep(p: Problem, best: Candidate, cs: seq<Candidate>): (r: Candidate)
    requires p.Valid() && Proper(best) && AllProper(cs)
    ensures Proper(r)
    ensures r == best || r in cs
    decreases cs
  {
    if cs == [] then best
    else Keep(p, if Better(p, cs[0], best) then cs[0] else best, cs[1..])
  }

  function KeepFrom(p: Problem, best: Option<Candidate>, cs: seq<Candidate>): Option<Candidate>
    requires p.Valid() && AllProper(cs) && (best.Some? ==> Proper(best.value))
  {
    match best
    case Some(b) => Some(Keep(p, b, cs))
    case None => if cs == [] then None else Some(Keep(p, cs[0], cs[1..]))
  }

  lemma {:induction false} AcceptedProper(p: Problem, brp: nat)
    requires p.Valid() && brp > 0
    ensures AllProper(Accepted(p, brp))
    decreases p.btc.brpMax + 1 - brp
  {
    if brp <= p.btc.brpMax { AcceptedProper(p, brp + p.btc.Inc()); }
  }

  /** The candidate the whole search settles on, if any. */
  function Selected(p: Problem): Option<Candidate>
    requires p.Valid()
  {
    AcceptedProper(p, p.btc.brpMin);
    KeepFrom(p, None, Accepted(p, p.btc.brpMin))
  }

  /** The comparison in numbers: errors more than 1e-12 apart are decided by the
      bitrate error, closer ones by the sample point. */
  lemma BeatsInNumbers(err: real, sp: real, bestErr: real, bestSp: real)
    ensures bestErr - err > 1.0 / 1_000_000_000_000.0 ==> Beats(err, sp, bestErr, bestSp)
    ensures err - bestErr > 1.0 / 1_000_000_000_000.0 ==> !Beats(err, sp, bestErr, bestSp)
    ensures -1.0 <= (err - bestErr) * 1_000_000_000_000.0 <= 1.0 ==> (Beats(err, sp, bestErr, bestSp) <==> sp < bestSp)
  {}
}
