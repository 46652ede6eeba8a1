/** The search loop of driver/src/bittiming.c and the function around it. */
module BitTimingSearch {
  import opened Words
  import opened RealArith
  import opened BitTiming
  import opened BitTimingCounter

  // ---- The nearest split ----

  /** Rounding and then moving into a range gives the range's nearest point, and
      of two equally near the larger. */
  lemma RoundedThenMoved(x: real, lo: int, hi: int, t: int)
    requires x > 0.0 && lo <= t <= hi
    ensures var m := MovedInto(Lround(x) - 1, lo, hi);
      && Abs(1.0 + m as real - x) <= Abs(1.0 + t as real - x)
      && (Abs(1.0 + m as real - x) == Abs(1.0 + t as real - x) ==> t <= m)
  {
    var w := Lround(x) - 1;
    assert -0.5 <= x - 1.0 - w as real < 0.5;
    if t < w { assert t as real + 1.0 <= w as real; }
    if t > w { assert t as real >= w as real + 1.0; }
  }

  lemma NearerPosition(btc: BittimingConst, tq: nat, samplePoint: real, x: real, tseg1: nat, tseg2: nat)
    requires tq > 0 && samplePoint > 0.0 && x == samplePoint * tq as real && x > 0.0
    requires Splittable(btc, tq) && IsSplit(btc, tq, tseg1, tseg2)
    ensures Abs(1.0 + NearestTseg1(btc, tq, samplePoint) as real - x) <= Abs(1.0 + tseg1 as real - x)
  {
    RoundedThenMoved(x, LowestTseg1(btc, tq), HighestTseg1(btc, tq), tseg1);
  }

  lemma NearerSamplePoint(samplePoint: real, tq: nat, x: real, a: nat, b: nat)
    requires tq > 0 && x == samplePoint * tq as real
    requires Abs(1.0 + a as real - x) <= Abs(1.0 + b as real - x)
    ensures SamplePointError(samplePoint, tq, a) <= SamplePointError(samplePoint, tq, b)
  {
    CloserQuotient(1.0 + a as real, 1.0 + b as real, tq as real, samplePoint);
  }

  /** No split of the same quanta has a sample point closer than the nearest
      split's. */
  lemma NearestIsNearest(btc: BittimingConst, tq: nat, samplePoint: real, tseg1: nat, tseg2: nat)
    requires tq > 0 && samplePoint > 0.0
    requires Splittable(btc, tq) && IsSplit(btc, tq, tseg1, tseg2)
    ensures SamplePointError(samplePoint, tq, NearestTseg1(btc, tq, samplePoint))
         <= SamplePointError(samplePoint, tq, tseg1)
  {
    MulPositive(samplePoint, tq as real);
    NearerPosition(btc, tq, samplePoint, samplePoint * tq as real, tseg1, tseg2);
    NearerSamplePoint(samplePoint, tq, samplePoint * tq as real, NearestTseg1(btc, tq, samplePoint), tseg1);
  }

  /** A prescaler has a candidate exactly when its rounded quanta are at least
      three and can be split; the candidate is such a split, and no other
      split of these quanta comes closer to the requested sample point. */
  lemma CandidateIsNearestSplit(p: Problem, brp: nat)
    requires p.Valid() && brp > 0 && brp * p.bitrate > 0
    ensures CandidateAt(p, brp).Some? <==>
      && Quanta(p.clock, brp * p.bitrate) >= 3
      && exists t1: nat, t2: nat :: IsSplit(p.btc, Quanta(p.clock, brp * p.bitrate), t1, t2)
    ensures CandidateAt(p, brp).Some? ==>
      var c := CandidateAt(p, brp).value;
      && c.brp == brp && c.Tq() == Quanta(p.clock, brp * p.bitrate)
      && IsSplit(p.btc, c.Tq(), c.tseg1, c.tseg2)
      && forall t1: nat, t2: nat :: IsSplit(p.btc, c.Tq(), t1, t2) ==>
           SpErrorOf(p, c) <= SpErrorOf(p, Candidate(brp, t1, t2))
  {
    var tq := Quanta(p.clock, brp * p.bitrate);
    SplittableMeansSplit(p.btc, tq);
    if CandidateAt(p, brp).Some? {
      forall t1: nat, t2: nat | IsSplit(p.btc, tq, t1, t2)
        ensures SpErrorOf(p, CandidateAt(p, brp).value) <= SpErrorOf(p, Candidate(brp, t1, t2))
      {
        NearestIsNearest(p.btc, tq, p.samplePoint, t1, t2);
      }
    }
  }

  lemma SplittableMeansSplit(btc: BittimingConst, tq: nat)
    ensures tq > 0 && Splittable(btc, tq) <==> exists t1: nat, t2: nat :: IsSplit(btc, tq, t1, t2)
  {
    if tq > 0 && Splittable(btc, tq) {
      assert IsSplit(btc, tq, LowestTseg1(btc, tq), tq - 1 - LowestTseg1(btc, tq));
    }
  }

  // ---- The loop ----

  /** The two-stage clamp of a wanted tseg1. It accepts exactly when the
      quanta can be split within the limits at all, and then the result is
      the wanted value moved into the range of the possible ones. The guard's
      sum is a uint32 sum: when it wraps, the final range checks still reject
      what has no split. */
  method ClampSplit(btc: BittimingConst, tq: u32, wanted: int)
    returns (accepted: bool, tseg1: int, tseg2: int)
    requires tq >= 3
    ensures accepted <==> exists t1: nat, t2: nat :: IsSplit(btc, tq, t1, t2)
    ensures accepted <==> Splittable(btc, tq)
    ensures accepted ==> tseg1 >= 0 && tseg2 >= 0 && IsSplit(btc, tq, tseg1, tseg2)
    ensures accepted ==> tseg1 == MovedInto(wanted, LowestTseg1(btc, tq), HighestTseg1(btc, tq))
  {
    var total := tq - 1;
    tseg1, tseg2 := 0, 0;
    SplittableMeansSplit(btc, tq);
    if total < (btc.tseg1Min + btc.tseg2Min) % 0x1_0000_0000 {
      accepted := false;
      return;
    }
    tseg1 := wanted;
    if tseg1 < btc.tseg1Min { tseg1 := btc.tseg1Min; }
    if tseg1 > btc.tseg1Max { tseg1 := btc.tseg1Max; }
    tseg2 := total - tseg1;
    if tseg2 < btc.tseg2Min {
      tseg2 := btc.tseg2Min;
      tseg1 := total - tseg2;
    } else if tseg2 > btc.tseg2Max {
      tseg2 := btc.tseg2Max;
      tseg1 := total - tseg2;
    }
    accepted := !(tseg1 < btc.tseg1Min || tseg1 > btc.tseg1Max)
      && !(tseg2 < btc.tseg2Min || tseg2 > btc.tseg2Max);
  }

  /** The first half of the loop body: the quanta and their split, or
      nothing where the loop continues. */
  method TrySplit(p: Problem, brp: u32) returns (accepted: bool, tq: int, tseg1: int, tseg2: int)
    requires p.Valid() && brp > 0
    ensures accepted <==> CandidateAt(p, brp).Some?
    ensures accepted ==>
      && tseg1 >= 0 && tseg2 >= 0 && tq == 1 + tseg1 + tseg2
      && CandidateAt(p, brp) == Some(Candidate(brp, tseg1, tseg2))
  {
    accepted, tseg1, tseg2 := false, 0, 0;
    MulIsPositive(brp, p.bitrate);
    var denom := brp * p.bitrate;
    tq := Quanta(p.clock, denom);
    QuantaFits(p.clock, denom);
    if tq < 3 || tq > 0xffff_ffff {
      return;
    }
    accepted, tseg1, tseg2 := ClampSplit(p.btc, tq, WantedTseg1(tq, p.samplePoint));
  }

  /** The errors of an accepted split. */
  method Measure(p: Problem, brp: u32, tq: int, tseg1: nat) returns (bitrateErr: real, spErr: real)
    requires p.Valid() && brp > 0 && tq > 0
    ensures bitrateErr == BitrateError(p, brp, tq)
    ensures spErr == SamplePointError(p.samplePoint, tq, tseg1)
  {
    MulPositive(brp as real, tq as real);
    var actualBitrate := p.clock as real / (brp as real * tq as real);
    bitrateErr := Abs(actualBitrate - p.bitrate as real) / p.bitrate as real;
    var achievedSp := (1.0 + tseg1 as real) / tq as real;
    spErr := Abs(achievedSp - p.samplePoint);
  }

  /** The loop body up to the comparison: the prescaler's candidate, if it has
      one, with its errors. */
  method Evaluate(p: Problem, brp: u32)
    returns (accepted: bool, tseg1: int, tseg2: int, bitrateErr: real, spErr: real)
    requires p.Valid() && brp > 0
    ensures tseg1 >= 0 && tseg2 >= 0
    ensures CandidateAt(p, brp) == if accepted then Some(Candidate(brp, tseg1, tseg2)) else None
    ensures accepted ==> var c := Candidate(brp, tseg1, tseg2);
      bitrateErr == ErrorOf(p, c) && spErr == SpErrorOf(p, c)
  {
    var tq;
    bitrateErr, spErr := 0.0, 0.0;
    accepted, tq, tseg1, tseg2 := TrySplit(p, brp);
    if accepted {
      bitrateErr, spErr := Measure(p, brp, tq, tseg1);
    } else {
      tseg1, tseg2 := 0, 0;
    }
  }

  /** The tolerant comparison with what is kept, if anything is. */
  method Improves(haveBest: bool, bitrateErr: real, spErr: real, bestBitrateErr: real, bestSpErr: real)
    returns (better: bool)
    ensures better <==> !haveBest || Beats(bitrateErr, spErr, bestBitrateErr, bestSpErr)
  {
    if !haveBest {
      better := true;
    } else if bitrateErr + TOLERANCE < bestBitrateErr {
      better := true;
    } else if bitrateErr > bestBitrateErr + TOLERANCE {
      better := false;
    } else {
      better := spErr < bestSpErr;
    }
  }

  /** What is kept after looking at a candidate. */
  function TakeOne(p: Problem, kept: Option<Candidate>, c: Candidate): (r: Option<Candidate>)
    requires p.Valid() && Proper(c) && (kept.Some? ==> Proper(kept.value))
    ensures r.Some? && Proper(r.value)
  {
    if kept.None? || Better(p, c, kept.value) then Some(c) else kept
  }

  /** What is kept after the iteration for counter value brp. */
  function KeepOne(p: Problem, kept: Option<Candidate>, brp: u32): (r: Option<Candidate>)
    requires p.Valid() && (kept.Some? ==> Proper(kept.value))
    ensures r.Some? ==> Proper(r.value)
  {
    if brp == 0 || CandidateAt(p, brp).None? then kept
    else TakeOne(p, kept, CandidateAt(p, brp).value)
  }

  /** Going on from counter value brp for n iterations with kept in hand makes
      the loop keep what Kept says. */
  ghost predicate Underway(p: Problem, kept: Option<Candidate>, brp: u32, n: nat)
    requires p.Valid() && LoopEnds(p.btc)
  {
    && EndsWithin(p.btc, brp, n)
    && (kept.Some? ==> Proper(kept.value))
    && AllProper(AcceptedWithin(p, brp, n))
    && KeepFrom(p, kept, AcceptedWithin(p, brp, n)) == Kept(p)
  }

  lemma KeepFromFirst(p: Problem, kept: Option<Candidate>, c: Candidate, rest: seq<Candidate>)
    requires p.Valid() && Proper(c) && AllProper(rest) && AllProper([c] + rest) && (kept.Some? ==> Proper(kept.value))
    ensures KeepFrom(p, kept, [c] + rest) == KeepFrom(p, TakeOne(p, kept, c), rest)
  {
    assert ([c] + rest)[1..] == rest;
  }

  lemma WithinSplits(p: Problem, brp: u32, n: nat)
    requires p.Valid() && n > 0 && brp <= p.btc.brpMax
    ensures AcceptedWithin(p, brp, n) ==
      (if brp > 0 && CandidateAt(p, brp).Some? then [CandidateAt(p, brp).value] else [])
      + AcceptedWithin(p, NextBrp(p.btc, brp), n - 1)
  {}

  lemma KeptGoesOn(p: Problem, kept: Option<Candidate>, brp: u32, all: seq<Candidate>, rest: seq<Candidate>)
    requires p.Valid() && AllProper(all) && AllProper(rest) && (kept.Some? ==> Proper(kept.value))
    requires all == (if brp > 0 && CandidateAt(p, brp).Some? then [CandidateAt(p, brp).value] else []) + rest
    ensures KeepFrom(p, KeepOne(p, kept, brp), rest) == KeepFrom(p, kept, all)
  {
    if brp > 0 && CandidateAt(p, brp).Some? {
      KeepFromFirst(p, kept, CandidateAt(p, brp).value, rest);
    } else {
      assert all == rest;
    }
  }

  lemma UnderwayStep(p: Problem, kept: Option<Candidate>, brp: u32, n: nat)
    requires p.Valid() && LoopEnds(p.btc) && Underway(p, kept, brp, n) && brp <= p.btc.brpMax
    ensures n > 0 && Underway(p, KeepOne(p, kept, brp), NextBrp(p.btc, brp), n - 1)
  {
    WithinIsSound(p, NextBrp(p.btc, brp), n - 1);
    WithinSplits(p, brp, n);
    KeptGoesOn(p, kept, brp, AcceptedWithin(p, brp, n), AcceptedWithin(p, NextBrp(p.btc, brp), n - 1));
  }

  /** The loop's variables hold the kept candidate and its errors. */
  ghost predicate Holds(p: Problem, kept: Option<Candidate>, haveBest: bool,
                        bitrateErr: real, spErr: real, brp: int, tseg1: int, tseg2: int)
    requires p.Valid()
  {
    && brp >= 0 && tseg1 >= 0 && tseg2 >= 0
    && kept == (if haveBest then Some(Candidate(brp, tseg1, tseg2)) else None)
    && (kept.Some? ==> Proper(kept.value) && bitrateErr == ErrorOf(p, kept.value) && spErr == SpErrorOf(p, kept.value))
  }

  /** The loop over the prescalers, with its counter that may wrap: wherever it
      ends, it keeps what Kept says is kept. */
  method Search(p: Problem) returns (best: Option<Candidate>)
    requires p.Valid() && LoopEnds(p.btc)
    ensures best == Kept(p)
  {
    var haveBest := false;
    var bestBitrateErr, bestSpErr := 0.0, 0.0;
    var bestTseg1, bestTseg2, bestBrp := 0, 0, 0;

    var brp := p.btc.brpMin;
    ghost var kept: Option<Candidate> := None;
    ghost var n := Iterations(p.btc);
    WithinIsSound(p, brp, n);
    while brp <= p.btc.brpMax
      invariant 0 <= brp < 0x1_0000_0000
      invariant Underway(p, kept, brp, n)
      invariant Holds(p, kept, haveBest, bestBitrateErr, bestSpErr, bestBrp, bestTseg1, bestTseg2)
      decreases n
    {
      UnderwayStep(p, kept, brp, n);
      kept, n := KeepOne(p, kept, brp), n - 1;
      if brp == 0 {
        brp := NextBrp(p.btc, brp);
        continue;
      }
      var accepted, tseg1, tseg2, bitrateErr, spErr := Evaluate(p, brp);
      if accepted {
        var better := Improves(haveBest, bitrateErr, spErr, bestBitrateErr, bestSpErr);
        if better {
          haveBest := true;
          bestBitrateErr := bitrateErr;
          bestSpErr := spErr;
          bestTseg1, bestTseg2, bestBrp := tseg1, tseg2, brp;
        }
      }
      brp := NextBrp(p.btc, brp);
    }
    best := if haveBest then Some(Candidate(bestBrp, bestTseg1, bestTseg2)) else None;
  }

  lemma QuantaFits(clock: u32, denom: nat)
    requires denom > 0
    ensures Quanta(clock, denom) <= 0xffff_ffff
  {
    var q := Quanta(clock, denom);
    assert q * denom <= clock + denom / 2;
    assert clock + denom / 2 < 0x1_0000_0000 * denom;
    if q >= 0x1_0000_0000 { MulOrder(0x1_0000_0000, q, denom); }
  }
}
