/** The promise of driver/src/bittiming.h: of all combinations the limits allow,
    the one with the smallest bitrate error and, among those, the closest sample
    point. When the search keeps it, when it does not, and what is lost. */
module BitTimingHeader {
  import opened Words
  import opened RealArith
  import opened BitTiming
  import opened BitTimingErrors
  import opened BitTimingSearch
  import opened BitTimingTheorems
  import opened BitTimingRounding

  // ---- What the limits allow ----

  /** A combination the device's limits allow. */
  ghost predicate Allowed(p: Problem, brp: nat, t1: nat, t2: nat)
    requires p.Valid()
  {
    OnGrid(p, brp) && IsSplit(p.btc, 1 + t1 + t2, t1, t2)
  }

  /** Neither segment's range is empty. */
  predicate AnyAllowed(btc: BittimingConst) {
    btc.tseg1Min <= btc.tseg1Max && btc.tseg2Min <= btc.tseg2Max
  }

  function FewestQuanta(btc: BittimingConst): nat { 1 + btc.tseg1Min + btc.tseg2Min }

  function MostQuanta(btc: BittimingConst): nat { 1 + btc.tseg1Max + btc.tseg2Max }

  lemma SplittableIsRange(btc: BittimingConst, tq: nat)
    requires tq > 0
    ensures Splittable(btc, tq) <==> AnyAllowed(btc) && FewestQuanta(btc) <= tq <= MostQuanta(btc)
  {}

  /** At least as good: a smaller bitrate error, or the same and a sample point
      no farther. */
  ghost predicate NoWorse(p: Problem, a: Candidate, b: Candidate)
    requires p.Valid() && Proper(a) && Proper(b)
  {
    || ErrorOf(p, a) < ErrorOf(p, b)
    || (ErrorOf(p, a) == ErrorOf(p, b) && SpErrorOf(p, a) <= SpErrorOf(p, b))
  }

  /** tq quanta with the split nearest to the requested sample point. */
  function NearestSplit(p: Problem, brp: nat, tq: nat): (c: Candidate)
    requires p.Valid() && tq > 0 && Splittable(p.btc, tq)
    ensures c.brp == brp && c.Tq() == tq && IsSplit(p.btc, tq, c.tseg1, c.tseg2)
  {
    var tseg1 := NearestTseg1(p.btc, tq, p.samplePoint);
    Candidate(brp, tseg1, tq - 1 - tseg1)
  }

  /** The best allowed combination of a prescaler: of the two counts next to
      the exact number of quanta the better one, moved into the allowed range. */
  ghost function BestAllowed(p: Problem, brp: nat): (c: Candidate)
    requires p.Valid() && brp > 0 && AnyAllowed(p.btc)
    ensures c.brp == brp && IsSplit(p.btc, c.Tq(), c.tseg1, c.tseg2)
  {
    MulIsPositive(brp, p.bitrate);
    var exact := p.clock / (brp * p.bitrate);
    if exact < FewestQuanta(p.btc) then NearestSplit(p, brp, FewestQuanta(p.btc))
    else if exact >= MostQuanta(p.btc) then NearestSplit(p, brp, MostQuanta(p.btc))
    else
      var below, above := NearestSplit(p, brp, exact), NearestSplit(p, brp, exact + 1);
      if NoWorse(p, below, above) then below else above
  }

  // ---- The best allowed combination is best ----

  lemma BelowIsFalling(p: Problem, brp: nat, a: nat, b: nat)
    requires p.Valid() && brp > 0 && 1 <= a < b && Ticks(brp * p.bitrate, b) <= p.clock
    ensures BitrateError(p, brp, b) < BitrateError(p, brp, a)
  {
    var d := brp * p.bitrate;
    MulIsPositive(brp, p.bitrate);
    Distributed(d, a, b - a);
    Falling(p.clock, d, a, b);
    ErrorIsRelative(p, brp, a);
    ErrorIsRelative(p, brp, b);
    CompareErrors(BitrateError(p, brp, a), BitrateError(p, brp, b), p.clock, d, a, b);
  }

  lemma Falling(clock: nat, d: nat, a: nat, b: nat)
    requires clock > 0 && a < b && Ticks(d, a) <= clock && Ticks(d, b) <= clock
    ensures !NoFarther(clock, d, a, b)
  {
    assert b * (clock - Ticks(d, a)) == b * clock - a * b * d;
    assert a * (clock - Ticks(d, b)) == a * clock - a * b * d;
    MulLess(clock, a, b);
  }

  lemma AboveIsRising(p: Problem, brp: nat, a: nat, b: nat)
    requires p.Valid() && brp > 0 && 1 <= a < b && Ticks(brp * p.bitrate, a) >= p.clock
    ensures BitrateError(p, brp, a) < BitrateError(p, brp, b)
  {
    var d := brp * p.bitrate;
    MulIsPositive(brp, p.bitrate);
    Distributed(d, a, b - a);
    Rising(p.clock, d, a, b);
    ErrorIsRelative(p, brp, a);
    ErrorIsRelative(p, brp, b);
    CompareErrors(BitrateError(p, brp, b), BitrateError(p, brp, a), p.clock, d, b, a);
  }

  lemma Rising(clock: nat, d: nat, a: nat, b: nat)
    requires clock > 0 && a < b && Ticks(d, a) >= clock && Ticks(d, b) >= clock
    ensures !NoFarther(clock, d, b, a)
  {
    assert a * (Ticks(d, b) - clock) == a * b * d - a * clock;
    assert b * (Ticks(d, a) - clock) == a * b * d - b * clock;
    MulLess(clock, a, b);
  }

  /** The exact number of quanta lies between two counts. */
  lemma ExactBetween(clock: nat, d: nat)
    requires d > 0
    ensures Ticks(d, clock / d) <= clock < Ticks(d, clock / d + 1)
  {
    assert clock == d * (clock / d) + clock % d;
    Distributed(d, clock / d, 1);
  }

  lemma TicksOrdered(d: nat, a: nat, b: nat)
    requires a <= b
    ensures Ticks(d, a) <= Ticks(d, b)
  {
    Distributed(d, a, b - a);
  }

  /** No split of the same quanta is better than the nearest. */
  lemma NearestIsNoWorse(p: Problem, brp: nat, t1: nat, t2: nat)
    requires p.Valid() && brp > 0 && IsSplit(p.btc, 1 + t1 + t2, t1, t2) && Splittable(p.btc, 1 + t1 + t2)
    ensures NoWorse(p, NearestSplit(p, brp, 1 + t1 + t2), Candidate(brp, t1, t2))
  {
    NearestIsNearest(p.btc, 1 + t1 + t2, p.samplePoint, t1, t2);
    assert Candidate(brp, t1, t2).Tq() == 1 + t1 + t2;
  }

  lemma NoWorseTransitive(p: Problem, a: Candidate, b: Candidate, c: Candidate)
    requires p.Valid() && Proper(a) && Proper(b) && Proper(c) && NoWorse(p, a, b) && NoWorse(p, b, c)
    ensures NoWorse(p, a, c)
  {}

  /** No combination allowed at a prescaler is better than its best one. */
  lemma BestAllowedIsBest(p: Problem, brp: nat, t1: nat, t2: nat)
    requires p.Valid() && brp > 0 && AnyAllowed(p.btc) && IsSplit(p.btc, 1 + t1 + t2, t1, t2)
    ensures NoWorse(p, BestAllowed(p, brp), Candidate(brp, t1, t2))
  {
    MulIsPositive(brp, p.bitrate);
    var d, tq, c := brp * p.bitrate, 1 + t1 + t2, Candidate(brp, t1, t2);
    var exact, lo, hi := p.clock / d, FewestQuanta(p.btc), MostQuanta(p.btc);
    assert c.Tq() == tq;
    SplittableIsRange(p.btc, tq);
    ExactBetween(p.clock, d);
    NearestIsNoWorse(p, brp, t1, t2);
    if exact < lo {
      TicksOrdered(d, exact + 1, lo);
      if lo < tq { AboveIsRising(p, brp, lo, tq); }
    } else if exact >= hi {
      TicksOrdered(d, hi, exact);
      if tq < hi { BelowIsFalling(p, brp, tq, hi); }
    } else {
      NextToExact(p, brp, exact, c);
    }
  }

  lemma NextToExact(p: Problem, brp: nat, exact: nat, c: Candidate)
    requires p.Valid() && brp > 0 && AnyAllowed(p.btc) && c.brp == brp && IsSplit(p.btc, c.Tq(), c.tseg1, c.tseg2)
    requires FewestQuanta(p.btc) <= exact < MostQuanta(p.btc)
    requires Ticks(brp * p.bitrate, exact) <= p.clock < Ticks(brp * p.bitrate, exact + 1)
    ensures var below, above := NearestSplit(p, brp, exact), NearestSplit(p, brp, exact + 1);
      NoWorse(p, if NoWorse(p, below, above) then below else above, c)
  {
    var below, above := NearestSplit(p, brp, exact), NearestSplit(p, brp, exact + 1);
    SplittableIsRange(p.btc, c.Tq());
    NearestIsNoWorse(p, brp, c.tseg1, c.tseg2);
    if c.Tq() < exact {
      BelowIsFalling(p, brp, c.Tq(), exact);
      NoWorseTransitive(p, if NoWorse(p, below, above) then below else above, below, c);
    } else if c.Tq() == exact {
      NoWorseTransitive(p, if NoWorse(p, below, above) then below else above, below, c);
    } else {
      if c.Tq() > exact + 1 { AboveIsRising(p, brp, exact + 1, c.Tq()); }
      NoWorseTransitive(p, if NoWorse(p, below, above) then below else above, above, c);
    }
  }

  // ---- When the promise is kept ----

  /** The answer's bitrate error is the smallest of all allowed combinations. */
  ghost predicate LeastErrorKept(p: Problem)
    requires p.Valid()
  {
    forall brp: nat, t1: nat, t2: nat :: Allowed(p, brp, t1, t2) ==>
      && Selected(p).Some? && Proper(Selected(p).value)
      && ErrorOf(p, Selected(p).value) <= ErrorOf(p, Candidate(brp, t1, t2))
  }

  /** The whole promise, sample point included. */
  ghost predicate PromiseKept(p: Problem)
    requires p.Valid()
  {
    forall brp: nat, t1: nat, t2: nat :: Allowed(p, brp, t1, t2) ==>
      && Selected(p).Some? && Proper(Selected(p).value)
      && NoWorse(p, Selected(p).value, Candidate(brp, t1, t2))
  }

  /** A prescaler whose rounded quanta can be split has an error no larger than
      the best allowed combination of every grid prescaler. */
  ghost predicate RoundedReachesError(p: Problem, brp: nat)
    requires p.Valid() && AnyAllowed(p.btc)
  {
    && OnGrid(p, brp) && CandidateAt(p, brp).Some? && Proper(CandidateAt(p, brp).value)
    && forall b: nat :: OnGrid(p, b) ==> ErrorOf(p, CandidateAt(p, brp).value) <= ErrorOf(p, BestAllowed(p, b))
  }

  /** The same of the error and the sample point. */
  ghost predicate RoundedReachesBest(p: Problem, brp: nat)
    requires p.Valid() && AnyAllowed(p.btc)
  {
    && OnGrid(p, brp) && CandidateAt(p, brp).Some? && Proper(CandidateAt(p, brp).value)
    && forall b: nat :: OnGrid(p, b) ==> NoWorse(p, CandidateAt(p, brp).value, BestAllowed(p, b))
  }

  lemma SelectedIsCandidate(p: Problem)
    requires p.Valid() && Selected(p).Some?
    ensures var c := Selected(p).value; OnGrid(p, c.brp) && Proper(c) && CandidateAt(p, c.brp) == Some(c)
  {
    SelectedIsAccepted(p);
    AcceptedIsTheGrid(p, p.btc.brpMin, Selected(p).value);
  }

  lemma SelectedNoWorse(p: Problem, brp: nat)
    requires p.Valid() && Separated(p.clock, p.bitrate) && OnGrid(p, brp) && CandidateAt(p, brp).Some?
    ensures Selected(p).Some? && Proper(Selected(p).value) && Proper(CandidateAt(p, brp).value)
    ensures NoWorse(p, Selected(p).value, CandidateAt(p, brp).value)
  {
    var c := CandidateAt(p, brp).value;
    AcceptedIsTheGrid(p, p.btc.brpMin, c);
    LeastAccepted(p, c);
    SelectedIsCandidate(p);
  }

  /** The limits allow some combination exactly when neither range is empty. */
  lemma AllowedIffRanges(p: Problem)
    requires p.Valid()
    ensures AnyAllowed(p.btc) <==> exists brp: nat, t1: nat, t2: nat :: Allowed(p, brp, t1, t2)
  {
    if AnyAllowed(p.btc) { assert Allowed(p, p.btc.brpMin, p.btc.tseg1Min, p.btc.tseg2Min); }
  }

  /** The promised error is needed at the answer's own prescaler, with no
      assumption on magnitudes. */
  lemma PromiseNeedsRounded(p: Problem)
    requires p.Valid() && AnyAllowed(p.btc)
    ensures LeastErrorKept(p) ==> exists brp: nat :: RoundedReachesError(p, brp)
    ensures PromiseKept(p) ==> exists brp: nat :: RoundedReachesBest(p, brp)
  {
    AllowedIffRanges(p);
    if LeastErrorKept(p) || PromiseKept(p) {
      SelectedIsCandidate(p);
      var c := Selected(p).value;
      forall b: nat | OnGrid(p, b)
        ensures LeastErrorKept(p) ==> ErrorOf(p, c) <= ErrorOf(p, BestAllowed(p, b))
        ensures PromiseKept(p) ==> NoWorse(p, c, BestAllowed(p, b))
      {
        var best := BestAllowed(p, b);
        assert Allowed(p, b, best.tseg1, best.tseg2) && best == Candidate(b, best.tseg1, best.tseg2);
      }
      assert LeastErrorKept(p) ==> RoundedReachesError(p, c.brp);
      assert PromiseKept(p) ==> RoundedReachesBest(p, c.brp);
    }
  }

  lemma RoundedKeepsPromise(p: Problem, from: nat, brp: nat, t1: nat, t2: nat)
    requires p.Valid() && Separated(p.clock, p.bitrate) && AnyAllowed(p.btc) && Allowed(p, brp, t1, t2)
    requires OnGrid(p, from) && CandidateAt(p, from).Some?
    ensures Selected(p).Some? && Proper(Selected(p).value)
    ensures RoundedReachesError(p, from) ==> ErrorOf(p, Selected(p).value) <= ErrorOf(p, Candidate(brp, t1, t2))
    ensures RoundedReachesBest(p, from) ==> NoWorse(p, Selected(p).value, Candidate(brp, t1, t2))
  {
    SelectedNoWorse(p, from);
    BestAllowedIsBest(p, brp, t1, t2);
    if RoundedReachesBest(p, from) {
      NoWorseTransitive(p, Selected(p).value, CandidateAt(p, from).value, BestAllowed(p, brp));
      NoWorseTransitive(p, Selected(p).value, BestAllowed(p, brp), Candidate(brp, t1, t2));
    }
  }

  /** Under the separation bound the answer has the smallest bitrate error of
      all combinations the limits allow exactly when some prescaler whose
      rounded quanta can be split reaches the best allowed combination of every
      grid prescaler; and likewise for the error and then the sample point. If
      the limits allow nothing there is nothing to promise. */
  lemma HeaderClaimHolds(p: Problem)
    requires p.Valid() && Separated(p.clock, p.bitrate)
    ensures LeastErrorKept(p) <==> (AnyAllowed(p.btc) ==> exists brp: nat :: RoundedReachesError(p, brp))
    ensures PromiseKept(p) <==> (AnyAllowed(p.btc) ==> exists brp: nat :: RoundedReachesBest(p, brp))
  {
    AllowedIffRanges(p);
    if AnyAllowed(p.btc) {
      PromiseNeedsRounded(p);
      if from: nat :| RoundedReachesError(p, from) {
        forall brp: nat, t1: nat, t2: nat | Allowed(p, brp, t1, t2)
          ensures Selected(p).Some? && Proper(Selected(p).value)
          ensures ErrorOf(p, Selected(p).value) <= ErrorOf(p, Candidate(brp, t1, t2))
        {
          RoundedKeepsPromise(p, from, brp, t1, t2);
        }
      }
      if from: nat :| RoundedReachesBest(p, from) {
        forall brp: nat, t1: nat, t2: nat | Allowed(p, brp, t1, t2)
          ensures Selected(p).Some? && Proper(Selected(p).value)
          ensures NoWorse(p, Selected(p).value, Candidate(brp, t1, t2))
        {
          RoundedKeepsPromise(p, from, brp, t1, t2);
        }
      }
    }
  }

  // ---- When no solution is reported ----

  /** The rounded quanta are fewer than three or outside the allowed range. */
  predicate RoundsOutside(p: Problem, brp: nat)
    requires p.Valid() && brp > 0 && brp * p.bitrate > 0
  {
    var tq := Quanta(p.clock, brp * p.bitrate);
    tq < Max(3, FewestQuanta(p.btc)) || tq > MostQuanta(p.btc)
  }

  /** No solution is reported although the limits allow some combination exactly
      when every grid prescaler rounds outside the allowed quanta. */
  lemma NoSolutionDespiteAllowedIff(p: Problem)
    requires p.Valid()
    ensures Selected(p).None? && (exists brp: nat, t1: nat, t2: nat :: Allowed(p, brp, t1, t2)) <==>
      AnyAllowed(p.btc) && forall brp: nat :: OnGrid(p, brp) ==> brp * p.bitrate > 0 && RoundsOutside(p, brp)
  {
    AllowedIffRanges(p);
    if AnyAllowed(p.btc) {
      forall brp: nat | OnGrid(p, brp)
        ensures brp * p.bitrate > 0 && (RoundsOutside(p, brp) <==> CandidateAt(p, brp).None?)
      {
        MulIsPositive(brp, p.bitrate);
        if Quanta(p.clock, brp * p.bitrate) > 0 { SplittableIsRange(p.btc, Quanta(p.clock, brp * p.bitrate)); }
      }
      SelectedIsAccepted(p);
      if Selected(p).None? {
        forall brp: nat | OnGrid(p, brp) ensures CandidateAt(p, brp).None? {
          if CandidateAt(p, brp).Some? { AcceptedIsTheGrid(p, p.btc.brpMin, CandidateAt(p, brp).value); }
        }
      } else {
        SelectedIsCandidate(p);
      }
    }
  }

  // ---- What is lost ----

  lemma UnroundedTicks(clock: nat, d: nat, other: nat)
    requires d > 0 && other >= 1 && other != Quanta(clock, d)
    ensures 2 * IntAbs(clock - Ticks(d, other)) >= d
  {
    var tq := Quanta(clock, d);
    RoundingDistance(clock, d);
    if other < tq { OneMore(d, other, tq); } else { OneMore(d, tq, other); }
  }

  lemma OneMore(d: nat, a: nat, b: nat)
    requires a < b
    ensures Ticks(d, a) + d <= Ticks(d, b)
  {
    MulLess(d, a, b);
  }

  /** Counts the code did not round to have an error of at least half a count. */
  lemma UnroundedIsFar(p: Problem, brp: nat, other: nat)
    requires p.Valid() && brp > 0 && brp * p.bitrate > 0 && other >= 1 && other != Quanta(p.clock, brp * p.bitrate)
    ensures 2.0 * other as real * BitrateError(p, brp, other) >= 1.0
  {
    UnroundedTicks(p.clock, brp * p.bitrate, other);
    ErrorIsRelative(p, brp, other);
    FarError(BitrateError(p, brp, other), p.clock, brp * p.bitrate, other);
  }

  lemma FarError(e: real, clock: nat, d: nat, other: nat)
    requires d > 0 && Relative(e, clock, Ticks(d, other)) && 2 * IntAbs(clock - Ticks(d, other)) >= d
    ensures 2.0 * other as real * e >= 1.0
  {
    FractionOfTicks(e, clock, d, other);
    HalfOrMore(e, d as real, other as real, IntAbs(clock - Ticks(d, other)) as real);
  }

  lemma HalfOrMore(e: real, d: real, t: real, a: real)
    requires d > 0.0 && 2.0 * a >= d && IsFraction(e, d, t, a)
    ensures 2.0 * t * e >= 1.0
  {
    assert (2.0 * t * e) * d == 2.0 * (e * (d * t));
    MulCancel(1.0, 2.0 * t * e, d, d, 2.0 * a);
  }

  /** e is at most f with the drift, scaled by how much larger the quanta t are
      than q, if they are. */
  ghost predicate WithinRatio(q: nat, e: real, t: nat, f: real, drift: real) {
    q as real * e <= Max(q, t) as real * (f + drift)
  }

  lemma DriftNonNegative(p: Problem)
    requires p.Valid() && Selected(p).Some?
    ensures Drift(p) >= 0.0
  {
    SelectedIsAccepted(p);
  }

  lemma LossWhenNotRounded(p: Problem, brp: nat, tq: nat, q: nat, e: real, drift: real)
    requires p.Valid() && brp > 0 && brp * p.bitrate > 0 && tq >= 1 && tq != Quanta(p.clock, brp * p.bitrate)
    requires HalfQuantum(e, q) && drift >= 0.0
    ensures WithinRatio(q, e, tq, BitrateError(p, brp, tq), drift)
  {
    UnroundedIsFar(p, brp, tq);
    BitrateErrorNonNegative(p, brp, tq);
    HalvesCompare(q, e, tq, BitrateError(p, brp, tq), drift);
  }

  lemma LossWhenRounded(p: Problem, brp: nat, t1: nat, t2: nat)
    requires p.Valid() && Feasible(p, brp, t1, t2)
    ensures Selected(p).Some? && Proper(Selected(p).value) && brp > 0
    ensures WithinRatio(Selected(p).value.Tq(), ErrorOf(p, Selected(p).value), 1 + t1 + t2,
                        BitrateError(p, brp, 1 + t1 + t2), Drift(p))
  {
    DriftBound(p, brp, t1, t2);
    DriftNonNegative(p);
    SelectedIsCandidate(p);
    BitrateErrorNonNegative(p, brp, 1 + t1 + t2);
    ScaleUp(Selected(p).value.Tq(), ErrorOf(p, Selected(p).value), 1 + t1 + t2,
            BitrateError(p, brp, 1 + t1 + t2), Drift(p));
  }

  /** Over all allowed combinations but those of one or two quanta that the code
      rounds to and then refuses, the answer's error exceeds theirs at most by
      the ratio of the quanta, and not at all where that is below one, up to the
      drift. */
  lemma LossIsBounded(p: Problem, brp: nat, t1: nat, t2: nat)
    requires p.Valid() && Allowed(p, brp, t1, t2) && Selected(p).Some?
    requires 1 + t1 + t2 >= 3 || !IsRounded(p, brp, 1 + t1 + t2)
    ensures Proper(Selected(p).value)
    ensures WithinRatio(Selected(p).value.Tq(), ErrorOf(p, Selected(p).value), 1 + t1 + t2,
                        BitrateError(p, brp, 1 + t1 + t2), Drift(p))
  {
    MulIsPositive(brp, p.bitrate);
    if 1 + t1 + t2 == Quanta(p.clock, brp * p.bitrate) {
      LossWhenRounded(p, brp, t1, t2);
    } else {
      AnswerWithinASixth(p);
      DriftNonNegative(p);
      LossWhenNotRounded(p, brp, 1 + t1 + t2, Selected(p).value.Tq(), ErrorOf(p, Selected(p).value), Drift(p));
    }
  }

  lemma HalvesCompare(q: nat, e: real, t: nat, f: real, drift: real)
    requires HalfQuantum(e, q) && 2.0 * t as real * f >= 1.0 && f >= 0.0 && drift >= 0.0
    ensures WithinRatio(q, e, t, f, drift)
  {
    MulMonotone(t as real, Max(q, t) as real, f);
    MulMonotone(f, f + drift, Max(q, t) as real);
  }

  lemma ScaleUp(q: nat, e: real, t: nat, f: real, drift: real)
    requires e <= f + drift && f >= 0.0 && drift >= 0.0
    ensures WithinRatio(q, e, t, f, drift)
  {
    MulMonotone(e, f + drift, q as real);
    MulMonotone(q as real, Max(q, t) as real, f + drift);
  }

  // ---- Inputs for which the promise is broken ----

  /** A 345 Hz clock asked for 100 bit/s with one prescaler: 3.45 quanta. */
  function RoundingExample(): Problem {
    Problem(345, 100, 0.875, BittimingConst(1, 16, 1, 8, 4, 1, 1, 1))
  }

  /** A 2551 Hz clock asked for 100 bit/s with prescalers one and three: at one
      the rounded 26 quanta are one too many. */
  function RejectedExample(brpMax: u32): Problem {
    Problem(2551, 100, 0.875, BittimingConst(1, 16, 1, 8, 4, 1, brpMax, 2))
  }

  lemma KeepsTheOnlyCandidate(p: Problem, c: Candidate)
    requires p.Valid() && Accepted(p, p.btc.brpMin) == [c]
    ensures Selected(p) == Some(c)
  {
    AcceptedProper(p, p.btc.brpMin);
    assert [c][1..] == [];
  }

  lemma RoundingExampleCandidates()
    ensures var p := RoundingExample(); p.Valid() && Accepted(p, 1) == [Candidate(1, 1, 1)]
  {
    var p := RoundingExample();
    assert Quanta(345, 100) == 3;
    assert CandidateAt(p, 1) == Some(Candidate(1, 1, 1));
    assert Accepted(p, 2) == [];
  }

  lemma RejectedExampleCandidates()
    ensures var p := RejectedExample(1); p.Valid() && Accepted(p, 1) == []
    ensures var p := RejectedExample(3); p.Valid() && Accepted(p, 1) == [Candidate(3, 7, 1)]
  {
    var p, r := RejectedExample(1), RejectedExample(3);
    assert Quanta(2551, 100) == 26 && Quanta(2551, 300) == 9;
    assert CandidateAt(p, 1) == None && CandidateAt(r, 1) == None;
    assert CandidateAt(r, 3) == Some(Candidate(3, 7, 1));
    assert Accepted(p, 3) == [] && Accepted(r, 5) == [];
    assert Accepted(r, 3) == [Candidate(3, 7, 1)];
  }

  lemma ExampleError(p: Problem, brp: nat, tq: nat, m: nat, n: nat)
    requires p.Valid() && brp > 0 && tq > 0 && Ticks(brp * p.bitrate, tq) == m && IntAbs(p.clock - m) == n
    ensures BitrateError(p, brp, tq) * m as real == n as real
  {
    ErrorIsRelative(p, brp, tq);
  }

  /** With 3.45 quanta to a bit the search settles on three, and four quanta,
      also allowed, have a smaller error: the rounding is to blame. */
  lemma HeaderClaimFails()
    ensures var p := RoundingExample();
      && p.Valid() && p.btc.CounterFits() && Separated(p.clock, p.bitrate)
      && Selected(p) == Some(Candidate(1, 1, 1)) && Allowed(p, 1, 2, 1)
      && BitrateError(p, 1, 4) < ErrorOf(p, Candidate(1, 1, 1))
  {
    var p := RoundingExample();
    RoundingExampleCandidates();
    KeepsTheOnlyCandidate(p, Candidate(1, 1, 1));
    ExampleError(p, 1, 3, 300, 45);
    ExampleError(p, 1, 4, 400, 55);
  }

  /** A prescaler whose rounded quanta cannot be split may be the better one
      with another count: nine quanta at prescaler three are the best there,
      and 25 quanta at prescaler one have less than half the error. */
  lemma HeaderClaimFailsAcross()
    ensures var p := RejectedExample(3);
      && p.Valid() && p.btc.CounterFits() && Separated(p.clock, p.bitrate)
      && Selected(p) == Some(Candidate(3, 7, 1)) && RoundsToBest(p.clock, 3 * p.bitrate, 9)
      && Allowed(p, 1, 16, 8)
      && 2.0 * BitrateError(p, 1, 25) < BitrateError(p, 3, 9)
  {
    RejectedExampleAnswer();
    RejectedExampleAllows();
    RejectedExampleErrors();
  }

  lemma RejectedExampleAnswer()
    ensures var p := RejectedExample(3);
      && p.Valid() && p.btc.CounterFits() && Separated(p.clock, p.bitrate)
      && Selected(p) == Some(Candidate(3, 7, 1)) && RoundsToBest(p.clock, 3 * p.bitrate, 9)
  {
    RejectedExampleCandidates();
    RejectedExampleKeeps(RejectedExample(3));
  }

  lemma RejectedExampleAllows()
    ensures var p := RejectedExample(1); p.Valid() && Allowed(p, 1, 16, 8)
    ensures var p := RejectedExample(3); p.Valid() && Allowed(p, 1, 16, 8)
  {}

  lemma RejectedExampleKeeps(p: Problem)
    requires p.Valid() && p.btc.brpMin == 1 && Accepted(p, 1) == [Candidate(3, 7, 1)]
    ensures Selected(p) == Some(Candidate(3, 7, 1))
  {
    KeepsTheOnlyCandidate(p, Candidate(3, 7, 1));
  }

  lemma RejectedExampleErrors()
    ensures var p := RejectedExample(3); 2.0 * BitrateError(p, 1, 25) < BitrateError(p, 3, 9)
  {
    var p := RejectedExample(3);
    ExampleError(p, 3, 9, 2700, 149);
    ExampleError(p, 1, 25, 2500, 51);
    TwiceSmaller(BitrateError(p, 3, 9), BitrateError(p, 1, 25));
  }

  lemma TwiceSmaller(e: real, f: real)
    requires e * 2700.0 == 149.0 && f * 2500.0 == 51.0
    ensures 2.0 * f < e
  {}

  lemma KeepsNothing(p: Problem, brp: nat)
    requires p.Valid() && brp == p.btc.brpMin && Accepted(p, brp) == []
    ensures Selected(p).None?
  {
    SelectedIsAccepted(p);
  }

  lemma RejectedExampleKeepsNothing()
    ensures var p := RejectedExample(1); p.Valid() && Selected(p).None?
  {
    RejectedExampleCandidates();
    KeepsNothing(RejectedExample(1), 1);
  }

  /** Without the second prescaler no solution is reported, although 25 quanta
      at the first are allowed. */
  lemma NoSolutionDespiteAllowed()
    ensures var p := RejectedExample(1);
      && p.Valid() && p.btc.CounterFits() && Selected(p).None? && Allowed(p, 1, 16, 8)
  {
    RejectedExampleKeepsNothing();
    RejectedExampleAllows();
  }
}
