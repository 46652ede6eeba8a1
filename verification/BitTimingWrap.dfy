/** What a loop counter that wraps does to the answer of the bit-timing search:
    exactly which limits keep every answer on the grid. */
module BitTimingWrap {
  import opened Words
  import opened RealArith
  import opened BitTiming
  import opened BitTimingCounter
  import opened BitTimingErrors

  // ---- Values off the grid ----

  /** The first positive value after the counter has stepped past the last grid
      prescaler and wrapped. */
  function WrappedTo(btc: BittimingConst): int {
    if btc.LastBrp() + btc.Inc() > WORD then btc.LastBrp() + btc.Inc() - WORD else btc.Inc()
  }

  /** No positive value off the grid is tried: the counter does not wrap, or it
      wraps to zero, which the loop passes over, and leaves the loop from there. */
  predicate StaysOnGrid(btc: BittimingConst) {
    btc.CounterFits() || (btc.LastBrp() + btc.Inc() == WORD && btc.Inc() > btc.brpMax)
  }

  lemma LeavesOverZero(btc: BittimingConst, grid: iset<int>, last: u32, n: nat, x: u32)
    requires ClimbsTo(btc, grid, last) && (forall b: u32 :: b in grid && b <= btc.brpMax ==> b <= last)
    requires btc.brpMin in grid && NextBrp(btc, last) == 0 && NextBrp(btc, 0) > btc.brpMax
    requires Takes(btc, btc.brpMin, n, x)
    ensures x == 0 || x in grid
  {
    var inside := iset b: int | b == 0 || b in grid;
    StaysInside(btc, inside, btc.brpMin, n, x);
  }

  lemma StayingTakesGridOrZero(btc: BittimingConst, n: nat, x: u32)
    requires btc.brpMin <= btc.brpMax && StaysOnGrid(btc) && Takes(btc, btc.brpMin, n, x)
    ensures x == 0 || x in Grid(btc)
  {
    StepsToLast(btc);
    if btc.CounterFits() {
      FittingWalks(btc);
      StaysInside(btc, Grid(btc), btc.brpMin, n, x);
    } else {
      LeavesOverZero(btc, Grid(btc), btc.LastBrp(), n, x);
    }
  }

  /** Otherwise the value wrapped to is tried, and it is off the grid. */
  lemma StrayIsTaken(btc: BittimingConst, n: nat)
    requires 0 < btc.brpMin <= btc.brpMax && !StaysOnGrid(btc) && EndsWithin(btc, btc.brpMin, n)
    ensures 0 < WrappedTo(btc) <= btc.brpMax && WrappedTo(btc) <= btc.Inc()
    ensures Takes(btc, btc.brpMin, n, WrappedTo(btc)) && WrappedTo(btc) !in Grid(btc)
  {
    StepsToLast(btc);
    var last: u32 := btc.LastBrp();
    TakesTheLast(btc, Grid(btc), last, btc.brpMin, n);
    TakesOn(btc, btc.brpMin, n, last);
    if NextBrp(btc, last) == 0 {
      TakesOn(btc, btc.brpMin, n, 0);
      if WrappedTo(btc) in Grid(btc) { WrapOverZeroNeverEnds(btc, Grid(btc), last, btc.brpMin, n); }
    } else if WrappedTo(btc) in Grid(btc) {
      WrapToGridNeverEnds(btc, Grid(btc), last, btc.brpMin, n);
    }
  }

  // ---- Every answer on the grid ----

  predicate SameBrps(a: BittimingConst, b: BittimingConst) {
    a.brpMin == b.brpMin && a.brpMax == b.brpMax && a.brpInc == b.brpInc
  }

  /** Whatever is asked of a device with these prescaler limits, the answer's
      prescaler is on the grid. */
  ghost predicate AnswersOnGrid(btc: BittimingConst) {
    forall p: Problem :: p.Valid() && SameBrps(p.btc, btc) ==>
      LoopEnds(p.btc) && (Kept(p).Some? ==> Kept(p).value.brp in Grid(btc))
  }

  lemma {:induction false} AcceptedIsTaken(p: Problem, brp: u32, n: nat, c: Candidate)
    requires p.Valid() && c in AcceptedWithin(p, brp, n)
    ensures 0 < c.brp < WORD && Takes(p.btc, brp, n, c.brp)
    decreases n
  {
    if !(brp > 0 && CandidateAt(p, brp) == Some(c)) {
      AcceptedIsTaken(p, NextBrp(p.btc, brp), n - 1, c);
    }
  }

  lemma {:induction false} TakenIsAccepted(p: Problem, brp: u32, n: nat, x: u32)
    requires p.Valid() && x > 0 && Takes(p.btc, brp, n, x) && CandidateAt(p, x).Some?
    ensures CandidateAt(p, x).value in AcceptedWithin(p, brp, n)
    decreases n
  {
    if brp != x { TakenIsAccepted(p, NextBrp(p.btc, brp), n - 1, x); }
  }

  /** Prescalers that stay on the grid keep every answer there. */
  lemma StayingAnswersOnGrid(btc: BittimingConst)
    requires 0 < btc.brpMin <= btc.brpMax && LoopEnds(btc) && StaysOnGrid(btc)
    ensures AnswersOnGrid(btc)
  {
    forall p: Problem | p.Valid() && SameBrps(p.btc, btc)
      ensures LoopEnds(p.btc) && (Kept(p).Some? ==> Kept(p).value.brp in Grid(btc))
    {
      if Kept(p).Some? {
        KeptIsAccepted(p);
        KeptIsOneOf(p);
        AcceptedIsTaken(p, p.btc.brpMin, Iterations(p.btc), Kept(p).value);
        StayingTakesGridOrZero(p.btc, Iterations(p.btc), Kept(p).value.brp);
        assert Stepped(btc, Kept(p).value.brp);
      }
    }
  }

  lemma KeptIsOneOf(p: Problem)
    requires p.Valid() && LoopEnds(p.btc) && Kept(p).Some?
    ensures Kept(p).value in AcceptedWithin(p, p.btc.brpMin, Iterations(p.btc))
  {
    WithinIsSound(p, p.btc.brpMin, Iterations(p.btc));
    var cs := AcceptedWithin(p, p.btc.brpMin, Iterations(p.btc));
    assert cs != [] && cs[0] in cs;
  }

  // ---- An answer off the grid ----

  /** A request that prescaler x answers exactly, in three quanta, which is all
      that the segment limits leave. */
  function AskFor(btc: BittimingConst, x: nat): Problem
    requires 3 * x < WORD
  {
    Problem(3 * x, 1, 0.5, btc.(tseg1Min := 1, tseg1Max := 1, tseg2Min := 1, tseg2Max := 1))
  }

  /** All its candidates have three quanta; the one at x has no error, and every
      other error is clear of the tolerance. */
  lemma AskedCandidate(btc: BittimingConst, x: nat, c: Candidate)
    requires 0 < 3 * x < WORD && 0 < btc.brpMin <= btc.brpMax && 0 < c.brp < WORD
    requires var p := AskFor(btc, x); p.Valid() && CandidateAt(p, c.brp) == Some(c)
    ensures c.tseg1 == 1 && c.tseg2 == 1
    ensures if c.brp == x then ErrorOf(AskFor(btc, x), c) == 0.0 else ErrorOf(AskFor(btc, x), c) > TOLERANCE
  {
    var p := AskFor(btc, x);
    assert c.tseg1 == 1 && c.tseg2 == 1;
    ErrorIsRelative(p, c.brp, 3);
    assert Ticks(c.brp * p.bitrate, 3) == 3 * c.brp;
    RelativeToThree(ErrorOf(p, c), x, c.brp);
  }

  lemma RelativeToThree(e: real, x: nat, b: nat)
    requires 0 < b < WORD && Relative(e, 3 * x, 3 * b)
    ensures if b == x then e == 0.0 else e > TOLERANCE
  {
    var n := IntAbs(3 * x - 3 * b);
    assert if b == x then n == 0 else n >= 3;
    ClearOrZero(e, (3 * b) as real, n as real);
  }

  lemma ClearOrZero(e: real, m: real, n: real)
    requires 0.0 < m < 12_884_901_888.0 && e * m == n
    ensures n == 0.0 ==> e == 0.0
    ensures n >= 3.0 ==> e > TOLERANCE
  {
    if e > 0.0 { MulPositive(e, m); }
    if e < 0.0 { MulPositive(-e, m); }
    if n >= 3.0 && e <= TOLERANCE { MulMonotone(e, TOLERANCE, m); }
  }

  lemma ExactIsCandidate(btc: BittimingConst, x: nat)
    requires 0 < 3 * x < WORD && 0 < btc.brpMin <= btc.brpMax
    ensures var p := AskFor(btc, x); p.Valid() && CandidateAt(p, x) == Some(Candidate(x, 1, 1))
  {
    var p := AskFor(btc, x);
    ThreeQuanta(x);
    assert x * p.bitrate == x;
  }

  lemma ThreeQuanta(x: nat)
    requires x > 0
    ensures Quanta(3 * x, x) == 3
  {
    QuotientIs(3 * x + x / 2, x, 3, x / 2);
  }

  /** An exact candidate among ones that are clear of the tolerance is kept. */
  lemma {:induction false} ExactIsKept(p: Problem, best: Candidate, cs: seq<Candidate>, d: Candidate)
    requires p.Valid() && Proper(best) && AllProper(cs) && Proper(d) && ErrorOf(p, d) == 0.0
    requires best == d || ErrorOf(p, best) > TOLERANCE
    requires forall i :: 0 <= i < |cs| ==> cs[i] == d || ErrorOf(p, cs[i]) > TOLERANCE
    requires best == d || d in cs
    ensures Keep(p, best, cs) == d
    decreases cs
  {
    if cs != [] {
      var next := if Better(p, cs[0], best) then cs[0] else best;
      assert forall i :: 0 <= i < |cs[1..]| ==> cs[1..][i] == cs[i + 1];
      if next != d {
        assert cs[0] != d;
        var i :| 0 <= i < |cs| && cs[i] == d;
        assert cs[1..][i - 1] == d;
      }
      ExactIsKept(p, next, cs[1..], d);
    }
  }

  /** Every positive value that the counter takes is the answer to some request,
      if a clock can be three times as large. */
  lemma TakenIsAnswer(btc: BittimingConst, n: nat, x: u32)
    requires 0 < btc.brpMin <= btc.brpMax && EndsWithin(btc, btc.brpMin, n) && Takes(btc, btc.brpMin, n, x)
    requires 0 < 3 * x < WORD
    ensures var p := AskFor(btc, x);
      && p.Valid() && SameBrps(p.btc, btc) && LoopEnds(p.btc) && Kept(p) == Some(Candidate(x, 1, 1))
  {
    var p, d := AskFor(btc, x), Candidate(x, 1, 1);
    SameWalk(btc, p.btc, btc.brpMin, n, x);
    EndingNeedsRoom(p.btc, p.btc.brpMin, n);
    var m := Iterations(p.btc);
    TakesWithin(p.btc, p.btc.brpMin, n, m, x);
    ExactIsCandidate(btc, x);
    TakenIsAccepted(p, p.btc.brpMin, m, x);
    WithinIsSound(p, p.btc.brpMin, m);
    var cs := AcceptedWithin(p, p.btc.brpMin, m);
    forall i | 0 <= i < |cs| ensures cs[i] == d || ErrorOf(p, cs[i]) > TOLERANCE {
      assert cs[i] in cs;
      AskedCandidate(btc, x, cs[i]);
    }
    AskedCandidate(btc, x, d);
    OneIsFirst(cs, d);
    ExactIsKept(p, cs[0], cs[1..], d);
  }

  lemma OneIsFirst<T>(s: seq<T>, x: T)
    requires x in s
    ensures s != [] && (s[0] == x || x in s[1..])
  {
    var i :| 0 <= i < |s| && s[i] == x;
    if i > 0 { assert s[1..][i - 1] == x; }
  }

  lemma {:induction false} SameWalk(a: BittimingConst, b: BittimingConst, brp: u32, n: nat, x: u32)
    requires SameBrps(a, b)
    ensures Takes(a, brp, n, x) == Takes(b, brp, n, x) && EndsWithin(a, brp, n) == EndsWithin(b, brp, n)
    decreases n
  {
    if n > 0 { SameWalk(a, b, NextBrp(a, brp), n - 1, x); }
  }

  lemma {:induction false} TakesWithin(btc: BittimingConst, brp: u32, n: nat, m: nat, x: u32)
    requires Takes(btc, brp, n, x) && EndsWithin(btc, brp, m)
    ensures Takes(btc, brp, m, x)
    decreases n
  {
    if brp != x { TakesWithin(btc, NextBrp(btc, brp), n - 1, m - 1, x); }
  }

  /** Limits that do not stay on the grid have an answer off it, if a clock can
      be three times the value wrapped to. */
  lemma WrappedValueAnswers(btc: BittimingConst)
    requires 0 < btc.brpMin <= btc.brpMax && LoopEnds(btc) && !StaysOnGrid(btc) && 3 * WrappedTo(btc) < WORD
    ensures !AnswersOnGrid(btc)
  {
    var n := Iterations(btc);
    StrayIsTaken(btc, n);
    TakenIsAnswer(btc, n, WrappedTo(btc));
  }

  /** Of limits whose loop ends and whose brpMax or increment is below a third of
      the uint32 range: every answer is on the grid exactly when the counter
      does not wrap, or wraps to zero and leaves the loop from there. */
  lemma AnswersOnGridIff(btc: BittimingConst)
    requires 0 < btc.brpMin <= btc.brpMax && LoopEnds(btc)
    requires 3 * btc.brpMax < WORD || 3 * btc.Inc() < WORD
    ensures AnswersOnGrid(btc) <==> StaysOnGrid(btc)
  {
    if StaysOnGrid(btc) {
      StayingAnswersOnGrid(btc);
    } else {
      StrayIsTaken(btc, Iterations(btc));
      WrappedValueAnswers(btc);
    }
  }

  // ---- A small example ----

  /** A 300 Hz clock asked for 100 bit/s with prescalers from two to three, in
      steps that take the counter from 2 to 1 to 0 and out of the loop. */
  function WrapExample(): Problem {
    Problem(300, 100, 0.5, BittimingConst(1, 16, 1, 8, 4, 2, 3, 0xffff_ffff))
  }

  lemma {:induction false} EndsUniquely(p: Problem, brp: u32, n: nat, m: nat)
    requires p.Valid() && EndsWithin(p.btc, brp, n) && EndsWithin(p.btc, brp, m)
    ensures AcceptedWithin(p, brp, n) == AcceptedWithin(p, brp, m)
    decreases n
  {
    if brp <= p.btc.brpMax { EndsUniquely(p, NextBrp(p.btc, brp), n - 1, m - 1); }
  }

  lemma WrapExampleCandidates()
    ensures var p := WrapExample();
      EndsWithin(p.btc, 2, 3) && AcceptedWithin(p, 2, 3) == [Candidate(1, 1, 1)]
  {
    var p := WrapExample();
    assert NextBrp(p.btc, 2) == 1 && NextBrp(p.btc, 1) == 0 && NextBrp(p.btc, 0) == 0xffff_ffff;
    assert EndsWithin(p.btc, 0xffff_ffff, 0);
    assert EndsWithin(p.btc, 0, 1);
    assert EndsWithin(p.btc, 1, 2);
    assert CandidateAt(p, 2) == None;
    assert CandidateAt(p, 1) == Some(Candidate(1, 1, 1));
    assert AcceptedWithin(p, 0, 1) == [];
    assert AcceptedWithin(p, 1, 2) == [Candidate(1, 1, 1)];
  }

  lemma KeepsTheOnlyOne(p: Problem, n: nat, c: Candidate)
    requires p.Valid() && EndsWithin(p.btc, p.btc.brpMin, n) && AcceptedWithin(p, p.btc.brpMin, n) == [c]
    ensures LoopEnds(p.btc) && Kept(p) == Some(c)
  {
    LoopEndsIff(p.btc);
    EndsUniquely(p, p.btc.brpMin, n, Iterations(p.btc));
    WithinIsSound(p, p.btc.brpMin, n);
    assert [c][1..] == [];
  }

  lemma WrapExampleKeeps(p: Problem)
    requires p.Valid() && p.btc.brpMin == 2 && EndsWithin(p.btc, 2, 3) && AcceptedWithin(p, 2, 3) == [Candidate(1, 1, 1)]
    ensures LoopEnds(p.btc) && Kept(p) == Some(Candidate(1, 1, 1))
  {
    KeepsTheOnlyOne(p, 3, Candidate(1, 1, 1));
  }

  lemma WrapExampleDoesNotFit()
    ensures WrapExample().Valid() && !WrapExample().btc.CounterFits()
  {}

  /** Where the counter wraps and the loop still ends, the answer can be
      outside the limits: here below brpMin. */
  lemma WrappedAnswerLeavesLimits()
    ensures var p := WrapExample();
      && p.Valid() && LoopEnds(p.btc) && !p.btc.CounterFits()
      && Kept(p) == Some(Candidate(1, 1, 1)) && 1 < p.btc.brpMin
  {
    WrapExampleCandidates();
    WrapExampleKeeps(WrapExample());
    WrapExampleDoesNotFit();
  }
}
