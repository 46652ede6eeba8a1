/** What the bit-timing search achieves, over every clock, bitrate, sample
    point and set of device limits. */
module BitTimingTheorems {
  import opened Words
  import opened RealArith
  import opened BitTiming
  import opened BitTimingErrors
  import opened BitTimingSearch

  // ---- The loop visits the grid ----

  ghost predicate OnGrid(p: Problem, brp: nat) {
    brp <= p.btc.brpMax && Stepped(p.btc, brp)
  }

  ghost predicate IsMultiple(d: int, inc: nat) { exists k: nat :: d == Times(k, inc) }

  function Times(k: nat, inc: nat): nat { k * inc }

  /** The grid in numbers: brp_min and whole steps of brp_inc, or of one if that
      is zero, up to brp_max. */
  lemma GridInNumbers(p: Problem, brp: nat)
    requires p.Valid()
    ensures OnGrid(p, brp) <==>
      brp <= p.btc.brpMax && IsMultiple(brp - p.btc.brpMin, if p.btc.brpInc == 0 then 1 else p.btc.brpInc)
  {
    var inc, d := p.btc.Inc(), brp - p.btc.brpMin;
    if OnGrid(p, brp) {
      assert d == inc * (d / inc) + d % inc;
      assert d == Times(d / inc, inc);
    }
    forall k: nat | d == Times(k, inc) ensures d >= 0 && d % inc == 0 {
      ModOfMultiple(inc, k);
    }
  }

  /** The accepted candidates are those of the grid points that have one. */
  lemma {:induction false} AcceptedIsTheGrid(p: Problem, from: nat, c: Candidate)
    requires p.Valid() && Stepped(p.btc, from)
    ensures c in Accepted(p, from) <==>
      c.brp >= from && OnGrid(p, c.brp) && CandidateAt(p, c.brp) == Some(c)
    decreases p.btc.brpMax + 1 - from
  {
    if from <= p.btc.brpMax {
      NextMultiple(from - p.btc.brpMin, if c.brp > from then c.brp - p.btc.brpMin else 0, p.btc.Inc());
      AcceptedIsTheGrid(p, from + p.btc.Inc(), c);
    }
  }

  /** The accepted candidates come in increasing prescaler order. */
  lemma {:induction false} AcceptedIncreases(p: Problem, from: nat)
    requires p.Valid() && from > 0
    ensures forall i :: 0 <= i < |Accepted(p, from)| ==> Accepted(p, from)[i].brp >= from
    ensures Increasing(Accepted(p, from))
    decreases p.btc.brpMax + 1 - from
  {
    if from <= p.btc.brpMax {
      AcceptedIncreases(p, from + p.btc.Inc());
    }
  }

  ghost predicate Increasing(cs: seq<Candidate>) {
    forall i, j :: 0 <= i < j < |cs| ==> cs[i].brp < cs[j].brp
  }

  // ---- Drift of the kept error ----

  /** The kept bitrate error exceeds no seen one by more than one tolerance a
      comparison, although ties may overwrite it upwards. */
  lemma {:induction false} KeepDrifts(p: Problem, best: Candidate, cs: seq<Candidate>)
    requires p.Valid() && Proper(best) && AllProper(cs)
    ensures ErrorOf(p, Keep(p, best, cs)) <= ErrorOf(p, best) + |cs| as real * TOLERANCE
    ensures forall i :: 0 <= i < |cs| ==>
      ErrorOf(p, Keep(p, best, cs)) <= ErrorOf(p, cs[i]) + |cs| as real * TOLERANCE
    decreases cs
  {
    if cs != [] {
      var next := if Better(p, cs[0], best) then cs[0] else best;
      KeepDrifts(p, next, cs[1..]);
      assert |cs| as real * TOLERANCE == |cs[1..]| as real * TOLERANCE + TOLERANCE;
      assert forall i :: 0 < i < |cs| ==> cs[i] == cs[1..][i - 1];
      forall i | 0 <= i < |cs|
        ensures ErrorOf(p, Keep(p, best, cs)) <= ErrorOf(p, cs[i]) + |cs| as real * TOLERANCE
      {
        if i > 0 { assert cs[i] == cs[1..][i - 1]; }
      }
    }
  }

  // ---- The lexicographic order ----

  /** a is at least as good as b: bitrate error first, then sample-point
      error, then the smaller prescaler. */
  ghost predicate LexLe(p: Problem, a: Candidate, b: Candidate)
    requires p.Valid() && Proper(a) && Proper(b)
  {
    || ErrorOf(p, a) < ErrorOf(p, b)
    || (&& ErrorOf(p, a) == ErrorOf(p, b)
        && (|| SpErrorOf(p, a) < SpErrorOf(p, b)
            || (SpErrorOf(p, a) == SpErrorOf(p, b) && a.brp <= b.brp)))
  }

  ghost predicate Apart(p: Problem, a: Candidate, b: Candidate)
    requires p.Valid() && Proper(a) && Proper(b)
  {
    ErrorOf(p, a) > ErrorOf(p, b) ==> ErrorOf(p, a) > ErrorOf(p, b) + TOLERANCE
  }

  ghost predicate AllApart(p: Problem, cs: seq<Candidate>)
    requires p.Valid() && AllProper(cs)
  {
    forall i, j :: 0 <= i < |cs| && 0 <= j < |cs| ==> Apart(p, cs[i], cs[j])
  }

  /** When errors are equal or clearly different, the tolerant comparison is
      the exact one and the kept candidate is the least. */
  lemma {:induction false} KeepIsLeast(p: Problem, best: Candidate, cs: seq<Candidate>)
    requires p.Valid() && AllProper([best] + cs)
    requires Proper(best) && AllProper(cs)
    requires AllApart(p, [best] + cs) && Increasing([best] + cs)
    ensures LexLe(p, Keep(p, best, cs), best)
    ensures forall i :: 0 <= i < |cs| ==> LexLe(p, Keep(p, best, cs), cs[i])
    decreases cs
  {
    if cs != [] {
      var next := if Better(p, cs[0], best) then cs[0] else best;
      var all := [best] + cs;
      var rest := [next] + cs[1..];
      assert all[0] == best && all[1] == cs[0];
      assert Apart(p, all[0], all[1]) && Apart(p, all[1], all[0]) && all[0].brp < all[1].brp;
      assert LexLe(p, next, best) && LexLe(p, next, cs[0]);
      forall i | 0 < i < |rest| ensures rest[i] == all[i + 1] {}
      forall i, j | 0 <= i < |rest| && 0 <= j < |rest| ensures Apart(p, rest[i], rest[j]) {
        var i', j' := if i > 0 then i + 1 else if next == best then 0 else 1,
                      if j > 0 then j + 1 else if next == best then 0 else 1;
        assert rest[i] == all[i'] && rest[j] == all[j'];
        assert Apart(p, all[i'], all[j']);
      }
      KeepIsLeast(p, next, cs[1..]);
      forall i | 0 <= i < |cs| ensures LexLe(p, Keep(p, best, cs), cs[i]) {
        if i > 0 { assert cs[i] == cs[1..][i - 1]; }
      }
    }
  }

  // ---- The answer of the whole search ----

  /** The grid point brp can be answered with segments t1 and t2: they fill
      its rounded quanta, at least three of them, within the limits. */
  ghost predicate Feasible(p: Problem, brp: nat, t1: nat, t2: nat)
    requires p.Valid()
  {
    && OnGrid(p, brp)
    && 1 + t1 + t2 >= 3
    && IsRounded(p, brp, 1 + t1 + t2)
    && IsSplit(p.btc, 1 + t1 + t2, t1, t2)
  }

  /** tq is the quanta count the code rounds to at brp. */
  predicate IsRounded(p: Problem, brp: nat, tq: nat)
  {
    brp * p.bitrate > 0 && tq == Quanta(p.clock, brp * p.bitrate)
  }

  /** Every feasible choice has an accepted candidate at its prescaler with
      the same bitrate error and no larger sample-point error. */
  lemma FeasibleHasCandidate(p: Problem, brp: nat, t1: nat, t2: nat) returns (c: Candidate)
    requires p.Valid() && Feasible(p, brp, t1, t2)
    ensures c in Accepted(p, p.btc.brpMin)
    ensures c.brp == brp && c.Tq() == 1 + t1 + t2
    ensures SpErrorOf(p, c) <= SpErrorOf(p, Candidate(brp, t1, t2))
  {
    CandidateIsNearestSplit(p, brp);
    c := CandidateAt(p, brp).value;
    AcceptedIsTheGrid(p, p.btc.brpMin, c);
  }

  /** And every accepted candidate is a feasible choice. */
  lemma CandidateIsFeasible(p: Problem, c: Candidate)
    requires p.Valid() && c in Accepted(p, p.btc.brpMin)
    ensures Feasible(p, c.brp, c.tseg1, c.tseg2)
  {
    AcceptedIsTheGrid(p, p.btc.brpMin, c);
    MulIsPositive(c.brp, p.bitrate);
    CandidateIsNearestSplit(p, c.brp);
  }

  lemma SelectedIsAccepted(p: Problem)
    requires p.Valid()
    ensures Selected(p).None? <==> Accepted(p, p.btc.brpMin) == []
    ensures Selected(p).Some? ==> Selected(p).value in Accepted(p, p.btc.brpMin)
  {
    AcceptedProper(p, p.btc.brpMin);
    var cs := Accepted(p, p.btc.brpMin);
    if cs != [] { assert cs[0] in cs; }
  }

  /** The search fails exactly when no grid point is feasible, and what it
      returns is a feasible choice. */
  lemma FailsOnlyWithoutSolution(p: Problem)
    requires p.Valid()
    ensures Selected(p).None? <==> forall brp, t1, t2 :: !Feasible(p, brp, t1, t2)
    ensures Selected(p).Some? ==>
      Feasible(p, Selected(p).value.brp, Selected(p).value.tseg1, Selected(p).value.tseg2)
  {
    SelectedIsAccepted(p);
    if Selected(p).Some? {
      CandidateIsFeasible(p, Selected(p).value);
    } else {
      forall brp, t1, t2 ensures !Feasible(p, brp, t1, t2) {
        if Feasible(p, brp, t1, t2) {
          var c := FeasibleHasCandidate(p, brp, t1, t2);
        }
      }
    }
  }

  /** One tolerance for each candidate but one. */
  function Drift(p: Problem): real
    requires p.Valid()
  {
    (|Accepted(p, p.btc.brpMin)| - 1) as real * TOLERANCE
  }

  /** Without any assumption on the magnitudes: the returned bitrate error is
      at most (n - 1) tolerances above every feasible choice's, where n is the
      number of prescalers that have one. */
  lemma DriftBound(p: Problem, brp: nat, t1: nat, t2: nat)
    requires p.Valid() && Feasible(p, brp, t1, t2)
    ensures Selected(p).Some? && brp > 0
    ensures ErrorOf(p, Selected(p).value) <= BitrateError(p, brp, 1 + t1 + t2) + Drift(p)
  {
    var cs := Accepted(p, p.btc.brpMin);
    AcceptedProper(p, p.btc.brpMin);
    var c := FeasibleHasCandidate(p, brp, t1, t2);
    KeepDrifts(p, cs[0], cs[1..]);
    var i :| 0 <= i < |cs| && cs[i] == c;
    if i > 0 { assert cs[1..][i - 1] == c; }
  }

  lemma AcceptedIsRelative(p: Problem, c: Candidate)
    requires p.Valid() && c in Accepted(p, p.btc.brpMin)
    ensures Proper(c) && c.brp * p.bitrate > 0
    ensures c.Tq() == Quanta(p.clock, c.brp * p.bitrate) >= 3
    ensures Relative(ErrorOf(p, c), p.clock, Ticks(c.brp * p.bitrate, c.Tq()))
    ensures Near(p.clock, Ticks(c.brp * p.bitrate, c.Tq()))
  {
    CandidateIsFeasible(p, c);
    ErrorIsRelative(p, c.brp, c.Tq());
    RoundedIsNear(p.clock, c.brp * p.bitrate);
  }

  lemma AcceptedApart(p: Problem)
    requires p.Valid() && Separated(p.clock, p.bitrate)
    requires AllProper(Accepted(p, p.btc.brpMin))
    ensures AllApart(p, Accepted(p, p.btc.brpMin))
  {
    var cs := Accepted(p, p.btc.brpMin);
    forall i, j | 0 <= i < |cs| && 0 <= j < |cs| ensures Apart(p, cs[i], cs[j]) {
      var a, b := cs[i], cs[j];
      AcceptedIsRelative(p, a);
      AcceptedIsRelative(p, b);
      if ErrorOf(p, a) > ErrorOf(p, b) {
        ErrorsSeparated(ErrorOf(p, a), ErrorOf(p, b), p.clock, p.bitrate, a.brp, a.Tq(), b.brp, b.Tq());
      }
    }
  }

  /** Keeping from the first on gives the least of all. */
  lemma KeptIsLeast(p: Problem, cs: seq<Candidate>, c: Candidate)
    requires p.Valid() && c in cs && AllProper(cs) && AllApart(p, cs) && Increasing(cs)
    ensures AllProper(cs[1..]) && Proper(c) && LexLe(p, Keep(p, cs[0], cs[1..]), c)
  {
    var i :| 0 <= i < |cs| && cs[i] == c;
    assert [cs[0]] + cs[1..] == cs;
    KeepIsLeast(p, cs[0], cs[1..]);
    if i > 0 { assert cs[1..][i - 1] == c; }
  }

  lemma LeastAccepted(p: Problem, c: Candidate)
    requires p.Valid() && Separated(p.clock, p.bitrate) && c in Accepted(p, p.btc.brpMin)
    ensures Selected(p).Some? && Proper(c)
    ensures LexLe(p, Selected(p).value, c)
  {
    AcceptedProper(p, p.btc.brpMin);
    AcceptedApart(p);
    AcceptedIncreases(p, p.btc.brpMin);
    KeptIsLeast(p, Accepted(p, p.btc.brpMin), c);
  }

  /** Under the separation bound the answer is the exact optimum: no feasible
      choice has a smaller bitrate error, none with the same bitrate error has
      a smaller sample-point error, and among equals the prescaler is the
      smallest. */
  lemma LexicographicMinimum(p: Problem, brp: nat, t1: nat, t2: nat)
    requires p.Valid() && Separated(p.clock, p.bitrate) && Feasible(p, brp, t1, t2)
    ensures Selected(p).Some? && brp > 0
    ensures LexLe(p, Selected(p).value, Candidate(brp, t1, t2))
  {
    var c := FeasibleHasCandidate(p, brp, t1, t2);
    LeastAccepted(p, c);
    assert c.Tq() == Candidate(brp, t1, t2).Tq();
  }

  /** The register values divide the clock to exactly the wanted bitrate. */
  predicate Exact(p: Problem, c: Candidate) {
    Ticks(c.brp * p.bitrate, c.Tq()) == p.clock
  }

  /** Under the separation bound, a rate that some grid point makes exactly is
      made exactly. */
  lemma ExactRateIsFound(p: Problem, brp: nat, t1: nat, t2: nat)
    requires p.Valid() && Separated(p.clock, p.bitrate)
    requires OnGrid(p, brp) && 1 + t1 + t2 >= 3 && IsSplit(p.btc, 1 + t1 + t2, t1, t2)
    requires Exact(p, Candidate(brp, t1, t2))
    ensures Selected(p).Some? && Exact(p, Selected(p).value)
  {
    MulIsPositive(brp, p.bitrate);
    ExactQuanta(p.clock, brp * p.bitrate, 1 + t1 + t2);
    LexicographicMinimum(p, brp, t1, t2);
    SelectedIsAccepted(p);
    ExactIfNoWorse(p, Selected(p).value, Candidate(brp, t1, t2));
  }

  lemma ExactIfNoWorse(p: Problem, c: Candidate, d: Candidate)
    requires p.Valid() && c in Accepted(p, p.btc.brpMin) && Proper(c) && Proper(d)
    requires Exact(p, d) && ErrorOf(p, c) <= ErrorOf(p, d)
    ensures Exact(p, c)
  {
    ErrorIsRelative(p, d.brp, d.Tq());
    AcceptedIsRelative(p, c);
    BitrateErrorNonNegative(p, c.brp, c.Tq());
    ZeroError(ErrorOf(p, d), ErrorOf(p, c), p.clock,
              Ticks(d.brp * p.bitrate, d.Tq()), Ticks(c.brp * p.bitrate, c.Tq()));
  }

  lemma ExactQuanta(clock: nat, denom: nat, tq: nat)
    requires denom > 0 && Ticks(denom, tq) == clock
    ensures Quanta(clock, denom) == tq
  {
    var q := Quanta(clock, denom);
    RoundingDistance(clock, denom);
    if q < tq { MulLess(denom, q, tq); } else if q > tq { MulLess(denom, tq, q); }
  }

  lemma ZeroError(e: real, f: real, clock: nat, m: nat, n: nat)
    requires Relative(e, clock, m) && Relative(f, clock, n) && m == clock && f <= e && f >= 0.0
    ensures n == clock
  {
    if e > 0.0 { MulPositive(e, m as real); }
  }

  /** The error of every answer is at most 1/(2 tq), so at most a sixth. */
  lemma AnswerWithinASixth(p: Problem)
    requires p.Valid() && Selected(p).Some?
    ensures Proper(Selected(p).value)
    ensures HalfQuantum(ErrorOf(p, Selected(p).value), Selected(p).value.Tq())
    ensures ErrorOf(p, Selected(p).value) <= 1.0 / 6.0
  {
    SelectedIsAccepted(p);
    var c := Selected(p).value;
    AcceptedIsRelative(p, c);
    RoundingErrorBound(p.clock, c.brp * p.bitrate, ErrorOf(p, c));
    SixthAtMost(ErrorOf(p, c), c.Tq());
  }

  /** Rounding in the time domain costs at most a third: at a feasible grid
      point, no other number of quanta, splittable or not, has an error below
      three quarters of the returned one, up to the drift. */
  lemma WithinAThirdOfAnyQuanta(p: Problem, brp: nat, t1: nat, t2: nat, other: nat)
    requires p.Valid() && Feasible(p, brp, t1, t2) && other >= 1
    ensures Selected(p).Some? && brp > 0
    ensures 3.0 * BitrateError(p, brp, 1 + t1 + t2) <= 4.0 * BitrateError(p, brp, other)
    ensures 3.0 * ErrorOf(p, Selected(p).value) <=
      4.0 * BitrateError(p, brp, other) + 3.0 * Drift(p)
  {
    DriftBound(p, brp, t1, t2);
    RoundedWithinAThird(p, brp, 1 + t1 + t2, other);
  }

  lemma RoundedWithinAThird(p: Problem, brp: nat, tq: nat, other: nat)
    requires p.Valid() && brp > 0 && tq >= 3 && IsRounded(p, brp, tq) && other >= 1
    ensures 3.0 * BitrateError(p, brp, tq) <= 4.0 * BitrateError(p, brp, other)
  {
    ErrorIsRelative(p, brp, tq);
    ErrorIsRelative(p, brp, other);
    RoundingRatio(p.clock, brp * p.bitrate, BitrateError(p, brp, tq), other, BitrateError(p, brp, other));
    BitrateErrorNonNegative(p, brp, other);
    ThirdAtMost(BitrateError(p, brp, tq), BitrateError(p, brp, other), tq);
  }

  lemma BitrateErrorNonNegative(p: Problem, brp: nat, tq: nat)
    requires p.bitrate > 0 && brp > 0 && tq > 0
    ensures BitrateError(p, brp, tq) >= 0.0
  {
    MulPositive(brp as real, tq as real);
  }
}
