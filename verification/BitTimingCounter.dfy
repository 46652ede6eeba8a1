/** The loop counter of the bit-timing search, a uint32 that steps by brp_inc
    and may wrap: when the loop ends, and which prescalers it comes by. */
module BitTimingCounter {
  import opened Words
  import opened BitTiming

  /** A uint32 addition: what passes the word size comes back from zero. */
  function NextBrp(btc: BittimingConst, brp: u32): u32 {
    if brp + btc.Inc() < WORD then brp + btc.Inc() else brp + btc.Inc() - WORD
  }

  lemma NextBrpIsTheSum(btc: BittimingConst, brp: u32)
    ensures NextBrp(btc, brp) == (brp + (if btc.brpInc == 0 then 1 else btc.brpInc)) % 0x1_0000_0000
  {
    var sum := brp + btc.Inc();
    if sum < WORD { QuotientIs(sum, WORD, 0, sum); } else { QuotientIs(sum, WORD, 1, sum - WORD); }
  }

  /** From brp the loop is left after at most n iterations. */
  predicate EndsWithin(btc: BittimingConst, brp: u32, n: nat)
    decreases n
  {
    brp > btc.brpMax || (n > 0 && EndsWithin(btc, NextBrp(btc, brp), n - 1))
  }

  /** The counter takes the value x inside the loop, within n iterations. */
  predicate Takes(btc: BittimingConst, brp: u32, n: nat, x: u32)
    decreases n
  {
    n > 0 && brp <= btc.brpMax && (brp == x || Takes(btc, NextBrp(btc, brp), n - 1, x))
  }

  // ---- When the loop ends ----

  /** The largest power of two that divides x. */
  function LowBit(x: nat): (g: nat)
    requires x > 0
    ensures g > 0
  {
    if x % 2 == 1 then 1 else 2 * LowBit(x / 2)
  }

  /** The counter keeps its remainder by inc's lowest bit, so the largest value
      it can take is known; the loop is left if that is past brpMax. */
  predicate LoopEnds(btc: BittimingConst) {
    btc.brpMax < HighestValue(btc)
  }

  function HighestValue(btc: BittimingConst): int {
    WORD - LowBit(btc.Inc()) + btc.brpMin % LowBit(btc.Inc())
  }

  /** x is its lowest bit times an odd number. */
  lemma {:induction false} LowBitIsPower(x: nat) returns (j: nat, odd: nat)
    requires x > 0
    ensures LowBit(x) == Pow2(j) && x == Pow2(j) * odd && odd % 2 == 1
  {
    if x % 2 == 1 {
      j, odd := 0, x;
    } else {
      j, odd := LowBitIsPower(x / 2);
      j := j + 1;
    }
  }

  /** Of the increment: its lowest bit divides the word size. */
  lemma IncSplits(inc: nat) returns (j: nat, odd: nat)
    requires 0 < inc < WORD
    ensures LowBit(inc) == Pow2(j) && inc == Pow2(j) * odd && odd % 2 == 1
    ensures j < 32 && Pow2(j) * Pow2(32 - j) == WORD
  {
    j, odd := LowBitIsPower(inc);
    WordSize();
    MulOrder(1, odd, Pow2(j));
    if j >= 32 { Pow2Monotone(32, j); }
    Pow2Add(j, 32 - j);
  }

  lemma WordSize()
    ensures Pow2(32) == WORD
  {
    assert Pow2(8) == 0x100;
    Pow2Add(8, 8);
    Pow2Add(16, 16);
  }

  lemma HalfOf(p: nat, m: int)
    requires m % 2 == 0
    ensures p * m == (2 * p) * (m / 2)
  {
    var h := m / 2;
    assert m == 2 * h;
    assert p * (2 * h) == (2 * p) * h;
  }

  lemma AddedRow(k: nat, p: nat, odd: nat, m: int)
    ensures (k + p) * odd == k * odd + p * odd && p * m + p * odd == p * (m + odd)
  {}

  /** The multiples of an odd number reach every remainder by a power of two. */
  lemma {:induction false} OddReaches(odd: nat, target: nat, n: nat) returns (k: nat, m: int)
    requires odd % 2 == 1
    ensures k * odd - target == Pow2(n) * m
  {
    if n == 0 {
      k := 0;
      m := 0 - target;
    } else {
      var k', m' := OddReaches(odd, target, n - 1);
      var p := Pow2(n - 1);
      if m' % 2 == 0 {
        HalfOf(p, m');
        k, m := k', m' / 2;
      } else {
        AddedRow(k', p, odd, m');
        HalfOf(p, m' + odd);
        k, m := k' + p, (m' + odd) / 2;
      }
    }
  }

  lemma SameRemainder(a: int, b: int, m: int, k: int)
    requires m > 0 && a == b + m * k
    ensures a % m == b % m
  {
    var q, r := b / m, b % m;
    assert a == m * (q + k) + r;
    QuotientIs(a, m, q + k, r);
  }

  /** The remainder by the lowest bit is what every step keeps. */
  lemma StepKeepsRemainder(btc: BittimingConst, brp: u32)
    ensures NextBrp(btc, brp) % LowBit(btc.Inc()) == brp % LowBit(btc.Inc())
  {
    var j, odd := IncSplits(btc.Inc());
    if brp + btc.Inc() < WORD {
      SameRemainder(NextBrp(btc, brp), brp, Pow2(j), odd);
    } else {
      Regrouped(Pow2(j), odd, Pow2(32 - j));
      SameRemainder(NextBrp(btc, brp), brp, Pow2(j), odd - Pow2(32 - j));
    }
  }

  lemma Regrouped(g: nat, a: nat, b: nat)
    ensures g * a - g * b == g * (a - b)
  {}

  /** Below a multiple of g, values of one remainder stop g short of it. */
  lemma HighestOfClass(v: nat, g: nat, size: nat)
    requires g > 0 && v < g * size
    ensures v <= g * size - g + v % g && v / g < size
  {
    var k := v / g;
    assert v == g * k + v % g;
    if k >= size { MulOrder(size, k, g); }
    MulLess(g, k, size);
  }

  lemma AtMostHighest(btc: BittimingConst, v: u32)
    requires v % LowBit(btc.Inc()) == btc.brpMin % LowBit(btc.Inc())
    ensures v <= HighestValue(btc)
  {
    var j, odd := IncSplits(btc.Inc());
    HighestOfClass(v, Pow2(j), Pow2(32 - j));
  }

  lemma {:induction false} EndingNeedsRoom(btc: BittimingConst, brp: u32, n: nat)
    requires EndsWithin(btc, brp, n) && brp % LowBit(btc.Inc()) == btc.brpMin % LowBit(btc.Inc())
    ensures LoopEnds(btc)
    decreases n
  {
    AtMostHighest(btc, brp);
    if brp <= btc.brpMax {
      StepKeepsRemainder(btc, brp);
      EndingNeedsRoom(btc, NextBrp(btc, brp), n - 1);
    }
  }

  /** A value past brpMax that is k steps away ends the loop. */
  lemma {:induction false} EndsAt(btc: BittimingConst, brp: u32, k: nat, v: u32, m: int)
    requires brp + k * btc.Inc() == v + WORD * m && v > btc.brpMax
    ensures EndsWithin(btc, brp, k)
    decreases k
  {
    if k == 0 {
      assert m == 0;
    } else {
      assert k * btc.Inc() == (k - 1) * btc.Inc() + btc.Inc();
      EndsAt(btc, NextBrp(btc, brp), k - 1, v, if brp + btc.Inc() < WORD then m else m - 1);
    }
  }

  lemma WholeSteps(k: nat, g: nat, odd: nat, target: int, size: nat, m: int)
    requires k * odd - target == size * m
    ensures k * (g * odd) == g * target + (g * size) * m
  {
    assert k * (g * odd) == g * (k * odd);
    assert g * (target + size * m) == g * target + g * (size * m);
    assert g * (size * m) == (g * size) * m;
  }

  lemma Arrives(b: nat, r: nat, g: nat, odd: nat, size: nat, word: nat, x: nat, k: nat, m: int)
    requires b == g * x + r && g * size == word && k * odd - (size - 1 - x) == size * m
    ensures b + k * (g * odd) == word - g + r + word * m
  {
    WholeSteps(k, g, odd, size - 1 - x, size, m);
    assert g * (size - 1 - x) == g * size - g - g * x;
  }

  lemma TopOfClassIsReached(b: nat, g: nat, odd: nat, e: nat, word: nat) returns (k: nat, m: int)
    requires g > 0 && odd % 2 == 1 && g * Pow2(e) == word && b < word
    ensures b <= word - g + b % g
    ensures b + k * (g * odd) == word - g + b % g + word * m
  {
    var size := Pow2(e);
    HighestOfClass(b, g, size);
    k, m := OddReaches(odd, size - 1 - b / g, e);
    Arrives(b, b % g, g, odd, size, word, b / g, k, m);
  }

  /** The highest value is a whole number of steps away. */
  lemma HighestIsTaken(btc: BittimingConst) returns (k: nat, m: int)
    ensures btc.brpMin <= HighestValue(btc)
    ensures btc.brpMin + k * btc.Inc() == HighestValue(btc) + WORD * m
  {
    var j, odd := IncSplits(btc.Inc());
    k, m := TopOfClassIsReached(btc.brpMin, Pow2(j), odd, 32 - j, WORD);
  }

  lemma RemainderIsLess(a: nat, m: nat)
    requires m > 0
    ensures a % m < m
  {}

  lemma RoomEnds(btc: BittimingConst) returns (n: nat)
    requires LoopEnds(btc)
    ensures EndsWithin(btc, btc.brpMin, n)
  {
    var m;
    n, m := HighestIsTaken(btc);
    RemainderIsLess(btc.brpMin, LowBit(btc.Inc()));
    EndsAt(btc, btc.brpMin, n, HighestValue(btc), m);
  }

  /** The loop is left at all exactly when the counter's highest possible
      value is past brpMax. */
  lemma LoopEndsIff(btc: BittimingConst)
    ensures LoopEnds(btc) ==> exists n: nat :: EndsWithin(btc, btc.brpMin, n)
    ensures (exists n: nat :: EndsWithin(btc, btc.brpMin, n)) ==> LoopEnds(btc)
  {
    if LoopEnds(btc) {
      var n := RoomEnds(btc);
    }
    if exists n: nat :: EndsWithin(btc, btc.brpMin, n) {
      var n: nat :| EndsWithin(btc, btc.brpMin, n);
      EndingNeedsRoom(btc, btc.brpMin, n);
    }
  }

  /** Iterations after which the loop has been left. */
  ghost function Iterations(btc: BittimingConst): (n: nat)
    requires LoopEnds(btc)
    ensures EndsWithin(btc, btc.brpMin, n)
  {
    LoopEndsIff(btc);
    var n: nat :| EndsWithin(btc, btc.brpMin, n);
    n
  }

  // ---- Which values the counter takes ----

  /** The prescalers brpMin + k * inc, also past brpMax. */
  ghost function Grid(btc: BittimingConst): iset<int> {
    iset brp: int | Stepped(btc, brp)
  }

  /** A grid point is at most the last one, and its successor is on the grid. */
  lemma GridAdvances(btc: BittimingConst, brp: nat)
    requires brp in Grid(btc) && brp <= btc.brpMax
    ensures brp <= btc.LastBrp() && brp + btc.Inc() in Grid(btc)
  {
    LastMultiple(brp - btc.brpMin, btc.brpMax - btc.brpMin, btc.Inc());
    NextMultiple(brp - btc.brpMin, 0, btc.Inc());
  }

  /** Short of the last grid point the next one is not past it. */
  lemma RoomBelowLast(btc: BittimingConst, brp: nat)
    requires brp in Grid(btc) && brp < btc.LastBrp() && btc.brpMin <= btc.brpMax
    ensures brp + btc.Inc() <= btc.LastBrp() <= btc.brpMax && brp + btc.Inc() in Grid(btc)
  {
    var span := btc.brpMax - btc.brpMin;
    var last := span - span % btc.Inc();
    assert span == btc.Inc() * (span / btc.Inc()) + span % btc.Inc();
    ModOfMultiple(btc.Inc(), span / btc.Inc());
    NextMultiple(brp - btc.brpMin, last, btc.Inc());
    GridAdvances(btc, brp);
  }

  /** Up to brpMax the counter steps along the grid. */
  ghost predicate Walks(btc: BittimingConst, grid: iset<int>) {
    forall b: u32 :: b in grid && b <= btc.brpMax ==>
      NextBrp(btc, b) == b + btc.Inc() && NextBrp(btc, b) in grid
  }

  lemma FittingWalks(btc: BittimingConst)
    requires btc.CounterFits()
    ensures Walks(btc, Grid(btc))
  {
    forall b: u32 | b in Grid(btc) && b <= btc.brpMax
      ensures NextBrp(btc, b) == b + btc.Inc() && NextBrp(btc, b) in Grid(btc)
    {
      GridAdvances(btc, b);
    }
  }

  /** Values that the steps do not lead out of while within brpMax are all the
      loop comes by. */
  lemma {:induction false} StaysInside(btc: BittimingConst, inside: iset<int>, brp: u32, n: nat, x: u32)
    requires forall b: u32 :: b in inside && b <= btc.brpMax && NextBrp(btc, b) <= btc.brpMax ==> NextBrp(btc, b) in inside
    requires brp in inside && Takes(btc, brp, n, x)
    ensures x in inside
    decreases n
  {
    if brp != x { StaysInside(btc, inside, NextBrp(btc, brp), n - 1, x); }
  }

  /** A loop that ends takes the value after one it takes, unless it ends there. */
  lemma {:induction false} TakesOn(btc: BittimingConst, brp: u32, n: nat, x: u32)
    requires Takes(btc, brp, n, x) && EndsWithin(btc, brp, n) && NextBrp(btc, x) <= btc.brpMax
    ensures Takes(btc, brp, n, NextBrp(btc, x))
    decreases n
  {
    if brp == x {
      assert Takes(btc, NextBrp(btc, x), n - 1, NextBrp(btc, x));
    } else {
      TakesOn(btc, NextBrp(btc, brp), n - 1, x);
    }
  }

  /** The counter steps through the grid up to last. */
  ghost predicate ClimbsTo(btc: BittimingConst, grid: iset<int>, last: u32) {
    forall b: u32 :: b in grid && b < last ==> b < NextBrp(btc, b) <= last && NextBrp(btc, b) in grid
  }

  lemma {:induction false} TakesTheLast(btc: BittimingConst, grid: iset<int>, last: u32, brp: u32, n: nat)
    requires ClimbsTo(btc, grid, last) && brp in grid && brp <= last <= btc.brpMax && EndsWithin(btc, brp, n)
    ensures Takes(btc, brp, n, last)
    decreases n
  {
    if brp < last { TakesTheLast(btc, grid, last, NextBrp(btc, brp), n - 1); }
  }

  lemma StepsToLast(btc: BittimingConst)
    requires btc.brpMin <= btc.brpMax
    ensures btc.brpMin in Grid(btc) && btc.brpMin <= btc.LastBrp() <= btc.brpMax
    ensures ClimbsTo(btc, Grid(btc), btc.LastBrp())
    ensures forall b: u32 :: b in Grid(btc) && b <= btc.brpMax ==> b <= btc.LastBrp()
  {
    FirstInGrid(btc);
    GridAdvances(btc, btc.brpMin);
    RemainderIsLess(btc.brpMax - btc.brpMin, btc.Inc());
    forall b: u32 | b in Grid(btc) && b < btc.LastBrp()
      ensures b < NextBrp(btc, b) <= btc.LastBrp() && NextBrp(btc, b) in Grid(btc)
    {
      RoomBelowLast(btc, b);
    }
    forall b: u32 | b in Grid(btc) && b <= btc.brpMax ensures b <= btc.LastBrp() {
      GridAdvances(btc, b);
    }
  }

  /** If the step past last wraps to the grid, the loop goes round for ever. */
  lemma {:induction false} WrapToGridNeverEnds(btc: BittimingConst, grid: iset<int>, last: u32, brp: u32, n: nat)
    requires ClimbsTo(btc, grid, last) && brp in grid && brp <= last <= btc.brpMax
    requires NextBrp(btc, last) in grid && NextBrp(btc, last) <= last
    ensures !EndsWithin(btc, brp, n)
    decreases n
  {
    if n > 0 {
      assert brp < last || brp == last;
      WrapToGridNeverEnds(btc, grid, last, NextBrp(btc, brp), n - 1);
    }
  }

  /** And so it does if it wraps to zero and comes to the grid from there. */
  lemma {:induction false} WrapOverZeroNeverEnds(btc: BittimingConst, grid: iset<int>, last: u32, brp: u32, n: nat)
    requires ClimbsTo(btc, grid, last) && (brp in grid || brp == 0) && brp <= last <= btc.brpMax
    requires NextBrp(btc, last) == 0 && NextBrp(btc, 0) in grid && NextBrp(btc, 0) <= last
    ensures !EndsWithin(btc, brp, n)
    decreases n
  {
    if n > 0 {
      assert brp == 0 || brp < last || brp == last;
      WrapOverZeroNeverEnds(btc, grid, last, NextBrp(btc, brp), n - 1);
    }
  }

  /** A loop that ends takes grid values only exactly when the step past the
      last grid prescaler fits the counter. */
  lemma OnGridIffCounterFits(btc: BittimingConst, n: nat)
    requires btc.brpMin <= btc.brpMax && EndsWithin(btc, btc.brpMin, n)
    ensures btc.CounterFits() <==> forall x: u32 :: Takes(btc, btc.brpMin, n, x) ==> x in Grid(btc)
  {
    StepsToLast(btc);
    if btc.CounterFits() {
      FittingWalks(btc);
      forall x: u32 | Takes(btc, btc.brpMin, n, x) ensures x in Grid(btc) {
        StaysInside(btc, Grid(btc), btc.brpMin, n, x);
      }
    } else {
      var last: u32 := btc.LastBrp();
      TakesTheLast(btc, Grid(btc), last, btc.brpMin, n);
      TakesOn(btc, btc.brpMin, n, last);
      if NextBrp(btc, last) in Grid(btc) { WrapToGridNeverEnds(btc, Grid(btc), last, btc.brpMin, n); }
    }
  }

  lemma {:induction false} WalkEnds(btc: BittimingConst, grid: iset<int>, brp: u32) returns (n: nat)
    requires Walks(btc, grid) && brp in grid
    ensures EndsWithin(btc, brp, n)
    decreases btc.brpMax + 1 - brp
  {
    n := 0;
    if brp <= btc.brpMax {
      n := WalkEnds(btc, grid, NextBrp(btc, brp));
      n := n + 1;
    }
  }

  lemma FirstInGrid(btc: BittimingConst)
    ensures btc.brpMin in Grid(btc)
  {
    assert Stepped(btc, btc.brpMin);
  }

  /** A counter that fits ends its loop. */
  lemma FittingLoopEnds(btc: BittimingConst)
    requires btc.CounterFits()
    ensures LoopEnds(btc)
  {
    FittingWalks(btc);
    FirstInGrid(btc);
    var n := WalkEnds(btc, Grid(btc), btc.brpMin);
    EndingNeedsRoom(btc, btc.brpMin, n);
  }

  // ---- The candidates the loop comes by ----

  /** The accepted candidates of at most n iterations from counter value brp,
      in loop order. Zero is passed over. */
  function AcceptedWithin(p: Problem, brp: u32, n: nat): seq<Candidate>
    requires p.Valid()
    decreases n
  {
    if n == 0 || brp > p.btc.brpMax then []
    else
      (if brp > 0 && CandidateAt(p, brp).Some? then [CandidateAt(p, brp).value] else [])
      + AcceptedWithin(p, NextBrp(p.btc, brp), n - 1)
  }

  /** Whatever the counter does, an accepted candidate is its prescaler's, and
      that is positive and at most brpMax. */
  lemma {:induction false} WithinIsSound(p: Problem, brp: u32, n: nat)
    requires p.Valid()
    ensures AllProper(AcceptedWithin(p, brp, n))
    ensures forall c :: c in AcceptedWithin(p, brp, n) ==>
      0 < c.brp <= p.btc.brpMax && CandidateAt(p, c.brp) == Some(c)
    decreases n
  {
    if n > 0 && brp <= p.btc.brpMax { WithinIsSound(p, NextBrp(p.btc, brp), n - 1); }
  }

  /** What the loop keeps. */
  ghost function Kept(p: Problem): Option<Candidate>
    requires p.Valid() && LoopEnds(p.btc)
  {
    var n := Iterations(p.btc);
    WithinIsSound(p, p.btc.brpMin, n);
    KeepFrom(p, None, AcceptedWithin(p, p.btc.brpMin, n))
  }

  lemma {:induction false} WithinIsTheGrid(p: Problem, grid: iset<int>, brp: u32, n: nat)
    requires p.Valid() && Walks(p.btc, grid) && brp in grid && brp > 0 && EndsWithin(p.btc, brp, n)
    ensures AcceptedWithin(p, brp, n) == Accepted(p, brp)
    decreases n
  {
    if brp <= p.btc.brpMax { WithinIsTheGrid(p, grid, NextBrp(p.btc, brp), n - 1); }
  }

  /** A counter that fits makes the loop keep what the selection over the
      whole grid keeps. */
  lemma FittingKeepsSelected(p: Problem)
    requires p.Valid() && p.btc.CounterFits()
    ensures LoopEnds(p.btc) && Kept(p) == Selected(p)
  {
    FittingLoopEnds(p.btc);
    FittingWalks(p.btc);
    FirstInGrid(p.btc);
    WithinIsTheGrid(p, Grid(p.btc), p.btc.brpMin, Iterations(p.btc));
  }

  lemma KeptIsAccepted(p: Problem)
    requires p.Valid() && LoopEnds(p.btc) && Kept(p).Some?
    ensures var c := Kept(p).value; 0 < c.brp <= p.btc.brpMax && CandidateAt(p, c.brp) == Some(c)
  {
    WithinIsSound(p, p.btc.brpMin, Iterations(p.btc));
    var cs := AcceptedWithin(p, p.btc.brpMin, Iterations(p.btc));
    assert cs != [] && cs[0] in cs;
  }
}
