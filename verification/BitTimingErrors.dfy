/** How the relative bitrate errors of two register choices compare: two
    different errors are a known distance apart, and rounding the quanta costs
    at most a known ratio. */
module BitTimingErrors {
  import opened Words
  import opened RealArith
  import opened BitTiming

  function IntAbs(x: int): nat { if x < 0 then -x else x }

  /** e is the distance of m clock ticks from the clock, relative to m. With
      m = brp * bitrate * tq this is what BitrateError computes. */
  ghost predicate Relative(e: real, clock: nat, m: nat) {
    m > 0 && e * m as real == IntAbs(clock - m) as real
  }

  /** m exceeds the clock by at most a fifth. */
  predicate Near(clock: nat, m: nat) { 5 * m <= 6 * clock }

  /** Clock ticks that brp * tq clock periods per bit make up in a second at
      the wanted bitrate; equal to the clock exactly when the rate is exact. */
  function Ticks(denom: nat, tq: nat): nat { denom * tq }

  lemma ErrorIsRelative(p: Problem, brp: nat, tq: nat)
    requires p.bitrate > 0 && brp > 0 && tq > 0
    ensures Relative(BitrateError(p, brp, tq), p.clock, Ticks(brp * p.bitrate, tq))
  {
    ErrorOverReals(p, brp, tq);
    TicksAsReal(brp, p.bitrate, tq);
    MulIsPositive(brp, p.bitrate);
    MulIsPositive(brp * p.bitrate, tq);
    FromReals(BitrateError(p, brp, tq), p.clock, Ticks(brp * p.bitrate, tq),
              p.bitrate as real * (brp as real * tq as real));
  }

  /** The sample-point error is the distance of the sample position 1 + tseg1
      from samplePoint * tq, in parts of the tq quanta. */
  lemma SampleErrorIsRelative(samplePoint: real, tq: nat, tseg1: nat)
    requires tq > 0
    ensures SamplePointError(samplePoint, tq, tseg1) * tq as real == Abs(1.0 + tseg1 as real - samplePoint * tq as real)
  {
    var t, a := tq as real, 1.0 + tseg1 as real;
    ScaledDistance(Abs(a / t - samplePoint), a / t, a, t, samplePoint);
  }

  ghost predicate RelativeReal(e: real, c: real, m: real) { e * m == Abs(c - m) }

  lemma ErrorOverReals(p: Problem, brp: nat, tq: nat)
    requires p.bitrate > 0 && brp > 0 && tq > 0
    ensures RelativeReal(BitrateError(p, brp, tq), p.clock as real, p.bitrate as real * (brp as real * tq as real))
  {
    var c, d, r := p.clock as real, brp as real * tq as real, p.bitrate as real;
    MulPositive(brp as real, tq as real);
    assert BitrateError(p, brp, tq) == Abs(c / d - r) / r;
    RelativeDistance(c, d, r);
  }

  lemma FromReals(e: real, clock: nat, m: nat, mr: real)
    requires m > 0 && m as real == mr && RelativeReal(e, clock as real, mr)
    ensures Relative(e, clock, m)
  {}

  lemma RelativeDistance(c: real, d: real, r: real)
    requires d > 0.0 && r > 0.0
    ensures RelativeReal(Abs(c / d - r) / r, c, r * d)
  {
    ScaledDistance(Abs(c / d - r), c / d, c, d, r);
    Regroup(Abs(c / d - r) / r, r, d, Abs(c / d - r));
  }

  lemma Regroup(e: real, r: real, d: real, er: real)
    requires r != 0.0 && e == er / r
    ensures e * (r * d) == er * d
  {
    assert e * r == er;
    assert e * (r * d) == (e * r) * d;
  }

  lemma TicksAsReal(brp: nat, bitrate: nat, tq: nat)
    ensures Ticks(brp * bitrate, tq) as real == bitrate as real * (brp as real * tq as real)
  {
    assert (brp * bitrate) as real == brp as real * bitrate as real;
    assert (brp * bitrate * tq) as real == (brp * bitrate) as real * tq as real;
  }

  // ---- Different errors are far apart ----

  /** The condition under which different errors differ by more than the
      tolerance: 36 clock^2 < 25e12 bitrate. */
  predicate Separated(clock: nat, bitrate: nat) {
    36 * (clock * clock) < 25_000_000_000_000 * bitrate
  }

  /** Two different relative errors of tick counts that share the factor r
      differ by at least r over the product of the counts. */
  lemma FractionsApart(e1: real, e2: real, clock: nat, m1: nat, m2: nat, d1: nat, d2: nat, r: nat)
    requires r > 0 && m1 == d1 * r && m2 == d2 * r
    requires Relative(e1, clock, m1) && Relative(e2, clock, m2)
    requires e1 > e2
    ensures GapOver(e1 - e2, m1 as real * m2 as real, r as real)
  {
    var n1, n2 := IntAbs(clock - m1), IntAbs(clock - m2);
    CrossMultiply(e1, e2, m1 as real, m2 as real, n1 as real, n2 as real);
    CrossAsReal(n1, m1, n2, m2);
    CommonFactor(n1, m1, n2, m2, d1, d2, r);
  }

  /** The numerator of the difference n1/m1 - n2/m2. */
  function Cross(n1: nat, m1: nat, n2: nat, m2: nat): int { n1 * m2 - n2 * m1 }

  lemma CrossAsReal(n1: nat, m1: nat, n2: nat, m2: nat)
    ensures Cross(n1, m1, n2, m2) as real == n1 as real * m2 as real - n2 as real * m1 as real
  {
    assert (n1 * m2) as real == n1 as real * m2 as real;
    assert (n2 * m1) as real == n2 as real * m1 as real;
  }

  lemma CommonFactor(n1: nat, m1: nat, n2: nat, m2: nat, d1: nat, d2: nat, r: nat)
    requires r > 0 && m1 == d1 * r && m2 == d2 * r
    ensures Cross(n1, m1, n2, m2) > 0 ==> Cross(n1, m1, n2, m2) >= r
  {
    var k := n1 * d2 - n2 * d1;
    assert Cross(n1, m1, n2, m2) == k * r;
    if k >= 1 { assert (k - 1) * r >= 0; } else { assert -k * r >= 0; }
  }

  ghost predicate GapOver(gap: real, t: real, b: real) { gap * t >= b }

  lemma CrossMultiply(e1: real, e2: real, m1: real, m2: real, n1: real, n2: real)
    requires m1 > 0.0 && m2 > 0.0 && e1 > e2
    requires e1 * m1 == n1 && e2 * m2 == n2
    ensures (e1 - e2) * (m1 * m2) == n1 * m2 - n2 * m1
    ensures n1 * m2 - n2 * m1 > 0.0
  {
    assert (e1 - e2) * (m1 * m2) == (e1 * m1) * m2 - (e2 * m2) * m1;
    MulPositive(m1, m2);
    MulPositive(e1 - e2, m1 * m2);
  }

  lemma ProductBound(m1: nat, m2: nat, clock: nat)
    requires Near(clock, m1) && Near(clock, m2)
    ensures 25 * (m1 * m2) <= 36 * (clock * clock)
  {
    assert (5 * m1) * (5 * m2) <= (6 * clock) * (5 * m2);
    assert (6 * clock) * (5 * m2) <= (6 * clock) * (6 * clock);
  }

  ghost predicate Small(t: real, b: real) { 0.0 <= t < 1_000_000_000_000.0 * b }

  lemma SmallProduct(m1: nat, m2: nat, clock: nat, bitrate: nat)
    requires Near(clock, m1) && Near(clock, m2) && Separated(clock, bitrate)
    ensures Small(m1 as real * m2 as real, bitrate as real)
  {
    ProductBound(m1, m2, clock);
    assert (m1 * m2) as real == m1 as real * m2 as real;
  }

  lemma WideGap(gap: real, t: real, b: real)
    requires b > 0.0 && GapOver(gap, t, b) && Small(t, b)
    ensures gap > TOLERANCE
  {
    if gap <= TOLERANCE {
      MulMonotone(gap, TOLERANCE, t);
    }
  }

  lemma GapOfFactored(e1: real, e2: real, clock: nat, m1: nat, m2: nat, d1: nat, d2: nat, bitrate: nat)
    requires bitrate > 0 && e1 > e2 && Separated(clock, bitrate)
    requires m1 == d1 * bitrate && Relative(e1, clock, m1) && Near(clock, m1)
    requires m2 == d2 * bitrate && Relative(e2, clock, m2) && Near(clock, m2)
    ensures e1 > e2 + TOLERANCE
  {
    FractionsApart(e1, e2, clock, m1, m2, d1, d2, bitrate);
    SmallProduct(m1, m2, clock, bitrate);
    WideGap(e1 - e2, m1 as real * m2 as real, bitrate as real);
  }

  lemma Factored(brp: nat, bitrate: nat, tq: nat)
    ensures Ticks(brp * bitrate, tq) == (brp * tq) * bitrate
  {}

  /** Two near-clock tick counts have the same relative error, or errors more
      than the tolerance apart. */
  lemma ErrorsSeparated(e1: real, e2: real, clock: nat, bitrate: nat, brp1: nat, tq1: nat, brp2: nat, tq2: nat)
    requires bitrate > 0 && brp1 > 0 && tq1 > 0 && brp2 > 0 && tq2 > 0 && Separated(clock, bitrate)
    requires Relative(e1, clock, Ticks(brp1 * bitrate, tq1)) && Near(clock, Ticks(brp1 * bitrate, tq1))
    requires Relative(e2, clock, Ticks(brp2 * bitrate, tq2)) && Near(clock, Ticks(brp2 * bitrate, tq2))
    requires e1 > e2
    ensures e1 > e2 + TOLERANCE
  {
    Factored(brp1, bitrate, tq1);
    Factored(brp2, bitrate, tq2);
    GapOfFactored(e1, e2, clock, Ticks(brp1 * bitrate, tq1), Ticks(brp2 * bitrate, tq2),
                  brp1 * tq1, brp2 * tq2, bitrate);
  }

  // ---- What rounding the quanta costs ----

  /** Rounding to a multiple of denom moves the clock by at most half of it. */
  lemma RoundingDistance(clock: nat, denom: nat)
    requires denom > 0
    ensures 2 * (clock - Ticks(denom, Quanta(clock, denom))) < denom
    ensures 2 * (Ticks(denom, Quanta(clock, denom)) - clock) <= denom
  {
    var s := clock + denom / 2;
    assert s == denom * (s / denom) + s % denom;
  }

  /** Three or more rounded quanta overshoot the clock by at most a fifth. */
  lemma RoundedIsNear(clock: nat, denom: nat)
    requires denom > 0 && Quanta(clock, denom) >= 3
    ensures Near(clock, Ticks(denom, Quanta(clock, denom)))
  {
    RoundingDistance(clock, denom);
    ThreeTimes(denom, Quanta(clock, denom));
  }

  lemma ThreeTimes(denom: nat, tq: nat)
    requires tq >= 3
    ensures Ticks(denom, tq) >= 3 * denom
  {
    assert denom * (tq - 3) >= 0;
  }

  /** Among all positive quanta counts of one prescaler, none has an error
      below tq/(tq+1) of the rounded one's. */
  lemma RoundingRatio(clock: nat, denom: nat, e: real, other: nat, f: real)
    requires denom > 0 && other >= 1 && Quanta(clock, denom) >= 1
    requires Relative(e, clock, Ticks(denom, Quanta(clock, denom)))
    requires Relative(f, clock, Ticks(denom, other))
    ensures AtMostRatio(e, f, Quanta(clock, denom))
  {
    RoundingDistance(clock, denom);
    DistanceRatio(clock, denom, Quanta(clock, denom), other);
    RatioFromDistances(e, f, clock, denom, Quanta(clock, denom), other);
  }

  /** e is at most (tq+1)/tq of f. */
  ghost predicate AtMostRatio(e: real, f: real, tq: nat) { tq as real * e <= (tq + 1) as real * f }

  /** The same for distances instead of errors. */
  ghost predicate RatioOfDistances(clock: nat, denom: nat, tq: nat, other: nat) {
    other * IntAbs(clock - Ticks(denom, tq)) <= (tq + 1) * IntAbs(clock - Ticks(denom, other))
  }

  lemma DistanceRatio(clock: nat, denom: nat, tq: nat, other: nat)
    requires denom > 0 && tq >= 1 && other >= 1
    requires 2 * (clock - Ticks(denom, tq)) <= denom && 2 * (Ticks(denom, tq) - clock) <= denom
    ensures RatioOfDistances(clock, denom, tq, other)
  {
    var a, b := IntAbs(clock - Ticks(denom, tq)), IntAbs(clock - Ticks(denom, other));
    if other < tq {
      Distributed(denom, other, tq - other);
      MulOrder(1, tq - other, denom);
      SmallerTimesSmaller(other, tq + 1, a, b);
    } else if other > tq {
      var j := other - tq - 1;
      Distributed(denom, tq, j + 1);
      Distributed(denom, j, 1);
      FartherRatio(a, b, denom, tq, j);
    }
  }

  lemma FartherRatio(a: nat, b: nat, denom: nat, tq: nat, j: nat)
    requires a <= denom && b >= a + denom * j
    ensures (tq + 1 + j) * a <= (tq + 1) * b
  {
    MulOrder(a, denom, j);
    MulOrder(1, tq + 1, denom * j);
    MulOrder(a + denom * j, b, tq + 1);
    assert (a + denom * j) * (tq + 1) == (tq + 1) * a + (tq + 1) * (denom * j);
    assert (tq + 1 + j) * a == (tq + 1) * a + j * a;
  }

  lemma SmallerTimesSmaller(m: nat, n: nat, a: nat, b: nat)
    requires m <= n && a <= b
    ensures m * a <= n * b
  {
    MulOrder(m, n, a);
    MulOrder(a, b, n);
  }

  lemma Distributed(d: nat, m: nat, n: nat)
    ensures Ticks(d, m + n) == Ticks(d, m) + Ticks(d, n)
  {}

  /** e is a over d * t. */
  ghost predicate IsFraction(e: real, d: real, t: real, a: real) { e * (d * t) == a }

  /** x * y is at most z * w. */
  ghost predicate ProductsOrdered(x: real, y: real, z: real, w: real) { x * y <= z * w }

  lemma FractionOfTicks(e: real, clock: nat, denom: nat, tq: nat)
    requires Relative(e, clock, Ticks(denom, tq))
    ensures IsFraction(e, denom as real, tq as real, IntAbs(clock - Ticks(denom, tq)) as real)
  {
    RealTicks(denom, tq);
  }

  lemma ProductsAsReals(x: nat, y: nat, z: nat, w: nat)
    ensures x * y <= z * w <==> ProductsOrdered(x as real, y as real, z as real, w as real)
  {
    assert (x * y) as real == x as real * y as real;
    assert (z * w) as real == z as real * w as real;
  }

  lemma RatioFromDistances(e: real, f: real, clock: nat, denom: nat, tq: nat, other: nat)
    requires denom > 0 && tq >= 1 && other >= 1
    requires Relative(e, clock, Ticks(denom, tq)) && Relative(f, clock, Ticks(denom, other))
    requires RatioOfDistances(clock, denom, tq, other)
    ensures AtMostRatio(e, f, tq)
  {
    var a, b := IntAbs(clock - Ticks(denom, tq)), IntAbs(clock - Ticks(denom, other));
    FractionOfTicks(e, clock, denom, tq);
    FractionOfTicks(f, clock, denom, other);
    ProductsAsReals(other, a, tq + 1, b);
    RatioOverReals(e, f, denom as real, tq as real, (tq + 1) as real, other as real, a as real, b as real);
  }

  lemma RealTicks(denom: nat, tq: nat)
    ensures Ticks(denom, tq) as real == denom as real * tq as real
  {}

  lemma RatioOverReals(e: real, f: real, d: real, t: real, t1: real, o: real, a: real, b: real)
    requires d > 0.0 && o > 0.0
    requires IsFraction(e, d, t, a) && IsFraction(f, d, o, b) && ProductsOrdered(o, a, t1, b)
    ensures t * e <= t1 * f
  {
    MulPositive(d, o);
    assert (t * e) * (d * o) == o * (e * (d * t));
    assert (t1 * f) * (d * o) == t1 * (f * (d * o));
    MulCancel(t * e, t1 * f, d * o, o * a, t1 * b);
  }

  /** The rounded quanta's error is at most 1/(2 tq). */
  lemma RoundingErrorBound(clock: nat, denom: nat, e: real)
    requires denom > 0 && Quanta(clock, denom) >= 1
    requires Relative(e, clock, Ticks(denom, Quanta(clock, denom)))
    ensures HalfQuantum(e, Quanta(clock, denom))
  {
    RoundingDistance(clock, denom);
    RealTicks(denom, Quanta(clock, denom));
    HalfOverQuanta(e, denom as real, Quanta(clock, denom) as real,
                   IntAbs(clock - Ticks(denom, Quanta(clock, denom))) as real);
  }

  /** e is at most 1/(2 tq). */
  ghost predicate HalfQuantum(e: real, tq: nat) { e * (2.0 * tq as real) <= 1.0 }

  lemma SixthAtMost(e: real, tq: nat)
    requires tq >= 3 && HalfQuantum(e, tq)
    ensures e <= 1.0 / 6.0
  {
    if e > 1.0 / 6.0 { MulMonotone(6.0, 2.0 * tq as real, e); }
  }

  lemma ThirdAtMost(e: real, f: real, tq: nat)
    requires tq >= 3 && f >= 0.0 && AtMostRatio(e, f, tq)
    ensures 3.0 * e <= 4.0 * f
  {
    var t := tq as real;
    if 3.0 * e > 4.0 * f {
      MulPositive(3.0 * e - 4.0 * f, t);
      assert 3.0 * (t * e) <= 3.0 * (t * f) + 3.0 * f;
      MulMonotone(3.0, t, f);
    }
  }

  lemma HalfOverQuanta(e: real, d: real, t: real, a: real)
    requires d > 0.0 && 2.0 * a <= d && e * (d * t) == a
    ensures e * (2.0 * t) <= 1.0
  {
    assert (e * (2.0 * t)) * d == 2.0 * (e * (d * t));
    MulCancel(e * (2.0 * t), 1.0, d, 2.0 * a, d);
  }
}
