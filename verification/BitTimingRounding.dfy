/** When the quanta count the search rounds to is the best one at its
    prescaler, among all counts and among those the limits allow. */
module BitTimingRounding {
  import opened Words
  import opened RealArith
  import opened BitTiming
  import opened BitTimingErrors
  import opened BitTimingTheorems

  /** Rounding up, and rounding down no further than the harmonic mean. */
  predicate RoundsToBest(clock: nat, denom: nat, tq: nat) {
    clock <= Ticks(denom, tq) || (2 * tq + 1) * (clock - Ticks(denom, tq)) <= Ticks(denom, tq)
  }

  /** The search's own quanta count has the smallest bitrate error of all
      positive counts at its prescaler exactly when RoundsToBest holds. */
  lemma RoundingIsBestIff(p: Problem, brp: nat, tq: nat)
    requires p.Valid() && brp > 0 && tq >= 1 && IsRounded(p, brp, tq)
    ensures RoundsToBest(p.clock, brp * p.bitrate, tq) <==>
      forall other: nat :: other >= 1 ==> BitrateError(p, brp, tq) <= BitrateError(p, brp, other)
  {
    var denom := brp * p.bitrate;
    ErrorIsRelative(p, brp, tq);
    RoundingDistance(p.clock, denom);
    if RoundsToBest(p.clock, denom, tq) {
      forall other: nat | other >= 1 ensures BitrateError(p, brp, tq) <= BitrateError(p, brp, other) {
        ErrorIsRelative(p, brp, other);
        NoneCloser(p.clock, denom, tq, other);
        CompareErrors(BitrateError(p, brp, tq), BitrateError(p, brp, other), p.clock, denom, tq, other);
      }
    } else {
      ErrorIsRelative(p, brp, tq + 1);
      NextIsCloser(p.clock, denom, tq);
      CompareErrors(BitrateError(p, brp, tq), BitrateError(p, brp, tq + 1), p.clock, denom, tq, tq + 1);
    }
  }

  /** The relative distance of tq quanta is no larger than that of other. */
  ghost predicate NoFarther(clock: nat, denom: nat, tq: nat, other: nat) {
    other * IntAbs(clock - Ticks(denom, tq)) <= tq * IntAbs(clock - Ticks(denom, other))
  }

  lemma CompareErrors(e: real, f: real, clock: nat, denom: nat, tq: nat, other: nat)
    requires denom > 0 && tq >= 1 && other >= 1
    requires Relative(e, clock, Ticks(denom, tq)) && Relative(f, clock, Ticks(denom, other))
    ensures e <= f <==> NoFarther(clock, denom, tq, other)
  {
    var a, b := IntAbs(clock - Ticks(denom, tq)), IntAbs(clock - Ticks(denom, other));
    FractionOfTicks(e, clock, denom, tq);
    FractionOfTicks(f, clock, denom, other);
    ProductsAsReals(other, a, tq, b);
    CompareOverReals(e, f, denom as real, tq as real, other as real, a as real, b as real);
  }

  lemma CompareOverReals(e: real, f: real, d: real, t: real, o: real, a: real, b: real)
    requires d > 0.0 && t > 0.0 && o > 0.0
    requires IsFraction(e, d, t, a) && IsFraction(f, d, o, b)
    ensures e <= f <==> ProductsOrdered(o, a, t, b)
  {
    var k := d * t * o;
    MulPositive(d, t);
    MulPositive(d * t, o);
    assert e * k == o * a by { assert e * k == (e * (d * t)) * o; }
    assert f * k == t * b by { assert f * k == (f * (d * o)) * t; }
    if e <= f { MulMonotone(e, f, k); }
    if o * a <= t * b { MulCancel(e, f, k, o * a, t * b); }
  }

  lemma NextIsCloser(clock: nat, denom: nat, tq: nat)
    requires denom > 0 && 2 * (clock - Ticks(denom, tq)) < denom
    requires !RoundsToBest(clock, denom, tq)
    ensures !NoFarther(clock, denom, tq, tq + 1)
  {
    var a := clock - Ticks(denom, tq);
    Distributed(denom, tq, 1);
    assert tq * (denom - a) == Ticks(denom, tq) - tq * a;
    assert (2 * tq + 1) * a == (tq + 1) * a + tq * a;
  }

  /** Fewer quanta than the rounded ones are never closer. */
  lemma FewerIsFarther(clock: nat, denom: nat, tq: nat, other: nat)
    requires denom > 0 && 1 <= other < tq && 2 * (Ticks(denom, tq) - clock) <= denom
    requires 2 * (clock - Ticks(denom, tq)) < denom
    ensures NoFarther(clock, denom, tq, other)
  {
    Distributed(denom, other, tq - other);
    MulOrder(1, tq - other, denom);
    SmallerTimesSmaller(other, tq, IntAbs(clock - Ticks(denom, tq)), IntAbs(clock - Ticks(denom, other)));
  }

  lemma NoneCloser(clock: nat, denom: nat, tq: nat, other: nat)
    requires denom > 0 && tq >= 1 && other >= 1
    requires 2 * (clock - Ticks(denom, tq)) < denom && 2 * (Ticks(denom, tq) - clock) <= denom
    requires RoundsToBest(clock, denom, tq)
    ensures NoFarther(clock, denom, tq, other)
  {
    if other < tq {
      FewerIsFarther(clock, denom, tq, other);
    } else if other > tq {
      Distributed(denom, tq, other - tq);
      if clock <= Ticks(denom, tq) {
        MoreThanEnough(clock, denom, tq, other - tq);
      } else {
        BelowHarmonicMean(clock, denom, tq, other - tq);
      }
    }
  }

  lemma MoreThanEnough(clock: nat, denom: nat, tq: nat, j: nat)
    requires clock <= Ticks(denom, tq) && Ticks(denom, tq + j) == Ticks(denom, tq) + Ticks(denom, j)
    ensures NoFarther(clock, denom, tq, tq + j)
  {
    var a := Ticks(denom, tq) - clock;
    MulOrder(a, Ticks(denom, tq), j);
    assert tq * (a + Ticks(denom, j)) == tq * a + Ticks(denom, tq) * j;
    assert (tq + j) * a == tq * a + a * j;
  }

  lemma BelowHarmonicMean(clock: nat, denom: nat, tq: nat, j: nat)
    requires j >= 1 && clock > Ticks(denom, tq) && 2 * (clock - Ticks(denom, tq)) < denom
    requires (2 * tq + 1) * (clock - Ticks(denom, tq)) <= Ticks(denom, tq)
    requires Ticks(denom, tq + j) == Ticks(denom, tq) + Ticks(denom, j)
    ensures NoFarther(clock, denom, tq, tq + j)
  {
    var a := clock - Ticks(denom, tq);
    MulOrder(1, j, denom);
    AboveHarmonic(a, Ticks(denom, j) - a, denom, tq, j);
  }

  lemma AboveHarmonic(a: nat, b: nat, denom: nat, tq: nat, j: nat)
    requires j >= 1 && a + b == Ticks(denom, j) && (2 * tq + 1) * a <= Ticks(denom, tq)
    ensures (tq + j) * a <= tq * b
  {
    var m, t := tq * a, Ticks(denom, tq);
    assert (2 * tq + 1) * a == 2 * m + a;
    MulOrder(2 * m + a, t, j);
    assert (2 * m + a) * j == 2 * m * j + a * j;
    MulOrder(1, j, 2 * m);
    assert t * j == tq * Ticks(denom, j);
    assert tq * (a + b) == m + tq * b;
    assert (tq + j) * a == m + a * j;
  }

  /** Among the counts that the limits allow, the rounded one, if it is one of
      them, is the best exactly when it is the best of all or the next count is
      not allowed. */
  lemma RoundingIsBestAllowedIff(p: Problem, brp: nat, tq: nat)
    requires p.Valid() && brp > 0 && tq >= 1 && IsRounded(p, brp, tq) && Splittable(p.btc, tq)
    ensures (RoundsToBest(p.clock, brp * p.bitrate, tq) || !Splittable(p.btc, tq + 1)) <==>
      forall other: nat :: other >= 1 && Splittable(p.btc, other) ==>
        BitrateError(p, brp, tq) <= BitrateError(p, brp, other)
  {
    var denom := brp * p.bitrate;
    ErrorIsRelative(p, brp, tq);
    RoundingDistance(p.clock, denom);
    if RoundsToBest(p.clock, denom, tq) {
      RoundingIsBestIff(p, brp, tq);
    } else if Splittable(p.btc, tq + 1) {
      ErrorIsRelative(p, brp, tq + 1);
      NextIsCloser(p.clock, denom, tq);
      CompareErrors(BitrateError(p, brp, tq), BitrateError(p, brp, tq + 1), p.clock, denom, tq, tq + 1);
    } else {
      forall other: nat | other >= 1 && Splittable(p.btc, other)
        ensures BitrateError(p, brp, tq) <= BitrateError(p, brp, other)
      {
        assert other <= tq;
        if other < tq {
          ErrorIsRelative(p, brp, other);
          FewerIsFarther(p.clock, denom, tq, other);
          CompareErrors(BitrateError(p, brp, tq), BitrateError(p, brp, other), p.clock, denom, tq, other);
        }
      }
    }
  }
}
