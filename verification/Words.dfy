/** Fixed-width unsigned values of the C sources, kept as ranges of the
    mathematical integers: a shift right is a division, a cast to a narrower
    type is a remainder, and both are written out where the source has them. */
module Words {

  type u8 = x: int | 0 <= x < 0x100
  type u32 = x: int | 0 <= x < 0x1_0000_0000

  /** The size of a 32-bit word. */
  const WORD := 0x1_0000_0000

  datatype Option<+T> = None | Some(value: T)

  function Min(a: int, b: int): int { if a <= b then a else b }

  function Max(a: int, b: int): int { if a <= b then b else a }

  /** Two to the n. */
  function Pow2(n: nat): (r: nat)
    ensures r > 0
  {
    if n == 0 then 1 else 2 * Pow2(n - 1)
  }

  lemma {:induction false} Pow2Add(m: nat, n: nat)
    ensures Pow2(m + n) == Pow2(m) * Pow2(n)
  {
    if m > 0 {
      Pow2Add(m - 1, n);
      assert Pow2(m) * Pow2(n) == 2 * (Pow2(m - 1) * Pow2(n));
    }
  }

  lemma {:induction false} Pow2Monotone(m: nat, n: nat)
    requires m <= n
    ensures Pow2(m) <= Pow2(n)
  {
    if m < n { Pow2Monotone(m, n - 1); }
  }

  lemma MulIsPositive(a: nat, b: nat)
    requires a > 0 && b > 0
    ensures a * b > 0
  {}

  lemma MulOrder(a: nat, b: nat, c: nat)
    requires a <= b
    ensures a * c <= b * c
  {}

  lemma {:induction false} MulLess(m: nat, x: int, y: int)
    requires x < y
    ensures m * x + m <= m * y
  {
    if m > 0 {
      MulLess(m - 1, x, y);
      assert m * x == (m - 1) * x + x;
      assert m * y == (m - 1) * y + y;
    }
  }

  /** Quotient and remainder are determined by their sum. */
  lemma QuotientIs(a: int, m: nat, q: int, r: nat)
    requires m > 0 && a == m * q + r && r < m
    ensures a / m == q && a % m == r
  {
    var q', r' := a / m, a % m;
    assert a == m * q' + r';
    if q' < q { MulLess(m, q', q); } else if q < q' { MulLess(m, q, q'); }
  }

  lemma ModOfMultiple(m: nat, k: nat)
    requires m > 0
    ensures (m * k) % m == 0
  {
    QuotientIs(m * k, m, k, 0);
  }

  /** The multiples of inc are inc apart. */
  lemma NextMultiple(a: nat, b: nat, inc: nat)
    requires inc > 0 && a % inc == 0
    ensures (a + inc) % inc == 0
    ensures b % inc == 0 && b > a ==> b >= a + inc
  {
    var x, y := a / inc, b / inc;
    assert a == inc * x;
    assert inc * (x + 1) == a + inc;
    ModOfMultiple(inc, x + 1);
    if b % inc == 0 && b > a {
      assert b == inc * y;
      if y < x { MulLess(inc, y, x); }
      if x < y { MulLess(inc, x, y); }
    }
  }

  /** A multiple of inc within span is within span's last multiple of inc. */
  lemma LastMultiple(a: nat, span: nat, inc: nat)
    requires inc > 0 && a % inc == 0 && a <= span
    ensures a <= span - span % inc
  {
    var x, y := a / inc, span / inc;
    assert a == inc * x && span == inc * y + span % inc;
    if y < x { MulLess(inc, y, x); }
    if x <= y { MulOrder(x, y, inc); }
  }
}
