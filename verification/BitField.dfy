/** Little-endian bit-field extraction from frame data, in the Python form with
    unbounded integers and the Lua form with 32-bit operations, and the engine
    speed read with it (SAE J1939-71, SPN 190 in EEC1). */
module BitField {
  import opened Words

  /** The data bytes as one little-endian number. */
  function Value(data: seq<u8>): nat {
    if data == [] then 0 else data[0] + 0x100 * Value(data[1..])
  }

  /** The bits start .. start + length of the data's value; bytes past the end
      count as zero. */
  function Field(data: seq<u8>, start: nat, length: nat): nat {
    Low(Shift(Value(data), start), length)
  }

  function Shift(v: nat, n: nat): nat {
    QuotientNonNegative(v, Pow2(n));
    v / Pow2(n)
  }

  lemma QuotientNonNegative(v: nat, d: nat)
    requires d > 0
    ensures v / d >= 0
  {
    var q, r := v / d, v % d;
    assert v == d * q + r;
    if q < 0 { MulLess(d, q, 0); }
  }

  function Low(v: nat, n: nat): nat { v % Pow2(n) }

  /** hi on top of n low bits. */
  function Join(lo: nat, n: nat, hi: nat): nat { lo + Pow2(n) * hi }

  /** The bit the loops look at in one iteration. */
  predicate DataBit(data: seq<u8>, pos: nat) {
    pos / 8 < |data| && data[pos / 8] / Pow2(pos % 8) % 2 == 1
  }

  // ---- Bits of a number ----

  /** Dividing by a and then by b is dividing by a * b, and the remainder
      splits accordingly. */
  lemma DivideTwice(v: nat, a: nat, b: nat)
    requires a > 0 && b > 0
    ensures a * b > 0 && v / (a * b) == v / a / b
    ensures v % (a * b) == v % a + a * (v / a % b)
  {
    MulIsPositive(a, b);
    var q, r := v / a, v % a;
    Nested(v, a, b, q, r, q / b, q % b);
    QuotientIs(v, a * b, q / b, a * (q % b) + r);
  }

  lemma Nested(v: nat, a: nat, b: nat, q: nat, r: nat, p: nat, s: nat)
    requires v == a * q + r && r < a && q == b * p + s && s < b
    ensures v == (a * b) * p + (a * s + r) && a * s + r < a * b
  {
    assert a * (b * p + s) == (a * b) * p + a * s;
    MulLess(a, s, b);
  }

  lemma ShiftTwice(v: nat, m: nat, n: nat)
    ensures Shift(Shift(v, m), n) == Shift(v, m + n)
    ensures Low(v, m + n) == Join(Low(v, m), m, Low(Shift(v, m), n))
  {
    Pow2Add(m, n);
    DivideTwice(v, Pow2(m), Pow2(n));
  }

  /** A field of n + m bits is its low n bits and the m bits above them. */
  lemma FieldsConcatenate(data: seq<u8>, start: nat, n: nat, m: nat)
    ensures Field(data, start, n + m) == Join(Field(data, start, n), n, Field(data, start + n, m))
  {
    ShiftTwice(Value(data), start, n);
    ShiftTwice(Shift(Value(data), start), n, m);
  }

  /** One more bit on top of a field: the bit the loop looks at. */
  lemma FieldGrows(data: seq<u8>, start: nat, i: nat)
    ensures Field(data, start, i + 1)
         == Field(data, start, i) + (if DataBit(data, start + i) then Pow2(i) else 0)
  {
    FieldsConcatenate(data, start, i, 1);
    DataBitIsValueBit(data, start + i);
    JoinBit(Field(data, start, i), i, Shift(Value(data), start + i));
  }

  lemma JoinBit(lo: nat, n: nat, v: nat)
    ensures Join(lo, n, Low(v, 1)) == lo + (if v % 2 == 1 then Pow2(n) else 0)
  {
    assert Pow2(1) == 2;
    assert v % 2 == 0 || v % 2 == 1;
  }

  lemma SmallPowers()
    ensures Pow2(0) == 1 && Pow2(1) == 2 && Pow2(2) == 4 && Pow2(3) == 8 && Pow2(4) == 16
    ensures Pow2(5) == 32 && Pow2(6) == 64 && Pow2(7) == 128 && Pow2(8) == 256
  {
    assert Pow2(4) == 16;
    assert Pow2(6) == 64;
  }

  /** The loop's bit is the value's bit. */
  lemma {:induction false} DataBitIsValueBit(data: seq<u8>, pos: nat)
    ensures DataBit(data, pos) <==> Shift(Value(data), pos) % 2 == 1
    decreases data
  {
    if data == [] {
      assert 0 / Pow2(pos) == 0;
    } else if pos < 8 {
      LowBits(data[0], Value(data[1..]), pos);
    } else {
      DataBitIsValueBit(data[1..], pos - 8);
      ShiftTwice(Value(data), 8, pos - 8);
      SmallPowers();
      assert Value(data) / 256 == Value(data[1..]);
      assert (pos - 8) / 8 == pos / 8 - 1 && (pos - 8) % 8 == pos % 8;
    }
  }

  /** A byte on top does not change the bits below it. */
  lemma LowBits(low: u8, high: nat, pos: nat)
    requires pos < 8
    ensures low / Pow2(pos) % 2 == (low + 0x100 * high) / Pow2(pos) % 2
  {
    SmallPowers();
    if pos == 0 { Shifted(low, high, 1, 128); }
    else if pos == 1 { Shifted(low, high, 2, 64); }
    else if pos == 2 { Shifted(low, high, 4, 32); }
    else if pos == 3 { Shifted(low, high, 8, 16); }
    else if pos == 4 { Shifted(low, high, 16, 8); }
    else if pos == 5 { Shifted(low, high, 32, 4); }
    else if pos == 6 { Shifted(low, high, 64, 2); }
    else { Shifted(low, high, 128, 1); }
  }

  lemma Shifted(low: nat, high: nat, a: nat, c: nat)
    requires a > 0 && 2 * (a * c) == 0x100
    ensures low / a % 2 == (low + 0x100 * high) / a % 2
  {
    var q, r, k := low / a, low % a, c * high;
    assert low == a * q + r;
    Triple(a, c, high);
    ShiftedSum(low, high, a, a * c, q, r, k);
    QuotientIs(low + 0x100 * high, a, q + 2 * k, r);
    assert (q + 2 * k) % 2 == q % 2;
  }

  lemma ShiftedSum(low: nat, high: nat, a: nat, half: nat, q: nat, r: nat, k: nat)
    requires low == a * q + r && 2 * half == 0x100 && a * k == half * high
    ensures low + 0x100 * high == a * (q + 2 * k) + r
  {
    Distribute(a, q, 2 * k);
    Twice(a, k);
    Twice(high, half);
  }

  lemma Triple(a: nat, b: nat, c: nat)
    ensures a * (b * c) == (a * b) * c
  {}

  lemma Twice(a: nat, k: nat)
    ensures a * (2 * k) == 2 * (a * k)
  {}

  lemma Distribute(a: nat, m: nat, n: nat)
    ensures a * (m + n) == a * m + a * n
  {}

  // ---- The loops ----

  /** extract_intel of the Python example. */
  method ExtractIntel(data: seq<u8>, startBit: nat, length: nat) returns (value: nat)
    ensures value == Field(data, startBit, length)
  {
    value := 0;
    for i := 0 to length
      invariant value == Field(data, startBit, i)
    {
      var bit := startBit + i;
      var byteIdx, bitIdx := bit / 8, bit % 8;
      FieldGrows(data, startBit, i);
      if byteIdx < |data| && data[byteIdx] / Pow2(bitIdx) % 2 == 1 {
        value := value + Pow2(i);
      }
    }
  }

  // ---- 32-bit operations ----

  /** Setting bit k % 32 of a 32-bit pattern: bor(value, lshift(1, k)). */
  function SetBit32(pattern: nat, k: nat): nat {
    if pattern / Pow2(k % 32) % 2 == 1 then pattern else pattern + Pow2(k % 32)
  }

  lemma SetBit32Fits(pattern: nat, k: nat)
    requires pattern < WORD
    ensures SetBit32(pattern, k) < WORD
  {
    var e := k % 32;
    Pow2Add(e, 31 - e);
    HalfWord();
    if pattern / Pow2(e) % 2 != 1 { RoomForBit(pattern, Pow2(e), Pow2(31 - e)); }
  }

  /** An even quotient by a leaves room for one more a below 2ac. */
  lemma RoomForBit(pattern: nat, a: nat, c: nat)
    requires a > 0 && 2 * (a * c) == WORD && pattern < WORD && pattern / a % 2 != 1
    ensures pattern + a < WORD
  {
    var q := pattern / a;
    assert pattern == a * q + pattern % a;
    assert a * (2 * c) == WORD;
    if q >= 2 * c { MulOrder(2 * c, q, a); }
    MulLess(a, q + 1, 2 * c);
    Distribute(a, q, 1);
  }

  lemma HalfWord()
    ensures Pow2(31) == 0x8000_0000 && Pow2(32) == WORD
  {
    SmallPowers();
    Pow2Add(8, 8);
    Pow2Add(16, 8);
    Pow2Add(24, 7);
  }

  /** Setting a bit above all set ones is adding it. */
  lemma SetFreshBit(pattern: nat, k: nat)
    requires k < 32 && pattern < Pow2(k)
    ensures SetBit32(pattern, k) == pattern + Pow2(k)
  {
    QuotientIs(pattern, Pow2(k), 0, pattern);
  }

  /** A field is below its length's power of two; a bit past the field's value
      leaves no room below 2 to the 31st, or to the 32nd. */
  lemma HighBit(data: seq<u8>, start: nat, k: nat)
    ensures Field(data, start, k) < Pow2(k)
    ensures k >= 31 ==> Pow2(k) >= 0x8000_0000
    ensures k <= 32 ==> Pow2(k) <= WORD
  {
    HalfWord();
    if k >= 31 { Pow2Monotone(31, k); }
    if k <= 32 { Pow2Monotone(k, 32); }
  }

  predicate Bit(v: nat, j: nat) { Shift(v, j) % 2 == 1 }

  lemma AddMultiple(v: nat, a: nat, d: nat)
    requires a > 0
    ensures (v + a * d) / a == v / a + d && v / a >= 0
  {
    var q, r := v / a, v % a;
    QuotientNonNegative(v, a);
    assert v == a * q + r;
    Distribute(a, q, d);
    QuotientIs(v + a * d, a, q + d, r);
  }

  lemma EvenMore(q: nat, h: nat)
    ensures (q + 2 * h) % 2 == q % 2
  {}

  lemma AddBelow(v: nat, e: nat, j: nat)
    requires j < e
    ensures Bit(v + Pow2(e), j) == Bit(v, j)
  {
    Pow2Add(j, e - j);
    AddMultiple(v, Pow2(j), Pow2(e - j));
    EvenMore(Shift(v, j), Pow2(e - j - 1));
  }

  lemma AddHere(v: nat, e: nat)
    ensures Shift(v + Pow2(e), e) == Shift(v, e) + 1
  {
    AddMultiple(v, Pow2(e), 1);
  }

  lemma ShiftOn(v: nat, m: nat, n: nat)
    ensures Shift(Shift(v, m), n) == Shift(v, m + n)
  {
    ShiftTwice(v, m, n);
  }

  lemma HalfOfEven(q: nat)
    requires q % 2 != 1
    ensures Shift(q + 1, 1) == Shift(q, 1)
  {
    assert Pow2(1) == 2;
  }

  lemma AddJustAbove(v: nat, e: nat)
    requires !Bit(v, e)
    ensures Shift(v + Pow2(e), e + 1) == Shift(v, e + 1)
  {
    AddHere(v, e);
    HalfOfEven(Shift(v, e));
    ShiftOn(v, e, 1);
    ShiftOn(v + Pow2(e), e, 1);
  }

  lemma AddAbove(v: nat, e: nat, k: nat)
    requires !Bit(v, e)
    ensures Bit(v + Pow2(e), e + 1 + k) == Bit(v, e + 1 + k)
  {
    AddJustAbove(v, e);
    ShiftOn(v, e + 1, k);
    ShiftOn(v + Pow2(e), e + 1, k);
  }

  lemma AddSets(v: nat, e: nat, j: nat)
    requires !Bit(v, e)
    ensures Bit(v + Pow2(e), j) <==> Bit(v, j) || j == e
  {
    if j < e {
      AddBelow(v, e, j);
    } else if j == e {
      AddHere(v, e);
    } else {
      AddAbove(v, e, j - e - 1);
    }
  }

  /** Setting a bit sets that bit, modulo 32, and no other. */
  lemma SetBitSets(pattern: nat, k: nat, j: nat)
    ensures Bit(SetBit32(pattern, k), j) <==> Bit(pattern, j) || j == k % 32
  {
    if !Bit(pattern, k % 32) { AddSets(pattern, k % 32, j); }
  }

  /** Bit j of the pattern is the OR of the field's bits j, j + 32, and so on. */
  ghost predicate FoldsField(pattern: nat, data: seq<u8>, start: nat, length: nat) {
    forall j: nat :: j < 32 ==> (Bit(pattern, j) <==> SomeBit(data, start, length, j))
  }

  ghost predicate SomeBit(data: seq<u8>, start: nat, length: nat, j: nat) {
    exists i: nat :: i < length && i % 32 == j && DataBit(data, start + i)
  }

  lemma FoldsNone(data: seq<u8>, start: nat)
    ensures FoldsField(0, data, start, 0)
  {
    forall j: nat | j < 32 ensures !Bit(0, j) { QuotientIs(0, Pow2(j), 0, 0); }
  }

  /** The pattern after the loop has looked at one more bit. */
  function OneMore(pattern: nat, on: bool, k: nat): nat { if on then SetBit32(pattern, k) else pattern }

  lemma FoldsOneMore(pattern: nat, data: seq<u8>, start: nat, length: nat)
    requires pattern < WORD && FoldsField(pattern, data, start, length)
    ensures FoldsField(OneMore(pattern, DataBit(data, start + length), length), data, start, length + 1)
  {
    var next := OneMore(pattern, DataBit(data, start + length), length);
    forall j: nat | j < 32 ensures Bit(next, j) <==> SomeBit(data, start, length + 1, j) {
      SetBitSets(pattern, length, j);
      SomeBitGrows(data, start, length, j);
    }
  }

  lemma SomeBitGrows(data: seq<u8>, start: nat, length: nat, j: nat)
    ensures SomeBit(data, start, length + 1, j) <==>
      SomeBit(data, start, length, j) || (length % 32 == j && DataBit(data, start + length))
  {
    if SomeBit(data, start, length, j) {
      var i: nat :| i < length && i % 32 == j && DataBit(data, start + i);
      assert i < length + 1;
    }
  }

  /** The Lua bit library hands patterns out as signed numbers. */
  function Signed32(pattern: nat): int {
    if pattern >= 0x8000_0000 then pattern - WORD else pattern
  }

  /** What the loop has after looking at length bits. */
  ghost predicate Accumulated(pattern: int, data: seq<u8>, start: nat, length: nat) {
    && 0 <= pattern < WORD
    && FoldsField(pattern, data, start, length)
    && (length <= 32 || Field(data, start, length) < 0x8000_0000 ==> pattern == Field(data, start, length))
  }

  lemma AccumulatesOneMore(pattern: nat, data: seq<u8>, start: nat, i: nat)
    requires Accumulated(pattern, data, start, i)
    ensures Accumulated(OneMore(pattern, DataBit(data, start + i), i), data, start, i + 1)
  {
    FieldGrows(data, start, i);
    HighBit(data, start, i);
    SetBit32Fits(pattern, i);
    FoldsOneMore(pattern, data, start, i);
    if i < 32 && DataBit(data, start + i) { SetFreshBit(pattern, i); }
  }

  lemma AccumulatedAgrees(pattern: nat, data: seq<u8>, start: nat, length: nat)
    requires Accumulated(pattern, data, start, length)
    ensures Signed32(pattern) == Field(data, start, length) <==> Field(data, start, length) < 0x8000_0000
    ensures length <= 31 ==> Signed32(pattern) == Field(data, start, length)
    ensures length == 32 ==> Signed32(pattern) == Signed32(Field(data, start, length))
  {
    HighBit(data, start, length);
    if length <= 31 {
      Pow2Monotone(length, 31);
      HalfWord();
    }
  }

  /** extract_intel of the Lua example; the accumulator is kept as its 32-bit
      pattern. It agrees with the Python form exactly when the field's value
      is below 2 to the 31st, so always for lengths up to 31; at any length its
      32 bits are those of the field folded onto them. */
  method ExtractIntel32(data: seq<u8>, startBit: nat, length: nat) returns (value: int)
    ensures value == Field(data, startBit, length) <==> Field(data, startBit, length) < 0x8000_0000
    ensures length <= 31 ==> value == Field(data, startBit, length)
    ensures length == 32 && Field(data, startBit, length) >= 0x8000_0000 ==>
      value == Field(data, startBit, length) - 0x1_0000_0000
    ensures exists pattern: nat ::
      && pattern < 0x1_0000_0000 && FoldsField(pattern, data, startBit, length)
      && value == if pattern < 0x8000_0000 then pattern else pattern - 0x1_0000_0000
  {
    var pattern := 0;
    FoldsNone(data, startBit);
    assert Field(data, startBit, 0) == 0;
    for i := 0 to length
      invariant Accumulated(pattern, data, startBit, i)
    {
      AccumulatesOneMore(pattern, data, startBit, i);
      var pos := startBit + i;
      var byteIdx, bitIdx := pos / 8, pos % 8;
      if byteIdx < |data| && data[byteIdx] / Pow2(bitIdx) % 2 == 1 {
        pattern := SetBit32(pattern, i);
      }
    }
    AccumulatedAgrees(pattern, data, startBit, length);
    value := Signed32(pattern);
  }

  // ---- Engine speed ----

  const EEC1_PGN := 0xF004
  const SPN190_START_BIT := 24
  const SPN190_LENGTH := 16
  const SPN190_NOT_AVAILABLE_HIGH_BYTE := 0xFA

  function PgnOf(canId: u32): nat { canId / 0x100 % 0x1_0000 }

  /** try_get_engine_speed, with the extraction by its meaning. */
  function EngineSpeed(extended: bool, id: u32, data: seq<u8>): Option<real> {
    if !extended || PgnOf(id) != EEC1_PGN then None
    else if |data| < 6 then None
    else
      var raw := Field(data, SPN190_START_BIT, SPN190_LENGTH);
      if raw / 0x100 > SPN190_NOT_AVAILABLE_HIGH_BYTE then None else Some(raw as real * 0.125)
  }

  function Word16(low: int, high: int): int { low + 0x100 * high }

  /** Bytes 3 and 4, low byte first, an eighth of a revolution a step. */
  function Rpm(data: seq<u8>): real
    requires |data| >= 5
  {
    Word16(data[3], data[4]) as real * 0.125
  }

  /** The speed is read from bytes 3 and 4 unless the high byte says it is not
      available; it is at most 8031.875. */
  lemma EngineSpeedIsBytes34(id: u32, data: seq<u8>)
    requires |data| >= 6 && PgnOf(id) == EEC1_PGN
    ensures EngineSpeed(true, id, data) == if data[4] <= 0xFA then Some(Rpm(data)) else None
    ensures data[4] <= 0xFA ==> 0.0 <= Rpm(data) <= 8031.875
  {
    SpeedField(data);
  }

  lemma SpeedField(data: seq<u8>)
    requires |data| >= 5
    ensures Field(data, SPN190_START_BIT, SPN190_LENGTH) == Word16(data[3], data[4])
  {
    var rest := data[3..];
    ValueDrop3(data);
    HalfBytes();
    assert Value(rest) == rest[0] + 0x100 * Value(rest[1..]);
    assert Value(rest[1..]) == rest[1] + 0x100 * Value(rest[1..][1..]);
    TwoBytes(rest[0], rest[1], Value(rest[1..][1..]));
  }

  lemma HalfBytes()
    ensures Pow2(16) == 0x1_0000 && Pow2(24) == 0x100_0000
  {
    SmallPowers();
    Pow2Add(8, 8);
    Pow2Add(16, 8);
  }

  lemma TwoBytes(b0: u8, b1: u8, more: nat)
    ensures (b0 + 0x100 * (b1 + 0x100 * more)) % 0x1_0000 == b0 + 0x100 * b1
  {}

  lemma ValueDrop3(data: seq<u8>)
    requires |data| >= 3
    ensures Value(data) / 0x100_0000 == Value(data[3..])
  {
    var d1, d2 := data[1..], data[2..];
    assert d1[1..] == d2 && d2[1..] == data[3..];
    assert Value(data) == data[0] + 0x100 * Value(d1);
    assert Value(d1) == d1[0] + 0x100 * Value(d2);
    assert Value(d2) == d2[0] + 0x100 * Value(data[3..]);
  }

  /** An extended id is put together from its bytes: sa is the lowest. */
  predicate IsId(id: u32, x: nat, hi: u8, lo: u8, sa: u8) {
    id == 0x100_0000 * x + 0x1_0000 * hi + 0x100 * lo + sa
  }

  lemma PgnParts(id: u32, x: nat, hi: u8, lo: u8, sa: u8)
    requires IsId(id, x, hi, lo, sa)
    ensures PgnOf(id) == 0x100 * hi + lo
  {
    QuotientIs(id, 0x100, 0x1_0000 * x + 0x100 * hi + lo, sa);
    QuotientIs(0x1_0000 * x + 0x100 * hi + lo, 0x1_0000, x, 0x100 * hi + lo);
  }

  /** What is read of a frame, in numbers: a speed exactly from extended frames
      whose id has 0xF0 and 0x04 above its lowest byte, with at least six bytes,
      the fifth not above 0xFA; then it is an eighth of the fourth and fifth. */
  ghost predicate IsReading(r: Option<real>, extended: bool, hi: u8, lo: u8, data: seq<u8>) {
    && (r.Some? <==> extended && hi == 0xF0 && lo == 0x04 && |data| >= 6 && data[4] <= 0xFA)
    && (r.Some? ==> 8.0 * r.value == Word16(data[3], data[4]) as real)
  }

  lemma SpeedIsReading(extended: bool, id: u32, data: seq<u8>, x: nat, hi: u8, lo: u8, sa: u8)
    requires IsId(id, x, hi, lo, sa)
    ensures IsReading(EngineSpeed(extended, id, data), extended, hi, lo, data)
  {
    PgnParts(id, x, hi, lo, sa);
    if extended && PgnOf(id) == EEC1_PGN && |data| >= 6 { EngineSpeedIsBytes34(id, data); }
  }

  lemma EveryReading(extended: bool, id: u32, data: seq<u8>)
    ensures forall x: nat, hi: u8, lo: u8, sa: u8 :: IsId(id, x, hi, lo, sa) ==>
      IsReading(EngineSpeed(extended, id, data), extended, hi, lo, data)
  {
    forall x: nat, hi: u8, lo: u8, sa: u8 | IsId(id, x, hi, lo, sa)
      ensures IsReading(EngineSpeed(extended, id, data), extended, hi, lo, data)
    {
      SpeedIsReading(extended, id, data, x, hi, lo, sa);
    }
  }

  /** The Python monitor's reading. */
  method TryGetEngineSpeed(extended: bool, id: u32, data: seq<u8>) returns (r: Option<real>)
    ensures r == EngineSpeed(extended, id, data)
    ensures forall x: nat, hi: u8, lo: u8, sa: u8 :: IsId(id, x, hi, lo, sa) ==> IsReading(r, extended, hi, lo, data)
  {
    EveryReading(extended, id, data);
    if !extended || PgnOf(id) != EEC1_PGN {
      return None;
    }
    if |data| < 6 {
      return None;
    }
    var raw := ExtractIntel(data, SPN190_START_BIT, SPN190_LENGTH);
    if raw / 0x100 > SPN190_NOT_AVAILABLE_HIGH_BYTE {
      return None;
    }
    r := Some(raw as real * 0.125);
  }

  /** The Lua monitor's reading: the same for every frame. */
  method TryGetEngineSpeed32(extended: bool, id: u32, data: seq<u8>) returns (r: Option<real>)
    ensures r == EngineSpeed(extended, id, data)
    ensures forall x: nat, hi: u8, lo: u8, sa: u8 :: IsId(id, x, hi, lo, sa) ==> IsReading(r, extended, hi, lo, data)
  {
    EveryReading(extended, id, data);
    if !extended || PgnOf(id) != EEC1_PGN {
      return None;
    }
    if |data| < 6 {
      return None;
    }
    var raw := ExtractIntel32(data, SPN190_START_BIT, SPN190_LENGTH);
    if raw / 0x100 > SPN190_NOT_AVAILABLE_HIGH_BYTE {
      return None;
    }
    r := Some(raw as real * 0.125);
  }
}
