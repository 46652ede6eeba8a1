/** What the texts of the send tool's syntax stand for, character by character
    and in plain numbers. */
module CansendTexts {
  import opened Words
  import opened Wire
  import opened Cansend

  /** The sixteen digits in either case, and no other character. */
  lemma HexDigits(v: nat, c: char)
    requires v < 16
    ensures HexVal("0123456789abcdef"[v]) == v && HexVal("0123456789ABCDEF"[v]) == v
    ensures HexVal(c) >= 0 <==> '0' <= c <= '9' || 'a' <= c <= 'f' || 'A' <= c <= 'F'
    ensures IsSpace(c) <==> c == ' ' || c == '\t' || c == '\n' || c as int == 11 || c as int == 12 || c == '\r'
  {}

  /** Numbers of up to 64 bits are taken as they are or negated modulo 2^64,
      larger ones cut to the largest. */
  lemma UlongInNumbers(n: nat, negated: bool)
    ensures n > 0xffff_ffff_ffff_ffff ==> AsUlong(n, negated) == 0xffff_ffff_ffff_ffff
    ensures n <= 0xffff_ffff_ffff_ffff && !negated ==> AsUlong(n, negated) == n
    ensures n <= 0xffff_ffff_ffff_ffff && negated ==>
      AsUlong(n, negated) + n == if n == 0 then 0 else 0x1_0000_0000_0000_0000
  {}

  predicate AllHex(t: string) { forall i :: 0 <= i < |t| ==> HexVal(t[i]) >= 0 }

  /** A number of n hex digits as its first digit and the rest. */
  lemma {:induction false} FirstDigit(t: string)
    requires t != "" && AllHex(t)
    ensures HexNumber(t).Some? && HexNumber(t[1..]).Some?
    ensures HexNumber(t).value == HexVal(t[0]) * Pow16(|t| - 1) + HexNumber(t[1..]).value
    decreases t
  {
    var front, last := t[..|t| - 1], HexVal(t[|t| - 1]);
    if |t| == 1 {
      assert t[1..] == "" && front == "";
    } else {
      FirstDigit(front);
      assert t[1..][..|t| - 2] == front[1..];
      assert t[1..][|t| - 2] == t[|t| - 1];
      SixteenTimes(HexVal(t[0]), Pow16(|t| - 2), HexNumber(front[1..]).value, last);
    }
  }

  lemma SixteenTimes(d: nat, p: nat, r: nat, last: nat)
    ensures 16 * (d * p + r) + last == d * (16 * p) + (16 * r + last)
  {}

  lemma PowersOf16()
    ensures Pow16(0) == 1 && Pow16(1) == 0x10 && Pow16(2) == 0x100 && Pow16(3) == 0x1000
    ensures Pow16(7) == 0x1000_0000 && Pow16(8) == 0x1_0000_0000
  {
    assert Pow16(4) == 0x1_0000;
    assert Pow16(5) == 16 * Pow16(4) && Pow16(6) == 16 * Pow16(5);
    assert Pow16(7) == 16 * Pow16(6) && Pow16(8) == 16 * Pow16(7);
  }

  /** Which hex ids are accepted: all of up to seven digits but those of three
      digits from 800 on, and those of eight digits below 20000000. */
  predicate IdInRange(t: string) {
    && 1 <= |t| <= 8 && AllHex(t)
    && (|t| == 3 ==> HexVal(t[0]) < 8)
    && (|t| == 8 ==> HexVal(t[0]) < 2)
  }

  lemma RangeIsMask(t: string)
    requires 1 <= |t| <= 8 && AllHex(t)
    ensures HexNumber(t).Some?
    ensures HexNumber(t).value <= (if |t| > 3 then EFF_MASK else SFF_MASK) <==> IdInRange(t)
  {
    FirstDigit(t);
    PowersOf16();
    HexNumberBound(t);
    HexNumberBound(t[1..]);
    Pow16Monotone(|t|, if |t| < 3 then 2 else if |t| == 3 then 3 else if |t| < 8 then 7 else 8);
  }

  /** The id a text's digits stand for, extended from four digits on. */
  function IdOfText(t: string): int
    requires HexNumber(t).Some?
  {
    HexNumber(t).value + (if |t| > 3 then 0x8000_0000 else 0)
  }

  lemma HexHasNoHash(t: string)
    requires AllHex(t)
    ensures forall i :: 0 <= i < |t| ==> t[i] != '#'
  {}

  lemma RangedId(t: string)
    requires IdInRange(t)
    ensures HexNumber(t).Some? && 0 <= IdOfText(t) < WORD && IdOfText(t) % EFF_FLAG < RTR_FLAG
    ensures HexNumber(t).value <= EFF_MASK
  {
    RangeIsMask(t);
    CanIdParts(HexNumber(t).value, |t| > 3, false);
  }

  lemma RangedIdThenTail(t: string, tail: string, bareZeroX: bool)
    requires IdInRange(t) && tail != "" && tail[0] == '#'
    ensures HexNumber(t).Some? && HexNumber(t).value <= EFF_MASK
    ensures Parse(t + tail, bareZeroX) == ParseWithId(HexNumber(t).value, |t| > 3, tail[1..], bareZeroX)
  {
    RangeIsMask(t);
    DigitsAreTheId(t);
    HexHasNoHash(t);
    ParseJoined(t, tail, HexNumber(t).value, bareZeroX);
  }

  lemma OtherIdIsRefused(t: string, tail: string, bareZeroX: bool)
    requires 1 <= |t| <= 8 && AllHex(t) && !IdInRange(t) && tail != "" && tail[0] == '#'
    ensures Parse(t + tail, bareZeroX).None?
  {
    var s := t + tail;
    RangeIsMask(t);
    DigitsAreTheId(t);
    HexHasNoHash(t);
    FirstHashIs(s, |t|);
    assert s[..|t|] == t;
  }

  lemma IdThenTail(t: string, tail: string, bareZeroX: bool)
    requires 1 <= |t| <= 8 && AllHex(t) && tail != "" && tail[0] == '#'
    ensures HexNumber(t).Some?
    ensures !IdInRange(t) ==> Parse(t + tail, bareZeroX).None?
    ensures IdInRange(t) ==>
      && 0 <= IdOfText(t) < WORD && IdOfText(t) % EFF_FLAG < RTR_FLAG
      && Parse(t + tail, bareZeroX) == ParseRest(IdOfText(t), tail[1..], bareZeroX)
  {
    RangeIsMask(t);
    if IdInRange(t) {
      RangedId(t);
      RangedIdThenTail(t, tail, bareZeroX);
    } else {
      OtherIdIsRefused(t, tail, bareZeroX);
    }
  }

  /** Data digits stand for the bytes their pairs make. */
  predicate HoldsBytes(f: Frame, d: string) {
    && 2 * f.len == |d| && f.len <= 64 && AllHex(d)
    && (forall i :: 0 <= i < f.len ==> f.data[i] == 16 * HexVal(d[2 * i]) + HexVal(d[2 * i + 1]))
    && (forall i :: f.len <= i < 64 ==> f.data[i] == 0)
  }

  lemma {:induction false} ScannedPairs(d: string, n: nat, bareZeroX: bool)
    requires AllHex(d) && 2 * n <= |d|
    ensures ScanBytes(d, n, bareZeroX).Some?
    ensures var r := ScanBytes(d, n, bareZeroX).value;
      forall i :: 0 <= i < n ==> r[i] == 16 * HexVal(d[2 * i]) + HexVal(d[2 * i + 1])
  {
    if n > 0 {
      ScannedPairs(d, n - 1, bareZeroX);
      PairScansAt(d, 2 * (n - 1), bareZeroX);
    }
  }

  lemma ParsedData(canId: u32, flags: u8, d: string, max: nat, bareZeroX: bool)
    requires AllHex(d) && max <= 64
    ensures var r := ParseData(canId, flags, d, max, bareZeroX);
      && (r.Some? <==> |d| % 2 == 0 && |d| <= 2 * max)
      && (r.Some? ==> HoldsBytes(r.value, d) && r.value.canId == canId && r.value.flags == flags && r.value.timestamp == 0)
  {
    if |d| % 2 == 0 { ScannedPairs(d, |d| / 2, bareZeroX); }
  }

  lemma HexStarts(d: string)
    requires AllHex(d)
    ensures d != "" ==> d[0] != '#' && d[0] != 'R' && d[0] != 'r'
  {}

  /** An id, '#' and hex digits: a classic frame of up to eight bytes. */
  lemma ClassicText(t: string, d: string, bareZeroX: bool)
    requires 1 <= |t| <= 8 && AllHex(t) && AllHex(d)
    ensures HexNumber(t).Some?
    ensures var r := Parse(t + ("#" + d), bareZeroX);
      && (r.Some? <==> IdInRange(t) && |d| % 2 == 0 && |d| <= 16)
      && (r.Some? ==> HoldsBytes(r.value, d) && r.value.canId == IdOfText(t) && r.value.flags == 0)
  {
    IdThenTail(t, "#" + d, bareZeroX);
    assert ("#" + d)[1..] == d;
    HexStarts(d);
    if IdInRange(t) { ParsedData(IdOfText(t), 0, d, 8, bareZeroX); }
  }

  /** An id, '#' and R or r: a remote frame, whatever follows. */
  lemma RemoteText(t: string, c: char, u: string, bareZeroX: bool)
    requires 1 <= |t| <= 8 && AllHex(t) && (c == 'R' || c == 'r')
    ensures HexNumber(t).Some?
    ensures var r := Parse(t + ("#" + ([c] + u)), bareZeroX);
      && (r.Some? <==> IdInRange(t))
      && (r.Some? ==> HoldsBytes(r.value, "") && r.value.canId == IdOfText(t) + 0x4000_0000 && r.value.flags == 0)
  {
    IdThenTail(t, "#" + ([c] + u), bareZeroX);
    assert ("#" + ([c] + u))[1..] == [c] + u;
  }

  /** An id, "##", a flag digit and hex digits: an FD frame of up to 64 bytes,
      with BRS and ESI from bits 0 and 1 of the digit. */
  lemma FdText(t: string, c: char, d: string, bareZeroX: bool)
    requires 1 <= |t| <= 8 && AllHex(t) && AllHex(d) && HexVal(c) >= 0
    ensures HexNumber(t).Some?
    ensures var r := Parse(t + ("##" + ([c] + d)), bareZeroX);
      && (r.Some? <==> IdInRange(t) && |d| % 2 == 0 && |d| <= 128)
      && (r.Some? ==>
            && HoldsBytes(r.value, d) && r.value.canId == IdOfText(t)
            && r.value.flags == 1 + 2 * (HexVal(c) % 2) + 4 * (HexVal(c) / 2 % 2))
  {
    var tail := "##" + ([c] + d);
    IdThenTail(t, tail, bareZeroX);
    assert tail[1..] == "#" + ([c] + d);
    var rest := tail[1..];
    assert rest[0] == '#' && rest[1] == c && rest[2..] == d;
    if IdInRange(t) { ParsedData(IdOfText(t), FdFlags(HexVal(c)), d, 64, bareZeroX); }
  }

  /** No '#', nothing before it, or more than eight characters before it. */
  lemma RefusedTexts(s: string, bareZeroX: bool)
    requires (forall i :: 0 <= i < |s| ==> s[i] != '#') || s[0] == '#' ||
      (|s| > 8 && forall i :: 0 <= i <= 8 ==> s[i] != '#')
    ensures Parse(s, bareZeroX).None?
  {
    if (forall i :: 0 <= i < |s| ==> s[i] != '#') {
      FirstHashIs(s, |s|);
    } else if s[0] != '#' {
      HashIsLate(s, 9);
    }
  }

  lemma {:induction false} HashIsLate(s: string, n: nat)
    requires n <= |s| && forall i :: 0 <= i < n ==> s[i] != '#'
    ensures FirstHash(s) >= n
    decreases n
  {
    if n > 0 {
      assert forall i :: 0 <= i < n - 1 ==> s[1..][i] == s[i + 1];
      HashIsLate(s[1..], n - 1);
    }
  }

  /** What one scan reads behind blanks: two hex digits, one with something else
      behind it, or a sign and one. */
  lemma ScannedByte(blanks: string, u: string, bareZeroX: bool)
    requires (forall i :: 0 <= i < |blanks| ==> IsSpace(blanks[i])) && u != "" && !IsSpace(u[0])
    ensures var r, v := ScanByte(blanks + u, bareZeroX), HexVal(u[0]);
      && (v >= 0 && |u| >= 2 && HexVal(u[1]) >= 0 ==> r == Some(16 * v + HexVal(u[1])))
      && (v >= 0 && (|u| == 1 || (HexVal(u[1]) < 0 && u[1] != 'x' && u[1] != 'X')) ==> r == Some(v))
      && (v > 0 && |u| >= 2 && HexVal(u[1]) < 0 ==> r == Some(v))
      && (u[0] == '0' && |u| >= 2 && (u[1] == 'x' || u[1] == 'X') ==> r == if bareZeroX then Some(0) else None)
      && (u[0] == '+' && |u| >= 2 && HexVal(u[1]) >= 0 ==> r == Some(HexVal(u[1])))
      && (u[0] == '-' && |u| >= 2 && HexVal(u[1]) >= 0 ==> r == Some((0x100 - HexVal(u[1])) % 0x100))
      && ((u[0] == '+' || u[0] == '-') && (|u| == 1 || HexVal(u[1]) < 0) ==> r == None)
      && (v < 0 && u[0] != '+' && u[0] != '-' ==> r == None)
  {
    SkipsBlanks(blanks, u);
  }
}
