/** The frame syntax of gsusb_send: an id, then '#' and data bytes or R, or
    "##", a flag nibble and data bytes. */
module Cansend {
  import opened Words
  import opened Wire

  const EFF_FLAG := 0x8000_0000
  const RTR_FLAG := 0x4000_0000
  const EFF_MASK := 0x1FFF_FFFF
  const SFF_MASK := 0x7FF

  // ---- Hexadecimal digits ----

  /** The value of a hex digit, or -1. */
  function HexVal(c: char): (v: int)
    ensures -1 <= v < 16
  {
    if '0' <= c <= '9' then c as int - '0' as int
    else if 'a' <= c <= 'f' then c as int - 'a' as int + 10
    else if 'A' <= c <= 'F' then c as int - 'A' as int + 10
    else -1
  }

  function HexChar(v: nat, upper: bool): (c: char)
    requires v < 16
    ensures HexVal(c) == v && c != '#' && c != 'R' && c != 'r'
  {
    if v < 10 then '0' + v as char else (if upper then 'A' else 'a') + (v - 10) as char
  }

  /** The number a string of hex digits stands for. */
  function HexNumber(t: string): Option<nat> {
    if t == "" then Some(0)
    else
      var hi, d := HexNumber(t[..|t| - 1]), HexVal(t[|t| - 1]);
      if hi.None? || d < 0 then None else Some(16 * hi.value + d)
  }

  /** The bytes a string of hex digit pairs stands for. */
  function HexBytes(t: string): (r: Option<seq<u8>>)
    ensures r.Some? ==> 2 * |r.value| == |t|
  {
    if t == "" then Some([])
    else if |t| == 1 then None
    else
      var front, hi, lo := HexBytes(t[..|t| - 2]), HexVal(t[|t| - 2]), HexVal(t[|t| - 1]);
      if front.None? || hi < 0 || lo < 0 then None else Some(front.value + [16 * hi + lo])
  }

  function Pow16(n: nat): nat { if n == 0 then 1 else 16 * Pow16(n - 1) }

  lemma {:induction false} HexNumberBound(t: string)
    ensures HexNumber(t).Some? ==> HexNumber(t).value < Pow16(|t|)
  {
    if t != "" { HexNumberBound(t[..|t| - 1]); }
  }

  // ---- What the C library reads ----

  /** isspace of the C locale. */
  predicate IsSpace(c: char) { c == ' ' || 9 <= c as int <= 13 }

  function SkipSpace(t: string): (u: string)
    ensures |u| <= |t|
  {
    if t != "" && IsSpace(t[0]) then SkipSpace(t[1..]) else t
  }

  predicate HasSign(u: string) { u != "" && (u[0] == '-' || u[0] == '+') }

  /** A 0x in front of a hex digit. */
  predicate HasPrefix(v: string) {
    |v| >= 3 && v[0] == '0' && (v[1] == 'x' || v[1] == 'X') && HexVal(v[2]) >= 0
  }

  const ULONG_MAX := 0xffff_ffff_ffff_ffff

  /** What strtoul makes of a number: too large ones are cut, negated ones come
      back from the top. */
  function AsUlong(n: nat, negated: bool): nat {
    if n > ULONG_MAX then ULONG_MAX
    else if negated && n > 0 then ULONG_MAX + 1 - n
    else n
  }

  /** What follows a sign. */
  function Unsigned(u: string): (v: string)
    ensures |v| <= |u|
  {
    if HasSign(u) then u[1..] else u
  }

  /** What follows a prefix. */
  function Unprefixed(v: string): (w: string)
    ensures |w| <= |v|
  {
    if HasPrefix(v) then v[2..] else v
  }

  /** What strtoul takes for the digits, and whether it negates their number. */
  function Digits(t: string): string { Unprefixed(Unsigned(SkipSpace(t))) }

  predicate Negated(t: string) { HasSign(SkipSpace(t)) && SkipSpace(t)[0] == '-' }

  /** strtoul with base 16, if it reads the text to its end. */
  function StrToUl(t: string): Option<nat> {
    if Digits(t) == "" || HexNumber(Digits(t)).None? then None
    else Some(AsUlong(HexNumber(Digits(t)).value, Negated(t)))
  }

  /** sscanf with %2x at the start of t, cut to a byte: blanks do not count, a
      sign does. Whether a 0x, which fills the two characters, is read as zero
      differs between C libraries. */
  function ScanByte(t: string, bareZeroX: bool): Option<u8> {
    var u := SkipSpace(t);
    if u == "" then None
    else if HasSign(u) then
      if |u| < 2 || HexVal(u[1]) < 0 then None
      else Some(if u[0] == '-' && HexVal(u[1]) > 0 then 0x100 - HexVal(u[1]) else HexVal(u[1]))
    else if HexVal(u[0]) < 0 then None
    else if |u| >= 2 && HexVal(u[1]) >= 0 then Some(16 * HexVal(u[0]) + HexVal(u[1]))
    else if |u| >= 2 && u[0] == '0' && (u[1] == 'x' || u[1] == 'X') then (if bareZeroX then Some(0) else None)
    else Some(HexVal(u[0]))
  }

  /** The bytes read at the first n even positions. */
  function ScanBytes(t: string, n: nat, bareZeroX: bool): (r: Option<seq<u8>>)
    requires 2 * n <= |t|
    ensures r.Some? ==> |r.value| == n
  {
    if n == 0 then Some([])
    else
      var front, b := ScanBytes(t, n - 1, bareZeroX), ScanByte(t[2 * (n - 1)..], bareZeroX);
      if front.None? || b.None? then None else Some(front.value + [b.value])
  }

  /** Blanks, a sign, 0x and hex digits, all but the digits optional. */
  ghost predicate IsNumeral(t: string, blanks: string, sign: string, prefix: string, digits: string) {
    && t == blanks + (sign + (prefix + digits))
    && (forall i :: 0 <= i < |blanks| ==> IsSpace(blanks[i]))
    && (sign == "" || sign == "-" || sign == "+")
    && (prefix == "" || prefix == "0x" || prefix == "0X")
    && digits != "" && HexNumber(digits).Some?
  }

  lemma {:induction false} SkipsBlanks(blanks: string, rest: string)
    requires forall i :: 0 <= i < |blanks| ==> IsSpace(blanks[i])
    requires rest != "" && !IsSpace(rest[0])
    ensures SkipSpace(blanks + rest) == rest
  {
    if blanks == "" {
      assert blanks + rest == rest;
    } else {
      assert (blanks + rest)[1..] == blanks[1..] + rest;
      SkipsBlanks(blanks[1..], rest);
    }
  }

  lemma {:induction false} SkippedIsBlank(t: string)
    ensures var n := |t| - |SkipSpace(t)|;
      t[n..] == SkipSpace(t) && forall i :: 0 <= i < n ==> IsSpace(t[i])
  {
    if t != "" && IsSpace(t[0]) {
      SkippedIsBlank(t[1..]);
      var n := |t| - |SkipSpace(t)|;
      assert t[1..][n - 1..] == t[n..];
      forall i | 0 <= i < n ensures IsSpace(t[i]) {
        if i > 0 { assert t[1..][i - 1] == t[i]; }
      }
    }
  }

  lemma {:induction false} DigitsAreHex(t: string)
    requires HexNumber(t).Some?
    ensures forall i :: 0 <= i < |t| ==> HexVal(t[i]) >= 0
  {
    if t != "" {
      DigitsAreHex(t[..|t| - 1]);
      forall i | 0 <= i < |t| ensures HexVal(t[i]) >= 0 {
        if i < |t| - 1 { assert t[..|t| - 1][i] == t[i]; }
      }
    }
  }

  /** Every numeral is taken apart into its parts. */
  lemma NumeralIsRead(t: string, blanks: string, sign: string, prefix: string, digits: string)
    requires IsNumeral(t, blanks, sign, prefix, digits)
    ensures Digits(t) == digits && (Negated(t) <==> sign == "-")
  {
    DigitsAreHex(digits);
    PrefixIsSeen(prefix, digits);
    SignIsSeen(sign, prefix + digits);
    SkipsBlanks(blanks, sign + (prefix + digits));
  }

  lemma SignIsSeen(sign: string, v: string)
    requires (sign == "" || sign == "-" || sign == "+") && v != "" && !HasSign(v) && !IsSpace(v[0])
    ensures var u := sign + v;
      && u != "" && !IsSpace(u[0]) && Unsigned(u) == v && (HasSign(u) && u[0] == '-' <==> sign == "-")
  {
    var u := sign + v;
    if sign == "" { assert u == v; } else { assert u[1..] == v && u[0] == sign[0]; }
  }

  lemma PrefixIsSeen(prefix: string, digits: string)
    requires prefix == "" || prefix == "0x" || prefix == "0X"
    requires digits != "" && forall i :: 0 <= i < |digits| ==> HexVal(digits[i]) >= 0
    ensures var v := prefix + digits;
      && v != "" && !HasSign(v) && !IsSpace(v[0])
      && Unprefixed(v) == digits
  {
    var v := prefix + digits;
    if prefix == "" {
      assert v == digits;
      if |v| >= 3 { assert HexVal(v[1]) >= 0; }
    } else {
      assert v[2] == digits[0] && v[2..] == digits;
    }
  }

  lemma SignSplits(u: string) returns (sign: string)
    ensures u == sign + Unsigned(u) && (sign == "" || sign == "-" || sign == "+")
  {
    sign := if HasSign(u) then [u[0]] else "";
  }

  lemma PrefixSplits(v: string) returns (prefix: string)
    ensures v == prefix + Unprefixed(v) && (prefix == "" || prefix == "0x" || prefix == "0X")
  {
    prefix := if HasPrefix(v) then v[..2] else "";
  }

  /** And whatever is read to its end is a numeral. */
  lemma ReadIsNumeral(t: string) returns (blanks: string, sign: string, prefix: string)
    requires StrToUl(t).Some?
    ensures IsNumeral(t, blanks, sign, prefix, Digits(t))
  {
    var u := SkipSpace(t);
    SkippedIsBlank(t);
    blanks := t[..|t| - |u|];
    sign := SignSplits(u);
    prefix := PrefixSplits(Unsigned(u));
    assert t == blanks + u;
  }

  /** The id that gsusb_parse_hex_u32 hands out. */
  function IdNumber(t: string): Option<u32> {
    match StrToUl(t)
    case None => None
    case Some(v) => Some(v % WORD)
  }

  // ---- Parsing ----

  function Padded(d: seq<u8>): (r: seq<u8>)
    requires |d| <= 64
    ensures |r| == 64
  {
    d + seq(64 - |d|, _ => 0)
  }

  /** Position of the first '#', or the length. */
  function FirstHash(s: string): (h: nat)
    ensures h <= |s|
  {
    if s == "" || s[0] == '#' then 0 else 1 + FirstHash(s[1..])
  }

  function ParseData(canId: u32, flags: u8, t: string, max: nat, bareZeroX: bool): Option<Frame>
    requires max <= 64
  {
    if |t| % 2 != 0 || |t| / 2 > max then None
    else
      match ScanBytes(t, |t| / 2, bareZeroX)
      case None => None
      case Some(d) => Some(RawFrame(canId, |d|, flags, Padded(d), 0))
  }

  /** The frame a text stands for. */
  function Parse(s: string, bareZeroX: bool): Option<Frame> {
    var h := FirstHash(s);
    if h == |s| || h == 0 || h > 8 then None
    else
      match IdNumber(s[..h])
      case None => None
      case Some(id) =>
        if id > (if h > 3 then EFF_MASK else SFF_MASK) then None else ParseWithId(id, h > 3, s[h + 1..], bareZeroX)
  }

  /** What follows the first '#', for an id within its mask. */
  function ParseWithId(id: nat, eff: bool, rest: string, bareZeroX: bool): Option<Frame>
    requires id <= EFF_MASK
  {
    ParseRest(if eff then id + EFF_FLAG else id, rest, bareZeroX)
  }

  /** The same with the id's format flag in place. */
  function ParseRest(canId: u32, rest: string, bareZeroX: bool): Option<Frame>
    requires canId % EFF_FLAG < RTR_FLAG
  {
    if rest != "" && rest[0] == '#' then
      if |rest| == 1 || HexVal(rest[1]) < 0 then None
      else ParseData(canId, FdFlags(HexVal(rest[1])), rest[2..], 64, bareZeroX)
    else if rest != "" && (rest[0] == 'R' || rest[0] == 'r') then
      Some(RawFrame(canId + RTR_FLAG, 0, 0, Padded([]), 0))
    else ParseData(canId, 0, rest, 8, bareZeroX)
  }

  /** FD, with BRS and ESI from bits 0 and 1 of the nibble. */
  function FdFlags(nibble: nat): u8 {
    1 + 2 * (nibble % 2) + 4 * (nibble / 2 % 2)
  }

  lemma {:induction false} FirstHashIs(s: string, h: nat)
    requires h <= |s| && (h < |s| ==> s[h] == '#')
    requires forall i :: 0 <= i < h ==> s[i] != '#'
    ensures FirstHash(s) == h
    decreases h
  {
    if h > 0 { FirstHashIs(s[1..], h - 1); }
  }

  lemma HexBytesStep(t: string, k: nat)
    requires k + 2 <= |t|
    ensures HexBytes(t[..k + 2]) ==
      if HexBytes(t[..k]).None? || HexVal(t[k]) < 0 || HexVal(t[k + 1]) < 0 then None
      else Some(HexBytes(t[..k]).value + [16 * HexVal(t[k]) + HexVal(t[k + 1])])
  {
    assert t[..k + 2][..k] == t[..k];
  }

  lemma {:induction false} ScanFails(t: string, i: nat, n: nat, bareZeroX: bool)
    requires i <= n && 2 * n <= |t| && ScanBytes(t, i, bareZeroX).None?
    ensures ScanBytes(t, n, bareZeroX).None?
    decreases n
  {
    if i < n { ScanFails(t, i, n - 1, bareZeroX); }
  }

  lemma HexPairScans(u: string, bareZeroX: bool)
    requires |u| >= 2 && HexVal(u[0]) >= 0 && HexVal(u[1]) >= 0
    ensures ScanByte(u, bareZeroX) == Some(16 * HexVal(u[0]) + HexVal(u[1]))
  {
    assert SkipSpace(u) == u;
  }

  lemma PairScansAt(t: string, k: nat, bareZeroX: bool)
    requires k + 2 <= |t| && HexVal(t[k]) >= 0 && HexVal(t[k + 1]) >= 0
    ensures ScanByte(t[k..], bareZeroX) == Some(16 * HexVal(t[k]) + HexVal(t[k + 1]))
  {
    HexPairScans(t[k..], bareZeroX);
  }

  /** The first n pairs are scanned as the bytes they stand for. */
  ghost predicate ScansAsHex(t: string, n: nat, bareZeroX: bool) {
    2 * n <= |t| && ScanBytes(t, n, bareZeroX) == HexBytes(t[..2 * n])
  }

  lemma ScanStarts(t: string, bareZeroX: bool)
    ensures ScansAsHex(t, 0, bareZeroX)
  {}

  lemma ScanGoesOn(t: string, n: nat, bareZeroX: bool)
    requires 2 * n + 2 <= |t| && HexVal(t[2 * n]) >= 0 && HexVal(t[2 * n + 1]) >= 0
    requires ScansAsHex(t, n, bareZeroX)
    ensures ScansAsHex(t, n + 1, bareZeroX)
  {
    HexBytesStep(t, 2 * n);
    PairScansAt(t, 2 * n, bareZeroX);
  }

  lemma {:induction false} PairsScanAsHex(t: string, n: nat, bareZeroX: bool)
    requires 2 * n <= |t| && forall i :: 0 <= i < |t| ==> HexVal(t[i]) >= 0
    ensures ScansAsHex(t, n, bareZeroX)
  {
    if n == 0 {
      ScanStarts(t, bareZeroX);
    } else {
      PairsScanAsHex(t, n - 1, bareZeroX);
      ScanGoesOn(t, n - 1, bareZeroX);
    }
  }

  /** On hex digits alone a scan reads the bytes they stand for. */
  lemma ScanReadsHex(t: string, n: nat, bareZeroX: bool)
    requires 2 * n <= |t| && forall i :: 0 <= i < |t| ==> HexVal(t[i]) >= 0
    ensures ScanBytes(t, n, bareZeroX) == HexBytes(t[..2 * n])
  {
    PairsScanAsHex(t, n, bareZeroX);
  }

  lemma {:induction false} Pow16Monotone(m: nat, n: nat)
    requires m <= n
    ensures Pow16(m) <= Pow16(n)
  {
    if m < n { Pow16Monotone(m, n - 1); }
  }

  lemma EightDigits(t: string)
    requires |t| <= 8 && HexNumber(t).Some?
    ensures HexNumber(t).value < WORD
  {
    HexNumberBound(t);
    Pow16Monotone(|t|, 8);
    assert Pow16(4) == 0x1_0000;
    assert Pow16(8) == 16 * (16 * (16 * (16 * Pow16(4))));
  }

  /** t is a numeral for v, modulo the word size if negated or too large. */
  ghost predicate Denotes(t: string, v: u32) {
    exists blanks, sign, prefix, digits ::
      IsNumeral(t, blanks, sign, prefix, digits) && v == AsUlong(HexNumber(digits).value, sign == "-") % WORD
  }

  lemma DenotesIffRead(t: string, v: u32)
    ensures Denotes(t, v) <==> IdNumber(t) == Some(v)
  {
    if Denotes(t, v) {
      var blanks, sign, prefix, digits :|
        IsNumeral(t, blanks, sign, prefix, digits) && v == AsUlong(HexNumber(digits).value, sign == "-") % WORD;
      NumeralIsRead(t, blanks, sign, prefix, digits);
    }
    if IdNumber(t) == Some(v) {
      var blanks, sign, prefix := ReadIsNumeral(t);
      NumeralIsRead(t, blanks, sign, prefix, Digits(t));
    }
  }

  /** gsusb_parse_hex_u32: it accepts exactly the numerals, and hands out what
      they denote. */
  method ParseHex(t: string) returns (r: Option<u32>)
    ensures r == IdNumber(t)
    ensures forall v: u32 :: Denotes(t, v) <==> r == Some(v)
  {
    forall v: u32 ensures Denotes(t, v) <==> IdNumber(t) == Some(v) {
      DenotesIffRead(t, v);
    }
    var v := StrToUl(t);
    if t == "" || v.None? {
      return None;
    }
    r := Some(v.value % WORD);
  }

  /** The zeroed data area after i scans. */
  ghost predicate Filled(t: string, i: nat, data: seq<u8>, bareZeroX: bool) {
    && |data| == 64 && i <= 64 && 2 * i <= |t|
    && ScanBytes(t, i, bareZeroX) == Some(data[..i])
    && forall k :: i <= k < 64 ==> data[k] == 0
  }

  lemma FillsOn(t: string, i: nat, data: seq<u8>, b: u8, bareZeroX: bool)
    requires Filled(t, i, data, bareZeroX) && i < 64 && 2 * i + 2 <= |t|
    requires ScanByte(t[2 * i..], bareZeroX) == Some(b)
    ensures Filled(t, i + 1, data[i := b], bareZeroX)
  {
    assert data[i := b][..i + 1] == data[..i] + [b];
  }

  lemma FilledIsPadded(t: string, n: nat, data: seq<u8>, bareZeroX: bool)
    requires Filled(t, n, data, bareZeroX)
    ensures data == Padded(data[..n])
  {}

  /** The byte loop: fills the zeroed data area two characters at a time. */
  method ParseBytes(canId: u32, flags: u8, t: string, max: nat, bareZeroX: bool) returns (r: Option<Frame>)
    requires max <= 64
    ensures r == ParseData(canId, flags, t, max, bareZeroX)
  {
    if |t| % 2 != 0 {
      return None;
    }
    var n := |t| / 2;
    if n > max {
      return None;
    }
    var data: seq<u8> := seq(64, _ => 0);
    for i := 0 to n
      invariant Filled(t, i, data, bareZeroX)
    {
      var byte := ScanByte(t[2 * i..], bareZeroX);
      if byte.None? {
        ScanFails(t, i + 1, n, bareZeroX);
        return None;
      }
      FillsOn(t, i, data, byte.value, bareZeroX);
      data := data[i := byte.value];
    }
    FilledIsPadded(t, n, data, bareZeroX);
    r := Some(RawFrame(canId, n, flags, data, 0));
  }

  /** The part of parse_frame behind the id. */
  method ParseTail(canId: u32, rest: string, bareZeroX: bool) returns (r: Option<Frame>)
    requires canId % EFF_FLAG < RTR_FLAG
    ensures r == ParseRest(canId, rest, bareZeroX)
  {
    if rest != "" && rest[0] == '#' {
      if |rest| == 1 || HexVal(rest[1]) < 0 {
        return None;
      }
      var flagsval := HexVal(rest[1]);
      var flags := 1;
      if flagsval % 2 == 1 { flags := flags + 2; }
      if flagsval / 2 % 2 == 1 { flags := flags + 4; }
      r := ParseBytes(canId, flags, rest[2..], 64, bareZeroX);
    } else if rest != "" && (rest[0] == 'R' || rest[0] == 'r') {
      r := Some(RawFrame(canId + RTR_FLAG, 0, 0, seq(64, _ => 0), 0));
      assert r.value.data == Padded([]);
    } else {
      r := ParseBytes(canId, 0, rest, 8, bareZeroX);
    }
  }

  /** The rest of parse_frame for an id within its mask. */
  method ParseFrom(id: nat, eff: bool, rest: string, bareZeroX: bool) returns (r: Option<Frame>)
    requires id <= EFF_MASK
    ensures r == ParseWithId(id, eff, rest, bareZeroX)
  {
    if eff {
      r := ParseTail(id + EFF_FLAG, rest, bareZeroX);
    } else {
      r := ParseTail(id, rest, bareZeroX);
    }
  }

  lemma ParseAt(s: string, h: nat, id: nat, bareZeroX: bool)
    requires FirstHash(s) == h && 1 <= h <= 8 && h < |s| && IdNumber(s[..h]) == Some(id)
    requires id <= (if h > 3 then EFF_MASK else SFF_MASK)
    ensures Parse(s, bareZeroX) == ParseWithId(id, h > 3, s[h + 1..], bareZeroX)
  {}

  /** parse_frame. */
  method ParseFrame(s: string, bareZeroX: bool) returns (r: Option<Frame>)
    ensures r == Parse(s, bareZeroX)
  {
    var h := 0;
    while h < |s| && s[h] != '#'
      invariant h <= |s| && forall k :: 0 <= k < h ==> s[k] != '#'
    {
      h := h + 1;
    }
    FirstHashIs(s, h);
    if h == |s| || h == 0 {
      return None;
    }
    if h > 8 {
      return None;
    }
    var id := ParseHex(s[..h]);
    if id.None? {
      return None;
    }
    var mask := if h > 3 then EFF_MASK else SFF_MASK;
    if id.value > mask {
      return None;
    }
    ParseAt(s, h, id.value, bareZeroX);
    r := ParseFrom(id.value, h > 3, s[h + 1..], bareZeroX);
  }

  // ---- Rendering ----

  function IdOf(canId: u32): nat { canId % 0x2000_0000 }

  predicate IsEff(canId: u32) { canId / EFF_FLAG % 2 == 1 }

  /** The id with its format flag, without the remote flag. */
  function BaseId(canId: u32): u32 { IdOf(canId) + (if IsEff(canId) then EFF_FLAG else 0) }

  /** The id can be written with the given number of digits. */
  predicate IdFits(canId: u32, digits: nat) {
    && (if IsEff(canId) then 4 <= digits <= 8 else 1 <= digits <= 3 && IdOf(canId) <= SFF_MASK)
    && IdOf(canId) < Pow16(digits)
  }

  /** Flags, length and data that the syntax can say: FD frames with BRS and
      ESI, classic frames without flags, remote frames without data. */
  predicate Sayable(f: Frame) {
    && (if f.Fd() then !f.Rtr() && f.flags < 8 && f.len <= 64
        else f.flags == 0 && f.len <= 8 && (f.Rtr() ==> f.len == 0))
    && f.data == Padded(f.data[..Min(f.len, 64)])
    && f.timestamp == 0
  }

  /** The frames the documented syntax has a text for, with an id of the given
      number of digits. */
  predicate Expressible(f: Frame, digits: nat) {
    && f.canId == BaseId(f.canId) + (if f.Rtr() then RTR_FLAG else 0)
    && IdFits(f.canId, digits)
    && Sayable(f)
  }

  function IdText(id: nat, digits: nat, upper: bool): (t: string)
    ensures |t| == digits
    decreases digits
  {
    if digits == 0 then "" else IdText(id / 16, digits - 1, upper) + [HexChar(id % 16, upper)]
  }

  function BytesText(d: seq<u8>, upper: bool): (t: string)
    ensures |t| == 2 * |d|
  {
    if d == [] then ""
    else
      var b := d[|d| - 1];
      BytesText(d[..|d| - 1], upper) + [HexChar(b / 16, upper), HexChar(b % 16, upper)]
  }

  function Nibble(flags: u8): nat { flags / 2 % 2 + 2 * (flags / 4 % 2) }

  /** What follows the id. */
  function Tail(f: Frame, upper: bool): string
    requires f.len <= 64
  {
    if f.Fd() then "##" + [HexChar(Nibble(f.flags), upper)] + BytesText(f.data[..f.len], upper)
    else if f.Rtr() then "#R"
    else "#" + BytesText(f.data[..f.len], upper)
  }

  function Render(f: Frame, digits: nat, upper: bool): string
    requires Expressible(f, digits)
  {
    IdText(IdOf(f.canId), digits, upper) + Tail(f, upper)
  }

  // ---- Round trip ----

  lemma {:induction false} IdTextReads(id: nat, digits: nat, upper: bool)
    requires id < Pow16(digits)
    ensures HexNumber(IdText(id, digits, upper)) == Some(id)
    ensures forall i :: 0 <= i < digits ==> IdText(id, digits, upper)[i] != '#'
    decreases digits
  {
    if digits > 0 {
      IdTextReads(id / 16, digits - 1, upper);
      var t := IdText(id, digits, upper);
      assert t[..|t| - 1] == IdText(id / 16, digits - 1, upper);
    }
  }

  /** No character that the parser looks for. */
  predicate Plain(t: string) { forall i :: 0 <= i < |t| ==> t[i] != '#' && t[i] != 'R' && t[i] != 'r' }

  lemma AppendByte(t: string, d: seq<u8>, b: u8, hi: char, lo: char)
    requires HexBytes(t) == Some(d) && HexVal(hi) == b / 16 && HexVal(lo) == b % 16
    ensures HexBytes(t + [hi, lo]) == Some(d + [b])
  {
    var u := t + [hi, lo];
    assert u[..|u| - 2] == t;
  }

  lemma AppendPlain(t: string, u: string)
    requires Plain(t) && Plain(u)
    ensures Plain(t + u)
  {}

  lemma ByteReads(t: string, d: seq<u8>, b: u8, upper: bool)
    requires HexBytes(t) == Some(d) && Plain(t)
    ensures HexBytes(t + [HexChar(b / 16, upper), HexChar(b % 16, upper)]) == Some(d + [b])
    ensures Plain(t + [HexChar(b / 16, upper), HexChar(b % 16, upper)])
  {
    var hi, lo := HexChar(b / 16, upper), HexChar(b % 16, upper);
    AppendByte(t, d, b, hi, lo);
    AppendPlain(t, [hi, lo]);
  }

  lemma {:induction false} BytesTextReads(d: seq<u8>, upper: bool)
    ensures HexBytes(BytesText(d, upper)) == Some(d)
    ensures Plain(BytesText(d, upper))
  {
    if d != [] {
      var front, b := d[..|d| - 1], d[|d| - 1];
      BytesTextReads(front, upper);
      ByteReads(BytesText(front, upper), front, b, upper);
      assert front + [b] == d;
    }
  }

  lemma FlagsRead(flags: u8)
    requires flags < 8 && flags % 2 == 1
    ensures Nibble(flags) < 4 && FdFlags(Nibble(flags)) == flags
  {}

  lemma {:induction false} BytesAreHex(t: string)
    requires HexBytes(t).Some?
    ensures forall i :: 0 <= i < |t| ==> HexVal(t[i]) >= 0
  {
    if t != "" {
      BytesAreHex(t[..|t| - 2]);
      forall i | 0 <= i < |t| ensures HexVal(t[i]) >= 0 {
        if i < |t| - 2 { assert t[..|t| - 2][i] == t[i]; }
      }
    }
  }

  lemma ScannedData(canId: u32, flags: u8, t: string, d: seq<u8>, max: nat, bareZeroX: bool)
    requires |t| == 2 * |d| && |d| <= max <= 64 && ScanBytes(t, |d|, bareZeroX) == Some(d)
    ensures ParseData(canId, flags, t, max, bareZeroX) == Some(RawFrame(canId, |d|, flags, Padded(d), 0))
  {
    assert |t| % 2 == 0 && |t| / 2 == |d|;
  }

  lemma DataReads(canId: u32, flags: u8, d: seq<u8>, upper: bool, max: nat, bareZeroX: bool)
    requires |d| <= max <= 64
    ensures ParseData(canId, flags, BytesText(d, upper), max, bareZeroX) ==
      Some(RawFrame(canId, |d|, flags, Padded(d), 0))
  {
    var t := BytesText(d, upper);
    BytesTextReads(d, upper);
    BytesAreHex(t);
    ScanReadsHex(t, |d|, bareZeroX);
    assert t[..2 * |d|] == t;
    ScannedData(canId, flags, t, d, max, bareZeroX);
  }

  lemma FdTailReads(base: u32, f: Frame, upper: bool, bareZeroX: bool)
    requires base % EFF_FLAG < RTR_FLAG && Sayable(f) && f.Fd() && f.canId == base
    ensures ParseRest(base, Tail(f, upper)[1..], bareZeroX) == Some(f)
  {
    var d := f.data[..f.len];
    var rest := Tail(f, upper)[1..];
    FlagsRead(f.flags);
    assert rest[0] == '#' && rest[1] == HexChar(Nibble(f.flags), upper);
    assert rest[2..] == BytesText(d, upper);
    DataReads(base, f.flags, d, upper, 64, bareZeroX);
  }

  lemma ClassicTailReads(base: u32, f: Frame, upper: bool, bareZeroX: bool)
    requires base % EFF_FLAG < RTR_FLAG && Sayable(f) && !f.Fd()
    requires f.canId == base + (if f.Rtr() then RTR_FLAG else 0)
    ensures ParseRest(base, Tail(f, upper)[1..], bareZeroX) == Some(f)
  {
    var d := f.data[..f.len];
    var rest := Tail(f, upper)[1..];
    if f.Rtr() {
      assert rest == "R" && d == [];
    } else {
      assert rest == BytesText(d, upper);
      BytesTextReads(d, upper);
      DataReads(base, 0, d, upper, 8, bareZeroX);
    }
  }

  lemma TailReads(base: u32, f: Frame, upper: bool, bareZeroX: bool)
    requires base % EFF_FLAG < RTR_FLAG && Sayable(f)
    requires f.canId == base + (if f.Rtr() then RTR_FLAG else 0)
    ensures ParseRest(base, Tail(f, upper)[1..], bareZeroX) == Some(f)
  {
    if f.Fd() { FdTailReads(base, f, upper, bareZeroX); } else { ClassicTailReads(base, f, upper, bareZeroX); }
  }

  /** Parsing an id and a tail that begins with '#'. */
  lemma ParseJoined(idText: string, tail: string, id: nat, bareZeroX: bool)
    requires 1 <= |idText| <= 8 && IdNumber(idText) == Some(id)
    requires forall i :: 0 <= i < |idText| ==> idText[i] != '#'
    requires id <= (if |idText| > 3 then EFF_MASK else SFF_MASK)
    requires tail != "" && tail[0] == '#'
    ensures Parse(idText + tail, bareZeroX) == ParseWithId(id, |idText| > 3, tail[1..], bareZeroX)
  {
    var s := idText + tail;
    FirstHashIs(s, |idText|);
    assert s[..|idText|] == idText;
    assert s[|idText| + 1..] == tail[1..];
    ParseAt(s, |idText|, id, bareZeroX);
  }

  /** A number below the word size is handed out as it is. */
  lemma SmallIsItself(n: nat)
    requires n < WORD
    ensures AsUlong(n, false) % WORD == n
  {}

  /** Up to eight digits are the id they stand for. */
  lemma DigitsAreTheId(t: string)
    requires 1 <= |t| <= 8 && HexNumber(t).Some?
    ensures IdNumber(t) == Some(HexNumber(t).value)
  {
    EightDigits(t);
    assert "" + ("" + ("" + t)) == t;
    NumeralIsRead(t, "", "", "", t);
    SmallIsItself(HexNumber(t).value);
  }

  lemma WithIdReads(f: Frame, digits: nat, upper: bool, bareZeroX: bool)
    requires Expressible(f, digits)
    ensures IdOf(f.canId) <= EFF_MASK
    ensures ParseWithId(IdOf(f.canId), digits > 3, Tail(f, upper)[1..], bareZeroX) == Some(f)
  {
    BaseIsFlagFree(f.canId);
    IdParts(f.canId, digits);
    TailReads(BaseId(f.canId), f, upper, bareZeroX);
  }

  lemma RenderedReads(f: Frame, digits: nat, upper: bool, idText: string, tail: string, bareZeroX: bool)
    requires Expressible(f, digits)
    requires idText == IdText(IdOf(f.canId), digits, upper) && tail == Tail(f, upper)
    ensures Parse(idText + tail, bareZeroX) == Some(f)
  {
    IdTextReads(IdOf(f.canId), digits, upper);
    TailStarts(f, upper);
    IdParts(f.canId, digits);
    DigitsAreTheId(idText);
    ParseJoined(idText, tail, IdOf(f.canId), bareZeroX);
    WithIdReads(f, digits, upper, bareZeroX);
  }

  lemma IdParts(canId: u32, digits: nat)
    requires IdFits(canId, digits)
    ensures 1 <= digits <= 8
    ensures IdOf(canId) <= (if digits > 3 then EFF_MASK else SFF_MASK)
    ensures BaseId(canId) == if digits > 3 then IdOf(canId) + EFF_FLAG else IdOf(canId)
  {}

  lemma TailStarts(f: Frame, upper: bool)
    requires f.len <= 64
    ensures Tail(f, upper) != "" && Tail(f, upper)[0] == '#'
  {}

  lemma BaseIsFlagFree(canId: u32)
    ensures BaseId(canId) % EFF_FLAG < RTR_FLAG
  {}

  /** Rendering any expressible frame, in either letter case and with any
      admissible number of id digits, and parsing the text gives back exactly
      that frame, data area included. */
  lemma TextRoundTrip(f: Frame, digits: nat, upper: bool, bareZeroX: bool)
    requires Expressible(f, digits)
    ensures Parse(Render(f, digits, upper), bareZeroX) == Some(f)
  {
    RenderedReads(f, digits, upper, IdText(IdOf(f.canId), digits, upper), Tail(f, upper), bareZeroX);
  }

  lemma CanIdParts(id: nat, eff: bool, rtr: bool)
    requires id <= EFF_MASK
    ensures var base := id + (if eff then EFF_FLAG else 0);
      var c := base + (if rtr then RTR_FLAG else 0);
      && IdOf(c) == id && IsEff(c) == eff && IsRtr(c) == rtr && BaseId(c) == base
      && base % EFF_FLAG < RTR_FLAG
  {}

  lemma RestIsSayable(id: nat, eff: bool, rest: string, bareZeroX: bool)
    requires id <= EFF_MASK && (id + (if eff then EFF_FLAG else 0)) % EFF_FLAG < RTR_FLAG
    requires ParseRest(id + (if eff then EFF_FLAG else 0), rest, bareZeroX).Some?
    ensures var f := ParseRest(id + (if eff then EFF_FLAG else 0), rest, bareZeroX).value;
      && Sayable(f) && f.canId == BaseId(f.canId) + (if f.Rtr() then RTR_FLAG else 0)
      && IdOf(f.canId) == id && IsEff(f.canId) == eff
  {
    CanIdParts(id, eff, false);
    CanIdParts(id, eff, true);
    var f := ParseRest(id + (if eff then EFF_FLAG else 0), rest, bareZeroX).value;
    assert f.data == Padded(f.data[..f.len]);
  }

  lemma DigitsAreFewer(t: string)
    ensures |Digits(t)| <= |t| && (Negated(t) ==> |Digits(t)| < |t|)
  {}

  /** An id within its mask has no more digits than its text has characters,
      blanks, sign and prefix included: negated numbers but zero exceed the mask. */
  lemma IdBound(t: string)
    requires |t| <= 8 && IdNumber(t).Some? && IdNumber(t).value <= EFF_MASK
    ensures IdNumber(t).value < Pow16(|t|)
  {
    var digits, n := Digits(t), HexNumber(Digits(t)).value;
    DigitsAreFewer(t);
    HexNumberBound(digits);
    Pow16Monotone(|digits|, |t|);
    EightDigits(digits);
    if Negated(t) && n > 0 {
      NegatedExceeds(digits);
    } else {
      assert AsUlong(n, Negated(t)) == AsUlong(n, false);
      SmallIsItself(n);
    }
  }

  lemma NegatedExceeds(digits: string)
    requires |digits| <= 7 && HexNumber(digits).Some? && HexNumber(digits).value > 0
    ensures AsUlong(HexNumber(digits).value, true) % WORD > EFF_MASK
  {
    HexNumberBound(digits);
    Pow16Monotone(|digits|, 7);
    assert Pow16(7) == 0x1000_0000;
    FromTheTop(HexNumber(digits).value);
  }

  lemma FromTheTop(n: nat)
    requires 0 < n < 0x1000_0000
    ensures AsUlong(n, true) % WORD == WORD - n
  {
    QuotientIs(ULONG_MAX + 1 - n, WORD, WORD - 1, WORD - n);
  }

  lemma ParsedParts(s: string, bareZeroX: bool) returns (id: nat)
    requires Parse(s, bareZeroX).Some?
    ensures var h := FirstHash(s);
      && 1 <= h <= 8 && h < |s| && id < Pow16(h) && id <= (if h > 3 then EFF_MASK else SFF_MASK)
      && Parse(s, bareZeroX) == ParseWithId(id, h > 3, s[h + 1..], bareZeroX)
  {
    var h := FirstHash(s);
    id := IdNumber(s[..h]).value;
    IdBound(s[..h]);
  }

  lemma PartsFit(canId: u32, digits: nat)
    requires 1 <= digits <= 8 && IsEff(canId) == (digits > 3) && IdOf(canId) < Pow16(digits)
    requires digits <= 3 ==> IdOf(canId) <= SFF_MASK
    ensures IdFits(canId, digits)
  {}

  lemma WithIdShape(id: nat, digits: nat, rest: string, bareZeroX: bool)
    requires 1 <= digits <= 8 && id < Pow16(digits) && id <= (if digits > 3 then EFF_MASK else SFF_MASK)
    requires ParseWithId(id, digits > 3, rest, bareZeroX).Some?
    ensures Expressible(ParseWithId(id, digits > 3, rest, bareZeroX).value, digits)
  {
    CanIdParts(id, digits > 3, false);
    RestIsSayable(id, digits > 3, rest, bareZeroX);
    PartsFit(ParseWithId(id, digits > 3, rest, bareZeroX).value.canId, digits);
  }

  lemma ParsedShape(s: string, bareZeroX: bool)
    requires Parse(s, bareZeroX).Some?
    ensures Expressible(Parse(s, bareZeroX).value, FirstHash(s))
  {
    var id := ParsedParts(s, bareZeroX);
    WithIdShape(id, FirstHash(s), s[FirstHash(s) + 1..], bareZeroX);
  }

  /** Every accepted text, whatever its characters, denotes an expressible frame,
      with as many id digits as the text has characters before the '#'; so the
      frame's own text parses to it again. */
  lemma ParsedIsExpressible(s: string, bareZeroX: bool)
    requires Parse(s, bareZeroX).Some?
    ensures Expressible(Parse(s, bareZeroX).value, FirstHash(s))
    ensures Parse(Render(Parse(s, bareZeroX).value, FirstHash(s), true), bareZeroX) == Parse(s, bareZeroX)
  {
    ParsedShape(s, bareZeroX);
    TextRoundTrip(Parse(s, bareZeroX).value, FirstHash(s), true, bareZeroX);
  }
}
