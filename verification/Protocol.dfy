/** The gs_usb wire layout: little-endian words, frame sizes and the mapping
    between data lengths and DLC codes (the DLC field of ISO 11898-1, section
    8.4.2.3). */
module Protocol {
  import opened Words

  const HDR_SIZE := 12
  const TS_SIZE := 4
  const CLASSIC_DLEN := 8
  const FD_DLEN := 64
  const ECHO_ID_RX: u32 := 0xffff_ffff

  function FrameSize(dataLen: nat, withTs: bool): nat {
    HDR_SIZE + dataLen + (if withTs then TS_SIZE else 0)
  }

  // ---- Little-endian words ----

  /** Byte k of the little-endian form of v. */
  function Le32Byte(v: u32, k: nat): u8
    requires k < 4
  {
    if k == 0 then v % 0x100
    else if k == 1 then v / 0x100 % 0x100
    else if k == 2 then v / 0x1_0000 % 0x100
    else v / 0x100_0000 % 0x100
  }

  function Le32(v: u32): (r: seq<u8>)
    ensures |r| == 4
  {
    [Le32Byte(v, 0), Le32Byte(v, 1), Le32Byte(v, 2), Le32Byte(v, 3)]
  }

  function WordOf(b0: int, b1: int, b2: int, b3: int): int {
    b0 + 0x100 * b1 + 0x1_0000 * b2 + 0x100_0000 * b3
  }

  function GetLe32(b: seq<u8>, at: nat): u32
    requires at + 4 <= |b|
  {
    WordOf(b[at], b[at + 1], b[at + 2], b[at + 3])
  }

  /** Writing a word and reading it back are inverse in both directions. */
  lemma Le32RoundTrip(v: u32, b: seq<u8>, at: nat)
    requires at + 4 <= |b|
    ensures GetLe32(Le32(v), 0) == v
    ensures b[at..at + 4] == Le32(v) <==> GetLe32(b, at) == v
  {
    var w := b[at..at + 4];
    assert w[0] == b[at] && w[1] == b[at + 1] && w[2] == b[at + 2] && w[3] == b[at + 3];
    Le32Inverse(v);
    Le32OfWord(b[at], b[at + 1], b[at + 2], b[at + 3]);
  }

  /** Shifting by whole bytes is dividing by 256 repeatedly. */
  lemma ByteShifts(v: nat)
    ensures v / 0x1_0000 == v / 0x100 / 0x100
    ensures v / 0x100_0000 == v / 0x100 / 0x100 / 0x100
  {
    var a := v / 0x100;
    var b := a / 0x100;
    var c := b / 0x100;
    assert 0x100 * a <= v < 0x100 * a + 0x100;
    assert 0x100 * b <= a < 0x100 * b + 0x100;
    assert 0x100 * c <= b < 0x100 * c + 0x100;
  }

  lemma LowByte(lo: u8, hi: nat)
    ensures (lo + 0x100 * hi) % 0x100 == lo && (lo + 0x100 * hi) / 0x100 == hi
  {}

  lemma Le32Inverse(v: u32)
    ensures WordOf(Le32Byte(v, 0), Le32Byte(v, 1), Le32Byte(v, 2), Le32Byte(v, 3)) == v
  {
    ByteShifts(v);
    var a := v / 0x100;
    var b := a / 0x100;
    var c := b / 0x100;
    assert v == v % 0x100 + 0x100 * a;
    assert a == a % 0x100 + 0x100 * b;
    assert b == b % 0x100 + 0x100 * c;
    assert c < 0x100;
  }

  lemma Le32OfWord(b0: u8, b1: u8, b2: u8, b3: u8)
    ensures 0 <= WordOf(b0, b1, b2, b3) < 0x1_0000_0000
    ensures Le32(WordOf(b0, b1, b2, b3)) == [b0, b1, b2, b3]
  {
    ByteShifts(WordOf(b0, b1, b2, b3));
    LowByte(b0, b1 + 0x100 * b2 + 0x1_0000 * b3);
    LowByte(b1, b2 + 0x100 * b3);
    LowByte(b2, b3);
  }

  /** gs_put_le32: four stores into the caller's buffer. */
  method PutLe32(buf: array<u8>, at: nat, v: u32)
    requires at + 4 <= buf.Length
    modifies buf
    ensures forall i :: at <= i < at + 4 ==> buf[i] == Le32Byte(v, i - at)
    ensures forall i :: 0 <= i < buf.Length && !(at <= i < at + 4) ==> buf[i] == old(buf[i])
  {
    buf[at] := v % 0x100;
    buf[at + 1] := v / 0x100 % 0x100;
    buf[at + 2] := v / 0x1_0000 % 0x100;
    buf[at + 3] := v / 0x100_0000 % 0x100;
  }

  // ---- Data length and DLC ----

  const FD_LENGTHS: seq<u8> := [0, 1, 2, 3, 4, 5, 6, 7, 8, 12, 16, 20, 24, 32, 48, 64]

  function Len2DlcCc(len: u8): u8 { if len > 8 then 8 else len }

  function Dlc2LenCc(dlc: u8): u8 { if dlc > 8 then 8 else dlc }

  function Dlc2LenFd(dlc: u8): u8 { FD_LENGTHS[if dlc > 15 then 15 else dlc] }

  function Len2DlcFd(len: u8): u8 {
    if len <= 8 then len
    else if len <= 12 then 9
    else if len <= 16 then 10
    else if len <= 20 then 11
    else if len <= 24 then 12
    else if len <= 32 then 13
    else if len <= 48 then 14
    else 15
  }

  /** The FD mappings are adjoint: a DLC holds a length, cut to the largest
      one, exactly when it is at least the length's own DLC. So Len2DlcFd
      picks the least DLC that holds the length, and with it the least valid
      length not below it. DLC codes past the last one count as the last. */
  lemma DlcAdjoint(len: u8, dlc: u8)
    ensures Len2DlcFd(len) <= dlc <==> Min(len, FD_DLEN) <= Dlc2LenFd(dlc)
    ensures Len2DlcFd(Dlc2LenFd(dlc)) == Min(dlc, 15)
  {
    var d := Min(dlc, 15);
    assert d == 0 || d == 1 || d == 2 || d == 3 || d == 4 || d == 5 || d == 6 || d == 7
        || d == 8 || d == 9 || d == 10 || d == 11 || d == 12 || d == 13 || d == 14 || d == 15;
  }

  /** The classic mappings likewise; codes and lengths past eight count as
      eight. */
  lemma ClassicDlcAdjoint(len: u8, dlc: u8)
    ensures Len2DlcCc(len) <= dlc <==> Min(len, 8) <= Dlc2LenCc(dlc)
    ensures Len2DlcCc(len) == Min(len, 8) && Dlc2LenCc(dlc) == Min(dlc, 8)
  {}

  /** The FD lengths: bytes up to eight, then steps of four to 24, then 32, 48
      and 64. */
  lemma FdLengthsInNumbers(dlc: u8)
    ensures Dlc2LenFd(dlc) ==
      if dlc <= 8 then dlc else if dlc <= 12 then 4 * (dlc - 6) else if dlc <= 15 then 16 * (dlc - 11) else 64
  {
    var d := Min(dlc, 15);
    assert d == 0 || d == 1 || d == 2 || d == 3 || d == 4 || d == 5 || d == 6 || d == 7
        || d == 8 || d == 9 || d == 10 || d == 11 || d == 12 || d == 13 || d == 14 || d == 15;
  }
}
