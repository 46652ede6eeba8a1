/** The wire format in plain numbers: where each byte of a packet goes and comes
    from, said without the functions that build and read it. */
module WireLayout {
  import opened Words
  import opened Protocol
  import opened Wire

  /** Four bytes as a little-endian word. */
  predicate IsWord(v: int, b0: u8, b1: u8, b2: u8, b3: u8) {
    v == b0 + 0x100 * b1 + 0x1_0000 * b2 + 0x100_0000 * b3
  }

  /** The code is the least one whose FD length holds len. */
  ghost predicate IsLeastFdCode(dlc: u8, len: nat) {
    dlc <= 15 && len <= Dlc2LenFd(dlc) && (dlc > 0 ==> Dlc2LenFd(dlc - 1) < len)
  }

  lemma LeastFdCode(len: u8)
    requires len <= 64
    ensures IsLeastFdCode(Len2DlcFd(len), len)
  {
    var dlc := Len2DlcFd(len);
    DlcAdjoint(len, dlc);
    if dlc > 0 { DlcAdjoint(len, dlc - 1); }
  }

  lemma WordBytes(v: u32)
    ensures IsWord(v, Le32Byte(v, 0), Le32Byte(v, 1), Le32Byte(v, 2), Le32Byte(v, 3))
  {
    Le32Inverse(v);
  }

  /** What a send puts on the wire: four zero bytes, the id, the length code, the
      channel, the flags with FD, BRS and ESI in bits 1, 2 and 3, a zero byte,
      and 8 or 64 data bytes, those past the frame's length being zero. */
  lemma SentInNumbers(f: Frame, index: u8)
    ensures var b, n := EncodeTx(f, index), if f.flags % 2 == 1 then 64 else 8;
      && |b| == 12 + n
      && b[0] == 0 && b[1] == 0 && b[2] == 0 && b[3] == 0
      && IsWord(f.canId, b[4], b[5], b[6], b[7])
      && (if n == 64 then IsLeastFdCode(b[8], Min(f.len, 64)) else b[8] == Min(f.len, 8))
      && b[9] == index
      && b[10] == 2 * (f.flags % 2) + 4 * (f.flags / 2 % 2) + 8 * (f.flags / 4 % 2)
      && b[11] == 0
      && forall i :: 0 <= i < n ==> b[12 + i] == if i < f.len then f.data[i] else 0
  {
    var b := EncodeTx(f, index);
    assert forall i :: 0 <= i < |b| ==> b[i] == TxByte(f, index, i);
    WordBytes(f.canId);
    if f.Fd() { LeastFdCode(TxLen(f)); } else { ClassicDlcAdjoint(TxLen(f), 0); }
  }

  /** The length a packet announces. */
  function LengthIn(p: seq<u8>): nat
    requires |p| >= 12
  {
    if p[10] / 2 % 2 == 1 then Dlc2LenFd(p[8])
    else if p[7] / 0x40 % 2 == 1 then 0
    else Min(p[8], 8)
  }

  /** The bytes behind the header that a packet must have. */
  function WantedIn(p: seq<u8>, withTs: bool): nat
    requires |p| >= 12
  {
    if !withTs then LengthIn(p) else if p[10] / 2 % 2 == 1 then 68 else 12
  }

  lemma RemoteBit(low: nat, top: u8)
    requires low < 0x100_0000
    ensures (low + 0x100_0000 * top) / 0x4000_0000 == top / 0x40
  {
    QuotientIs(low + 0x100_0000 * top, 0x4000_0000, top / 0x40, low + 0x100_0000 * (top % 0x40));
  }

  lemma LengthIsAnnounced(p: seq<u8>)
    requires |p| >= 12
    ensures RxLen(GetLe32(p, 4), p[8], p[10] / 2 % 2 == 1) == LengthIn(p)
  {
    var b4: int, b5: int, b6: int := p[4], p[5], p[6];
    RemoteBit(b4 + 0x100 * b5 + 0x1_0000 * b6, p[7]);
    ClassicDlcAdjoint(0, p[8]);
  }

  lemma ReceptionBytes(p: seq<u8>)
    requires |p| >= 12
    ensures IsReception(p) <==> p[0] == 0xff && p[1] == 0xff && p[2] == 0xff && p[3] == 0xff
  {}

  /** Which packets are taken for received frames: four bytes 0xff in front, a
      known channel in byte 9, and all bytes that are wanted. */
  lemma ReceivedIff(p: seq<u8>, hwTs: seq<bool>)
    ensures Decode(p, hwTs).Received? <==>
      && |p| >= 12 && p[0] == 0xff && p[1] == 0xff && p[2] == 0xff && p[3] == 0xff
      && p[9] < |hwTs| && |p| >= 12 + WantedIn(p, hwTs[p[9]])
  {
    if |p| >= 12 {
      ReceptionBytes(p);
      LengthIsAnnounced(p);
    }
  }

  /** And the frame that is handed out: the channel from byte 9, the id from bytes
      4 to 7, the length announced, FD, BRS and ESI from bits 1, 2 and 3 of byte
      10, the data from byte 12 on and zeros behind them, and the timestamp from
      behind the 8 or 64 data bytes. */
  lemma ReceivedInNumbers(p: seq<u8>, hwTs: seq<bool>)
    requires Decode(p, hwTs).Received?
    ensures |p| >= 12 && p[9] < |hwTs| && |p| >= 12 + LengthIn(p)
    ensures var r := Decode(p, hwTs);
      && r.channel == p[9]
      && IsWord(r.frame.canId, p[4], p[5], p[6], p[7])
      && r.frame.len == LengthIn(p)
      && r.frame.flags == p[10] / 2 % 2 + 2 * (p[10] / 4 % 2) + 4 * (p[10] / 8 % 2)
      && forall i :: 0 <= i < 64 ==> r.frame.data[i] == if i < LengthIn(p) then p[12 + i] else 0
    ensures var r, at := Decode(p, hwTs), if p[10] / 2 % 2 == 1 then 76 else 20;
      if hwTs[p[9]] then |p| >= at + 4 && IsWord(r.frame.timestamp, p[at], p[at + 1], p[at + 2], p[at + 3])
      else r.frame.timestamp == 0
  {
    LengthIsAnnounced(p);
  }

  /** The receive buffer: 80 bytes if some channel has both FD and timestamps,
      else 76 if some has FD, else 24 if some has timestamps, else 20. */
  lemma SizesInNumbers(features: seq<u32>, size: nat)
    requires IsLargest(features, size) && features != []
    ensures size ==
      if exists i :: 0 <= i < |features| && features[i] / 0x100 % 2 == 1 && features[i] / 0x10 % 2 == 1 then 80
      else if exists i :: 0 <= i < |features| && features[i] / 0x100 % 2 == 1 then 76
      else if exists i :: 0 <= i < |features| && features[i] / 0x10 % 2 == 1 then 24
      else 20
  {
    forall i | 0 <= i < |features|
      ensures WireSize(features[i]) ==
        if features[i] / 0x100 % 2 == 1 then (if features[i] / 0x10 % 2 == 1 then 80 else 76)
        else if features[i] / 0x10 % 2 == 1 then 24 else 20
    {}
  }
}
