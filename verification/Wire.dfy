/** Frames, the packets gsusb_channel_send builds from them, and what
    handle_rx_packet reads out of a received packet. */
module Wire {
  import opened Words
  import opened Errors
  import opened Protocol

  datatype RawFrame = RawFrame(canId: u32, len: u8, flags: u8, data: seq<u8>, timestamp: u32)
  {
    predicate Fd() { flags % 2 == 1 }
    predicate Brs() { flags / 2 % 2 == 1 }
    predicate Esi() { flags / 4 % 2 == 1 }
    predicate Rtr() { IsRtr(canId) }
  }

  /** The C struct always holds 64 data bytes, whatever its length says. */
  type Frame = f: RawFrame | |f.data| == 64 witness RawFrame(0, 0, 0, seq(64, _ => 0), 0)

  predicate IsRtr(canId: u32) { canId / 0x4000_0000 % 2 == 1 }

  function MaxDlen(fd: bool): nat { if fd then FD_DLEN else CLASSIC_DLEN }

  // ---- Sending ----

  /** The payload bytes send takes over: the frame's length, clipped. */
  function TxLen(f: Frame): u8 { Min(f.len, MaxDlen(f.Fd())) }

  function TxDlc(f: Frame): u8 { if f.Fd() then Len2DlcFd(TxLen(f)) else Len2DlcCc(TxLen(f)) }

  function TxFlags(f: Frame): u8 {
    2 * One(f.Fd()) + 4 * One(f.Brs()) + 8 * One(f.Esi())
  }

  function One(b: bool): nat { if b then 1 else 0 }

  /** Byte i of the packet sent for f on channel index. */
  function TxByte(f: Frame, index: u8, i: nat): u8
    requires i < HDR_SIZE + MaxDlen(f.Fd())
  {
    if i < 4 then 0
    else if i < 8 then Le32Byte(f.canId, i - 4)
    else if i == 8 then TxDlc(f)
    else if i == 9 then index
    else if i == 10 then TxFlags(f)
    else if i == 11 then 0
    else if i - HDR_SIZE < TxLen(f) then f.data[i - HDR_SIZE]
    else 0
  }

  function EncodeTx(f: Frame, index: u8): (p: seq<u8>)
    ensures |p| == HDR_SIZE + MaxDlen(f.Fd())
  {
    seq(HDR_SIZE + MaxDlen(f.Fd()), i requires 0 <= i < HDR_SIZE + MaxDlen(f.Fd()) => TxByte(f, index, i))
  }

  /** The header stores of gsusb_channel_send into its zeroed buffer. */
  method FillHeader(buf: array<u8>, f: Frame, index: u8, dlc: u8)
    requires buf.Length == HDR_SIZE + MaxDlen(f.Fd()) && dlc == TxDlc(f)
    modifies buf
    ensures forall k :: 0 <= k < HDR_SIZE ==> buf[k] == TxByte(f, index, k)
    ensures forall k :: HDR_SIZE <= k < buf.Length ==> buf[k] == old(buf[k])
  {
    PutLe32(buf, 0, 0);
    PutLe32(buf, 4, f.canId);
    buf[8] := dlc;
    buf[9] := index;
    var wflags := 0;
    if f.Fd() { wflags := wflags + 2; }
    if f.Brs() { wflags := wflags + 4; }
    if f.Esi() { wflags := wflags + 8; }
    buf[10] := wflags;
    buf[11] := 0;
  }

  /** The buffer gsusb_channel_send hands to the bulk transfer. */
  method BuildTx(f: Frame, index: u8) returns (buf: array<u8>)
    ensures fresh(buf) && buf[..] == EncodeTx(f, index)
  {
    var maxDlen := if f.Fd() then FD_DLEN else CLASSIC_DLEN;
    var len := f.len;
    if len > maxDlen {
      len := maxDlen;
    }
    var dlc := if f.Fd() then Len2DlcFd(len) else Len2DlcCc(len);
    buf := new u8[HDR_SIZE + maxDlen](_ => 0);
    FillHeader(buf, f, index, dlc);
    for i := 0 to len
      invariant forall k :: 0 <= k < HDR_SIZE ==> buf[k] == TxByte(f, index, k)
      invariant forall k :: 0 <= k < i ==> buf[HDR_SIZE + k] == f.data[k]
      invariant forall k :: HDR_SIZE + i <= k < buf.Length ==> buf[k] == 0
    {
      buf[HDR_SIZE + i] := f.data[i];
    }
    assert forall k :: 0 <= k < buf.Length ==> buf[k] == TxByte(f, index, k);
  }

  datatype UsbResult = Success(transferred: nat) | Timeout | Error(mapped: int)

  /** gsusb_channel_send: what is put on the wire, if anything, and the return
      code for the transfer's outcome. */
  method Send(started: bool, fdFeature: bool, f: Frame, index: u8, usb: UsbResult)
    returns (rc: int, sent: Option<seq<u8>>)
    requires usb.Error? ==> usb.mapped < 0
    ensures sent.Some? <==> started && (f.Fd() ==> fdFeature)
    ensures sent.Some? ==> sent.value == EncodeTx(f, index)
    ensures sent.None? ==> rc == GSUSB_ERR_INVALID
    ensures sent.Some? && usb.Timeout? ==> rc == GSUSB_ERR_TIMEOUT
    ensures sent.Some? && usb.Error? ==> rc == usb.mapped
    ensures sent.Some? && usb.Success? ==> rc == if usb.transferred == |sent.value| then GSUSB_OK else GSUSB_ERR_IO
    ensures rc == GSUSB_OK <==> sent.Some? && usb == Success(HDR_SIZE + MaxDlen(f.Fd()))
  {
    if !started {
      return GSUSB_ERR_INVALID, None;
    }
    if f.Fd() && !fdFeature {
      return GSUSB_ERR_INVALID, None;
    }
    var buf := BuildTx(f, index);
    sent := Some(buf[..]);
    match usb {
      case Timeout => rc := GSUSB_ERR_TIMEOUT;
      case Error(mapped) => rc := mapped;
      case Success(transferred) => rc := if transferred != buf.Length then GSUSB_ERR_IO else GSUSB_OK;
    }
  }

  // ---- Receiving ----

  datatype Reception = Dropped | Received(channel: nat, frame: Frame)

  /** The payload length a header announces. */
  function RxLen(canId: u32, dlc: u8, fd: bool): u8 {
    if fd then Dlc2LenFd(dlc) else if IsRtr(canId) then 0 else Dlc2LenCc(dlc)
  }

  function RxFlags(wire: u8): u8 {
    One(wire / 2 % 2 == 1) + 2 * One(wire / 4 % 2 == 1) + 4 * One(wire / 8 % 2 == 1)
  }

  /** Bytes a packet must have for its frame to be read. */
  function Needed(fd: bool, len: u8, withTs: bool): nat {
    if withTs then HDR_SIZE + MaxDlen(fd) + TS_SIZE else HDR_SIZE + len
  }

  /** The frame's data area: len payload bytes, then zeros. */
  function Payload(p: seq<u8>, len: u8): (d: seq<u8>)
    requires len <= 64 && |p| >= HDR_SIZE + len
    ensures |d| == 64
    ensures forall i :: 0 <= i < 64 ==> d[i] == if i < len then p[HDR_SIZE + i] else 0
  {
    p[HDR_SIZE..HDR_SIZE + len] + seq(64 - len, _ => 0)
  }

  /** The channel and the echo id of a packet with a whole header. */
  predicate IsReception(p: seq<u8>) { |p| >= HDR_SIZE && GetLe32(p, 0) == ECHO_ID_RX }

  /** The frame in a packet received on a channel with the given timestamp
      switch, if the packet is a reception and long enough. */
  function FrameOf(p: seq<u8>, withTs: bool): Option<Frame> {
    if !IsReception(p) then None
    else
      var fd := p[10] / 2 % 2 == 1;
      var len := RxLen(GetLe32(p, 4), p[8], fd);
      if |p| < Needed(fd, len, withTs) then None
      else
        Some(RawFrame(GetLe32(p, 4), len, RxFlags(p[10]), Payload(p, len),
                      if withTs then GetLe32(p, HDR_SIZE + MaxDlen(fd)) else 0))
  }

  /** handle_rx_packet up to the push: p are the bytes received, hwTs the
      per-channel timestamp switches. */
  function Decode(p: seq<u8>, hwTs: seq<bool>): Reception {
    if |p| < HDR_SIZE || p[9] >= |hwTs| then Dropped
    else
      match FrameOf(p, hwTs[p[9]])
      case None => Dropped
      case Some(f) => Received(p[9], f)
  }

  // ---- Round trip ----

  /** The packet a device returns for the frame: the sent packet with the
      receive marker in place of the echo id, and a timestamp if enabled. */
  function RxImage(f: Frame, index: u8, withTs: bool, ts: u32): (p: seq<u8>)
    ensures |p| == FrameSize(MaxDlen(f.Fd()), withTs)
  {
    Le32(ECHO_ID_RX) + EncodeTx(f, index)[4..] + (if withTs then Le32(ts) else [])
  }

  /** The length f comes back with. */
  function NormalLen(f: Frame): u8 {
    if f.Fd() then Dlc2LenFd(Len2DlcFd(TxLen(f))) else if f.Rtr() then 0 else TxLen(f)
  }

  /** What the wire preserves of a frame. */
  function Normal(f: Frame, ts: u32): Frame {
    RawFrame(f.canId, NormalLen(f), f.flags % 8, NormalData(f), ts)
  }

  function NormalData(f: Frame): (d: seq<u8>)
    ensures |d| == 64
    ensures forall i :: 0 <= i < 64 ==> d[i] == if i < Min(TxLen(f), NormalLen(f)) then f.data[i] else 0
  {
    var kept := Min(TxLen(f), NormalLen(f));
    f.data[..kept] + seq(64 - kept, _ => 0)
  }

  /** Frames that the wire preserves, said without the wire: a valid length, no
      data on remote frames, zero bytes past the length, known flags only. */
  ghost predicate IsNormal(f: Frame) {
    && f.flags < 8
    && (if f.Fd() then f.len in FD_LENGTHS else if f.Rtr() then f.len == 0 else f.len <= 8)
    && forall i :: f.len <= i < 64 ==> f.data[i] == 0
  }

  lemma FlagsRoundTrip(f: Frame)
    ensures RxFlags(TxFlags(f)) == f.flags % 8
    ensures TxFlags(f) / 2 % 2 == 1 <==> f.Fd()
  {
    LowFlags(f.flags / 8, f.flags % 8);
    WireFlags(One(f.Fd()), One(f.Brs()), One(f.Esi()));
  }

  lemma LowFlags(q: nat, x: nat)
    requires x < 8
    ensures (8 * q + x) % 2 == x % 2 && (8 * q + x) / 2 % 2 == x / 2 % 2 && (8 * q + x) / 4 % 2 == x / 4 % 2
    ensures x == x % 2 + 2 * (x / 2 % 2) + 4 * (x / 4 % 2)
  {
    assert (8 * q + x) / 2 == 4 * q + x / 2;
    assert (8 * q + x) / 4 == 2 * q + x / 4;
  }

  lemma WireFlags(a: nat, b: nat, c: nat)
    requires a < 2 && b < 2 && c < 2
    ensures var w := 2 * a + 4 * b + 8 * c; w / 2 % 2 == a && w / 4 % 2 == b && w / 8 % 2 == c
  {
    var w := 2 * a + 4 * b + 8 * c;
    assert w / 2 == a + 2 * b + 4 * c;
    assert w / 4 == b + 2 * c;
  }

  lemma LengthRoundTrip(f: Frame)
    ensures RxLen(f.canId, TxDlc(f), f.Fd()) == NormalLen(f)
    ensures f.Fd() ==> TxLen(f) <= NormalLen(f)
    ensures NormalLen(f) <= MaxDlen(f.Fd())
  {
    if f.Fd() { DlcAdjoint(TxLen(f), Len2DlcFd(TxLen(f))); }
  }

  /** Decoding the device's copy of any sent frame yields the frame's normal
      form on the same channel, with the device's timestamp if enabled. */
  lemma WireRoundTrip(f: Frame, index: u8, hwTs: seq<bool>, ts: u32)
    requires index < |hwTs|
    ensures Decode(RxImage(f, index, hwTs[index], ts), hwTs)
         == Received(index, Normal(f, if hwTs[index] then ts else 0))
  {
    RxHeader(f, index, hwTs[index], ts);
    FlagsRoundTrip(f);
    LengthRoundTrip(f);
    var r := Decode(RxImage(f, index, hwTs[index], ts), hwTs);
    assert r.Received? && r.channel == index;
    assert r.frame.data == NormalData(f);
  }

  /** The fields handle_rx_packet reads from a device's copy. */
  lemma RxHeader(f: Frame, index: u8, withTs: bool, ts: u32)
    ensures var p := RxImage(f, index, withTs, ts);
      && GetLe32(p, 0) == ECHO_ID_RX && GetLe32(p, 4) == f.canId
      && p[8] == TxDlc(f) && p[9] == index && p[10] == TxFlags(f)
      && (withTs ==> GetLe32(p, HDR_SIZE + MaxDlen(f.Fd())) == ts)
      && forall i :: 0 <= i < MaxDlen(f.Fd()) ==> p[HDR_SIZE + i] == if i < TxLen(f) then f.data[i] else 0
  {
    var p := RxImage(f, index, withTs, ts);
    var n := HDR_SIZE + MaxDlen(f.Fd());
    assert forall i :: 4 <= i < n ==> p[i] == TxByte(f, index, i);
    assert p[0..4] == Le32(ECHO_ID_RX);
    Le32RoundTrip(ECHO_ID_RX, p, 0);
    assert p[4..8] == Le32(f.canId);
    Le32RoundTrip(f.canId, p, 4);
    if withTs {
      assert p[n..n + 4] == Le32(ts);
      Le32RoundTrip(ts, p, n);
    }
  }

  /** The normal forms are exactly the frames left alone by normalisation. */
  lemma NormalIffFixed(f: Frame)
    ensures IsNormal(f) <==> Normal(f, f.timestamp) == f
  {
    LengthRoundTrip(f);
    if f.Fd() && f.len in FD_LENGTHS {
      var dlc :| 0 <= dlc < 16 && FD_LENGTHS[dlc] == f.len;
      DlcAdjoint(f.len, dlc);
    }
    if Normal(f, f.timestamp) == f {
      assert forall i :: f.len <= i < 64 ==> Normal(f, f.timestamp).data[i] == 0;
    }
    if IsNormal(f) {
      assert Normal(f, f.timestamp).data == f.data;
    }
  }

  /** Normalising gives a normal form, so doing it twice changes nothing. */
  lemma NormalIsIdempotent(f: Frame, ts: u32)
    ensures IsNormal(Normal(f, ts))
    ensures Normal(Normal(f, ts), ts) == Normal(f, ts)
  {
    LengthRoundTrip(f);
    NormalIffFixed(Normal(f, ts));
  }

  lemma FrameOfIsNormal(p: seq<u8>, withTs: bool)
    requires FrameOf(p, withTs).Some?
    ensures IsNormal(FrameOf(p, withTs).value)
    ensures !withTs ==> FrameOf(p, withTs).value.timestamp == 0
  {
    var w, dlc, canId := p[10], p[8], GetLe32(p, 4);
    RxFlagBits(w);
    assert Dlc2LenFd(dlc) in FD_LENGTHS;
  }

  lemma RxFlagBits(w: u8)
    ensures RxFlags(w) < 8 && (RxFlags(w) % 2 == 1 <==> w / 2 % 2 == 1)
  {}

  /** Whatever a device sends, the frame handed out is a normal form; sending
      it and receiving the copy gives the same frame again. */
  lemma DecodedIsNormal(p: seq<u8>, hwTs: seq<bool>)
    requires Decode(p, hwTs).Received?
    ensures var r := Decode(p, hwTs);
      && r.channel < |hwTs| && r.channel < 0x100 && IsNormal(r.frame)
      && Decode(RxImage(r.frame, r.channel, hwTs[r.channel], r.frame.timestamp), hwTs) == r
  {
    var r := Decode(p, hwTs);
    FrameOfIsNormal(p, hwTs[p[9]]);
    NormalIffFixed(r.frame);
    WireRoundTrip(r.frame, r.channel, hwTs, r.frame.timestamp);
  }

  /** A packet some frame may have been sent as on some channel, possibly with
      bytes the device appended. */
  ghost predicate IsEcho(p: seq<u8>) {
    exists f: Frame, index: u8 :: EncodeTx(f, index) <= p
  }

  /** Nothing that send emits is ever taken for a received frame. */
  lemma SentIsNotReceived(p: seq<u8>, hwTs: seq<bool>)
    requires IsEcho(p)
    ensures Decode(p, hwTs) == Dropped
  {
    var f: Frame, index: u8 :| EncodeTx(f, index) <= p;
    assert forall i :: 0 <= i < 4 ==> p[i] == TxByte(f, index, i);
  }

  // ---- The receive buffer ----

  predicate FeatureFd(feature: u32) { feature / 0x100 % 2 == 1 }

  predicate FeatureTs(feature: u32) { feature / 0x10 % 2 == 1 }

  /** The largest packet a channel with these features may emit. */
  function WireSize(feature: u32): nat { FrameSize(MaxDlen(FeatureFd(feature)), FeatureTs(feature)) }

  /** size is the maximum of the channels' wire sizes. */
  ghost predicate IsLargest(features: seq<u32>, size: nat) {
    && (forall i :: 0 <= i < |features| ==> WireSize(features[i]) <= size)
    && (if features == [] then size == 0 else exists i :: 0 <= i < |features| && WireSize(features[i]) == size)
  }

  /** The loop of gsusb_open over the channels: their largest wire size. */
  method RxBufferSize(features: seq<u32>) returns (size: nat)
    ensures IsLargest(features, size)
  {
    size := 0;
    for i := 0 to |features|
      invariant forall k :: 0 <= k < i ==> WireSize(features[k]) <= size
      invariant if i == 0 then size == 0 else exists k :: 0 <= k < i && WireSize(features[k]) == size
    {
      var maxDlen := if FeatureFd(features[i]) then FD_DLEN else CLASSIC_DLEN;
      var s := FrameSize(maxDlen, FeatureTs(features[i]));
      if s > size {
        size := s;
      }
    }
  }

  /** The timestamp switches that start sets from the features. */
  function Switches(features: seq<u32>): (hwTs: seq<bool>)
    ensures |hwTs| == |features|
  {
    seq(|features|, i requires 0 <= i < |features| => FeatureTs(features[i]))
  }

  /** The FD bit of a packet's flags. */
  predicate FdPacket(p: seq<u8>)
    requires |p| >= HDR_SIZE
  {
    p[10] / 2 % 2 == 1
  }

  /** The bytes handle_rx_packet wants of a packet. */
  function NeededOf(p: seq<u8>, withTs: bool): nat
    requires |p| >= HDR_SIZE
  {
    Needed(FdPacket(p), RxLen(GetLe32(p, 4), p[8], FdPacket(p)), withTs)
  }

  /** Any reception packet on a channel that is FD only if the channel is.
      Whatever its bytes, DLC codes past the last and padding included, it is
      decoded exactly when it has the bytes wanted, and these are at most a
      whole frame of its kind. */
  lemma DecodedIffLongEnough(features: seq<u32>, p: seq<u8>)
    requires IsReception(p) && p[9] < |features| && (FdPacket(p) ==> FeatureFd(features[p[9]]))
    ensures var withTs := FeatureTs(features[p[9]]);
      && (Decode(p, Switches(features)).Received? <==> |p| >= NeededOf(p, withTs))
      && NeededOf(p, withTs) <= FrameSize(MaxDlen(FdPacket(p)), withTs) <= WireSize(features[p[9]])
  {
    assert RxLen(GetLe32(p, 4), p[8], FdPacket(p)) <= MaxDlen(FdPacket(p));
  }

  /** The buffer fits: a whole reception packet of any channel's kind is read
      into it uncut and decoded, and one that arrives shorter is dropped as soon
      as a byte that is wanted is missing. */
  lemma EveryPacketFits(features: seq<u32>, size: nat, p: seq<u8>)
    requires IsLargest(features, size)
    requires IsReception(p) && p[9] < |features| && (FdPacket(p) ==> FeatureFd(features[p[9]]))
    requires |p| == FrameSize(MaxDlen(FdPacket(p)), FeatureTs(features[p[9]]))
    ensures |p| <= size && p[..Min(|p|, size)] == p
    ensures Decode(p, Switches(features)).Received?
    ensures forall n: nat :: n <= |p| ==>
      (Decode(p[..n], Switches(features)).Received? <==> n >= NeededOf(p, FeatureTs(features[p[9]])))
  {
    DecodedIffLongEnough(features, p);
    forall n: nat | n <= |p|
      ensures Decode(p[..n], Switches(features)).Received? <==> n >= NeededOf(p, FeatureTs(features[p[9]]))
    {
      if n >= HDR_SIZE {
        var cut := p[..n];
        assert GetLe32(cut, 0) == GetLe32(p, 0) && GetLe32(cut, 4) == GetLe32(p, 4);
        assert cut[8] == p[8] && cut[9] == p[9] && cut[10] == p[10];
        DecodedIffLongEnough(features, cut);
      }
    }
  }

  /** The copy of a frame that a channel can be asked to send is such a whole
      packet. */
  lemma CopiesAreWhole(features: seq<u32>, f: Frame, index: u8, ts: u32)
    requires index < |features| && (f.Fd() ==> FeatureFd(features[index]))
    ensures var p := RxImage(f, index, FeatureTs(features[index]), ts);
      && IsReception(p) && p[9] == index && FdPacket(p) == f.Fd()
      && |p| == FrameSize(MaxDlen(FdPacket(p)), FeatureTs(features[p[9]]))
  {
    RxHeader(f, index, FeatureTs(features[index]), ts);
    FlagsRoundTrip(f);
  }
}
