/** The reader side of a device: packets are decoded and pushed to the queue
    of the channel they name. */
module Demux {
  import opened Words
  import opened Protocol
  import opened Wire
  import opened RxQueue

  // ---- One packet ----

  /** gs_get_le32 on the receive buffer. */
  method ReadLe32(buf: array<u8>, n: nat, at: nat) returns (v: u32)
    requires at + 4 <= n <= buf.Length
    ensures v == GetLe32(buf[..n], at)
  {
    ghost var p := buf[..n];
    assert p[at] == buf[at] && p[at + 1] == buf[at + 1] && p[at + 2] == buf[at + 2] && p[at + 3] == buf[at + 3];
    ghost var w := GetLe32(p, at);
    v := WordOf(buf[at], buf[at + 1], buf[at + 2], buf[at + 3]);
  }

  /** The zeroed data area with len bytes of the packet copied into it. */
  method CopyPayload(buf: array<u8>, n: nat, len: u8) returns (data: seq<u8>)
    requires len <= 64 && HDR_SIZE + len <= n <= buf.Length
    ensures data == Payload(buf[..n], len)
  {
    data := buf[HDR_SIZE..HDR_SIZE + len] + seq(64 - len, _ => 0);
    assert buf[HDR_SIZE..HDR_SIZE + len] == buf[..n][HDR_SIZE..HDR_SIZE + len];
  }

  /** The payload length of the packet and whether it is an FD one. */
  method ReadLength(buf: array<u8>, n: nat, canId: u32) returns (fd: bool, maxDlen: nat, len: u8)
    requires HDR_SIZE <= n <= buf.Length && canId == GetLe32(buf[..n], 4)
    ensures fd == (buf[..n][10] / 2 % 2 == 1) && maxDlen == MaxDlen(fd)
    ensures len == RxLen(canId, buf[..n][8], fd) <= maxDlen
  {
    fd := buf[10] / 2 % 2 == 1;
    maxDlen := if fd then FD_DLEN else CLASSIC_DLEN;
    len := if fd then Dlc2LenFd(buf[8]) else if IsRtr(canId) then 0 else Dlc2LenCc(buf[8]);
    if len > maxDlen {
      len := maxDlen;
    }
  }

  /** The reads and checks of handle_rx_packet behind the header, on the first
      n bytes of buf. */
  method ParseFrame(buf: array<u8>, n: nat, withTs: bool) returns (f: Option<Frame>)
    requires HDR_SIZE <= n <= buf.Length
    ensures f == FrameOf(buf[..n], withTs)
  {
    var echoId := ReadLe32(buf, n, 0);
    var canId := ReadLe32(buf, n, 4);
    if echoId != ECHO_ID_RX {
      return None;
    }
    var fd, maxDlen, len := ReadLength(buf, n, canId);
    var ts := 0;
    if withTs {
      if n < HDR_SIZE + maxDlen + TS_SIZE {
        return None;
      }
      ts := ReadLe32(buf, n, HDR_SIZE + maxDlen);
    } else if n < HDR_SIZE + len {
      return None;
    }
    var data := CopyPayload(buf, n, len);
    f := Some(RawFrame(canId, len, RxFlags(buf[10]), data, ts));
  }

  /** handle_rx_packet up to the push: what it finds is determined by the
      bytes received. */
  method Parse(buf: array<u8>, n: nat, hwTs: seq<bool>) returns (r: Reception)
    requires n <= buf.Length
    ensures r == Decode(buf[..n], hwTs)
  {
    if n < HDR_SIZE {
      return Dropped;
    }
    var channel := buf[9];
    if channel >= |hwTs| {
      return Dropped;
    }
    var f := ParseFrame(buf, n, hwTs[channel]);
    r := if f.None? then Dropped else Received(channel, f.value);
  }

  class Device {
    const channels: seq<Ring<Frame>>
    var hwTs: seq<bool>

    ghost predicate Valid()
      reads this, channels, Buffers(channels)
    {
      && |hwTs| == |channels|
      && (forall i, j :: 0 <= i < j < |channels| ==>
            channels[i] != channels[j] && channels[i].buf != channels[j].buf)
      && (forall i :: 0 <= i < |channels| ==> channels[i].Valid())
    }

    constructor (channels: seq<Ring<Frame>>)
      requires forall i, j :: 0 <= i < j < |channels| ==>
        channels[i] != channels[j] && channels[i].buf != channels[j].buf
      requires forall i :: 0 <= i < |channels| ==> channels[i].Valid()
      ensures this.channels == channels && Valid()
      ensures hwTs == seq(|channels|, _ => false)
    {
      this.channels := channels;
      this.hwTs := seq(|channels|, _ => false);
    }

    /** The queues' meanings, channel by channel. */
    ghost function States(): (s: seq<Queue<Frame>>)
      requires Valid()
      reads this, channels, Buffers(channels)
      ensures |s| == |channels|
      ensures forall i :: 0 <= i < |s| ==> s[i] == channels[i].State() && s[i].Fits()
    {
      seq(|channels|, i requires 0 <= i < |channels| && Valid() reads this, channels, Buffers(channels)
                      => channels[i].State())
    }

    /** handle_rx_packet on the first n bytes of buf. Only those bytes matter,
        and only the queue of the channel a received frame names changes. */
    method HandleRxPacket(buf: array<u8>, n: nat)
      requires Valid() && n <= buf.Length
      modifies channels, Buffers(channels)
      ensures Valid()
      ensures States() == Dispatch(old(States()), Decode(old(buf[..n]), hwTs))
    {
      var r := Parse(buf, n, hwTs);
      if r.Received? {
        channels[r.channel].Push(r.frame);
      }
    }

    /** reader_thread_fn: reads until told to stop or until the device is gone.
        The inputs are what each iteration sees, the stop flag or the bulk
        transfer's outcome, and the switches that other threads' starts set in
        between. If the buffer cannot be allocated the thread returns at once. */
    method ReaderThread(inputs: seq<Input>, bufferOk: bool)
      requires Valid()
      modifies this, channels, Buffers(channels)
      ensures Valid()
      ensures States() == DispatchAll(old(States()), if bufferOk then Arrivals(inputs, old(hwTs)) else [])
      ensures hwTs == if bufferOk then SwitchesAfter(inputs, old(hwTs)) else old(hwTs)
    {
      if !bufferOk {
        return;
      }
      ghost var before := States();
      for i := 0 to |inputs|
        invariant Valid()
        invariant DispatchAll(States(), Arrivals(inputs[i..], hwTs))
               == DispatchAll(before, Arrivals(inputs, old(hwTs)))
        invariant SwitchesAfter(inputs[i..], hwTs) == SwitchesAfter(inputs, old(hwTs))
      {
        assert inputs[i..] == [inputs[i]] + inputs[i + 1..];
        var leave := ReadOnce(inputs[i], inputs[i + 1..]);
        if leave {
          return;
        }
      }
    }

    /** The buffer the transfer has filled is handled. */
    method Receive(p: seq<u8>)
      requires Valid()
      modifies channels, Buffers(channels)
      ensures Valid() && States() == Dispatch(old(States()), Decode(p, hwTs))
    {
      var buf := new u8[|p|](k requires 0 <= k < |p| => p[k]);
      assert buf[..|p|] == p;
      HandleRxPacket(buf, |p|);
    }

    /** One iteration of the reader's loop, or a start by another thread; rest
        is what comes after it. */
    method ReadOnce(input: Input, ghost rest: seq<Input>) returns (leave: bool)
      requires Valid()
      modifies this, channels, Buffers(channels)
      ensures Valid()
      ensures leave <==> input.StopSeen? || input.DeviceGone?
      ensures leave ==> States() == old(States())
      ensures States() ==
        if input.Data? && input.p != [] then Dispatch(old(States()), Decode(input.p, old(hwTs))) else old(States())
      ensures hwTs ==
        if input.Switched? && input.channel < |channels| then old(hwTs)[input.channel := input.on] else old(hwTs)
      ensures hwTs == SwitchedBy(input, old(hwTs))
      ensures DispatchAll(States(), if leave then [] else Arrivals(rest, hwTs))
           == DispatchAll(old(States()), Arrivals([input] + rest, old(hwTs)))
      ensures SwitchesAfter([input] + rest, old(hwTs)) == if leave then hwTs else SwitchesAfter(rest, hwTs)
    {
      leave := false;
      ArrivalsStep(input, rest, hwTs);
      match input {
        case StopSeen => leave := true;
        case Switched(channel, on) =>
          if channel < |hwTs| {
            hwTs := hwTs[channel := on];
            assert States() == old(States());
          }
        case Data(p) =>
          if |p| > 0 {
            DispatchFirst(States(), Arrival(p, hwTs), Arrivals(rest, hwTs));
            Receive(p);
          }
        case TimedOut =>
        case DeviceGone => leave := true;
        case OtherError =>
      }
    }
  }

  ghost function Buffers(channels: seq<Ring<Frame>>): set<object> {
    set c | c in channels :: c.buf
  }

  /** A reception is pushed to its channel's queue, anything else changes none. */
  function Dispatch(queues: seq<Queue<Frame>>, r: Reception): (q: seq<Queue<Frame>>)
    requires forall i :: 0 <= i < |queues| ==> queues[i].Fits()
    ensures |q| == |queues|
    ensures forall i :: 0 <= i < |q| ==> q[i].Fits()
  {
    match r
    case Dropped => queues
    case Received(c, f) => if c < |queues| then queues[c := queues[c].Push(f)] else queues
  }

  // ---- A stream of packets ----

  /** What one iteration of the reader sees, or a start of another thread that
      sets a channel's timestamp switch. */
  datatype Input = StopSeen | Data(p: seq<u8>) | TimedOut | DeviceGone | OtherError | Switched(channel: nat, on: bool)

  /** A packet with the timestamp switches at the time it is handled. */
  datatype Arrival = Arrival(p: seq<u8>, hwTs: seq<bool>)

  function SwitchedBy(input: Input, hwTs: seq<bool>): (r: seq<bool>)
    ensures |r| == |hwTs|
  {
    if input.Switched? && input.channel < |hwTs| then hwTs[input.channel := input.on] else hwTs
  }

  /** The packets handled before the reader leaves its loop. */
  function Arrivals(inputs: seq<Input>, hwTs: seq<bool>): seq<Arrival>
    decreases inputs
  {
    if inputs == [] || inputs[0].StopSeen? || inputs[0].DeviceGone? then []
    else
      (if inputs[0].Data? && |inputs[0].p| > 0 then [Arrival(inputs[0].p, hwTs)] else [])
      + Arrivals(inputs[1..], SwitchedBy(inputs[0], hwTs))
  }

  lemma ArrivalsStep(input: Input, rest: seq<Input>, hwTs: seq<bool>)
    ensures var after := Arrivals(rest, SwitchedBy(input, hwTs));
      Arrivals([input] + rest, hwTs) ==
        if input.StopSeen? || input.DeviceGone? then []
        else if input.Data? && |input.p| > 0 then [Arrival(input.p, hwTs)] + after
        else after
    ensures SwitchesAfter([input] + rest, hwTs) ==
      if input.StopSeen? || input.DeviceGone? then hwTs else SwitchesAfter(rest, SwitchedBy(input, hwTs))
  {
    assert ([input] + rest)[1..] == rest;
  }

  lemma DispatchFirst(queues: seq<Queue<Frame>>, a: Arrival, ps: seq<Arrival>)
    requires AllFit(queues)
    ensures DispatchAll(queues, [a] + ps) == DispatchAll(Dispatch(queues, Decode(a.p, a.hwTs)), ps)
  {
    assert ([a] + ps)[1..] == ps;
  }

  lemma PushFirst(q: Queue<Frame>, f: Frame, fs: seq<Frame>)
    requires q.Fits()
    ensures PushAll(q, [f] + fs) == PushAll(q.Push(f), fs)
  {
    assert ([f] + fs)[1..] == fs;
  }

  /** The switches when it leaves. */
  function SwitchesAfter(inputs: seq<Input>, hwTs: seq<bool>): seq<bool>
    decreases inputs
  {
    if inputs == [] || inputs[0].StopSeen? || inputs[0].DeviceGone? then hwTs
    else SwitchesAfter(inputs[1..], SwitchedBy(inputs[0], hwTs))
  }

  predicate Leaves(input: Input) { input.StopSeen? || input.DeviceGone? }

  /** Packets that bring data. */
  function DataCount(inputs: seq<Input>): nat {
    if inputs == [] then 0 else (if inputs[0].Data? && inputs[0].p != [] then 1 else 0) + DataCount(inputs[1..])
  }

  /** Nothing is handled after the reader leaves. */
  lemma {:induction false} ArrivalsEnd(inputs: seq<Input>, i: nat, hwTs: seq<bool>)
    requires i < |inputs| && Leaves(inputs[i])
    ensures Arrivals(inputs, hwTs) == Arrivals(inputs[..i], hwTs)
    decreases inputs
  {
    if i > 0 && !Leaves(inputs[0]) {
      ArrivalsEnd(inputs[1..], i - 1, SwitchedBy(inputs[0], hwTs));
      assert inputs[..i][1..] == inputs[1..][..i - 1];
    }
  }

  lemma {:induction false} ArrivalsCount(inputs: seq<Input>, hwTs: seq<bool>)
    requires forall j :: 0 <= j < |inputs| ==> !Leaves(inputs[j])
    ensures |Arrivals(inputs, hwTs)| == DataCount(inputs)
    decreases inputs
  {
    if inputs != [] { ArrivalsCount(inputs[1..], SwitchedBy(inputs[0], hwTs)); }
  }

  /** Every non-empty packet read before that is handled, at its place among
      those, under the switches as the starts before it have left them; and
      nothing else is handled. */
  lemma {:induction false} ArrivalsAreTheData(inputs: seq<Input>, hwTs: seq<bool>, i: nat)
    requires forall j :: 0 <= j < |inputs| ==> !Leaves(inputs[j])
    requires i < |inputs| && inputs[i].Data? && inputs[i].p != []
    ensures DataCount(inputs[..i]) < |Arrivals(inputs, hwTs)| == DataCount(inputs)
    ensures Arrivals(inputs, hwTs)[DataCount(inputs[..i])] == Arrival(inputs[i].p, SwitchesAfter(inputs[..i], hwTs))
    decreases i
  {
    ArrivalsCount(inputs, hwTs);
    if i > 0 {
      var rest := inputs[1..];
      assert rest[i - 1] == inputs[i];
      ArrivalsAreTheData(rest, SwitchedBy(inputs[0], hwTs), i - 1);
      assert inputs[..i][0] == inputs[0] && inputs[..i][1..] == rest[..i - 1];
    }
  }

  predicate Sets(input: Input, c: nat) { input.Switched? && input.channel == c }

  lemma {:induction false} SwitchStays(inputs: seq<Input>, hwTs: seq<bool>, c: nat)
    requires c < |hwTs| && forall j :: 0 <= j < |inputs| ==> !Leaves(inputs[j]) && !Sets(inputs[j], c)
    ensures |SwitchesAfter(inputs, hwTs)| == |hwTs| && SwitchesAfter(inputs, hwTs)[c] == hwTs[c]
    decreases inputs
  {
    if inputs != [] {
      assert !Leaves(inputs[0]) && !Sets(inputs[0], c);
      SwitchStays(inputs[1..], SwitchedBy(inputs[0], hwTs), c);
    }
  }

  /** A channel's switch has the value last set, or the one it had before. */
  lemma {:induction false} SwitchIsLastSet(inputs: seq<Input>, hwTs: seq<bool>, c: nat, i: nat)
    requires c < |hwTs| && i < |inputs| && Sets(inputs[i], c)
    requires forall j :: 0 <= j < |inputs| ==> !Leaves(inputs[j])
    requires forall j :: i < j < |inputs| ==> !Sets(inputs[j], c)
    ensures |SwitchesAfter(inputs, hwTs)| == |hwTs| && SwitchesAfter(inputs, hwTs)[c] == inputs[i].on
    decreases i
  {
    var rest := inputs[1..];
    assert forall j :: 0 <= j < |rest| ==> rest[j] == inputs[j + 1];
    if i == 0 {
      SwitchStays(rest, SwitchedBy(inputs[0], hwTs), c);
    } else {
      SwitchIsLastSet(rest, SwitchedBy(inputs[0], hwTs), c, i - 1);
    }
  }

  ghost predicate AllFit(queues: seq<Queue<Frame>>) {
    forall i :: 0 <= i < |queues| ==> queues[i].Fits()
  }

  function DispatchAll(queues: seq<Queue<Frame>>, ps: seq<Arrival>): (q: seq<Queue<Frame>>)
    requires AllFit(queues)
    ensures |q| == |queues| && AllFit(q)
    decreases ps
  {
    if ps == [] then queues else DispatchAll(Dispatch(queues, Decode(ps[0].p, ps[0].hwTs)), ps[1..])
  }

  /** The frame a packet brings for channel c, straight from its bytes: if it is
      a reception, long enough, and names the channel. */
  function FrameFor(c: nat, a: Arrival): seq<Frame>
    requires c < |a.hwTs|
  {
    var f := FrameOf(a.p, a.hwTs[c]);
    if f.Some? && a.p[9] == c then [f.value] else []
  }

  /** The frames of channel c alone. */
  function FramesFor(c: nat, ps: seq<Arrival>): seq<Frame>
    requires forall i :: 0 <= i < |ps| ==> c < |ps[i].hwTs|
  {
    if ps == [] then [] else FrameFor(c, ps[0]) + FramesFor(c, ps[1..])
  }

  /** A packet brings the frame it is decoded to, and that for its channel. */
  lemma FrameForIsDecoded(c: nat, a: Arrival)
    requires c < |a.hwTs|
    ensures FrameFor(c, a) ==
      match Decode(a.p, a.hwTs)
      case Dropped => []
      case Received(d, f) => if d == c then [f] else []
  {}

  lemma {:induction false} FramesForNext(c: nat, ps: seq<Arrival>, a: Arrival, all: seq<Arrival>)
    requires all == ps + [a] && c < |a.hwTs| && forall i :: 0 <= i < |ps| ==> c < |ps[i].hwTs|
    ensures FramesFor(c, []) == []
    ensures FramesFor(c, all) == FramesFor(c, ps) + FrameFor(c, a)
    decreases ps
  {
    assert all[|ps|] == a;
    if ps == [] {
      assert all[1..] == [];
    } else {
      assert all[0] == ps[0] && all[1..] == ps[1..] + [a];
      FramesForNext(c, ps[1..], a, all[1..]);
    }
  }

  /** Only the queue of a received frame's channel changes. */
  lemma DispatchPushes(queues: seq<Queue<Frame>>, r: Reception, i: nat)
    requires AllFit(queues) && i < |queues|
    ensures var q := Dispatch(queues, r)[i];
      if r.Received? && r.channel == i then
        q.contents == (if |queues[i].contents| == 512 then queues[i].contents[1..] else queues[i].contents) + [r.frame]
      else q == queues[i]
  {}

  function PushAll(q: Queue<Frame>, fs: seq<Frame>): Queue<Frame>
    requires q.Fits()
    decreases fs
  {
    if fs == [] then q else PushAll(q.Push(fs[0]), fs[1..])
  }

  /** After any packets, switches changing in between, each channel's queue is
      what pushing that channel's own frames, in order, makes of it: channels do
      not disturb each other. */
  lemma {:induction false} ChannelsAreIndependent(queues: seq<Queue<Frame>>, ps: seq<Arrival>, c: nat)
    requires AllFit(queues) && c < |queues|
    requires forall i :: 0 <= i < |ps| ==> |ps[i].hwTs| == |queues|
    ensures DispatchAll(queues, ps)[c] == PushAll(queues[c], FramesFor(c, ps))
    decreases ps
  {
    if ps != [] {
      ChannelsAreIndependent(Dispatch(queues, Decode(ps[0].p, ps[0].hwTs)), ps[1..], c);
      FrameForIsDecoded(c, ps[0]);
      if FrameFor(c, ps[0]) != [] {
        assert FramesFor(c, ps)[1..] == FramesFor(c, ps[1..]);
      } else {
        assert FramesFor(c, ps) == FramesFor(c, ps[1..]);
      }
    }
  }

  /** The device's copies of frames sent on one channel. */
  function Images(fs: seq<Frame>, c: u8, hwTs: seq<bool>): seq<Arrival>
    requires c < |hwTs|
  {
    if fs == [] then []
    else [Arrival(RxImage(fs[0], c, hwTs[c], fs[0].timestamp), hwTs)] + Images(fs[1..], c, hwTs)
  }

  function Normals(fs: seq<Frame>, withTs: bool): seq<Frame> {
    if fs == [] then []
    else [Normal(fs[0], if withTs then fs[0].timestamp else 0)] + Normals(fs[1..], withTs)
  }

  lemma UpdatedTwice<T>(s: seq<T>, i: nat, x: T, y: T)
    requires i < |s|
    ensures s[i := x][i := y] == s[i := y]
  {}

  /** End to end: frames looped back by the device on channel c arrive in its
      queue in order, in normal form, and in no other queue. */
  lemma {:induction false} LoopbackArrives(queues: seq<Queue<Frame>>, fs: seq<Frame>, c: u8, hwTs: seq<bool>)
    requires AllFit(queues) && |hwTs| == |queues| && c < |queues|
    ensures DispatchAll(queues, Images(fs, c, hwTs))
         == queues[c := PushAll(queues[c], Normals(fs, hwTs[c]))]
    decreases fs
  {
    if fs != [] {
      var n := Normal(fs[0], if hwTs[c] then fs[0].timestamp else 0);
      WireRoundTrip(fs[0], c, hwTs, fs[0].timestamp);
      var next := queues[c := queues[c].Push(n)];
      LoopbackArrives(next, fs[1..], c, hwTs);
      DispatchFirst(queues, Arrival(RxImage(fs[0], c, hwTs[c], fs[0].timestamp), hwTs), Images(fs[1..], c, hwTs));
      PushFirst(queues[c], n, Normals(fs[1..], hwTs[c]));
      UpdatedTwice(queues, c, queues[c].Push(n), PushAll(next[c], Normals(fs[1..], hwTs[c])));
    }
  }

  /** Any number of echoed sends, from any channels, leave every queue as it
      was. */
  lemma {:induction false} EchoesChangeNothing(queues: seq<Queue<Frame>>, ps: seq<Arrival>)
    requires AllFit(queues)
    requires forall i :: 0 <= i < |ps| ==> IsEcho(ps[i].p)
    ensures DispatchAll(queues, ps) == queues
    decreases ps
  {
    if ps != [] {
      SentIsNotReceived(ps[0].p, ps[0].hwTs);
      EchoesChangeNothing(queues, ps[1..]);
    }
  }
}
