/** The receive path as a whole: the reader dispatches packets to the rings of
    all channels while a Bus for each channel drains its ring and serves recv().
    What a caller of recv() gets is tied to the packets that were read. */
module ReceivePath {
  import opened Words
  import opened Wire
  import opened RxQueue
  import opened Subsequence
  import opened Demux
  import Pipeline

  /** One stage-two pipeline for each channel; its ring is the channel's. */
  type Buses = seq<Pipeline.State<Frame>>

  /** The reader handles a packet, or a thread of one channel's Bus, or a caller
      of its recv(), takes a step. */
  datatype Event = PacketRead(a: Arrival) | BusStep(c: nat, act: Pipeline.Action<Frame>)

  ghost predicate Possible(buses: Buses, e: Event) {
    match e
    case PacketRead(a) =>
      |a.hwTs| == |buses| && forall c :: 0 <= c < |buses| ==> |buses[c].ring| <= RXQ_CAPACITY
    case BusStep(c, act) => c < |buses| && !act.ReaderPush? && Pipeline.Enabled(buses[c], act)
  }

  ghost function Step(buses: Buses, e: Event): (r: Buses)
    requires Possible(buses, e)
    ensures |r| == |buses|
  {
    match e
    case PacketRead(a) =>
      (match Decode(a.p, a.hwTs)
       case Dropped => buses
       case Received(c, f) =>
         if c < |buses| then buses[c := Pipeline.Next(buses[c], Pipeline.ReaderPush(f))] else buses)
    case BusStep(c, act) => buses[c := Pipeline.Next(buses[c], act)]
  }

  ghost predicate IsRun(buses: Buses, events: seq<Event>)
    decreases events
  {
    events == [] || (Possible(buses, events[0]) && IsRun(Step(buses, events[0]), events[1..]))
  }

  ghost function After(buses: Buses, events: seq<Event>): (r: Buses)
    requires IsRun(buses, events)
    ensures |r| == |buses|
    decreases events
  {
    if events == [] then buses else After(Step(buses, events[0]), events[1..])
  }

  function Start(channels: nat): (buses: Buses)
    ensures |buses| == channels
  {
    seq(channels, _ => Pipeline.Init<Frame>())
  }

  /** The packets handled, in order. */
  function PacketsOf(events: seq<Event>): seq<Arrival> {
    if events == [] then []
    else (if events[0].PacketRead? then [events[0].a] else []) + PacketsOf(events[1..])
  }

  // ---- The rings are the demultiplexer's queues ----

  function RingsOf(buses: Buses): (queues: seq<Queue<Frame>>)
    ensures |queues| == |buses|
    ensures forall i :: 0 <= i < |buses| ==> queues[i] == Queue(buses[i].ring, buses[i].ringDrops)
  {
    seq(|buses|, i requires 0 <= i < |buses| => Queue(buses[i].ring, buses[i].ringDrops))
  }

  /** Handling a packet does to the rings what the demultiplexer does. */
  lemma PacketIsDispatched(buses: Buses, a: Arrival)
    requires Possible(buses, PacketRead(a))
    ensures AllFit(RingsOf(buses))
    ensures RingsOf(Step(buses, PacketRead(a))) == Dispatch(RingsOf(buses), Decode(a.p, a.hwTs))
  {}

  // ---- Along a run ----

  ghost predicate AllSound(buses: Buses) {
    forall c :: 0 <= c < |buses| ==> Pipeline.Sound(buses[c])
  }

  lemma StepKeepsSound(buses: Buses, e: Event)
    requires AllSound(buses) && Possible(buses, e)
    ensures AllSound(Step(buses, e))
  {
    match e {
      case PacketRead(a) =>
        var r := Decode(a.p, a.hwTs);
        if r.Received? && r.channel < |buses| {
          Pipeline.StepSound(buses[r.channel], Pipeline.ReaderPush(r.frame));
        }
      case BusStep(c, act) => Pipeline.StepSound(buses[c], act);
    }
  }

  /** What an event adds to what was pushed to a channel: a packet's own frame. */
  function Adds(e: Event, c: nat): seq<Frame>
    requires e.PacketRead? ==> c < |e.a.hwTs|
  {
    if e.PacketRead? then FrameFor(c, e.a) else []
  }

  lemma StepPushes(buses: Buses, e: Event, c: nat)
    requires Possible(buses, e) && c < |buses|
    ensures Step(buses, e)[c].pushed == buses[c].pushed + Adds(e, c)
  {}

  lemma FramesForFirst(c: nat, a: Arrival, ps: seq<Arrival>)
    requires c < |a.hwTs| && forall i :: 0 <= i < |ps| ==> c < |ps[i].hwTs|
    ensures FramesFor(c, [a] + ps) == Adds(PacketRead(a), c) + FramesFor(c, ps)
  {
    assert ([a] + ps)[1..] == ps;
  }

  ghost predicate SwitchesOf(ps: seq<Arrival>, channels: nat) {
    forall i :: 0 <= i < |ps| ==> |ps[i].hwTs| == channels
  }

  lemma {:induction false} RunSwitches(buses: Buses, events: seq<Event>)
    requires IsRun(buses, events)
    ensures SwitchesOf(PacketsOf(events), |buses|)
    decreases events
  {
    if events != [] { RunSwitches(Step(buses, events[0]), events[1..]); }
  }

  lemma {:induction false} RunKeepsSound(buses: Buses, events: seq<Event>)
    requires IsRun(buses, events) && AllSound(buses)
    ensures AllSound(After(buses, events))
    decreases events
  {
    if events != [] {
      StepKeepsSound(buses, events[0]);
      RunKeepsSound(Step(buses, events[0]), events[1..]);
    }
  }

  lemma PacketsFirst(e: Event, rest: seq<Event>, c: nat, channels: nat)
    requires SwitchesOf(PacketsOf([e] + rest), channels) && SwitchesOf(PacketsOf(rest), channels) && c < channels
    requires e.PacketRead? ==> |e.a.hwTs| == channels
    ensures FramesFor(c, PacketsOf([e] + rest)) == Adds(e, c) + FramesFor(c, PacketsOf(rest))
  {
    assert ([e] + rest)[1..] == rest;
    if e.PacketRead? {
      assert PacketsOf([e] + rest) == [e.a] + PacketsOf(rest);
      FramesForFirst(c, e.a, PacketsOf(rest));
    } else {
      assert PacketsOf([e] + rest) == PacketsOf(rest);
    }
  }

  /** Along a run, what is pushed to a channel is its frames of the packets. */
  lemma {:induction false} RunPushes(buses: Buses, events: seq<Event>, c: nat)
    requires IsRun(buses, events) && c < |buses| && SwitchesOf(PacketsOf(events), |buses|)
    ensures After(buses, events)[c].pushed == buses[c].pushed + FramesFor(c, PacketsOf(events))
    decreases events
  {
    if events != [] {
      var e, rest := events[0], events[1..];
      assert events == [e] + rest;
      RunSwitches(Step(buses, e), rest);
      RunPushes(Step(buses, e), rest, c);
      StepPushes(buses, e, c);
      PacketsFirst(e, rest, c, |buses|);
      Associative(buses[c].pushed, Adds(e, c), FramesFor(c, PacketsOf(rest)));
    }
  }

  lemma Associative<T>(a: seq<T>, b: seq<T>, c: seq<T>)
    ensures (a + b) + c == a + (b + c)
  {}

  /** Over every interleaving of the reader with the Buses and their callers:
      what recv() has delivered on a channel is an order-preserving, duplicate-free
      selection of the frames in the packets that are receptions, long enough and
      name the channel; all of these are delivered, under way or counted as
      dropped; and nothing is missing exactly when no stage has dropped any. */
  lemma DeliveredFromPackets(channels: nat, events: seq<Event>, c: nat)
    requires IsRun(Start(channels), events) && c < channels
    ensures SwitchesOf(PacketsOf(events), channels)
    ensures var s, fs := After(Start(channels), events)[c], FramesFor(c, PacketsOf(events));
      && s.pushed == fs && IsSubsequence(s.delivered, fs)
      && |s.delivered| + |Pipeline.Pending(s)| + |s.ring| + s.discards + s.ringDrops == |fs|
      && (s.ringDrops == 0 && s.discards == 0 <==> s.delivered + Pipeline.Pending(s) + s.ring == fs)
  {
    Pipeline.ReachableSound<Frame>([]);
    RunSwitches(Start(channels), events);
    RunKeepsSound(Start(channels), events);
    RunPushes(Start(channels), events, c);
    var s := After(Start(channels), events)[c];
    Pipeline.DeliveredComesFromPushed(s);
    Pipeline.SoundAccounts(s);
  }

  // ---- From send to recv() ----

  lemma ImageAdds(f: Frame, c: u8, hwTs: seq<bool>, d: nat)
    requires c < |hwTs| && d < |hwTs|
    ensures Adds(PacketRead(Arrival(RxImage(f, c, hwTs[c], f.timestamp), hwTs)), d) ==
      if d == c then [Normal(f, if hwTs[c] then f.timestamp else 0)] else []
  {
    WireRoundTrip(f, c, hwTs, f.timestamp);
    RxHeader(f, c, hwTs[c], f.timestamp);
  }

  /** The device's copies of frames sent on channel c are, for that channel, the
      normal forms of the frames, and for any other channel nothing. */
  lemma {:induction false} FramesForImages(fs: seq<Frame>, c: u8, hwTs: seq<bool>, d: nat)
    requires c < |hwTs| && d < |hwTs|
    ensures SwitchesOf(Images(fs, c, hwTs), |hwTs|)
    ensures FramesFor(d, Images(fs, c, hwTs)) == if d == c then Normals(fs, hwTs[c]) else []
    decreases fs
  {
    if fs != [] {
      FramesForImages(fs[1..], c, hwTs, d);
      ImageAdds(fs[0], c, hwTs, d);
      FramesForFirst(d, Arrival(RxImage(fs[0], c, hwTs[c], fs[0].timestamp), hwTs), Images(fs[1..], c, hwTs));
    }
  }

  /** Frames sent and looped back on channel c come out of recv() on c in order,
      each at most once and in normal form, and out of no other channel's. */
  lemma LoopbackIsDelivered(channels: nat, events: seq<Event>, fs: seq<Frame>, c: u8, hwTs: seq<bool>, d: nat)
    requires IsRun(Start(channels), events) && c < channels && d < channels && |hwTs| == channels
    requires PacketsOf(events) == Images(fs, c, hwTs)
    ensures var s := After(Start(channels), events)[d];
      && (d == c ==> IsSubsequence(s.delivered, Normals(fs, hwTs[c])))
      && (d == c && s.ringDrops == 0 && s.discards == 0 ==>
            s.delivered + Pipeline.Pending(s) + s.ring == Normals(fs, hwTs[c]))
      && (d != c ==> s.delivered == [])
  {
    DeliveredFromPackets(channels, events, d);
    FramesForImages(fs, c, hwTs, d);
  }
}
