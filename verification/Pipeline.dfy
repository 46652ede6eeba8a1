/** The two-stage receive path of the Python Bus: the reader fills the
    channel's ring, the listener thread moves frames from the ring to a second
    bounded queue and to the detectors, and recv() drains that queue. A machine
    of atomic steps that interleave freely. */
module Pipeline {
  import opened History
  import opened Subsequence
  import opened RxQueue

  /** queue.Queue(maxsize=512). */
  const RECV_QUEUE_MAX := 512

  /** Where the listener thread stands. */
  datatype ListenerPc<T> =
    | NotRunning
    | Looping             // about to test the stop event
    | Polling             // inside gsusb_channel_recv
    | GotFrame(f: T)      // about to put without waiting
    | FoundFull(f: T)     // the put failed; about to get the oldest
    | MadeRoom(f: T)      // about to put again
    | Dispatching(f: T)   // about to run the detectors

  datatype State<T> = State(
    ring: seq<T>, recvQueue: seq<T>, pc: ListenerPc<T>,
    stopEvent: bool, busStarted: bool, channelStarted: bool,
    // histories
    pushed: seq<T>,       // by the reader
    taken: seq<T>,        // by the listener
    dispatched: seq<T>,   // to the detectors
    delivered: seq<T>,    // by recv()
    ringDrops: nat,       // overwritten in the ring
    discards: nat,        // thrown away by the listener's get
    failedPuts: nat)      // second puts that found the queue full

  datatype Action<T> =
    | ReaderPush(x: T)
    | TestStop
    | PollFrame
    | PollTimeout
    | PollError
    | PutFirst
    | GetOldest
    | PutSecond
    | Dispatch
    | Recv
    | BusStart
    | BusStopRequest
    | BusStopFinish

  predicate Enabled<T>(s: State<T>, a: Action<T>) {
    match a
    case ReaderPush(_) => |s.ring| <= RXQ_CAPACITY
    case TestStop => s.pc.Looping?
    case PollFrame => s.pc.Polling? && s.ring != []
    case PollTimeout => s.pc.Polling?
    case PollError => s.pc.Polling? && s.ring == [] && !s.channelStarted
    case PutFirst => s.pc.GotFrame?
    case GetOldest => s.pc.FoundFull?
    case PutSecond => s.pc.MadeRoom?
    case Dispatch => s.pc.Dispatching?
    case Recv => s.recvQueue != []
    case BusStart => !s.busStarted && s.pc.NotRunning?
    case BusStopRequest => s.busStarted
    case BusStopFinish => s.busStarted && s.stopEvent && s.pc.NotRunning?
  }

  function Next<T>(s: State<T>, a: Action<T>): State<T>
    requires Enabled(s, a)
  {
    match a
    case ReaderPush(x) =>
      s.(ring := PushOldest(s.ring, RXQ_CAPACITY, x), pushed := s.pushed + [x],
         ringDrops := s.ringDrops + (if |s.ring| == RXQ_CAPACITY then 1 else 0))
    case TestStop => s.(pc := if s.stopEvent then NotRunning else Polling)
    case PollFrame =>
      s.(ring := s.ring[1..], taken := s.taken + [s.ring[0]], pc := GotFrame(s.ring[0]))
    case PollTimeout => s.(pc := Looping)
    case PollError => s.(pc := NotRunning)
    case PutFirst =>
      if |s.recvQueue| < RECV_QUEUE_MAX then s.(recvQueue := s.recvQueue + [s.pc.f], pc := Dispatching(s.pc.f))
      else s.(pc := FoundFull(s.pc.f))
    case GetOldest =>
      if s.recvQueue == [] then s.(pc := MadeRoom(s.pc.f))
      else s.(recvQueue := s.recvQueue[1..], discards := s.discards + 1, pc := MadeRoom(s.pc.f))
    case PutSecond =>
      if |s.recvQueue| < RECV_QUEUE_MAX then s.(recvQueue := s.recvQueue + [s.pc.f], pc := Dispatching(s.pc.f))
      else s.(failedPuts := s.failedPuts + 1, pc := Dispatching(s.pc.f))
    case Dispatch => s.(dispatched := s.dispatched + [s.pc.f], pc := Looping)
    case Recv => s.(recvQueue := s.recvQueue[1..], delivered := s.delivered + [s.recvQueue[0]])
    case BusStart => s.(busStarted := true, channelStarted := true, stopEvent := false, pc := Looping)
    case BusStopRequest => s.(stopEvent := true)
    case BusStopFinish => s.(busStarted := false, channelStarted := false)
  }

  function Init<T>(): State<T> {
    State([], [], NotRunning, false, false, false, [], [], [], [], 0, 0, 0)
  }

  predicate IsRun<T>(s: State<T>, acts: seq<Action<T>>)
    decreases acts
  {
    acts == [] || (Enabled(s, acts[0]) && IsRun(Next(s, acts[0]), acts[1..]))
  }

  function After<T>(s: State<T>, acts: seq<Action<T>>): State<T>
    requires IsRun(s, acts)
    decreases acts
  {
    if acts == [] then s else After(Next(s, acts[0]), acts[1..])
  }

  // ---- Invariant ----

  /** The frame the listener has taken but not yet put. */
  function InHand<T>(pc: ListenerPc<T>): seq<T> {
    match pc
    case GotFrame(f) => [f]
    case FoundFull(f) => [f]
    case MadeRoom(f) => [f]
    case _ => []
  }

  /** The frame the detectors have still to see. */
  function ToDispatch<T>(pc: ListenerPc<T>): seq<T> {
    match pc
    case Dispatching(f) => [f]
    case _ => InHand(pc)
  }

  /** First stage: from the pushed frames through the ring to the listener. */
  ghost predicate RingStage<T>(s: State<T>) {
    |s.ring| <= RXQ_CAPACITY && Flow(s.taken, s.ring, s.pushed, s.ringDrops)
  }

  /** What is past the listener's recv and not yet delivered. */
  function Pending<T>(s: State<T>): seq<T> { s.recvQueue + InHand(s.pc) }

  /** Second stage: from the taken frames through the queue to recv(); and
      between the listener's get and its second put the queue has room, because
      nobody else puts. */
  ghost predicate QueueStage<T>(s: State<T>) {
    && |s.recvQueue| <= RECV_QUEUE_MAX
    && (s.pc.MadeRoom? ==> |s.recvQueue| < RECV_QUEUE_MAX)
    && s.failedPuts == 0
    && Flow(s.delivered, Pending(s), s.taken, s.discards)
  }

  ghost predicate Sound<T>(s: State<T>) {
    RingStage(s) && QueueStage(s) && s.dispatched + ToDispatch(s.pc) == s.taken
  }

  lemma RingPush<T>(s: State<T>, x: T)
    requires RingStage(s)
    ensures RingStage(Next(s, ReaderPush(x)))
  {
    if |s.ring| == RXQ_CAPACITY {
      FlowDrop(s.taken, s.ring, s.pushed, s.ringDrops);
      FlowIn(s.taken, s.ring[1..], s.pushed, s.ringDrops + 1, x);
    } else {
      FlowIn(s.taken, s.ring, s.pushed, s.ringDrops, x);
    }
  }

  lemma TakeFrame<T>(s: State<T>)
    requires Sound(s) && Enabled(s, PollFrame)
    ensures Sound(Next(s, PollFrame))
  {
    FlowOut(s.taken, s.ring, s.pushed, s.ringDrops);
    FlowIn(s.delivered, s.recvQueue, s.taken, s.discards, s.ring[0]) by {
      assert Pending(s) == s.recvQueue;
    }
  }

  /** Removing the oldest queued frame, by the listener's get or by recv(). */
  lemma RemoveOldest<T>(s: State<T>, a: Action<T>)
    requires QueueStage(s) && Enabled(s, a) && (a.GetOldest? || a.Recv?)
    ensures QueueStage(Next(s, a))
  {
    var q := Pending(s);
    if s.recvQueue != [] {
      assert q[0] == s.recvQueue[0];
      assert q[1..] == Pending(Next(s, a));
      if a.Recv? {
        FlowOut(s.delivered, q, s.taken, s.discards);
      } else {
        FlowDrop(s.delivered, q, s.taken, s.discards);
      }
    } else {
      assert Pending(Next(s, a)) == q;
    }
  }

  lemma PutFrame<T>(s: State<T>, a: Action<T>)
    requires QueueStage(s) && Enabled(s, a) && (a.PutFirst? || a.PutSecond?)
    ensures QueueStage(Next(s, a))
  {
    assert Pending(Next(s, a)) == Pending(s);
  }

  lemma PushKeepsSound<T>(s: State<T>, x: T)
    requires Sound(s)
    ensures Sound(Next(s, ReaderPush(x)))
  {
    RingPush(s, x);
    assert Pending(Next(s, ReaderPush(x))) == Pending(s);
  }

  lemma PutKeepsSound<T>(s: State<T>, a: Action<T>)
    requires Sound(s) && Enabled(s, a) && (a.PutFirst? || a.PutSecond?)
    ensures Sound(Next(s, a))
  {
    PutFrame(s, a);
    assert ToDispatch(Next(s, a).pc) == ToDispatch(s.pc);
  }

  lemma RemoveKeepsSound<T>(s: State<T>, a: Action<T>)
    requires Sound(s) && Enabled(s, a) && (a.GetOldest? || a.Recv?)
    ensures Sound(Next(s, a))
  {
    RemoveOldest(s, a);
    assert ToDispatch(Next(s, a).pc) == ToDispatch(s.pc);
  }

  /** Steps that move no frame between the queues. */
  lemma ControlKeepsSound<T>(s: State<T>, a: Action<T>)
    requires Sound(s) && Enabled(s, a)
    requires !a.ReaderPush? && !a.PollFrame? && !a.PutFirst? && !a.PutSecond? && !a.GetOldest? && !a.Recv?
    ensures Sound(Next(s, a))
  {
    var r := Next(s, a);
    assert InHand(r.pc) == InHand(s.pc);
    assert Pending(r) == Pending(s);
    assert r.dispatched + ToDispatch(r.pc) == s.dispatched + ToDispatch(s.pc);
  }

  lemma StepSound<T>(s: State<T>, a: Action<T>)
    requires Sound(s) && Enabled(s, a)
    ensures Sound(Next(s, a))
  {
    match a {
      case ReaderPush(x) => PushKeepsSound(s, x);
      case PollFrame => TakeFrame(s);
      case PutFirst => PutKeepsSound(s, a);
      case PutSecond => PutKeepsSound(s, a);
      case GetOldest => RemoveKeepsSound(s, a);
      case Recv => RemoveKeepsSound(s, a);
      case _ => ControlKeepsSound(s, a);
    }
  }

  lemma {:induction false} RunSound<T>(s: State<T>, acts: seq<Action<T>>)
    requires Sound(s) && IsRun(s, acts)
    ensures Sound(After(s, acts))
    decreases acts
  {
    if acts != [] {
      StepSound(s, acts[0]);
      RunSound(Next(s, acts[0]), acts[1..]);
    }
  }

  lemma ReachableSound<T>(acts: seq<Action<T>>)
    requires IsRun(Init<T>(), acts)
    ensures Sound(After(Init<T>(), acts))
  {
    FlowStarts<T>();
    assert Pending(Init<T>()) == [];
    RunSound(Init<T>(), acts);
  }

  // ---- What it means for callers of recv() ----

  lemma DeliveredComesFromPushed<T>(s: State<T>)
    requires Sound(s)
    ensures IsSubsequence(s.delivered, s.pushed) && IsSubsequence(s.taken, s.pushed)
  {
    FlowLossless(s.taken, s.ring, s.pushed, s.ringDrops);
    FlowLossless(s.delivered, Pending(s), s.taken, s.discards);
    Transitive(s.delivered, s.taken, s.pushed);
  }

  lemma SoundAccounts<T>(s: State<T>)
    requires Sound(s)
    ensures |s.delivered| + |Pending(s)| + |s.ring| + s.discards + s.ringDrops == |s.pushed|
    ensures s.ringDrops == 0 && s.discards == 0 <==> s.delivered + Pending(s) + s.ring == s.pushed
  {
    FlowLossless(s.taken, s.ring, s.pushed, s.ringDrops);
    FlowLossless(s.delivered, Pending(s), s.taken, s.discards);
  }

  /** Over every interleaving, restarts of the bus included: recv() delivers
      pushed frames in order and at most once; every pushed frame is delivered,
      pending in one of the stages, or counted as dropped by one of them; the
      detectors see every frame the listener took, in order, except at most the
      one being processed; and no frame is lost for want of room at the second
      put. */
  lemma DeliveredInOrderOnce<T>(acts: seq<Action<T>>)
    requires IsRun(Init<T>(), acts)
    ensures var s := After(Init<T>(), acts);
      && IsSubsequence(s.delivered, s.pushed) && IsSubsequence(s.taken, s.pushed)
      && |s.delivered| + |Pending(s)| + |s.ring| + s.discards + s.ringDrops == |s.pushed|
      && s.dispatched + ToDispatch(s.pc) == s.taken
      && s.failedPuts == 0
  {
    ReachableSound(acts);
    DeliveredComesFromPushed(After(Init<T>(), acts));
    SoundAccounts(After(Init<T>(), acts));
  }

  /** Nothing is missing from what was delivered and is on its way exactly when
      neither stage dropped anything. */
  lemma LosslessIffNoDrops<T>(acts: seq<Action<T>>)
    requires IsRun(Init<T>(), acts)
    ensures var s := After(Init<T>(), acts);
      s.ringDrops == 0 && s.discards == 0 <==> s.delivered + Pending(s) + s.ring == s.pushed
  {
    ReachableSound(acts);
    SoundAccounts(After(Init<T>(), acts));
  }

  /** The frame in the listener's hand always gets into the queue: at once if
      there is room, and otherwise at the second put, where it becomes the
      newest entry whatever happened in between. */
  lemma NewestAlwaysEnqueued<T>(acts: seq<Action<T>>)
    requires IsRun(Init<T>(), acts) && After(Init<T>(), acts).pc.MadeRoom?
    ensures var s := After(Init<T>(), acts);
      s.taken != [] && Next(s, PutSecond).recvQueue == s.recvQueue + [s.taken[|s.taken| - 1]]
  {
    ReachableSound(acts);
    var s := After(Init<T>(), acts);
    assert Pending(s)[|s.recvQueue|] == s.pc.f;
  }

  // ---- The listener leaves after a stop ----

  predicate IsListenerStep<T>(a: Action<T>) {
    !a.ReaderPush? && !a.Recv? && !a.BusStart? && !a.BusStopRequest? && !a.BusStopFinish?
  }

  function ListenerSteps<T>(acts: seq<Action<T>>): nat {
    if acts == [] then 0 else (if IsListenerStep(acts[0]) then 1 else 0) + ListenerSteps(acts[1..])
  }

  /** Steps the listener can still take once the stop event is set. */
  function StepsLeft<T>(pc: ListenerPc<T>): nat {
    match pc
    case NotRunning => 0
    case Looping => 1
    case Dispatching(_) => 2
    case MadeRoom(_) => 3
    case FoundFull(_) => 4
    case GotFrame(_) => 5
    case Polling => 6
  }

  lemma StopEventStays<T>(s: State<T>, a: Action<T>)
    requires s.stopEvent && Enabled(s, a) && !a.BusStart?
    ensures var r := Next(s, a);
      && r.stopEvent
      && StepsLeft(r.pc) + (if IsListenerStep(a) then 1 else 0) <= StepsLeft(s.pc)
      && |r.taken| + (if r.pc.Polling? then 1 else 0) <= |s.taken| + (if s.pc.Polling? then 1 else 0)
  {}

  /** Once the stop event is set and until the bus is started again, the listener
      takes at most six more steps and at most one more frame, and that only if
      it was already polling. */
  lemma {:induction false} StopBoundsListener<T>(s: State<T>, acts: seq<Action<T>>)
    requires s.stopEvent && IsRun(s, acts) && forall i :: 0 <= i < |acts| ==> !acts[i].BusStart?
    ensures ListenerSteps(acts) + StepsLeft(After(s, acts).pc) <= StepsLeft(s.pc) <= 6
    ensures |After(s, acts).taken| <= |s.taken| + (if s.pc.Polling? then 1 else 0)
    decreases acts
  {
    if acts != [] {
      StopEventStays(s, acts[0]);
      StopBoundsListener(Next(s, acts[0]), acts[1..]);
    }
  }

  /** And while it runs it can always take a step. */
  lemma ListenerIsNeverStuck<T>(s: State<T>)
    requires s.pc != NotRunning
    ensures exists a: Action<T> :: IsListenerStep(a) && Enabled(s, a)
  {
    var a: Action<T> := match s.pc
      case Looping => TestStop
      case Polling => PollTimeout
      case GotFrame(_) => PutFirst
      case FoundFull(_) => GetOldest
      case MadeRoom(_) => PutSecond
      case Dispatching(_) => Dispatch;
    assert IsListenerStep(a) && Enabled(s, a);
  }

  // ---- What decides whether the bus is to stop ----

  function Requests<T>(acts: seq<Action<T>>): (r: seq<bool>)
    ensures |r| == |acts|
  {
    if acts == [] then [] else [acts[0].BusStopRequest?] + Requests(acts[1..])
  }

  function BusStarts<T>(acts: seq<Action<T>>): (r: seq<bool>)
    ensures |r| == |acts|
  {
    if acts == [] then [] else [acts[0].BusStart?] + BusStarts(acts[1..])
  }

  function BusEnds<T>(acts: seq<Action<T>>): (r: seq<bool>)
    ensures |r| == |acts|
  {
    if acts == [] then [] else [acts[0].BusStopFinish?] + BusEnds(acts[1..])
  }

  lemma BusStep<T>(s: State<T>, a: Action<T>)
    requires Enabled(s, a)
    ensures Next(s, a).stopEvent == (a.BusStopRequest? || (s.stopEvent && !a.BusStart?))
    ensures Next(s, a).busStarted == (a.BusStart? || (s.busStarted && !a.BusStopFinish?))
    ensures Next(s, a).channelStarted == (a.BusStart? || (s.channelStarted && !a.BusStopFinish?))
  {}

  lemma {:induction false} BusAlongRun<T>(s: State<T>, acts: seq<Action<T>>)
    requires IsRun(s, acts)
    ensures After(s, acts).stopEvent <==>
      SetLast(Requests(acts), BusStarts(acts)) || (s.stopEvent && NoneFrom(BusStarts(acts), 0))
    ensures After(s, acts).busStarted <==>
      SetLast(BusStarts(acts), BusEnds(acts)) || (s.busStarted && NoneFrom(BusEnds(acts), 0))
    ensures After(s, acts).channelStarted <==>
      SetLast(BusStarts(acts), BusEnds(acts)) || (s.channelStarted && NoneFrom(BusEnds(acts), 0))
    decreases acts
  {
    if acts != [] {
      var a, rest := acts[0], acts[1..];
      BusStep(s, a);
      BusAlongRun(Next(s, a), rest);
      SetLastFirst(a.BusStopRequest?, a.BusStart?, Requests(rest), BusStarts(rest));
      SetLastFirst(a.BusStart?, a.BusStopFinish?, BusStarts(rest), BusEnds(rest));
    }
  }

  /** After every run the stop event is set exactly if a stop was requested after
      the last start, and the bus and its channel are started exactly if no stop
      has finished since. */
  lemma BusIffStartedLast<T>(acts: seq<Action<T>>)
    requires IsRun(Init<T>(), acts)
    ensures var s := After(Init<T>(), acts);
      && (s.stopEvent <==> SetLast(Requests(acts), BusStarts(acts)))
      && (s.busStarted <==> SetLast(BusStarts(acts), BusEnds(acts)))
      && (s.channelStarted <==> s.busStarted)
  {
    BusAlongRun(Init<T>(), acts);
  }
}
