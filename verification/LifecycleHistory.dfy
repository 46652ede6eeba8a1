/** What the lifecycle's state tells of the calls that led to it: over all runs,
    overlapping calls included, what decides whether a channel is started, the
    reader is to stop and a reader is thought to run. */
module LifecycleHistory {
  import opened History
  import opened Lifecycle

  // ---- Started channels ----

  /** A start of the channel that is not refused and does not fail. */
  predicate TakesEffect(s: State, a: Action, channel: nat) {
    && a.Start? && a.channel == channel && a.accepted && (s.readerRunning || a.created)
    && channel < |s.started| && !s.started[channel]
  }

  predicate StopOf(a: Action, channel: nat) { a.Stop? && a.channel == channel }

  function EffectiveStarts(s: State, acts: seq<Action>, channel: nat): (r: seq<bool>)
    requires IsRun(s, acts)
    ensures |r| == |acts|
    decreases acts
  {
    if acts == [] then []
    else [TakesEffect(s, acts[0], channel)] + EffectiveStarts(Next(s, acts[0]), acts[1..], channel)
  }

  function StopsOf(acts: seq<Action>, channel: nat): (r: seq<bool>)
    ensures |r| == |acts|
  {
    if acts == [] then [] else [StopOf(acts[0], channel)] + StopsOf(acts[1..], channel)
  }

  lemma StartedStep(s: State, a: Action, channel: nat)
    requires Enabled(s, a) && channel < |s.started|
    ensures |Next(s, a).started| == |s.started|
    ensures Next(s, a).started[channel] == (TakesEffect(s, a, channel) || (s.started[channel] && !StopOf(a, channel)))
  {
    match a {
      case Start(_, ch, accepted, created) => assert Next(s, a) == DoStart(s, ch, accepted, created);
      case Stop(c, ch) => assert Next(s, a) == DoStop(s, c, ch);
      case _ => assert Next(s, a).started == s.started;
    }
  }

  lemma {:induction false} StartedAlongRun(s: State, acts: seq<Action>, channel: nat)
    requires IsRun(s, acts) && channel < |s.started|
    ensures |After(s, acts).started| == |s.started|
    ensures After(s, acts).started[channel] <==>
      || SetLast(EffectiveStarts(s, acts, channel), StopsOf(acts, channel))
      || (s.started[channel] && NoneFrom(StopsOf(acts, channel), 0))
    decreases acts
  {
    if acts != [] {
      var r, rest := Next(s, acts[0]), acts[1..];
      StartedStep(s, acts[0], channel);
      StartedAlongRun(r, rest, channel);
      SetLastFirst(TakesEffect(s, acts[0], channel), StopOf(acts[0], channel),
                   EffectiveStarts(r, rest, channel), StopsOf(rest, channel));
    }
  }

  /** After every run a channel is started exactly if a start of it took effect
      and no stop of it came after. */
  lemma StartedIffStartedLast(channels: nat, callers: nat, acts: seq<Action>, channel: nat)
    requires IsRun(Init(channels, callers), acts) && channel < channels
    ensures var s := After(Init(channels, callers), acts);
      && |s.started| == channels
      && (s.started[channel] <==>
           SetLast(EffectiveStarts(Init(channels, callers), acts, channel), StopsOf(acts, channel)))
  {
    StartedAlongRun(Init(channels, callers), acts, channel);
  }

  // ---- The stop flag ----

  /** A close, or a stop of the only channel that is started. */
  predicate TellsReaderToStop(s: State, a: Action) {
    a.Close? || (a.Stop? && a.channel < |s.started| && s.started[a.channel] && s.activeChannels <= 1)
  }

  /** An accepted start of a stopped channel while no reader is thought to run. */
  predicate NeedsReader(s: State, a: Action) {
    a.Start? && a.accepted && a.channel < |s.started| && !s.started[a.channel] && !s.readerRunning
  }

  function Tells(s: State, acts: seq<Action>): (r: seq<bool>)
    requires IsRun(s, acts)
    ensures |r| == |acts|
    decreases acts
  {
    if acts == [] then [] else [TellsReaderToStop(s, acts[0])] + Tells(Next(s, acts[0]), acts[1..])
  }

  function Needs(s: State, acts: seq<Action>): (r: seq<bool>)
    requires IsRun(s, acts)
    ensures |r| == |acts|
    decreases acts
  {
    if acts == [] then [] else [NeedsReader(s, acts[0])] + Needs(Next(s, acts[0]), acts[1..])
  }

  lemma StopFlagStep(s: State, a: Action)
    requires Enabled(s, a)
    ensures Next(s, a).stopFlag == (TellsReaderToStop(s, a) || (s.stopFlag && !NeedsReader(s, a)))
  {}

  lemma {:induction false} StopFlagAlongRun(s: State, acts: seq<Action>)
    requires IsRun(s, acts)
    ensures After(s, acts).stopFlag <==>
      SetLast(Tells(s, acts), Needs(s, acts)) || (s.stopFlag && NoneFrom(Needs(s, acts), 0))
    decreases acts
  {
    if acts != [] {
      var r, rest := Next(s, acts[0]), acts[1..];
      StopFlagStep(s, acts[0]);
      StopFlagAlongRun(r, rest);
      SetLastFirst(TellsReaderToStop(s, acts[0]), NeedsReader(s, acts[0]), Tells(r, rest), Needs(r, rest));
    }
  }

  /** After every run the reader is told to stop exactly if a call told it to and
      no start after that needed a reader. */
  lemma StopFlagIffToldLast(channels: nat, callers: nat, acts: seq<Action>)
    requires IsRun(Init(channels, callers), acts)
    ensures var init := Init(channels, callers);
      After(init, acts).stopFlag <==> SetLast(Tells(init, acts), Needs(init, acts))
  {
    StopFlagAlongRun(Init(channels, callers), acts);
  }

  // ---- The reader ----

  function Creations(s: State, acts: seq<Action>): (r: seq<bool>)
    requires IsRun(s, acts)
    ensures |r| == |acts|
    decreases acts
  {
    if acts == [] then []
    else [NeedsReader(s, acts[0]) && acts[0].created] + Creations(Next(s, acts[0]), acts[1..])
  }

  function Clearings(acts: seq<Action>): (r: seq<bool>)
    ensures |r| == |acts|
  {
    if acts == [] then [] else [acts[0].Clear?] + Clearings(acts[1..])
  }

  lemma ReaderStepEffect(s: State, a: Action)
    requires Enabled(s, a)
    ensures Next(s, a).readerRunning == ((NeedsReader(s, a) && a.created) || (s.readerRunning && !a.Clear?))
    ensures Next(s, a).queuesAlive == (s.queuesAlive && !a.Free?)
    ensures |Next(s, a).threads| == |s.threads| + (if NeedsReader(s, a) && a.created then 1 else 0)
  {}

  /** What is recorded of packets: a push to a destroyed queue, and how many were
      handled since the flag was set. */
  lemma PacketStepEffect(s: State, a: Action)
    requires Enabled(s, a)
    ensures Next(s, a).strayPush ==
      (s.strayPush || (a.Handle? && s.threads[a.thread].pc.channel.Some? && !s.queuesAlive))
    ensures Next(s, a).handledSinceStop ==
      if a.Handle? && s.stopFlag then s.handledSinceStop + 1 else if NeedsReader(s, a) then 0 else s.handledSinceStop
  {}

  lemma {:induction false} ReaderAlongRun(s: State, acts: seq<Action>)
    requires IsRun(s, acts)
    ensures After(s, acts).readerRunning <==>
      SetLast(Creations(s, acts), Clearings(acts)) || (s.readerRunning && NoneFrom(Clearings(acts), 0))
    decreases acts
  {
    if acts != [] {
      var r, rest := Next(s, acts[0]), acts[1..];
      ReaderStepEffect(s, acts[0]);
      ReaderAlongRun(r, rest);
      SetLastFirst(NeedsReader(s, acts[0]) && acts[0].created, acts[0].Clear?, Creations(r, rest), Clearings(rest));
    }
  }

  /** After every run reader_running is set exactly if a start created a reader
      and no stop has cleared it since. */
  lemma ReaderRunningIffCreatedLast(channels: nat, callers: nat, acts: seq<Action>)
    requires IsRun(Init(channels, callers), acts)
    ensures var init := Init(channels, callers);
      After(init, acts).readerRunning <==> SetLast(Creations(init, acts), Clearings(acts))
  {
    ReaderAlongRun(Init(channels, callers), acts);
  }

  // ---- Packets after a stop or a close ----

  /** The state before step i. */
  function StateAt(s: State, acts: seq<Action>, i: nat): State
    requires IsRun(s, acts) && i <= |acts|
    decreases i
  {
    if i == 0 then s else StateAt(Next(s, acts[0]), acts[1..], i - 1)
  }

  lemma {:induction false} StateAtStep(s: State, acts: seq<Action>, i: nat)
    requires IsRun(s, acts) && i < |acts|
    ensures Enabled(StateAt(s, acts, i), acts[i])
    ensures StateAt(s, acts, i + 1) == Next(StateAt(s, acts, i), acts[i])
    decreases i
  {
    var n, rest := Next(s, acts[0]), acts[1..];
    if i > 0 {
      StateAtStep(n, rest, i - 1);
      assert rest[i - 1] == acts[i];
      assert StateAt(s, acts, i + 1) == StateAt(n, rest, i);
    } else {
      assert StateAt(s, acts, 1) == StateAt(n, rest, 0);
    }
  }

  lemma {:induction false} TameAt(s: State, acts: seq<Action>, i: nat)
    requires Tame(s) && IsTameRun(s, acts) && IsRun(s, acts) && i <= |acts|
    ensures Tame(StateAt(s, acts, i))
    decreases i
  {
    if i > 0 {
      TameStep(s, acts[0]);
      TameAt(Next(s, acts[0]), acts[1..], i - 1);
    }
  }

  /** While overlapping calls are harmless, no packet is handled once the queues
      are destroyed. */
  lemma NoPushAfterClose(channels: nat, callers: nat, acts: seq<Action>, i: nat)
    requires IsTameRun(Init(channels, callers), acts) && IsRun(Init(channels, callers), acts)
    requires i < |acts| && acts[i].Handle?
    ensures StateAt(Init(channels, callers), acts, i).queuesAlive
  {
    InitIsTame(channels, callers);
    TameAt(Init(channels, callers), acts, i);
    StateAtStep(Init(channels, callers), acts, i);
  }

  /** Packets handled in a run. */
  function Handled(acts: seq<Action>): nat {
    if acts == [] then 0 else (if acts[0].Handle? then 1 else 0) + Handled(acts[1..])
  }

  lemma HandledStep(s: State, a: Action)
    requires Tame(s) && s.stopFlag && Enabled(s, a) && !ClearsStop(s, a)
    requires Begins(a) ==> AllIdle(s) || Harmless(s, a)
    ensures Next(s, a).stopFlag
    ensures (if a.Handle? then 1 else 0) + (if MayHandle(Next(s, a)) then 1 else 0) <= if MayHandle(s) then 1 else 0
  {}

  /** While overlapping calls are harmless, from a set stop_flag until a start
      clears it at most one packet is handled, and none unless the reader is
      past its look at the flag. */
  lemma {:induction false} AtMostOneHandled(s: State, acts: seq<Action>)
    requires Tame(s) && s.stopFlag && IsTameRun(s, acts) && IsRun(s, acts) && NoneClearsStop(s, acts)
    ensures Handled(acts) <= if MayHandle(s) then 1 else 0
    decreases acts
  {
    if acts != [] {
      HandledStep(s, acts[0]);
      TameStep(s, acts[0]);
      AtMostOneHandled(Next(s, acts[0]), acts[1..]);
    }
  }
}
