/** The start/stop/close protocol of a device with its reader thread, as a
    machine of atomic steps: one step per region that holds start_lock, one per
    join, one per reader step. Any number of callers may be inside a call. */
module Lifecycle {
  import opened Words

  /** Where a reader thread stands: before its buffer allocation, before the
      locked look at stop_flag, inside the bulk read, holding a packet for a
      channel (or for none), or gone. */
  datatype ReaderPc = Entering | Checking | Reading | Handling(channel: Option<nat>) | Exited

  datatype Thread = Thread(pc: ReaderPc, joined: bool)

  /** Where a caller stands between the steps of its call. */
  datatype CallPc =
    | Idle
    | StopJoining                     // stop released the lock and has to join the reader
    | StopClearing                    // joined; reader_running still to be cleared
    | CloseJoining(wasRunning: bool)  // close set stop_flag and may have to join
    | CloseFreeing                    // the queues are still to be destroyed

  datatype State = State(
    started: seq<bool>,
    activeChannels: nat,
    readerRunning: bool,
    stopFlag: bool,
    threads: seq<Thread>,   // every reader ever created; dev->reader_thread is the last
    calls: seq<CallPc>,
    queuesAlive: bool,
    strayPush: bool,        // a push has reached a destroyed queue
    handledSinceStop: nat)  // packets handled while stop_flag was set

  datatype ReadOutcome = Packet(channel: Option<nat>) | NoData | Dead

  datatype Action =
    | Start(caller: nat, channel: nat, accepted: bool, created: bool)
    | Stop(caller: nat, channel: nat)
    | Close(caller: nat)
    | Join(caller: nat)
    | Clear(caller: nat)
    | Free(caller: nat)
    | Enter(thread: nat, allocOk: bool)
    | Check(thread: nat)
    | Read(thread: nat, outcome: ReadOutcome)
    | Handle(thread: nat)

  // ---- Steps ----

  /** gsusb_channel_start, all of it under the lock: accepted is whether the
      feature check and the mode transfer succeed, created whether
      pthread_create does. */
  function DoStart(s: State, channel: nat, accepted: bool, created: bool): State
    requires channel < |s.started|
  {
    if s.started[channel] || !accepted then s
    else if s.readerRunning then
      s.(started := s.started[channel := true], activeChannels := s.activeChannels + 1)
    else if !created then s.(stopFlag := false, handledSinceStop := 0)
    else
      s.(started := s.started[channel := true], activeChannels := s.activeChannels + 1,
         stopFlag := false, handledSinceStop := 0,
         threads := s.threads + [Thread(Entering, false)], readerRunning := true)
  }

  /** The locked region of gsusb_channel_stop. */
  function DoStop(s: State, caller: nat, channel: nat): State
    requires channel < |s.started| && caller < |s.calls|
  {
    if !s.started[channel] then s
    else
      var active := if s.activeChannels > 0 then s.activeChannels - 1 else s.activeChannels;
      var r := s.(started := s.started[channel := false], activeChannels := active);
      if active == 0 then r.(stopFlag := true, calls := s.calls[caller := StopJoining]) else r
  }

  function DoClose(s: State, caller: nat): State
    requires caller < |s.calls|
  {
    s.(stopFlag := true, calls := s.calls[caller := CloseJoining(s.readerRunning)])
  }

  /** A join waits for the last created reader to be gone. */
  predicate CanJoin(s: State) {
    s.threads != [] && s.threads[|s.threads| - 1].pc == Exited
  }

  function DoJoin(s: State, caller: nat): State
    requires caller < |s.calls| && (s.calls[caller] != CloseJoining(false) ==> s.threads != [])
  {
    var next := if s.calls[caller] == StopJoining then StopClearing else CloseFreeing;
    var r := s.(calls := s.calls[caller := next]);
    if s.calls[caller] == CloseJoining(false) then r
    else
      var last := |s.threads| - 1;
      r.(threads := s.threads[last := s.threads[last].(joined := true)])
  }

  function SetPc(s: State, thread: nat, pc: ReaderPc): State
    requires thread < |s.threads|
  {
    s.(threads := s.threads[thread := s.threads[thread].(pc := pc)])
  }

  /** A handled packet is pushed if it names a channel. */
  function DoHandle(s: State, thread: nat): State
    requires thread < |s.threads| && s.threads[thread].pc.Handling?
  {
    SetPc(s, thread, Checking).(
      strayPush := s.strayPush || (s.threads[thread].pc.channel.Some? && !s.queuesAlive),
      handledSinceStop := if s.stopFlag then s.handledSinceStop + 1 else s.handledSinceStop)
  }

  /** Whether the step can be taken now. A call begins only while the device
      is open, and only by a caller that is in no other call. */
  predicate Enabled(s: State, a: Action) {
    match a
    case Start(c, ch, _, _) => s.queuesAlive && c < |s.calls| && s.calls[c] == Idle && ch < |s.started|
    case Stop(c, ch) => s.queuesAlive && c < |s.calls| && s.calls[c] == Idle && ch < |s.started|
    case Close(c) => s.queuesAlive && c < |s.calls| && s.calls[c] == Idle
    case Join(c) =>
      && c < |s.calls|
      && (s.calls[c] == CloseJoining(false)
          || ((s.calls[c] == StopJoining || s.calls[c] == CloseJoining(true)) && CanJoin(s)))
    case Clear(c) => c < |s.calls| && s.calls[c] == StopClearing
    case Free(c) => c < |s.calls| && s.calls[c] == CloseFreeing
    case Enter(t, _) => t < |s.threads| && s.threads[t].pc == Entering
    case Check(t) => t < |s.threads| && s.threads[t].pc == Checking
    case Read(t, _) => t < |s.threads| && s.threads[t].pc == Reading
    case Handle(t) => t < |s.threads| && s.threads[t].pc.Handling?
  }

  function Next(s: State, a: Action): State
    requires Enabled(s, a)
  {
    match a
    case Start(_, ch, accepted, created) => DoStart(s, ch, accepted, created)
    case Stop(c, ch) => DoStop(s, c, ch)
    case Close(c) => DoClose(s, c)
    case Join(c) => DoJoin(s, c)
    case Clear(c) => s.(readerRunning := false, calls := s.calls[c := Idle])
    case Free(c) => s.(queuesAlive := false, calls := s.calls[c := Idle])
    case Enter(t, allocOk) => SetPc(s, t, if allocOk then Checking else Exited)
    case Check(t) => SetPc(s, t, if s.stopFlag then Exited else Reading)
    case Read(t, outcome) =>
      SetPc(s, t, match outcome
                  case Packet(ch) => Handling(ch)
                  case NoData => Checking
                  case Dead => Exited)
    case Handle(t) => DoHandle(s, t)
  }

  function Init(channels: nat, callers: nat): State {
    State(seq(channels, _ => false), 0, false, false, [], seq(callers, _ => Idle), true, false, 0)
  }

  // ---- Runs ----

  predicate IsRun(s: State, acts: seq<Action>)
    decreases acts
  {
    acts == [] || (Enabled(s, acts[0]) && IsRun(Next(s, acts[0]), acts[1..]))
  }

  function After(s: State, acts: seq<Action>): State
    requires IsRun(s, acts)
    decreases acts
  {
    if acts == [] then s else After(Next(s, acts[0]), acts[1..])
  }

  /** The action begins a call of start, stop or close. */
  predicate Begins(a: Action) { a.Start? || a.Stop? || a.Close? }

  predicate AllIdle(s: State) { forall i :: 0 <= i < |s.calls| ==> s.calls[i] == Idle }

  /** A close is in progress. */
  ghost predicate Closing(s: State) {
    exists i :: 0 <= i < |s.calls| && (s.calls[i].CloseJoining? || s.calls[i].CloseFreeing?)
  }

  /** What a call may begin with while another is in progress: a step that
      changes nothing; and during a close also a stop that leaves a channel
      active, and a start that finds the reader flag set or fails to create its
      reader. During a stop no channel is started. */
  ghost predicate Harmless(s: State, a: Action)
    requires Enabled(s, a) && Begins(a)
  {
    if a.Start? then
      s.started[a.channel] || !a.accepted || (Closing(s) && (s.readerRunning || !a.created))
    else a.Stop? && (!s.started[a.channel] || s.activeChannels > 1)
  }

  /** Whatever begins while a call is in progress is harmless. Readers are
      free. */
  ghost predicate IsTameRun(s: State, acts: seq<Action>)
    decreases acts
  {
    || acts == []
    || (&& Enabled(s, acts[0])
        && (Begins(acts[0]) ==> AllIdle(s) || Harmless(s, acts[0]))
        && IsTameRun(Next(s, acts[0]), acts[1..]))
  }

  // ---- The channel count, whatever overlaps ----

  function Count(bs: seq<bool>): nat {
    if bs == [] then 0 else (if bs[0] then 1 else 0) + Count(bs[1..])
  }

  lemma {:induction false} CountUpdate(bs: seq<bool>, i: nat, b: bool)
    requires i < |bs|
    ensures Count(bs[i := b]) == Count(bs) - (if bs[i] then 1 else 0) + (if b then 1 else 0)
    decreases bs
  {
    if i == 0 {
      assert bs[0 := b][1..] == bs[1..];
    } else {
      CountUpdate(bs[1..], i - 1, b);
      assert bs[i := b][1..] == bs[1..][i - 1 := b];
    }
  }

  lemma {:induction false} CountOfNone(n: nat)
    ensures Count(seq(n, _ => false)) == 0
  {
    if n > 0 {
      CountOfNone(n - 1);
      assert seq(n, _ => false)[1..] == seq(n - 1, _ => false);
    }
  }

  lemma CountStep(s: State, a: Action)
    requires Enabled(s, a) && s.activeChannels == Count(s.started)
    ensures Next(s, a).activeChannels == Count(Next(s, a).started)
  {
    if a.Start? { CountUpdate(s.started, a.channel, true); }
    if a.Stop? { CountUpdate(s.started, a.channel, false); }
  }

  lemma {:induction false} CountAlongRun(s: State, acts: seq<Action>)
    requires IsRun(s, acts) && s.activeChannels == Count(s.started)
    ensures After(s, acts).activeChannels == Count(After(s, acts).started)
    decreases acts
  {
    if acts != [] {
      CountStep(s, acts[0]);
      CountAlongRun(Next(s, acts[0]), acts[1..]);
    }
  }

  /** In every reachable state, overlapping calls and failed thread creations
      included, active_channels is the number of started channels. */
  lemma ActiveChannelsCountsStarted(channels: nat, callers: nat, acts: seq<Action>)
    requires IsRun(Init(channels, callers), acts)
    ensures var s := After(Init(channels, callers), acts); s.activeChannels == Count(s.started)
  {
    CountOfNone(channels);
    CountAlongRun(Init(channels, callers), acts);
  }

  // ---- The reader, when overlapping calls are harmless ----

  /** All readers but the last are joined and gone; a joined reader is gone. */
  ghost predicate ThreadsTidy(s: State) {
    && (forall t :: 0 <= t < |s.threads| - 1 ==> s.threads[t] == Thread(Exited, true))
    && (forall t :: 0 <= t < |s.threads| && s.threads[t].joined ==> s.threads[t].pc == Exited)
  }

  ghost predicate LastUnjoined(s: State) { s.threads != [] && !s.threads[|s.threads| - 1].joined }

  /** The state is as the calls in progress require. */
  ghost predicate CallFits(s: State, c: CallPc) {
    match c
    case Idle => true
    case StopJoining => s.queuesAlive && s.stopFlag && s.readerRunning && s.activeChannels == 0 && LastUnjoined(s)
    case StopClearing => s.queuesAlive && s.readerRunning && s.activeChannels == 0 && !LastUnjoined(s)
    case CloseJoining(was) =>
      && s.queuesAlive && (was ==> s.stopFlag) && was == s.readerRunning && was == LastUnjoined(s)
      && (s.readerRunning <==> s.activeChannels > 0)
    case CloseFreeing => s.queuesAlive && !LastUnjoined(s) && (s.readerRunning <==> s.activeChannels > 0)
  }

  /** A reader about to handle one more packet after the stop. */
  ghost predicate MayHandle(s: State) {
    LastUnjoined(s) && (var pc := s.threads[|s.threads| - 1].pc; pc.Reading? || pc.Handling?)
  }

  /** What every step of a tame run keeps. */
  ghost predicate Tame(s: State) {
    && ThreadsTidy(s)
    && s.activeChannels == Count(s.started)
    && (forall i, j :: 0 <= i < j < |s.calls| ==> s.calls[i] == Idle || s.calls[j] == Idle)
    && (forall i :: 0 <= i < |s.calls| ==> CallFits(s, s.calls[i]))
    && (AllIdle(s) && s.queuesAlive ==>
          (s.readerRunning <==> s.activeChannels > 0) && (s.readerRunning <==> LastUnjoined(s)))
    && (!s.queuesAlive ==> !LastUnjoined(s) && AllIdle(s))
    && !s.strayPush
    && (if s.stopFlag then s.handledSinceStop + (if MayHandle(s) then 1 else 0) <= 1 else s.handledSinceStop == 0)
  }

  lemma {:induction false} CountPositive(bs: seq<bool>, i: nat)
    requires i < |bs| && bs[i]
    ensures Count(bs) > 0
    decreases bs
  {
    if i > 0 { CountPositive(bs[1..], i - 1); }
  }

  /** During a close the one caller inside a call is the closing one. */
  lemma ClosingFits(s: State, i: nat)
    requires Tame(s) && Closing(s) && i < |s.calls|
    ensures s.queuesAlive && (s.readerRunning <==> s.activeChannels > 0)
    ensures s.calls[i] == Idle || s.calls[i] == CloseJoining(s.readerRunning) || s.calls[i] == CloseFreeing
    ensures !s.readerRunning ==> !LastUnjoined(s)
  {
    var k :| 0 <= k < |s.calls| && (s.calls[k].CloseJoining? || s.calls[k].CloseFreeing?);
    assert CallFits(s, s.calls[k]);
  }

  lemma StartKeepsTame(s: State, a: Action)
    requires Tame(s) && a.Start? && Enabled(s, a) && (AllIdle(s) || Harmless(s, a))
    ensures Tame(Next(s, a))
  {
    CountUpdate(s.started, a.channel, true);
    var r := Next(s, a);
    if !AllIdle(s) && r != s {
      forall i | 0 <= i < |r.calls| ensures CallFits(r, r.calls[i]) {
        ClosingFits(s, i);
        assert CallFits(s, s.calls[i]);
      }
      var i :| 0 <= i < |s.calls| && s.calls[i] != Idle;
      ClosingFits(s, i);
      assert r.calls[i] != Idle;
    }
  }

  lemma StopKeepsTame(s: State, a: Action)
    requires Tame(s) && a.Stop? && Enabled(s, a) && (AllIdle(s) || Harmless(s, a))
    ensures Tame(Next(s, a))
  {
    CountUpdate(s.started, a.channel, false);
    var r := Next(s, a);
    if s.started[a.channel] {
      CountPositive(s.started, a.channel);
      if AllIdle(s) {
        assert r.activeChannels == 0 ==> r.calls[a.caller] == StopJoining;
      } else {
        var i :| 0 <= i < |s.calls| && s.calls[i] != Idle;
        assert CallFits(s, s.calls[i]) && r.calls[i] != Idle;
      }
    }
  }

  lemma CloseKeepsTame(s: State, caller: nat)
    requires Tame(s) && AllIdle(s) && s.queuesAlive && caller < |s.calls|
    ensures Tame(DoClose(s, caller))
  {}

  lemma JoinKeepsTame(s: State, caller: nat)
    requires Tame(s) && Enabled(s, Join(caller))
    ensures Tame(DoJoin(s, caller))
  {
    assert CallFits(s, s.calls[caller]);
    var r := DoJoin(s, caller);
    assert r.calls[caller] != Idle;
  }

  lemma ReturnKeepsTame(s: State, a: Action)
    requires Tame(s) && Enabled(s, a) && (a.Clear? || a.Free?)
    ensures Tame(Next(s, a))
  {
    assert CallFits(s, s.calls[a.caller]);
    assert AllIdle(Next(s, a));
  }

  lemma ReaderKeepsTame(s: State, a: Action)
    requires Tame(s) && Enabled(s, a) && (a.Enter? || a.Check? || a.Read? || a.Handle?)
    ensures Tame(Next(s, a))
  {
    assert a.thread == |s.threads| - 1 && LastUnjoined(s);
    assert s.queuesAlive;
    var r := Next(s, a);
    assert r.calls == s.calls;
    assert forall i :: 0 <= i < |r.calls| ==> CallFits(s, s.calls[i]) && CallFits(r, r.calls[i]);
  }

  lemma TameStep(s: State, a: Action)
    requires Tame(s) && Enabled(s, a) && (Begins(a) ==> AllIdle(s) || Harmless(s, a))
    ensures Tame(Next(s, a))
  {
    match a
    case Start(_, _, _, _) => StartKeepsTame(s, a);
    case Stop(_, _) => StopKeepsTame(s, a);
    case Close(c) => CloseKeepsTame(s, c);
    case Join(c) => JoinKeepsTame(s, c);
    case Clear(_) => ReturnKeepsTame(s, a);
    case Free(_) => ReturnKeepsTame(s, a);
    case Enter(_, _) => ReaderKeepsTame(s, a);
    case Check(_) => ReaderKeepsTame(s, a);
    case Read(_, _) => ReaderKeepsTame(s, a);
    case Handle(_) => ReaderKeepsTame(s, a);
  }

  lemma {:induction false} TameAlongRun(s: State, acts: seq<Action>)
    requires Tame(s) && IsTameRun(s, acts)
    ensures IsRun(s, acts) && Tame(After(s, acts))
    decreases acts
  {
    if acts != [] {
      TameStep(s, acts[0]);
      TameAlongRun(Next(s, acts[0]), acts[1..]);
    }
  }

  ghost predicate Unjoined(s: State, t: nat) { t < |s.threads| && !s.threads[t].joined }

  /** The caller is about to join a reader thread. */
  ghost predicate WillJoin(s: State, caller: nat) {
    caller < |s.calls| && (s.calls[caller] == StopJoining || s.calls[caller] == CloseJoining(true))
  }

  /** At most one reader is unjoined; between calls on an open device
      reader_running, an unjoined reader and an active channel exist together; a
      pending join has the last created reader to join; a device that has been
      freed has no reader left and nobody inside a call; nothing was pushed to a
      destroyed queue; at most one packet was handled after stop_flag was set. */
  ghost predicate Orderly(s: State) {
    && (forall t, u :: Unjoined(s, t) && Unjoined(s, u) ==> t == u)
    && (AllIdle(s) && s.queuesAlive ==>
          (s.readerRunning <==> s.activeChannels > 0) && (s.readerRunning <==> exists t :: Unjoined(s, t)))
    && (forall c :: WillJoin(s, c) ==> s.threads != [] && Unjoined(s, |s.threads| - 1))
    && (!s.queuesAlive ==> AllIdle(s) && !exists t :: Unjoined(s, t))
    && (s.stopFlag ==> s.handledSinceStop <= 1)
    && !s.strayPush
  }

  lemma TameIsOrderly(s: State)
    requires Tame(s)
    ensures Orderly(s)
  {
    if LastUnjoined(s) { assert Unjoined(s, |s.threads| - 1); }
    forall c: nat | WillJoin(s, c) ensures s.threads != [] && Unjoined(s, |s.threads| - 1) {
      assert CallFits(s, s.calls[c]);
    }
  }

  lemma InitIsTame(channels: nat, callers: nat)
    ensures Tame(Init(channels, callers))
  {
    CountOfNone(channels);
  }

  /** In every state reachable while overlapping calls are harmless, whatever the
      readers do and however thread creation goes, the readers are in order. */
  lemma ReaderLifecycle(channels: nat, callers: nat, acts: seq<Action>)
    requires IsTameRun(Init(channels, callers), acts)
    ensures IsRun(Init(channels, callers), acts)
    ensures Orderly(After(Init(channels, callers), acts))
  {
    InitIsTame(channels, callers);
    TameAlongRun(Init(channels, callers), acts);
    TameIsOrderly(After(Init(channels, callers), acts));
  }

  // ---- The reader leaves after a stop ----

  /** Reader steps still possible once stop_flag is set. */
  function Distance(pc: ReaderPc): nat {
    match pc
    case Exited => 0
    case Checking => 1
    case Entering => 2
    case Handling(_) => 2
    case Reading => 3
  }

  predicate IsReaderStep(a: Action, t: nat) {
    match a
    case Enter(u, _) => u == t
    case Check(u) => u == t
    case Read(u, _) => u == t
    case Handle(u) => u == t
    case _ => false
  }

  function StepsOf(t: nat, acts: seq<Action>): nat {
    if acts == [] then 0 else (if IsReaderStep(acts[0], t) then 1 else 0) + StepsOf(t, acts[1..])
  }

  /** A start that clears stop_flag: one that is accepted and finds no reader. */
  predicate ClearsStop(s: State, a: Action)
    requires Enabled(s, a)
  {
    a.Start? && !s.started[a.channel] && a.accepted && !s.readerRunning
  }

  predicate NoneClearsStop(s: State, acts: seq<Action>)
    requires IsRun(s, acts)
    decreases acts
  {
    acts == [] || (!ClearsStop(s, acts[0]) && NoneClearsStop(Next(s, acts[0]), acts[1..]))
  }

  lemma StopFlagStays(s: State, a: Action, t: nat)
    requires s.stopFlag && t < |s.threads| && Enabled(s, a) && !ClearsStop(s, a)
    ensures var r := Next(s, a);
      && r.stopFlag && |r.threads| == |s.threads|
      && Distance(r.threads[t].pc) + (if IsReaderStep(a, t) then 1 else 0) <= Distance(s.threads[t].pc)
  {}

  /** Once stop_flag is set and until some start clears it, each reader takes at
      most three more steps, its bulk reads returning included, overlap or not. */
  lemma {:induction false} StopBoundsReader(s: State, acts: seq<Action>, t: nat)
    requires s.stopFlag && t < |s.threads| && IsRun(s, acts) && NoneClearsStop(s, acts)
    ensures t < |After(s, acts).threads|
    ensures StepsOf(t, acts) + Distance(After(s, acts).threads[t].pc) <= Distance(s.threads[t].pc) <= 3
    decreases acts
  {
    if acts != [] {
      StopFlagStays(s, acts[0], t);
      StopBoundsReader(Next(s, acts[0]), acts[1..], t);
    }
  }

  /** A pending join is never stuck: the reader is gone or can take a step. */
  lemma JoinIsNeverStuck(channels: nat, callers: nat, acts: seq<Action>, caller: nat)
    requires IsTameRun(Init(channels, callers), acts) && IsRun(Init(channels, callers), acts)
    requires WillJoin(After(Init(channels, callers), acts), caller)
    ensures var s := After(Init(channels, callers), acts);
      && s.stopFlag
      && (Enabled(s, Join(caller)) ||
          exists a :: Enabled(s, a) && s.threads != [] && IsReaderStep(a, |s.threads| - 1))
  {
    InitIsTame(channels, callers);
    TameAlongRun(Init(channels, callers), acts);
    var s := After(Init(channels, callers), acts);
    assert CallFits(s, s.calls[caller]);
    var t := |s.threads| - 1;
    match s.threads[t].pc
    case Exited => assert CanJoin(s);
    case Entering => assert Enabled(s, Enter(t, true)) && IsReaderStep(Enter(t, true), t);
    case Checking => assert Enabled(s, Check(t)) && IsReaderStep(Check(t), t);
    case Reading => assert Enabled(s, Read(t, NoData)) && IsReaderStep(Read(t, NoData), t);
    case Handling(_) => assert Enabled(s, Handle(t)) && IsReaderStep(Handle(t), t);
  }
}
