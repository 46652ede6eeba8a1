/** gsusb_channel_start, gsusb_channel_stop, gsusb_close and the reader thread
    over the device's own fields, from their first step to their last, with
    other threads acting wherever the lock is free: every execution is a run of
    the lifecycle machine. */
module LifecycleDevice {
  import opened Errors
  import opened Lifecycle

  // ---- Runs and whose steps they are ----

  datatype Actor = Caller(c: nat) | Reader(t: nat)

  predicate IsCallStep(a: Action, c: nat) {
    match a
    case Start(d, _, _, _) => d == c
    case Stop(d, _) => d == c
    case Close(d) => d == c
    case Join(d) => d == c
    case Clear(d) => d == c
    case Free(d) => d == c
    case _ => false
  }

  predicate IsBy(who: Actor, a: Action) {
    match who
    case Caller(c) => IsCallStep(a, c)
    case Reader(t) => IsReaderStep(a, t)
  }

  /** The steps of one thread, in order. */
  function StepsBy(who: Actor, acts: seq<Action>): seq<Action> {
    if acts == [] then [] else (if IsBy(who, acts[0]) then [acts[0]] else []) + StepsBy(who, acts[1..])
  }

  lemma {:induction false} StepsByAdd(who: Actor, a: seq<Action>, b: seq<Action>, all: seq<Action>)
    requires all == a + b
    ensures StepsBy(who, all) == StepsBy(who, a) + StepsBy(who, b)
    decreases a
  {
    if a == [] {
      assert all == b;
    } else {
      assert all[0] == a[0] && all[1..] == a[1..] + b;
      StepsByAdd(who, a[1..], b, all[1..]);
    }
  }

  /** acts lead from s to r, and own are the steps of one thread among them. */
  ghost predicate Reaches(s: State, acts: seq<Action>, r: State, who: Actor, own: seq<Action>) {
    IsRun(s, acts) && After(s, acts) == r && StepsBy(who, acts) == own
  }

  lemma ReachHere(s: State, who: Actor)
    ensures Reaches(s, [], s, who, [])
  {}

  lemma {:induction false} RunOn(s: State, acts: seq<Action>, more: seq<Action>, all: seq<Action>)
    requires all == acts + more && IsRun(s, acts) && IsRun(After(s, acts), more)
    ensures IsRun(s, all) && After(s, all) == After(After(s, acts), more)
    decreases acts
  {
    if acts == [] {
      assert all == more;
    } else {
      assert all[0] == acts[0] && all[1..] == acts[1..] + more;
      var n := Next(s, acts[0]);
      assert After(n, acts[1..]) == After(s, acts);
      RunOn(n, acts[1..], more, all[1..]);
    }
  }

  lemma ReachOn(s: State, acts: seq<Action>, r: State, more: seq<Action>, q: State, who: Actor,
                own: seq<Action>, ownMore: seq<Action>)
    requires Reaches(s, acts, r, who, own) && Reaches(r, more, q, who, ownMore)
    ensures Reaches(s, acts + more, q, who, own + ownMore)
  {
    RunOn(s, acts, more, acts + more);
    StepsByAdd(who, acts, more, acts + more);
  }

  lemma ReachStep(s: State, acts: seq<Action>, r: State, a: Action, who: Actor, own: seq<Action>)
    requires Reaches(s, acts, r, who, own) && Enabled(r, a)
    ensures Reaches(s, acts + [a], Next(r, a), who, if IsBy(who, a) then own + [a] else own)
  {
    assert [a][1..] == [];
    assert After(Next(r, a), []) == Next(r, a);
    assert StepsBy(who, [a]) == if IsBy(who, a) then [a] else [];
    assert Reaches(r, [a], Next(r, a), who, StepsBy(who, [a]));
    ReachOn(s, acts, r, [a], Next(r, a), who, own, StepsBy(who, [a]));
  }

  /** A thread stands in r where it stood in s, and no thread has vanished. */
  ghost predicate StandsStill(s: State, r: State, who: Actor) {
    && |r.calls| == |s.calls| && |s.threads| <= |r.threads|
    && match who
       case Caller(c) => c < |s.calls| ==> r.calls[c] == s.calls[c]
       case Reader(t) => t < |s.threads| ==> r.threads[t].pc == s.threads[t].pc
  }

  /** Nobody else moves a thread. */
  lemma OthersDoNotMove(s: State, a: Action, who: Actor)
    requires Enabled(s, a) && !IsBy(who, a)
    ensures StandsStill(s, Next(s, a), who)
  {}

  /** One turn of the reader's loop: what other threads do before its look at
      stop_flag, before its read and before it handles a packet, and what the
      read brings. */
  datatype Turn = Turn(beforeCheck: seq<Action>, beforeRead: seq<Action>, outcome: ReadOutcome, beforeHandle: seq<Action>)

  function TurnSteps(t: nat, outcome: ReadOutcome): seq<Action> {
    [Check(t), Read(t, outcome)] + (if outcome.Packet? then [Handle(t)] else [])
  }

  /** The reader's own steps in whole turns. */
  function AllTurnSteps(t: nat, turns: seq<Turn>): seq<Action> {
    if turns == [] then []
    else AllTurnSteps(t, turns[..|turns| - 1]) + TurnSteps(t, turns[|turns| - 1].outcome)
  }

  /** The same with a last look at a set stop_flag, if there was one. */
  function LoopSteps(t: nat, turns: seq<Turn>, stopped: bool): seq<Action> {
    AllTurnSteps(t, turns) + (if stopped then [Check(t)] else [])
  }

  lemma LoopStepsOn(t: nat, turns: seq<Turn>, n: nat)
    requires n < |turns|
    ensures LoopSteps(t, turns[..n], false) + [Check(t)] == LoopSteps(t, turns[..n], true)
    ensures LoopSteps(t, turns[..n], false) + TurnSteps(t, turns[n].outcome) == LoopSteps(t, turns[..n + 1], false)
  {
    assert turns[..n + 1][..n] == turns[..n];
  }

  lemma TurnReaches(s: State, acts: seq<Action>, r: State, more: seq<Action>, q: State,
                    t: nat, turns: seq<Turn>, n: nat, stopped: bool)
    requires n < |turns| && Reaches(s, acts, r, Reader(t), LoopSteps(t, turns[..n], false))
    requires Reaches(r, more, q, Reader(t), if stopped then [Check(t)] else TurnSteps(t, turns[n].outcome))
    ensures Reaches(s, acts + more, q, Reader(t),
              if stopped then LoopSteps(t, turns[..n], true) else LoopSteps(t, turns[..n + 1], false))
  {
    LoopStepsOn(t, turns, n);
    ReachOn(s, acts, r, more, q, Reader(t), LoopSteps(t, turns[..n], false),
            if stopped then [Check(t)] else TurnSteps(t, turns[n].outcome));
  }

  class Device {
    // The fields of the device and its channels.
    var started: seq<bool>
    var activeChannels: nat
    var readerRunning: bool
    var stopFlag: bool

    // Where the threads stand, and what has happened.
    var threads: seq<Thread>
    var calls: seq<CallPc>
    var queuesAlive: bool
    var strayPush: bool
    var handledSinceStop: nat

    /** The end of gsusb_open. */
    constructor (channels: nat, callers: nat)
      ensures Now() == Init(channels, callers)
    {
      started := seq(channels, _ => false);
      activeChannels, readerRunning, stopFlag := 0, false, false;
      threads, calls := [], seq(callers, _ => Idle);
      queuesAlive, strayPush, handledSinceStop := true, false, 0;
    }

    function Now(): State
      reads this
    {
      State(started, activeChannels, readerRunning, stopFlag, threads, calls, queuesAlive, strayPush, handledSinceStop)
    }

    // ---- Locked regions ----

    /** gsusb_channel_start, all of it under the lock: modeFd and featureFd are
        the FD mode requested and supported, ctrlRc the mode transfer's result,
        created whether pthread_create succeeds when it is called. */
    method Start(caller: nat, channel: nat, modeFd: bool, featureFd: bool, ctrlRc: int, created: bool) returns (rc: int)
      requires ctrlRc <= 0 && queuesAlive && caller < |calls| && calls[caller] == Idle && channel < |started|
      modifies this
      ensures Now() == DoStart(old(Now()), channel, (modeFd ==> featureFd) && ctrlRc == 0, created)
      ensures rc ==
        if old(started[channel]) then GSUSB_ERR_BUSY
        else if modeFd && !featureFd then GSUSB_ERR_INVALID
        else if ctrlRc != 0 then ctrlRc
        else if !old(readerRunning) && !created then GSUSB_ERR_IO
        else GSUSB_OK
      ensures rc == GSUSB_OK <==> !old(started[channel]) && started[channel]
      ensures rc == GSUSB_OK ==>
        && started == old(started)[channel := true] && activeChannels == old(activeChannels) + 1 && readerRunning
        && (if old(readerRunning) then threads == old(threads) && stopFlag == old(stopFlag)
            else threads == old(threads) + [Thread(Entering, false)] && !stopFlag)
      ensures rc != GSUSB_OK ==>
        && started == old(started) && activeChannels == old(activeChannels)
        && readerRunning == old(readerRunning) && threads == old(threads)
    {
      if started[channel] {
        return GSUSB_ERR_BUSY;
      }
      if modeFd && !featureFd {
        return GSUSB_ERR_INVALID;
      }
      if ctrlRc != 0 {
        return ctrlRc;
      }
      started := started[channel := true];
      activeChannels := activeChannels + 1;
      if !readerRunning {
        stopFlag := false;
        handledSinceStop := 0;
        if !created {
          started := started[channel := false];
          activeChannels := activeChannels - 1;
          return GSUSB_ERR_IO;
        }
        threads := threads + [Thread(Entering, false)];
        readerRunning := true;
      }
      rc := GSUSB_OK;
    }

    /** The locked region of gsusb_channel_stop. */
    method StopLocked(caller: nat, channel: nat) returns (stopReader: bool)
      requires queuesAlive && caller < |calls| && calls[caller] == Idle && channel < |started|
      modifies this
      ensures Now() == DoStop(old(Now()), caller, channel)
      ensures started == old(started)[channel := false]
      ensures old(activeChannels) > 0 ==>
        activeChannels == old(activeChannels) - (if old(started[channel]) then 1 else 0)
      ensures stopReader <==> old(started[channel]) && activeChannels == 0
      ensures stopFlag == (stopReader || old(stopFlag)) && readerRunning == old(readerRunning) && threads == old(threads)
      ensures calls == if stopReader then old(calls)[caller := StopJoining] else old(calls)
      ensures calls[caller] == if stopReader then StopJoining else Idle
    {
      if !started[channel] {
        return false;
      }
      started := started[channel := false];
      if activeChannels > 0 {
        activeChannels := activeChannels - 1;
      }
      stopReader := activeChannels == 0;
      if stopReader {
        stopFlag := true;
        calls := calls[caller := StopJoining];
      }
    }

    method CloseLocked(caller: nat) returns (wasRunning: bool)
      requires queuesAlive && caller < |calls| && calls[caller] == Idle
      modifies this
      ensures Now() == DoClose(old(Now()), caller) && calls == old(calls)[caller := CloseJoining(wasRunning)]
      ensures stopFlag && wasRunning == readerRunning == old(readerRunning)
      ensures started == old(started) && activeChannels == old(activeChannels) && threads == old(threads)
    {
      wasRunning := readerRunning;
      stopFlag := true;
      calls := calls[caller := CloseJoining(wasRunning)];
    }

    // ---- Single steps ----

    /** A step of a caller. */
    method ActCall(a: Action)
      requires Enabled(Now(), a) && (a.Start? || a.Stop? || a.Close? || a.Join? || a.Clear? || a.Free?)
      modifies this
      ensures Now() == Next(old(Now()), a)
    {
      match a {
        case Start(c, channel, accepted, created) =>
          var rc := Start(c, channel, !accepted, false, 0, created);
        case Stop(c, channel) =>
          var stopReader := StopLocked(c, channel);
        case Close(c) =>
          var wasRunning := CloseLocked(c);
        case Join(c) =>
          if calls[c] != CloseJoining(false) {
            var last := |threads| - 1;
            threads := threads[last := threads[last].(joined := true)];
          }
          calls := calls[c := if calls[c] == StopJoining then StopClearing else CloseFreeing];
        case Clear(c) =>
          readerRunning := false;
          calls := calls[c := Idle];
        case Free(c) =>
          queuesAlive := false;
          calls := calls[c := Idle];
      }
    }

    /** A step of a reader. */
    method ActReader(a: Action)
      requires Enabled(Now(), a) && (a.Enter? || a.Check? || a.Read? || a.Handle?)
      modifies this
      ensures Now() == Next(old(Now()), a)
    {
      match a {
        case Enter(t, allocOk) => MoveReader(t, if allocOk then Checking else Exited);
        case Check(t) => MoveReader(t, if stopFlag then Exited else Reading);
        case Read(t, outcome) =>
          MoveReader(t, match outcome
                        case Packet(ch) => Handling(ch)
                        case NoData => Checking
                        case Dead => Exited);
        case Handle(t) =>
          if threads[t].pc.channel.Some? && !queuesAlive { strayPush := true; }
          if stopFlag { handledSinceStop := handledSinceStop + 1; }
          MoveReader(t, Checking);
      }
    }

    /** A step of any thread. */
    method Act(a: Action)
      requires Enabled(Now(), a)
      modifies this
      ensures Now() == Next(old(Now()), a)
    {
      if a.Enter? || a.Check? || a.Read? || a.Handle? {
        ActReader(a);
      } else {
        ActCall(a);
      }
    }

    method MoveReader(t: nat, pc: ReaderPc)
      requires t < |threads|
      modifies this
      ensures Now() == SetPc(old(Now()), t, pc)
    {
      threads := threads[t := threads[t].(pc := pc)];
    }

    /** Other threads run while the lock is free: those of the given steps that
        are possible when their turn comes and are not the waiting thread's. */
    method Others(others: seq<Action>, me: Actor) returns (ghost acts: seq<Action>)
      modifies this
      ensures Reaches(old(Now()), acts, Now(), me, [])
      ensures StandsStill(old(Now()), Now(), me)
    {
      acts := [];
      ReachHere(Now(), me);
      for i := 0 to |others|
        invariant Reaches(old(Now()), acts, Now(), me, [])
        invariant StandsStill(old(Now()), Now(), me)
      {
        if Enabled(Now(), others[i]) && !IsBy(me, others[i]) {
          ReachStep(old(Now()), acts, Now(), others[i], me, []);
          OthersDoNotMove(Now(), others[i], me);
          acts := acts + [others[i]];
          Act(others[i]);
        }
      }
    }

    // ---- Whole calls ----

    /** The join of a call, after other threads have run: it goes on when there
        is nothing to join or the reader is gone. */
    method AwaitReader(caller: nat, others: seq<Action>) returns (joined: bool, ghost acts: seq<Action>)
      requires caller < |calls| && (calls[caller] == StopJoining || calls[caller].CloseJoining?)
      modifies this
      ensures Reaches(old(Now()), acts, Now(), Caller(caller), if joined then [Join(caller)] else [])
      ensures |calls| == old(|calls|)
      ensures !joined ==> calls[caller] == old(calls[caller]) != CloseJoining(false) && !CanJoin(Now())
      ensures joined ==> calls[caller] == if old(calls[caller]) == StopJoining then StopClearing else CloseFreeing
      ensures joined && old(calls[caller]) != CloseJoining(false) ==>
        threads != [] && threads[|threads| - 1] == Thread(Exited, true)
    {
      acts := Others(others, Caller(caller));
      joined := calls[caller] == CloseJoining(false) || CanJoin(Now());
      if joined {
        ReachStep(old(Now()), acts, Now(), Join(caller), Caller(caller), []);
        assert [] + [Join(caller)] == [Join(caller)];
        acts := acts + [Join(caller)];
        ActCall(Join(caller));
      }
    }

    /** The last step of a call, after other threads have run. */
    method Finish(caller: nat, others: seq<Action>, a: Action) returns (ghost acts: seq<Action>)
      requires caller < |calls|
      requires (a == Clear(caller) && calls[caller] == StopClearing) || (a == Free(caller) && calls[caller] == CloseFreeing)
      modifies this
      ensures Reaches(old(Now()), acts, Now(), Caller(caller), [a])
      ensures |calls| == old(|calls|) && calls[caller] == Idle
      ensures if a.Clear? then !readerRunning else !queuesAlive
    {
      acts := Others(others, Caller(caller));
      ReachStep(old(Now()), acts, Now(), a, Caller(caller), []);
      assert [] + [a] == [a];
      acts := acts + [a];
      ActCall(a);
    }

    /** gsusb_channel_stop: the locked region and, if it stopped the last
        channel, the join and the clearing of reader_running, with other threads
        running before each. The join waits until the reader is gone; if it is
        not, the call has not returned. */
    method Stop(caller: nat, channel: nat, beforeJoin: seq<Action>, beforeClear: seq<Action>)
      returns (returned: bool, rc: int, ghost acts: seq<Action>)
      requires queuesAlive && caller < |calls| && calls[caller] == Idle && channel < |started|
      modifies this
      ensures var last := old(started[channel]) && old(activeChannels) <= 1;
        Reaches(old(Now()), acts, Now(), Caller(caller), [Lifecycle.Action.Stop(caller, channel)]
                + (if last && returned then [Join(caller), Clear(caller)] else []))
      ensures |calls| == old(|calls|) && calls[caller] == if returned then Idle else StopJoining
      ensures returned ==> rc == GSUSB_OK
      ensures !returned ==> !CanJoin(Now())
    {
      var stop, me := Lifecycle.Action.Stop(caller, channel), Caller(caller);
      ReachHere(Now(), me);
      ReachStep(Now(), [], Now(), stop, me, []);
      acts, returned, rc := [] + [stop], true, GSUSB_OK;
      ghost var own := [] + [stop];
      var stopReader := StopLocked(caller, channel);
      if stopReader {
        ghost var before, more := Now(), [];
        returned, more := AwaitReader(caller, beforeJoin);
        ReachOn(old(Now()), acts, before, more, Now(), me, own, if returned then [Join(caller)] else []);
        acts, own := acts + more, own + if returned then [Join(caller)] else [];
        if returned {
          before := Now();
          more := Finish(caller, beforeClear, Clear(caller));
          ReachOn(old(Now()), acts, before, more, Now(), me, own, [Clear(caller)]);
          acts, own := acts + more, own + [Clear(caller)];
        }
      }
      assert own == [stop] + if stopReader && returned then [Join(caller), Clear(caller)] else [];
    }

    /** gsusb_close: the locked region, the join if a reader was running, and the
        destruction of the queues. */
    method Close(caller: nat, beforeJoin: seq<Action>, beforeFree: seq<Action>)
      returns (returned: bool, ghost acts: seq<Action>)
      requires queuesAlive && caller < |calls| && calls[caller] == Idle
      modifies this
      ensures Reaches(old(Now()), acts, Now(), Caller(caller), [Lifecycle.Action.Close(caller)]
                + (if returned then [Join(caller), Free(caller)] else []))
      ensures |calls| == old(|calls|) && calls[caller] == if returned then Idle else CloseJoining(true)
      ensures returned ==> !queuesAlive
      ensures !returned ==> old(readerRunning) && !CanJoin(Now())
    {
      var close, me := Lifecycle.Action.Close(caller), Caller(caller);
      ReachHere(Now(), me);
      ReachStep(Now(), [], Now(), close, me, []);
      acts := [] + [close];
      ghost var own := [] + [close];
      var wasRunning := CloseLocked(caller);
      ghost var before, more := Now(), [];
      returned, more := AwaitReader(caller, beforeJoin);
      ReachOn(old(Now()), acts, before, more, Now(), me, own, if returned then [Join(caller)] else []);
      acts, own := acts + more, own + if returned then [Join(caller)] else [];
      if returned {
        before := Now();
        more := Finish(caller, beforeFree, Free(caller));
        ReachOn(old(Now()), acts, before, more, Now(), me, own, [Free(caller)]);
        acts, own := acts + more, own + [Free(caller)];
      }
      assert own == [close] + if returned then [Join(caller), Free(caller)] else [];
    }

    // ---- The reader thread ----

    /** A step of the reader after other threads have run. */
    method ReaderActs(t: nat, others: seq<Action>, a: Action) returns (ghost acts: seq<Action>)
      requires t < |threads| && IsReaderStep(a, t)
      requires match a
               case Check(_) => threads[t].pc == Checking
               case Read(_, _) => threads[t].pc == Reading
               case Handle(_) => threads[t].pc.Handling?
               case _ => false
      modifies this
      ensures Reaches(old(Now()), acts, Now(), Reader(t), [a])
      ensures |threads| >= old(|threads|)
      ensures match a
              case Check(_) => threads[t].pc == if stopFlag then Exited else Reading
              case Read(_, outcome) =>
                threads[t].pc == (match outcome case Packet(ch) => Handling(ch) case NoData => Checking case Dead => Exited)
              case _ => threads[t].pc == Checking
    {
      acts := Others(others, Reader(t));
      ReachStep(old(Now()), acts, Now(), a, Reader(t), []);
      assert [] + [a] == [a];
      acts := acts + [a];
      ActReader(a);
    }

    /** One turn of the loop. It is left after the look at stop_flag if that is
        set, and after the read if the device is gone. */
    method ReadOnce(t: nat, turn: Turn) returns (stopped: bool, ghost acts: seq<Action>)
      requires t < |threads| && threads[t].pc == Checking
      modifies this
      ensures Reaches(old(Now()), acts, Now(), Reader(t), if stopped then [Check(t)] else TurnSteps(t, turn.outcome))
      ensures |threads| >= old(|threads|)
      ensures threads[t].pc == if stopped || turn.outcome.Dead? then Exited else Checking
    {
      acts := ReaderActs(t, turn.beforeCheck, Check(t));
      stopped := stopFlag;
      if stopped {
        return;
      }
      ghost var before := Now();
      ghost var more := ReaderActs(t, turn.beforeRead, Read(t, turn.outcome));
      ReachOn(old(Now()), acts, before, more, Now(), Reader(t), [Check(t)], [Read(t, turn.outcome)]);
      acts := acts + more;
      ghost var own := [Check(t)] + [Read(t, turn.outcome)];
      assert own == [Check(t), Read(t, turn.outcome)];
      if turn.outcome.Packet? {
        before := Now();
        more := ReaderActs(t, turn.beforeHandle, Handle(t));
        ReachOn(old(Now()), acts, before, more, Now(), Reader(t), own, [Handle(t)]);
        acts := acts + more;
      }
      assert TurnSteps(t, turn.outcome) == if turn.outcome.Packet? then own + [Handle(t)] else own;
    }

    /** The turn number n of a loop that has come here from start by acts. */
    method TurnOf(t: nat, turns: seq<Turn>, n: nat, ghost start: State, ghost acts: seq<Action>)
      returns (stopped: bool, ghost all: seq<Action>)
      requires n < |turns| && t < |threads| && threads[t].pc == Checking
      requires Reaches(start, acts, Now(), Reader(t), LoopSteps(t, turns[..n], false))
      modifies this
      ensures Reaches(start, all, Now(), Reader(t),
                if stopped then LoopSteps(t, turns[..n], true) else LoopSteps(t, turns[..n + 1], false))
      ensures |threads| >= old(|threads|)
      ensures threads[t].pc == if stopped || turns[n].outcome.Dead? then Exited else Checking
    {
      ghost var more;
      stopped, more := ReadOnce(t, turns[n]);
      TurnReaches(start, acts, old(Now()), more, Now(), t, turns, n, stopped);
      all := acts + more;
    }

    /** The loop of reader_thread_fn: whole turns until it is told to stop, finds
        the device gone, or is still running after the given ones. */
    method Turns(t: nat, turns: seq<Turn>) returns (whole: nat, stopped: bool, ghost acts: seq<Action>)
      requires t < |threads| && threads[t].pc == Checking
      modifies this
      ensures whole <= |turns| && |threads| >= old(|threads|)
      ensures Reaches(old(Now()), acts, Now(), Reader(t), LoopSteps(t, turns[..whole], stopped))
      ensures forall i :: 0 <= i < whole - 1 ==> !turns[i].outcome.Dead?
      ensures threads[t].pc ==
        if stopped || (whole > 0 && turns[whole - 1].outcome.Dead?) then Exited else Checking
      ensures threads[t].pc == Checking ==> whole == |turns|
    {
      whole, stopped, acts := 0, false, [];
      ghost var start := Now();
      ReachHere(start, Reader(t));
      while whole < |turns|
        invariant whole <= |turns| && |threads| >= old(|threads|)
        invariant Reaches(start, acts, Now(), Reader(t), LoopSteps(t, turns[..whole], false))
        invariant forall i :: 0 <= i < whole ==> !turns[i].outcome.Dead?
        invariant threads[t].pc == Checking && !stopped
      {
        stopped, acts := TurnOf(t, turns, whole, start, acts);
        if stopped {
          return;
        }
        whole := whole + 1;
        if turns[whole - 1].outcome.Dead? {
          return;
        }
      }
    }

    /** reader_thread_fn from the allocation of its buffer. The thread takes no
        step besides those of its turns. */
    method ReaderThread(t: nat, bufferOk: bool, turns: seq<Turn>)
      returns (whole: nat, stopped: bool, ghost acts: seq<Action>)
      requires t < |threads| && threads[t].pc == Entering
      modifies this
      ensures whole <= |turns|
      ensures Reaches(old(Now()), acts, Now(), Reader(t), [Enter(t, bufferOk)] + LoopSteps(t, turns[..whole], stopped))
      ensures forall i :: 0 <= i < whole - 1 ==> !turns[i].outcome.Dead?
      ensures t < |threads| && threads[t].pc ==
        if !bufferOk || stopped || (whole > 0 && turns[whole - 1].outcome.Dead?) then Exited else Checking
      ensures threads[t].pc == Checking ==> whole == |turns|
      ensures !bufferOk ==> whole == 0 && !stopped
    {
      var enter := Enter(t, bufferOk);
      whole, stopped := 0, false;
      ReachHere(Now(), Reader(t));
      ReachStep(Now(), [], Now(), enter, Reader(t), []);
      ActReader(enter);
      acts := [] + [enter];
      assert [] + [enter] == [enter];
      assert [enter] + LoopSteps(t, turns[..0], false) == [enter];
      if bufferOk {
        ghost var before, more := Now(), [];
        whole, stopped, more := Turns(t, turns);
        ReachOn(old(Now()), acts, before, more, Now(), Reader(t), [enter], LoopSteps(t, turns[..whole], stopped));
        acts := acts + more;
      }
    }
  }
}
