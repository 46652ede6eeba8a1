/** Exactly which calls of start, stop and close may begin while another of them
    is in progress. */
module LifecycleOverlap {
  import opened Lifecycle

  lemma RunStep(s: State, a: Action, r: State, rest: seq<Action>)
    requires Enabled(s, a) && Next(s, a) == r && IsRun(r, rest)
    ensures IsRun(s, [a] + rest) && After(s, [a] + rest) == After(r, rest)
  {
    assert ([a] + rest)[1..] == rest;
  }

  // ---- How a call in progress ends ----

  /** Every tame run from here stays in order. */
  ghost predicate StaysOrderly(s: State) {
    forall acts :: IsTameRun(s, acts) ==> IsRun(s, acts) && Orderly(After(s, acts))
  }

  /** The steps lead from s to r, and no call begins in them. */
  ghost predicate Leads(s: State, acts: seq<Action>, r: State) {
    IsRun(s, acts) && After(s, acts) == r && forall i :: 0 <= i < |acts| ==> !Begins(acts[i])
  }

  lemma LeadFirst(s: State, a: Action, acts: seq<Action>, r: State)
    requires Enabled(s, a) && !Begins(a) && Leads(Next(s, a), acts, r)
    ensures Leads(s, [a] + acts, r)
  {
    RunStep(s, a, Next(s, a), acts);
  }

  lemma {:induction false} LeadsTamely(s: State, acts: seq<Action>, r: State)
    requires Leads(s, acts, r)
    ensures IsTameRun(s, acts)
    decreases acts
  {
    if acts != [] {
      assert !Begins(acts[0]);
      LeadsTamely(Next(s, acts[0]), acts[1..], r);
    }
  }

  /** The reader's next step, for one that is not gone. */
  function ReaderStep(pc: ReaderPc, t: nat): Action
    requires pc != Exited
  {
    match pc
    case Entering => Enter(t, true)
    case Checking => Check(t)
    case Reading => Read(t, NoData)
    case Handling(_) => Handle(t)
  }

  lemma ReaderMoves(s: State)
    requires s.threads != [] && !CanJoin(s) && s.stopFlag
    ensures var t := |s.threads| - 1; var a := ReaderStep(s.threads[t].pc, t);
      && Enabled(s, a) && !Begins(a)
      && (var r := Next(s, a);
          && r.calls == s.calls && r.started == s.started && r.activeChannels == s.activeChannels
          && r.readerRunning == s.readerRunning && r.stopFlag && r.queuesAlive == s.queuesAlive
          && |r.threads| == |s.threads| && Distance(r.threads[t].pc) < Distance(s.threads[t].pc))
  {}

  /** The caller waits for a reader although none was ever created. */
  ghost predicate WillJoinNobody(s: State, caller: nat) { WillJoin(s, caller) && s.threads == [] }

  /** What a call that has returned in r, and been in progress in s, has done. */
  ghost predicate Finished(s: State, caller: nat, r: State)
    requires caller < |s.calls| && !WillJoinNobody(s, caller)
  {
    && r.calls == s.calls[caller := Idle]
    && r.started == s.started && r.activeChannels == s.activeChannels && |r.threads| == |s.threads|
    && (if WillJoin(s, caller) then r.threads[|r.threads| - 1].joined else r.threads == s.threads)
    && match s.calls[caller]
       case Idle => true
       case StopJoining => !r.readerRunning && r.queuesAlive == s.queuesAlive
       case StopClearing => !r.readerRunning && r.queuesAlive == s.queuesAlive
       case _ => !r.queuesAlive
  }

  lemma ReturnFinishes(s: State, caller: nat) returns (acts: seq<Action>, r: State)
    requires caller < |s.calls| && (s.calls[caller] == StopClearing || s.calls[caller] == CloseFreeing)
    ensures Leads(s, acts, r) && Finished(s, caller, r)
  {
    var a := if s.calls[caller] == StopClearing then Clear(caller) else Free(caller);
    r := Next(s, a);
    LeadFirst(s, a, [], r);
    acts := [a] + [];
  }

  lemma JoinFinishes(s: State, caller: nat) returns (acts: seq<Action>, r: State)
    requires Enabled(s, Join(caller))
    ensures Leads(s, acts, r) && Finished(s, caller, r)
  {
    acts, r := ReturnFinishes(Next(s, Join(caller)), caller);
    LeadFirst(s, Join(caller), acts, r);
    acts := [Join(caller)] + acts;
  }

  /** The call of one caller, with the steps of the reader it waits for, can
      always be led to its end without any other call beginning or moving. */
  lemma {:induction false} CallFinishes(s: State, caller: nat) returns (acts: seq<Action>, r: State)
    requires caller < |s.calls| && s.calls[caller] != Idle
    requires WillJoin(s, caller) ==> s.threads != [] && s.stopFlag
    ensures Leads(s, acts, r) && Finished(s, caller, r)
    decreases if s.threads == [] then 0 else Distance(s.threads[|s.threads| - 1].pc)
  {
    if s.calls[caller] == StopClearing || s.calls[caller] == CloseFreeing {
      acts, r := ReturnFinishes(s, caller);
    } else if WillJoin(s, caller) && !CanJoin(s) {
      ReaderMoves(s);
      var a := ReaderStep(s.threads[|s.threads| - 1].pc, |s.threads| - 1);
      acts, r := CallFinishes(Next(s, a), caller);
      LeadFirst(s, a, acts, r);
      acts := [a] + acts;
    } else {
      acts, r := JoinFinishes(s, caller);
    }
  }

  // ---- Exactly the harmless calls may overlap ----

  lemma StartUpsets(s: State, a: Action, c: nat, r: State)
    requires Tame(s) && Enabled(s, a) && a.Start? && !Harmless(s, a)
    requires c < |s.calls| && s.calls[c] != Idle && CallFits(s, s.calls[c]) && !WillJoinNobody(Next(s, a), c)
    requires Finished(Next(s, a), c, r)
    ensures !Orderly(r)
  {
    if Closing(s) {
      ClosingFits(s, c);
      assert Unjoined(r, |r.threads| - 1);
    } else {
      assert AllIdle(r);
    }
  }

  lemma StopUpsets(s: State, a: Action, c: nat, r: State)
    requires Tame(s) && Enabled(s, a) && a.Stop? && !Harmless(s, a)
    requires c < |s.calls| && s.calls[c] != Idle && CallFits(s, s.calls[c]) && !WillJoinNobody(Next(s, a), c)
    requires Finished(Next(s, a), c, r)
    ensures !Orderly(r)
  {
    CountPositive(s.started, a.channel);
    assert r.calls[a.caller] == StopJoining;
  }

  lemma CloseUpsets(s: State, a: Action, c: nat, r: State)
    requires Tame(s) && Enabled(s, a) && a.Close?
    requires c < |s.calls| && s.calls[c] != Idle && CallFits(s, s.calls[c]) && !WillJoinNobody(Next(s, a), c)
    requires Finished(Next(s, a), c, r)
    ensures !Orderly(r)
  {
    if s.calls[c] == StopJoining || s.calls[c] == StopClearing {
      assert WillJoin(r, a.caller);
    }
    assert r.calls[a.caller] != Idle;
  }

  /** A call that begins harmfully upsets the order at the latest when the call
      it overlaps with returns, without any further call. */
  lemma HarmfulBreaks(s: State, a: Action) returns (acts: seq<Action>, r: State)
    requires Tame(s) && Enabled(s, a) && Begins(a) && !AllIdle(s) && !Harmless(s, a)
    ensures Leads(Next(s, a), acts, r) && !Orderly(r)
  {
    var c: nat :| c < |s.calls| && s.calls[c] != Idle;
    assert CallFits(s, s.calls[c]);
    assert Next(s, a).calls[c] == s.calls[c];
    acts, r := CallFinishes(Next(s, a), c);
    if a.Start? {
      StartUpsets(s, a, c, r);
    } else if a.Stop? {
      StopUpsets(s, a, c, r);
    } else {
      CloseUpsets(s, a, c, r);
    }
  }

  /** Of a call that begins while another is in progress, in any state reachable
      so far in order: it is harmless exactly when the order is kept for ever
      after, as long as the calls that overlap later are harmless too. */
  lemma OverlapAllowedIffHarmless(channels: nat, callers: nat, acts: seq<Action>, a: Action)
    requires IsTameRun(Init(channels, callers), acts) && IsRun(Init(channels, callers), acts)
    requires var s := After(Init(channels, callers), acts); Enabled(s, a) && Begins(a) && !AllIdle(s)
    ensures var s := After(Init(channels, callers), acts); Harmless(s, a) <==> StaysOrderly(Next(s, a))
  {
    InitIsTame(channels, callers);
    TameAlongRun(Init(channels, callers), acts);
    var s := After(Init(channels, callers), acts);
    if Harmless(s, a) {
      TameStep(s, a);
      forall more | IsTameRun(Next(s, a), more) ensures IsRun(Next(s, a), more) && Orderly(After(Next(s, a), more)) {
        TameAlongRun(Next(s, a), more);
        TameIsOrderly(After(Next(s, a), more));
      }
    } else {
      var more, r := HarmfulBreaks(s, a);
      LeadsTamely(Next(s, a), more, r);
    }
  }

  // ---- A harmful overlap from the start ----

  /** One caller stops the only channel; another starts it again before the
      reader is joined. */
  function OverlappingRun(): seq<Action> {
    [Start(0, 0, true, true)] + ([Enter(0, true)] + ([Stop(0, 0)] + AfterTheStop()))
  }

  function AfterTheStop(): seq<Action> {
    [Start(1, 0, true, true)] + ([Check(0)] + ([Join(0)] + ([Clear(0)] + [])))
  }

  /** States of the one-channel device with one reader and two callers. */
  function Snapshot(started: bool, running: bool, stop: bool, t: Thread, c: CallPc): State {
    State([started], if started then 1 else 0, running, stop, [t], [c, Idle], true, false, 0)
  }

  lemma OverlapEnds()
    ensures var s := Snapshot(false, true, true, Thread(Checking, false), StopJoining);
      IsRun(s, AfterTheStop()) &&
      After(s, AfterTheStop()) == Snapshot(true, false, true, Thread(Exited, true), Idle)
  {
    var s3 := Snapshot(false, true, true, Thread(Checking, false), StopJoining);
    var s4 := Snapshot(true, true, true, Thread(Checking, false), StopJoining);
    var s5 := Snapshot(true, true, true, Thread(Exited, false), StopJoining);
    var s6 := Snapshot(true, true, true, Thread(Exited, true), StopClearing);
    var s7 := Snapshot(true, false, true, Thread(Exited, true), Idle);
    RunStep(s6, Clear(0), s7, []);
    RunStep(s5, Join(0), s6, [Clear(0)] + []);
    RunStep(s4, Check(0), s5, [Join(0)] + ([Clear(0)] + []));
    RunStep(s3, Start(1, 0, true, true), s4, [Check(0)] + ([Join(0)] + ([Clear(0)] + [])));
  }

  /** A harmful start during a stop, from the initial state: every call has
      returned, a channel is active, and no reader runs or will be started for
      it; its next stop would join a joined thread. */
  lemma OverlapLosesTheReader()
    ensures IsRun(Init(1, 2), OverlappingRun())
    ensures var s := After(Init(1, 2), OverlappingRun());
      && AllIdle(s) && s.activeChannels == 1 && s.started == [true] && !s.readerRunning
      && s.threads == [Thread(Exited, true)]
      && Enabled(s, Stop(0, 0)) && WillJoin(Next(s, Stop(0, 0)), 0)
  {
    var s0 := Init(1, 2);
    var s1 := Snapshot(true, true, false, Thread(Entering, false), Idle);
    var s2 := Snapshot(true, true, false, Thread(Checking, false), Idle);
    var s3 := Snapshot(false, true, true, Thread(Checking, false), StopJoining);
    OverlapEnds();
    RunStep(s2, Stop(0, 0), s3, AfterTheStop());
    RunStep(s1, Enter(0, true), s2, [Stop(0, 0)] + AfterTheStop());
    RunStep(s0, Start(0, 0, true, true), s1, [Enter(0, true)] + ([Stop(0, 0)] + AfterTheStop()));
  }
}
