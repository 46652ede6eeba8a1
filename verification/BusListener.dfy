/** The listener loop of the Python Bus over the bus's own fields, with other
    threads acting between its steps, proved to be a run of the pipeline
    machine. */
module BusListener {
  import opened Words
  import opened RxQueue
  import opened Pipeline

  /** What other threads may do between two steps of the listener. */
  datatype Other<T> = Arrive(x: T) | TakeOne | RequestStop

  /** The surroundings of one loop iteration: the other threads' actions before
      the poll, before the first put, before the get and before the second put,
      and whether the poll times out although a frame is there. */
  datatype Turn<T> = Turn(beforePoll: seq<Other<T>>, beforePut: seq<Other<T>>,
                          beforeGet: seq<Other<T>>, beforeRetry: seq<Other<T>>, timesOut: bool)

  /** acts lead from s to r. */
  ghost predicate Reaches<T>(s: State<T>, acts: seq<Action<T>>, r: State<T>) {
    IsRun(s, acts) && After(s, acts) == r
  }

  lemma ReachHere<T>(s: State<T>)
    ensures Reaches(s, [], s)
  {}

  lemma {:induction false} ReachOn<T>(s: State<T>, acts: seq<Action<T>>, r: State<T>, more: seq<Action<T>>, t: State<T>)
    requires Reaches(s, acts, r) && Reaches(r, more, t)
    ensures Reaches(s, acts + more, t)
    ensures Iterations(acts + more) == Iterations(acts) + Iterations(more)
    decreases acts
  {
    IterationsAdd(acts, more);
    if acts == [] {
      assert acts + more == more;
    } else {
      ReachOn(Next(s, acts[0]), acts[1..], r, more, t);
      assert (acts + more)[1..] == acts[1..] + more;
    }
  }

  lemma ReachStep<T>(s: State<T>, acts: seq<Action<T>>, r: State<T>, a: Action<T>)
    requires Reaches(s, acts, r) && Enabled(r, a)
    ensures Reaches(s, acts + [a], Next(r, a))
    ensures Iterations(acts + [a]) == Iterations(acts) + (if a == TestStop then 1 else 0)
  {
    var t := Next(r, a);
    ReachHere(t);
    assert [a][1..] == [];
    assert After(r, [a]) == After(t, [a][1..]);
    assert Reaches(r, [a], t);
    ReachOn(s, acts, r, [a], t);
  }

  /** Loop iterations among the steps: looks at the stop event. */
  function Iterations<T>(acts: seq<Action<T>>): nat {
    if acts == [] then 0 else (if acts[0] == TestStop then 1 else 0) + Iterations(acts[1..])
  }

  lemma {:induction false} IterationsAdd<T>(a: seq<Action<T>>, b: seq<Action<T>>)
    ensures Iterations(a + b) == Iterations(a) + Iterations(b)
    decreases a
  {
    if a == [] {
      assert a + b == b;
    } else {
      IterationsAdd(a[1..], b);
      assert (a + b)[1..] == a[1..] + b;
    }
  }

  class Bus<T> {
    var ring: seq<T>
    var recvQueue: seq<T>
    var started: bool
    var stopEvent: bool
    var channelStarted: bool

    constructor ()
      ensures Matches(Init())
    {
      ring, recvQueue := [], [];
      started, stopEvent, channelStarted := false, false, false;
      new;
      ReachHere(Init<T>());
      ReachableSound<T>([]);
    }

    ghost predicate Matches(s: State<T>)
      reads this
    {
      && ring == s.ring && recvQueue == s.recvQueue
      && started == s.busStarted && stopEvent == s.stopEvent && channelStarted == s.channelStarted
      && Sound(s)
    }

    /** Another thread acts: the reader pushes, recv() takes the oldest queued
        frame or times out, stop() sets the event. */
    method InterfereOnce(ghost s: State<T>, other: Other<T>)
      returns (ghost r: State<T>, ghost acts: seq<Action<T>>)
      requires Matches(s) && s.busStarted
      modifies this
      ensures Matches(r) && Reaches(s, acts, r) && r.pc == s.pc && r.busStarted
      ensures r.dispatched == s.dispatched && Iterations(acts) == 0
    {
      r, acts := s, [];
      ReachHere(s);
      ghost var a;
      match other {
        case Arrive(x) =>
          a := ReaderPush(x);
          ring := PushOldest(ring, RXQ_CAPACITY, x);
        case TakeOne =>
          if recvQueue == [] {
            return;
          }
          a := Action<T>.Recv;
          recvQueue := recvQueue[1..];
        case RequestStop =>
          a := BusStopRequest;
          stopEvent := true;
      }
      StepSound(s, a);
      ReachStep(s, [], s, a);
      r, acts := Next(s, a), [] + [a];
    }

    /** Other threads run. */
    method Interfere(ghost s: State<T>, others: seq<Other<T>>)
      returns (ghost r: State<T>, ghost acts: seq<Action<T>>)
      requires Matches(s) && s.busStarted
      modifies this
      ensures Matches(r) && Reaches(s, acts, r) && r.pc == s.pc && r.busStarted
      ensures r.dispatched == s.dispatched && Iterations(acts) == 0
    {
      r, acts := s, [];
      ReachHere(s);
      for i := 0 to |others|
        invariant Matches(r) && Reaches(s, acts, r) && r.pc == s.pc && r.busStarted
        invariant r.dispatched == s.dispatched && Iterations(acts) == 0
      {
        ghost var t, more := InterfereOnce(r, others[i]);
        ReachOn(s, acts, r, more, t);
        r, acts := t, acts + more;
      }
    }

    /** recv: the oldest queued frame, or nothing on a time-out. */
    method Recv(ghost s: State<T>) returns (frame: Option<T>)
      requires Matches(s)
      modifies this
      ensures old(recvQueue) != [] ==>
        && frame == Some(old(recvQueue)[0]) && recvQueue == old(recvQueue)[1..]
        && Matches(Next(s, Action<T>.Recv)) && Next(s, Action<T>.Recv).delivered == s.delivered + [frame.value]
      ensures old(recvQueue) == [] ==> frame == None && Matches(s)
    {
      if recvQueue == [] {
        return None;
      }
      StepSound(s, Action<T>.Recv);
      frame := Some(recvQueue[0]);
      recvQueue := recvQueue[1..];
    }

    /** start, its parts behind the driver's: nothing if the bus is started or the
        driver refuses, and otherwise a listener at the top of its loop with the
        stop event clear. */
    method Start(ghost s: State<T>, rc: int) returns (began: bool)
      requires Matches(s) && (!started ==> s.pc.NotRunning?)
      modifies this
      ensures began <==> !old(started) && rc >= 0
      ensures began ==>
        && Matches(Next(s, Action<T>.BusStart)) && started && channelStarted && !stopEvent
        && Next(s, Action<T>.BusStart).pc == Looping
      ensures !began ==> Matches(s)
    {
      if started || rc < 0 {
        return false;
      }
      StepSound(s, Action<T>.BusStart);
      started, channelStarted, stopEvent := true, true, false;
      began := true;
    }

    /** stop, up to its join and behind it: the event is set, and once the
        listener is gone the channel is stopped. */
    method RequestStop(ghost s: State<T>)
      requires Matches(s)
      modifies this
      ensures if old(started) then Matches(Next(s, Action<T>.BusStopRequest)) && stopEvent else Matches(s)
      ensures ring == old(ring) && recvQueue == old(recvQueue)
      ensures started == old(started) && channelStarted == old(channelStarted)
    {
      if started {
        StepSound(s, Action<T>.BusStopRequest);
        stopEvent := true;
      }
    }

    method FinishStop(ghost s: State<T>)
      requires Matches(s) && started && stopEvent && s.pc.NotRunning?
      modifies this
      ensures Matches(Next(s, Action<T>.BusStopFinish)) && !started && !channelStarted
      ensures ring == old(ring) && recvQueue == old(recvQueue) && stopEvent
    {
      StepSound(s, Action<T>.BusStopFinish);
      started, channelStarted := false, false;
    }

    /** put_nowait, for the first or the second time. */
    method PutNowait(ghost s: State<T>, ghost a: Action<T>, frame: T) returns (full: bool)
      requires Matches(s) && ((a == PutFirst && s.pc == GotFrame(frame)) || (a == PutSecond && s.pc == MadeRoom(frame)))
      modifies this
      ensures Matches(Next(s, a))
      ensures full <==> a == PutFirst && |s.recvQueue| == 512
      ensures !full ==> recvQueue == s.recvQueue + [frame]
      ensures Next(s, a).pc == if full then FoundFull(frame) else Dispatching(frame)
      ensures Next(s, a).busStarted == s.busStarted && Next(s, a).dispatched == s.dispatched
    {
      StepSound(s, a);
      full := |recvQueue| >= RECV_QUEUE_MAX;
      if !full {
        recvQueue := recvQueue + [frame];
      }
    }

    /** get_nowait by the listener; an empty queue is passed over. */
    method GetNowait(ghost s: State<T>)
      requires Matches(s) && s.pc.FoundFull?
      modifies this
      ensures Matches(Next(s, GetOldest)) && Next(s, GetOldest).pc == MadeRoom(s.pc.f)
      ensures recvQueue == if s.recvQueue == [] then [] else s.recvQueue[1..]
      ensures Next(s, GetOldest).busStarted == s.busStarted && Next(s, GetOldest).dispatched == s.dispatched
    {
      StepSound(s, GetOldest);
      if recvQueue != [] {
        recvQueue := recvQueue[1..];
      }
    }

    /** The handler of a failed first put: the get, then the second put. */
    method MakeRoom(ghost s: State<T>, turn: Turn<T>)
      returns (ghost r: State<T>, ghost acts: seq<Action<T>>)
      requires Matches(s) && s.busStarted && s.pc.FoundFull?
      modifies this
      ensures Matches(r) && Reaches(s, acts, r) && r.pc == MadeRoom(s.pc.f) && r.busStarted
      ensures r.dispatched == s.dispatched && Iterations(acts) == 0
    {
      r, acts := Interfere(s, turn.beforeGet);
      GetNowait(r);
      ReachStep(s, acts, r, GetOldest);
      r, acts := Next(r, GetOldest), acts + [GetOldest];
    }

    method RetryPut(ghost s: State<T>, frame: T, turn: Turn<T>)
      returns (ghost r: State<T>, ghost acts: seq<Action<T>>)
      requires Matches(s) && s.busStarted && s.pc == MadeRoom(frame)
      modifies this
      ensures Matches(r) && Reaches(s, acts, r) && r.pc == Dispatching(frame) && r.busStarted
      ensures r.dispatched == s.dispatched && Iterations(acts) == 0
      ensures recvQueue != [] && recvQueue[|recvQueue| - 1] == frame
    {
      r, acts := Interfere(s, turn.beforeRetry);
      var full := PutNowait(r, PutSecond, frame);
      ReachStep(s, acts, r, PutSecond);
      r, acts := Next(r, PutSecond), acts + [PutSecond];
    }

    /** Feeding recv()'s queue: put, and if it is full get the oldest and put
        again. However the other threads interleave, the frame ends up in the
        queue as its newest entry. */
    method Feed(ghost s: State<T>, frame: T, turn: Turn<T>)
      returns (ghost r: State<T>, ghost acts: seq<Action<T>>)
      requires Matches(s) && s.busStarted && s.pc == GotFrame(frame)
      modifies this
      ensures Matches(r) && Reaches(s, acts, r) && r.pc == Dispatching(frame) && r.busStarted
      ensures r.dispatched == s.dispatched && Iterations(acts) == 0
      ensures recvQueue != [] && recvQueue[|recvQueue| - 1] == frame
    {
      r, acts := Interfere(s, turn.beforePut);
      var full := PutNowait(r, PutFirst, frame);
      ReachStep(s, acts, r, PutFirst);
      r, acts := Next(r, PutFirst), acts + [PutFirst];
      if full {
        ghost var t, more := MakeRoom(r, turn);
        ReachOn(s, acts, r, more, t);
        r, acts := t, acts + more;
        t, more := RetryPut(r, frame, turn);
        ReachOn(s, acts, r, more, t);
        r, acts := t, acts + more;
      }
    }

    /** The top of the loop up to a frame in hand: the stop test and the poll. */
    method Poll(ghost s: State<T>, turn: Turn<T>)
      returns (leave: bool, frame: Option<T>, ghost r: State<T>, ghost acts: seq<Action<T>>)
      requires Matches(s) && s.busStarted && s.pc == Looping
      modifies this
      ensures Matches(r) && Reaches(s, acts, r) && r.busStarted
      ensures r.dispatched == s.dispatched && Iterations(acts) == 1
      ensures !leave && frame.None? ==> turn.timesOut || ring == []
      ensures s.stopEvent ==> leave && frame.None? && ring == s.ring && recvQueue == s.recvQueue
      ensures !s.stopEvent && !turn.timesOut ==> (leave <==> ring == [] && !channelStarted && frame.None?)
      ensures leave && !s.stopEvent ==> ring == [] && !channelStarted && frame.None?
      ensures r.pc == if leave then NotRunning else if frame.Some? then GotFrame(frame.value) else Looping
    {
      ReachHere(s);
      StepSound(s, TestStop);
      ReachStep(s, [], s, TestStop);
      leave, frame := stopEvent, None;
      r, acts := Next(s, TestStop), [] + [TestStop];
      if leave {
        return;
      }
      ghost var t, more := Interfere(r, turn.beforePoll);
      ReachOn(s, acts, r, more, t);
      ghost var a;
      if turn.timesOut || (ring == [] && channelStarted) {
        a := Action<T>.PollTimeout;
      } else if ring == [] {
        a := Action<T>.PollError;
        leave := true;
      } else {
        a := Action<T>.PollFrame;
        frame := Some(ring[0]);
        ring := ring[1..];
      }
      StepSound(t, a);
      ReachStep(s, acts + more, t, a);
      r, acts := Next(t, a), acts + more + [a];
    }

    /** One loop iteration. */
    method ListenOnce(ghost s: State<T>, turn: Turn<T>)
      returns (leave: bool, frame: Option<T>, ghost r: State<T>, ghost acts: seq<Action<T>>)
      requires Matches(s) && s.busStarted && s.pc == Looping
      modifies this
      ensures Matches(r) && Reaches(s, acts, r) && r.busStarted && Iterations(acts) == 1
      ensures r.pc == if leave then NotRunning else Looping
      ensures r.dispatched == s.dispatched + (if frame.Some? then [frame.value] else [])
      ensures leave ==> frame.None?
      ensures s.stopEvent ==> leave
    {
      leave, frame, r, acts := Poll(s, turn);
      if leave || frame.None? {
        frame := None;
        return;
      }
      ghost var t, more := Feed(r, frame.value, turn);
      ReachOn(s, acts, r, more, t);
      r, acts := t, acts + more;
      StepSound(r, Dispatch);
      ReachStep(s, acts, r, Dispatch);
      r, acts := Next(r, Dispatch), acts + [Dispatch];
    }

    /** _listen_loop: runs of the loop are runs of the machine, one look at the
        stop event a turn, left early only where the machine's listener ends.
        It returns the frames handed to the detectors. */
    method ListenLoop(ghost s: State<T>, turns: seq<Turn<T>>)
      returns (dispatched: seq<T>, ghost r: State<T>, ghost acts: seq<Action<T>>)
      requires Matches(s) && s.busStarted && s.pc == Looping
      modifies this
      ensures Matches(r) && Reaches(s, acts, r)
      ensures r.pc == NotRunning || (r.pc == Looping && Iterations(acts) == |turns|)
      ensures r.dispatched == s.dispatched + dispatched
      ensures s.stopEvent && turns != [] ==> r.pc == NotRunning && dispatched == []
    {
      r, acts, dispatched := s, [], [];
      ReachHere(s);
      for i := 0 to |turns|
        invariant Matches(r) && Reaches(s, acts, r) && r.busStarted && r.pc == Looping
        invariant r.dispatched == s.dispatched + dispatched && Iterations(acts) == i
        invariant i == 0 ==> r == s && dispatched == []
        invariant i > 0 ==> !s.stopEvent
      {
        ghost var t, more;
        var leave, frame;
        leave, frame, t, more := ListenOnce(r, turns[i]);
        ReachOn(s, acts, r, more, t);
        r, acts := t, acts + more;
        if frame.Some? {
          dispatched := dispatched + [frame.value];
        }
        if leave {
          return;
        }
      }
    }
  }
}
