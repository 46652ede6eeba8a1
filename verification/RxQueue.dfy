/** The per-channel receive queue: a ring buffer that overwrites its oldest
    entry, against its meaning as a bounded sequence. */
module RxQueue {
  import opened Words
  import opened History
  import opened Subsequence

  const RXQ_CAPACITY := 512

  // ---- Meaning ----

  /** A full queue loses its oldest element to make room. */
  function PushOldest<T>(s: seq<T>, cap: nat, x: T): (r: seq<T>)
    requires cap > 0 && |s| <= cap
    ensures |r| == Min(cap, |s| + 1)
  {
    (if |s| == cap then s[1..] else s) + [x]
  }

  datatype Queue<T> = Queue(contents: seq<T>, drops: nat)
  {
    predicate Fits() { |contents| <= RXQ_CAPACITY }

    function Push(x: T): (q: Queue<T>)
      requires Fits()
      ensures q.Fits()
    {
      Queue(PushOldest(contents, RXQ_CAPACITY, x), drops + (if |contents| == RXQ_CAPACITY then 1 else 0))
    }
  }

  /** What one pass of recv through its loop, with the lock held, comes to. */
  datatype Attempt<T> = Delivered(frame: T) | Invalid | NoFrame | MustWait

  /** A pass delivers the oldest element; only on an empty queue does it look at
      started and at the timeout. */
  function Attempted<T>(contents: seq<T>, started: bool, timeoutMs: nat): Attempt<T> {
    if contents != [] then Delivered(contents[0])
    else if !started then Invalid
    else if timeoutMs == 0 then NoFrame
    else MustWait
  }

  // ---- Ring buffer ----

  /** The buffer index of the i-th queued element. */
  function Slot(head: nat, i: nat): (k: nat)
    requires head < RXQ_CAPACITY && i <= RXQ_CAPACITY
  {
    if head + i < RXQ_CAPACITY then head + i else head + i - RXQ_CAPACITY
  }

  lemma WrapsOnce(x: nat, m: nat)
    requires x < 2 * m
    ensures x % m == if x < m then x else x - m
  {}

  class Ring<T(0)> {
    const buf: array<T>
    var head: nat
    var len: nat
    var drops: nat

    /** The queued elements, oldest first. */
    ghost var contents: seq<T>

    ghost predicate Valid()
      reads this, buf
    {
      && buf.Length == RXQ_CAPACITY && head < RXQ_CAPACITY && len <= RXQ_CAPACITY
      && |contents| == len
      && forall i :: 0 <= i < len ==> contents[i] == buf[Slot(head, i)]
    }

    ghost function State(): (q: Queue<T>)
      requires Valid()
      reads this, buf
      ensures q.Fits()
    {
      Queue(contents, drops)
    }

    /** rxq_init. */
    constructor ()
      ensures Valid() && fresh(buf)
      ensures State() == Queue([], 0)
    {
      buf := new T[RXQ_CAPACITY];
      head, len, drops := 0, 0, 0;
      contents := [];
    }

    /** rxq_push. */
    method Push(x: T)
      requires Valid()
      modifies this, buf
      ensures Valid() && State() == old(State()).Push(x)
      ensures contents == (if |old(contents)| == 512 then old(contents)[1..] else old(contents)) + [x]
      ensures drops == old(drops) + (if |old(contents)| == 512 then 1 else 0)
    {
      if len == buf.Length {
        WrapsOnce(head + 1, buf.Length);
        head := (head + 1) % buf.Length;
        len := len - 1;
        drops := drops + 1;
        contents := contents[1..];
      }
      WrapsOnce(head + len, buf.Length);
      var tail := (head + len) % buf.Length;
      buf[tail] := x;
      len := len + 1;
      contents := contents + [x];
    }

    /** One pass of gsusb_channel_recv through its loop: the oldest element if
        there is one, and otherwise the error of a stopped channel, the plain
        zero of a call that does not wait, or a wait for the reader. */
    method TryRecv(started: bool, timeoutMs: nat) returns (r: Attempt<T>)
      requires Valid()
      modifies this
      ensures Valid()
      ensures r == Attempted(old(contents), started, timeoutMs)
      ensures old(contents) != [] ==>
        r == Delivered(old(contents)[0]) && contents == old(contents)[1..] && drops == old(drops)
      ensures old(contents) == [] ==>
        && contents == [] && drops == old(drops)
        && r == if !started then Invalid else if timeoutMs == 0 then NoFrame else MustWait
      ensures State() == if r.Delivered? then Queue(old(contents)[1..], old(drops)) else old(State())
    {
      if len == 0 {
        if !started {
          return Invalid;
        }
        if timeoutMs == 0 {
          return NoFrame;
        }
        return MustWait;
      }
      r := Delivered(buf[head]);
      WrapsOnce(head + 1, buf.Length);
      head := (head + 1) % buf.Length;
      len := len - 1;
      contents := contents[1..];
    }
  }

  // ---- Runs ----

  /** What can happen to one channel's queue: pushes by the reader, passes of
      recv, and the channel being started or stopped. */
  datatype Event<T> = PushE(x: T) | RecvE(timeoutMs: nat) | StartE | StopE

  /** The queue with the histories of what was pushed, what was delivered, and
      what the passes of recv came to. */
  datatype Trace<T> = Trace(q: Queue<T>, started: bool, pushed: seq<T>, delivered: seq<T>, results: seq<Attempt<T>>)

  function Step<T>(t: Trace<T>, e: Event<T>): (r: Trace<T>)
    requires t.q.Fits()
    ensures r.q.Fits()
  {
    match e
    case PushE(x) => t.(q := t.q.Push(x), pushed := t.pushed + [x])
    case RecvE(ms) =>
      var r := t.(results := t.results + [Attempted(t.q.contents, t.started, ms)]);
      if t.q.contents == [] then r
      else r.(q := Queue(t.q.contents[1..], t.q.drops), delivered := t.delivered + [t.q.contents[0]])
    case StartE => t.(started := true)
    case StopE => t.(started := false)
  }

  function Run<T>(t: Trace<T>, es: seq<Event<T>>): (r: Trace<T>)
    requires t.q.Fits()
    ensures r.q.Fits()
    decreases es
  {
    if es == [] then t else Run(Step(t, es[0]), es[1..])
  }

  function Initial<T>(): Trace<T> { Trace(Queue([], 0), false, [], [], []) }

  /** The contents are the last pushed elements, every pushed element is
      delivered, queued or dropped, and what is delivered and queued is in push
      order without repetition. */
  ghost predicate Accounted<T>(t: Trace<T>) {
    t.q.Fits() && Flow(t.delivered, t.q.contents, t.pushed, t.q.drops)
  }

  lemma StepAccounts<T>(t: Trace<T>, e: Event<T>)
    requires Accounted(t)
    ensures Accounted(Step(t, e))
  {
    var s := t.q.contents;
    match e {
      case PushE(x) =>
        if |s| == RXQ_CAPACITY {
          FlowDrop(t.delivered, s, t.pushed, t.q.drops);
          FlowIn(t.delivered, s[1..], t.pushed, t.q.drops + 1, x);
        } else {
          FlowIn(t.delivered, s, t.pushed, t.q.drops, x);
        }
      case RecvE(_) =>
        if s != [] { FlowOut(t.delivered, s, t.pushed, t.q.drops); }
      case StartE =>
      case StopE =>
    }
  }

  lemma {:induction false} RunAccounts<T>(t: Trace<T>, es: seq<Event<T>>)
    requires Accounted(t)
    ensures Accounted(Run(t, es))
    decreases es
  {
    if es != [] {
      StepAccounts(t, es[0]);
      RunAccounts(Step(t, es[0]), es[1..]);
    }
  }

  /** The accounting holds after every run, across stops and restarts, and a
      run without drops has lost nothing. */
  lemma RingRefinesBoundedSequence<T>(es: seq<Event<T>>)
    ensures var t := Run(Initial(), es);
      && Accounted(t)
      && IsSubsequence(t.delivered, t.pushed)
      && (t.q.drops == 0 <==> t.delivered + t.q.contents == t.pushed)
  {
    FlowStarts<T>();
    RunAccounts(Initial<T>(), es);
    var t := Run(Initial(), es);
    FlowLossless(t.delivered, t.q.contents, t.pushed, t.q.drops);
  }

  /** Every push of the run finds room. */
  predicate NeverFull<T>(t: Trace<T>, es: seq<Event<T>>)
    requires t.q.Fits()
    decreases es
  {
    es == [] || (&& (es[0].PushE? ==> |t.q.contents| < RXQ_CAPACITY)
                 && NeverFull(Step(t, es[0]), es[1..]))
  }

  /** A run loses nothing exactly when no push of it finds the queue full. */
  lemma {:induction false} LosslessIffNeverFull<T>(t: Trace<T>, es: seq<Event<T>>)
    requires t.q.Fits()
    ensures Run(t, es).q.drops >= t.q.drops
    ensures Run(t, es).q.drops == t.q.drops <==> NeverFull(t, es)
    decreases es
  {
    if es != [] { LosslessIffNeverFull(Step(t, es[0]), es[1..]); }
  }

  /** Passes of recv in a row, with their timeouts. */
  function Recvs<T>(timeouts: seq<nat>): (r: seq<Event<T>>)
    ensures |r| == |timeouts|
  {
    seq(|timeouts|, i requires 0 <= i < |timeouts| => RecvE(timeouts[i]))
  }

  /** What passes over the queue of t should come to, said without running them:
      its elements delivered in order, and for every further pass what an empty
      queue gives. */
  ghost predicate DrainedTo<T>(t: Trace<T>, timeouts: seq<nat>, r: Trace<T>) {
    var s, n := t.q.contents, Min(|timeouts|, |t.q.contents|);
    && r.q == Queue(s[n..], t.q.drops) && r.delivered == t.delivered + s[..n]
    && r.started == t.started && r.pushed == t.pushed
    && |r.results| == |t.results| + |timeouts| && t.results <= r.results
    && forall i :: 0 <= i < |timeouts| ==>
      r.results[|t.results| + i] == PassResult(s, t.started, timeouts[i], i)
  }

  /** The i-th pass over s: INVALID exactly if s has run out and the channel is
      stopped. */
  function PassResult<T>(s: seq<T>, started: bool, timeoutMs: nat, i: nat): (r: Attempt<T>)
    ensures r.Invalid? <==> i >= |s| && !started
  {
    if i < |s| then Delivered(s[i]) else if !started then Invalid else if timeoutMs == 0 then NoFrame else MustWait
  }

  /** Any number of passes over a backlog drain it in order, whether or not the
      channel has been stopped. Only the passes after that find nothing, and on
      a stopped channel each of these, and no earlier one, reports INVALID. */
  lemma {:induction false} BacklogDrainsInOrder<T>(t: Trace<T>, timeouts: seq<nat>)
    requires t.q.Fits()
    ensures DrainedTo(t, timeouts, Run(t, Recvs(timeouts)))
    decreases |timeouts|
  {
    if timeouts == [] {
      assert t.q.contents[0..] == t.q.contents && t.delivered + t.q.contents[..0] == t.delivered;
    } else {
      var next := Step(t, RecvE(timeouts[0]));
      BacklogDrainsInOrder(next, timeouts[1..]);
      assert Recvs<T>(timeouts)[1..] == Recvs<T>(timeouts[1..]);
      DrainedStep(t, timeouts, Run(next, Recvs(timeouts[1..])));
    }
  }

  lemma DrainedStep<T>(t: Trace<T>, timeouts: seq<nat>, r: Trace<T>)
    requires t.q.Fits() && timeouts != [] && DrainedTo(Step(t, RecvE(timeouts[0])), timeouts[1..], r)
    ensures DrainedTo(t, timeouts, r)
  {
    var next := Step(t, RecvE(timeouts[0]));
    var s, n := t.q.contents, |t.results|;
    assert r.results[n] == next.results[n];
    forall i | 0 <= i < |timeouts| ensures r.results[n + i] == PassResult(s, t.started, timeouts[i], i) {
      if i > 0 {
        assert r.results[|next.results| + (i - 1)]
            == PassResult(next.q.contents, t.started, timeouts[1..][i - 1], i - 1);
      }
    }
    if s != [] {
      var m := Min(|timeouts| - 1, |s| - 1);
      assert s[1..][m..] == s[m + 1..];
      assert t.delivered + [s[0]] + s[1..][..m] == t.delivered + s[..m + 1];
    }
  }

  /** Pushes in a row. */
  function Pushes<T>(xs: seq<T>): (r: seq<Event<T>>)
    ensures |r| == |xs|
  {
    seq(|xs|, i requires 0 <= i < |xs| => PushE(xs[i]))
  }

  lemma {:induction false} PushesAdd<T>(t: Trace<T>, xs: seq<T>)
    requires t.q.Fits()
    ensures var r := Run(t, Pushes(xs));
      && r.pushed == t.pushed + xs && r.delivered == t.delivered && r.results == t.results
      && |r.q.contents| == Min(512, |t.q.contents| + |xs|)
      && r.q.drops == t.q.drops + Max(0, |t.q.contents| + |xs| - 512)
    decreases xs
  {
    if xs != [] {
      assert Pushes(xs)[1..] == Pushes(xs[1..]);
      PushesAdd(Step(t, PushE(xs[0])), xs[1..]);
      assert t.pushed + [xs[0]] + xs[1..] == t.pushed + xs;
    }
  }

  /** Frames that nobody receives: the last 512 are kept and the others counted
      as dropped. */
  lemma UnreceivedKeepsLast512<T>(xs: seq<T>)
    ensures var t := Run(Initial<T>(), Pushes(xs)); var n := Min(512, |xs|);
      t.q.contents == xs[|xs| - n..] && t.q.drops == |xs| - n
  {
    PushesAdd(Initial<T>(), xs);
    RingRefinesBoundedSequence(Pushes(xs));
  }

  function Starts<T>(es: seq<Event<T>>): (r: seq<bool>)
    ensures |r| == |es|
  {
    if es == [] then [] else [es[0].StartE?] + Starts(es[1..])
  }

  function Stops<T>(es: seq<Event<T>>): (r: seq<bool>)
    ensures |r| == |es|
  {
    if es == [] then [] else [es[0].StopE?] + Stops(es[1..])
  }

  /** The channel counts as started, for what recv reports, exactly if it was
      started after the last stop. */
  lemma {:induction false} StartedAlongRun<T>(t: Trace<T>, es: seq<Event<T>>)
    requires t.q.Fits()
    ensures Run(t, es).started <==>
      SetLast(Starts(es), Stops(es)) || (t.started && NoneFrom(Stops(es), 0))
    decreases es
  {
    if es != [] {
      StartedAlongRun(Step(t, es[0]), es[1..]);
      SetLastFirst(es[0].StartE?, es[0].StopE?, Starts(es[1..]), Stops(es[1..]));
    }
  }
}
