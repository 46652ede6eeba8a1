/** Order-preserving, duplicate-free selections from a sequence. */
module Subsequence {

  /** The positions ix pick sub out of full, each position at most once and in
      increasing order. */
  ghost predicate IsVia<T>(sub: seq<T>, full: seq<T>, ix: seq<nat>) {
    && |ix| == |sub|
    && (forall i, j :: 0 <= i < j < |ix| ==> ix[i] < ix[j])
    && (forall i :: 0 <= i < |ix| ==> ix[i] < |full| && sub[i] == full[ix[i]])
  }

  ghost predicate IsSubsequence<T>(sub: seq<T>, full: seq<T>) {
    exists ix: seq<nat> :: IsVia(sub, full, ix)
  }

  lemma Reflexive<T>(s: seq<T>)
    ensures IsSubsequence(s, s)
  {
    var ix: seq<nat> := seq(|s|, i => i);
    assert IsVia(s, s, ix);
  }

  /** Both sides may be extended by the same element, the full one by any. */
  lemma Extend<T>(sub: seq<T>, full: seq<T>, x: T)
    requires IsSubsequence(sub, full)
    ensures IsSubsequence(sub + [x], full + [x])
    ensures IsSubsequence(sub, full + [x])
  {
    var ix: seq<nat> :| IsVia(sub, full, ix);
    var jx: seq<nat> := ix + [|full|];
    assert IsVia(sub + [x], full + [x], jx);
    assert IsVia(sub, full + [x], ix);
  }

  /** Leaving out one element keeps a subsequence. */
  lemma LeaveOut<T>(sub: seq<T>, full: seq<T>, k: nat)
    requires IsSubsequence(sub, full) && k < |sub|
    ensures IsSubsequence(sub[..k] + sub[k + 1..], full)
  {
    var ix: seq<nat> :| IsVia(sub, full, ix);
    assert IsVia(sub[..k] + sub[k + 1..], full, ix[..k] + ix[k + 1..]);
  }

  lemma Prefix<T>(sub: seq<T>, rest: seq<T>, full: seq<T>)
    requires IsSubsequence(sub + rest, full)
    ensures IsSubsequence(sub, full)
  {
    var ix: seq<nat> :| IsVia(sub + rest, full, ix);
    assert forall i :: 0 <= i < |sub| ==> (sub + rest)[i] == sub[i];
    assert IsVia(sub, full, ix[..|sub|]);
  }

  lemma Transitive<T>(a: seq<T>, b: seq<T>, c: seq<T>)
    requires IsSubsequence(a, b) && IsSubsequence(b, c)
    ensures IsSubsequence(a, c)
  {
    var ix: seq<nat> :| IsVia(a, b, ix);
    var jx: seq<nat> :| IsVia(b, c, jx);
    var kx: seq<nat> := seq(|a|, i requires 0 <= i < |a| => jx[ix[i]]);
    assert IsVia(a, c, kx);
  }

  /** Increasing positions grow at least as fast as their index. */
  lemma {:induction false} PositionsGrow(ix: seq<nat>, i: nat)
    requires forall i, j :: 0 <= i < j < |ix| ==> ix[i] < ix[j]
    requires i < |ix|
    ensures i <= ix[i] && ix[i] + |ix| - i <= ix[|ix| - 1] + 1
    decreases i
  {
    if i > 0 { PositionsGrow(ix, i - 1); }
    PositionsGap(ix, i);
  }

  lemma {:induction false} PositionsGap(ix: seq<nat>, i: nat)
    requires forall i, j :: 0 <= i < j < |ix| ==> ix[i] < ix[j]
    requires i < |ix|
    ensures ix[i] + |ix| - i <= ix[|ix| - 1] + 1
    decreases |ix| - i
  {
    if i + 1 < |ix| { PositionsGap(ix, i + 1); }
  }

  /** A subsequence is no longer than the whole, and as long only if it is the
      whole. */
  lemma LengthBound<T>(sub: seq<T>, full: seq<T>)
    requires IsSubsequence(sub, full)
    ensures |sub| <= |full|
    ensures |sub| == |full| ==> sub == full
  {
    var ix: seq<nat> :| IsVia(sub, full, ix);
    if sub != [] {
      PositionsGrow(ix, |ix| - 1);
      if |sub| == |full| {
        forall i | 0 <= i < |sub| ensures sub[i] == full[i] { PositionsGrow(ix, i); }
      }
    }
  }

  // ---- A lossy queue between a source and a consumer ----

  /** The queue holds the newest elements of its source, what was consumed and
      what is queued comes from the source in order and once each, and the rest
      of the source is counted as dropped. */
  ghost predicate Flow<T>(consumed: seq<T>, queued: seq<T>, source: seq<T>, drops: nat) {
    && |consumed| + |queued| + drops == |source|
    && queued == source[|source| - |queued|..]
    && IsSubsequence(consumed + queued, source)
  }

  lemma FlowStarts<T>()
    ensures Flow<T>([], [], [], 0)
  {
    var none: seq<T> := [];
    Reflexive(none);
    assert none + none == none;
  }

  lemma FlowIn<T>(consumed: seq<T>, queued: seq<T>, source: seq<T>, drops: nat, x: T)
    requires Flow(consumed, queued, source, drops)
    ensures Flow(consumed, queued + [x], source + [x], drops)
  {
    Extend(consumed + queued, source, x);
    assert consumed + queued + [x] == consumed + (queued + [x]);
  }

  lemma FlowOut<T>(consumed: seq<T>, queued: seq<T>, source: seq<T>, drops: nat)
    requires Flow(consumed, queued, source, drops) && queued != []
    ensures Flow(consumed + [queued[0]], queued[1..], source, drops)
  {
    assert consumed + [queued[0]] + queued[1..] == consumed + queued;
  }

  lemma FlowDrop<T>(consumed: seq<T>, queued: seq<T>, source: seq<T>, drops: nat)
    requires Flow(consumed, queued, source, drops) && queued != []
    ensures Flow(consumed, queued[1..], source, drops + 1)
  {
    var c := |consumed|;
    LeaveOut(consumed + queued, source, c);
    assert (consumed + queued)[..c] + (consumed + queued)[c + 1..] == consumed + queued[1..];
  }

  /** Nothing is missing exactly when nothing was dropped. */
  lemma FlowLossless<T>(consumed: seq<T>, queued: seq<T>, source: seq<T>, drops: nat)
    requires Flow(consumed, queued, source, drops)
    ensures drops == 0 <==> consumed + queued == source
    ensures IsSubsequence(consumed, source)
  {
    LengthBound(consumed + queued, source);
    Prefix(consumed, queued, source);
  }
}
