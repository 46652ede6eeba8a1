/** Switches over time: what decides a flag that some steps set and others
    clear. */
module History {

  /** Some step set the flag and none after it cleared it. */
  ghost predicate SetLast(sets: seq<bool>, clears: seq<bool>)
    requires |sets| == |clears|
  {
    exists i :: 0 <= i < |sets| && sets[i] && NoneFrom(clears, i + 1)
  }

  ghost predicate NoneFrom(clears: seq<bool>, k: nat) { forall j :: k <= j < |clears| ==> !clears[j] }

  /** One more step in front decides only if nothing after it does. */
  lemma SetLastFirst(set0: bool, clear0: bool, sets: seq<bool>, clears: seq<bool>)
    requires |sets| == |clears|
    ensures SetLast([set0] + sets, [clear0] + clears) <==> SetLast(sets, clears) || (set0 && NoneFrom(clears, 0))
    ensures NoneFrom([clear0] + clears, 0) <==> !clear0 && NoneFrom(clears, 0)
  {
    var s, c := [set0] + sets, [clear0] + clears;
    forall k: nat ensures NoneFrom(c, k + 1) <==> NoneFrom(clears, k) {
      if NoneFrom(c, k + 1) {
        forall j | k <= j < |clears| ensures !clears[j] { assert !c[j + 1]; }
      }
    }
    if SetLast(s, c) {
      var i :| 0 <= i < |s| && s[i] && NoneFrom(c, i + 1);
      if i > 0 { assert sets[i - 1] && NoneFrom(clears, i); }
    }
    if SetLast(sets, clears) {
      var i :| 0 <= i < |sets| && sets[i] && NoneFrom(clears, i + 1);
      assert s[i + 1] && NoneFrom(c, i + 2);
    }
    if set0 && NoneFrom(clears, 0) { assert s[0] && NoneFrom(c, 1); }
    if NoneFrom(c, 0) { assert !c[0] && NoneFrom(c, 1); }
  }
}
