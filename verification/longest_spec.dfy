/**
 Reference definition of "the longest string, earliest one on ties".

 The definition here is deliberately two-pass and shares nothing with the
 left-to-right scan in module Core: first the greatest length is computed,
 then the first position holding a string of that length is searched for.
 */
module LongestSpec {

  /** Position `i` holds a string of maximal length, and every string before
      it is strictly shorter. */
  predicate IsFirstLongest(args: seq<string>, i: int) {
    && 0 <= i < |args|
    && (forall j :: 0 <= j < |args| ==> |args[j]| <= |args[i]|)
    && (forall j :: 0 <= j < i ==> |args[j]| < |args[i]|)
  }

  /** The greatest length among `args` (0 for the empty sequence). */
  function MaxLen(args: seq<string>): (n: nat)
    ensures forall j :: 0 <= j < |args| ==> |args[j]| <= n
    ensures |args| > 0 ==> exists j :: 0 <= j < |args| && |args[j]| == n
  {
    if |args| == 0 then 0
    else
      var rest := MaxLen(args[1..]);
      if |args[0]| >= rest then |args[0]|
      else
        assert exists j :: 1 <= j < |args| && |args[j]| == rest by {
          var k :| 0 <= k < |args[1..]| && |args[1..][k]| == rest;
          assert |args[k + 1]| == rest;
        }
        rest
  }

  /** Linear search from the left for the first string of length `n`;
      `|args|` when there is none. */
  function FirstIndexOfLength(args: seq<string>, n: nat): (i: nat)
    ensures i <= |args|
    ensures forall j :: 0 <= j < i ==> |args[j]| != n
    ensures i < |args| ==> |args[i]| == n
  {
    if |args| == 0 then 0
    else if |args[0]| == n then 0
    else 1 + FirstIndexOfLength(args[1..], n)
  }

  /** The least index of maximal length: the position the selection must
      return. */
  function LeastLongestIndex(args: seq<string>): (i: nat)
    requires |args| > 0
    ensures IsFirstLongest(args, i)
  {
    FirstIndexOfLength(args, MaxLen(args))
  }

  /** At most one position is the first longest one. */
  lemma FirstLongestUnique(args: seq<string>, i: int, k: int)
    requires IsFirstLongest(args, i) && IsFirstLongest(args, k)
    ensures i == k
  {
    // Both are of maximal length, so neither can be strictly longer than
    // the other, as the later one would have to be.
    assert |args[i]| <= |args[k]| <= |args[i]|;
  }

  /** How the reference answer moves when one more string is appended: a
      strictly longer string takes over, anything else leaves it in place. */
  lemma LeastLongestIndexAppend(args: seq<string>, x: string)
    requires |args| > 0
    ensures |x| > |args[LeastLongestIndex(args)]| ==> LeastLongestIndex(args + [x]) == |args|
    ensures |x| <= |args[LeastLongestIndex(args)]| ==> LeastLongestIndex(args + [x]) == LeastLongestIndex(args)
  {
    var i := LeastLongestIndex(args);
    var ext := args + [x];
    var candidate := if |x| > |args[i]| then |args| else i;
    assert forall j :: 0 <= j < |args| ==> ext[j] == args[j];
    assert IsFirstLongest(ext, candidate);
    FirstLongestUnique(ext, candidate, LeastLongestIndex(ext));
  }
}
