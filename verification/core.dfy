/**
 The selection performed by `compute(args)`: `max(args, key=len)`.

 Python's `max` walks the sequence from the left, keeping the current best
 item and replacing it only when a later item's key is strictly greater; an
 empty sequence is an error. `Scan` is that walk as a left fold, `Compute`
 adds the empty-input error, and `ComputeLoop` is the same walk as a loop.
 Both are proved to return the reference answer of module LongestSpec.
 */
module Core {
  import opened LongestSpec

  /** The single failure of the selection: there is nothing to choose from. */
  datatype SelectError = EmptyInput

  datatype Result<+R, +E> = Ok(value: R) | Err(error: E)

  /** One comparison of the scan: `item` replaces `best` only when strictly
      longer. */
  function Challenge(best: string, item: string): (r: string)
    ensures r == item || r == best
    ensures |best| <= |r| && |item| <= |r|
    ensures |item| > |best| ==> r == item
    ensures |item| <= |best| ==> r == best
  {
    if |item| > |best| then item else best
  }

  /** The left-to-right scan started with `best` as the current winner and
      `rest` still to be visited. */
  function Scan(best: string, rest: seq<string>): (r: string)
    ensures r == best || r in rest
    ensures |best| <= |r|
    ensures forall j :: 0 <= j < |rest| ==> |rest[j]| <= |r|
    decreases |rest|
  {
    if |rest| == 0 then best
    else Scan(Challenge(best, rest[0]), rest[1..])
  }

  /** Visiting one more item at the end of the scan is one more challenge. */
  lemma {:induction false} ScanAppend(best: string, rest: seq<string>, x: string)
    ensures Scan(best, rest + [x]) == Challenge(Scan(best, rest), x)
    decreases |rest|
  {
    if |rest| == 0 {
      assert Scan(best, [x]) == Scan(Challenge(best, x), []);
    } else {
      assert (rest + [x])[0] == rest[0];
      assert (rest + [x])[1..] == rest[1..] + [x];
      ScanAppend(Challenge(best, rest[0]), rest[1..], x);
    }
  }

  /** The scan over the whole non-empty sequence, seeded with its first item. */
  function Longest(args: seq<string>): (r: string)
    requires |args| > 0
    ensures r in args
    ensures forall j :: 0 <= j < |args| ==> |args[j]| <= |r|
  {
    Scan(args[0], args[1..])
  }

  /** Main theorem: the left scan returns the item at the least index of
      maximal length, for every non-empty sequence. */
  lemma {:induction false} ScanMeetsSpec(args: seq<string>)
    requires |args| > 0
    ensures Longest(args) == args[LeastLongestIndex(args)]
    decreases |args|
  {
    if |args| == 1 {
      assert Longest(args) == Scan(args[0], []);
      assert IsFirstLongest(args, 0);
      FirstLongestUnique(args, 0, LeastLongestIndex(args));
    } else {
      var p := args[..|args| - 1];
      var x := args[|args| - 1];
      assert args == p + [x];
      assert args[1..] == p[1..] + [x];
      ScanAppend(p[0], p[1..], x);
      ScanMeetsSpec(p);
      LeastLongestIndexAppend(p, x);
    }
  }

  /** `compute(args)`: the longest item, the earliest one on ties, or an
      error on empty input. */
  function Compute(args: seq<string>): (r: Result<string, SelectError>)
    ensures r.Err? <==> |args| == 0
    ensures r.Err? ==> r.error == EmptyInput
    ensures r.Ok? ==> r.value in args
    ensures r.Ok? ==> forall j :: 0 <= j < |args| ==> |args[j]| <= |r.value|
    ensures r.Ok? ==> |r.value| == MaxLen(args)
    ensures r.Ok? ==> args[FirstIndexOfLength(args, |r.value|)] == r.value
    ensures r.Ok? ==> r.value == args[LeastLongestIndex(args)]
  {
    if |args| == 0 then Err(EmptyInput)
    else
      ScanMeetsSpec(args);
      Ok(Longest(args))
  }

  /** Appending an item no longer than the current answer leaves it unchanged. */
  lemma ComputeAppendNotLonger(args: seq<string>, x: string)
    requires Compute(args).Ok?
    requires |x| <= |Compute(args).value|
    ensures Compute(args + [x]) == Compute(args)
  {
    assert (args + [x])[0] == args[0];
    assert (args + [x])[1..] == args[1..] + [x];
    ScanAppend(args[0], args[1..], x);
  }

  /** Appending an item strictly longer than the current answer makes it the
      answer. */
  lemma ComputeAppendLonger(args: seq<string>, x: string)
    requires Compute(args).Ok?
    requires |x| > |Compute(args).value|
    ensures Compute(args + [x]) == Ok(x)
  {
    assert (args + [x])[0] == args[0];
    assert (args + [x])[1..] == args[1..] + [x];
    ScanAppend(args[0], args[1..], x);
  }

  /** A one-item sequence yields that item. */
  lemma ComputeSingleton(s: string)
    ensures Compute([s]) == Ok(s)
  {
  }

  /** Extending the input never shortens the answer. */
  lemma ComputeMonotone(args: seq<string>, more: seq<string>)
    requires |args| > 0
    ensures |Compute(args).value| <= |Compute(args + more).value|
  {
    var ext := args + more;
    var k := LeastLongestIndex(args);
    assert ext[k] == args[k];
  }

  /** The same selection as a loop: the running winner is kept, and a later
      item takes over only when strictly longer. Its position is ghost
      bookkeeping for the proof; Python's `max` holds only the item. */
  method ComputeLoop(args: seq<string>) returns (r: Result<string, SelectError>)
    ensures r.Err? <==> |args| == 0
    ensures r.Ok? ==> r.value == args[LeastLongestIndex(args)]
    ensures r == Compute(args)
  {
    if |args| == 0 {
      return Err(EmptyInput);
    }
    var best := args[0];
    ghost var at := 0;
    var i := 1;
    while i < |args|
      invariant 1 <= i <= |args|
      invariant 0 <= at < i
      invariant best == args[at]
      invariant forall j :: 0 <= j < i ==> |args[j]| <= |best|
      invariant forall j :: 0 <= j < at ==> |args[j]| < |best|
    {
      if |args[i]| > |best| {
        best := args[i];
        at := i;
      }
      i := i + 1;
    }
    FirstLongestUnique(args, at, LeastLongestIndex(args));
    r := Ok(best);
  }
}
