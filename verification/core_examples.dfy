/**
 Concrete inputs of `compute`: the docstring example and small scenarios
 covering a strict winner, a tie, a single item and the empty input.
 */
module CoreExamples {
  import opened Core

  /** Docstring example: all lengths equal, so the first item wins. */
  lemma DoctestAllEqual()
    ensures Compute(["1", "2", "3"]) == Ok("1")
  {
  }

  /** One strictly longest item in the middle is chosen. */
  lemma StrictWinner()
    ensures Compute(["a", "bb", "c"]) == Ok("bb")
  {
  }

  /** Two items share the greatest length: the earlier one is chosen. */
  lemma TieGoesToFirst()
    ensures Compute(["xx", "yy", "z"]) == Ok("xx")
  {
  }

  /** The empty input is rejected. */
  lemma EmptyRejected()
    ensures Compute([]) == Err(EmptyInput)
  {
  }
}
