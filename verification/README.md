# Longest-string selection of mloq-template, in Dafny

The only behaviour in the mloq-template project is `compute(args)`
(`src/mloq_template/core.py`). It returns `max(args, key=len)`: the longest
string of an ordered sequence. Python's `max` walks the sequence from the
left. It keeps the current best item and replaces it only when a later item's
key is strictly greater. So on ties the earliest item of maximal length wins,
and an empty sequence raises an error.

The model has three modules:

- `LongestSpec` (`longest_spec.dfy`) is the reference definition. It has no
  scan in it. `MaxLen` computes the greatest length. `FirstIndexOfLength`
  searches for the first position holding a string of that length.
  `LeastLongestIndex` combines the two. `IsFirstLongest` states what that
  position is: of maximal length, with every earlier string strictly shorter.
- `Core` (`core.dfy`) is the operation itself. `Scan` is Python's
  left-to-right walk written as a left fold, where `Challenge` is one
  comparison. `Compute` returns `Err(EmptyInput)` on an empty sequence and
  otherwise the fold seeded with the first item. `ComputeLoop` is the same
  walk written as a loop, proved equal to `Compute`. Both are proved to
  return the item at `LeastLongestIndex`.
- `CoreExamples` (`core_examples.dfy`) holds the docstring example and a few
  concrete inputs.

## Model

| member | source | states |
|---|---|---|
| `LongestSpec.MaxLen` | src/mloq_template/core.py:8 | The key `max` maximises: no string is longer than it, and on a non-empty sequence some string has exactly that length. |
| `LongestSpec.FirstIndexOfLength` | src/mloq_template/core.py:8 | The first position whose string has a given length: every earlier string has another length, and the result is the length of the sequence when no string matches. |
| `LongestSpec.LeastLongestIndex` | src/mloq_template/core.py:8 | The position `compute` must return, for every non-empty sequence: its string is of maximal length and every earlier string is strictly shorter. |
| `LongestSpec.FirstLongestUnique` | src/mloq_template/core.py:8 | The first-occurrence tie-break decides the answer: at most one position is both maximal and preceded only by strictly shorter strings. |
| `LongestSpec.LeastLongestIndexAppend` | src/mloq_template/core.py:8 | Appending a strictly longer string moves the answer to that string. Appending one that is not longer keeps the answer where it was. |
| `Core.Scan` | src/mloq_template/core.py:8 | The running best of `max` is always the seed or one of the visited items, never shorter than the seed, and at least as long as every visited item. |
| `Core.Challenge` | src/mloq_template/core.py:8 | One step of `max`: the new item replaces the current best exactly when it is strictly longer, so on equal length the earlier item stays. |
| `Core.Longest` | src/mloq_template/core.py:8 | `max(args, key=len)` on a non-empty sequence, the scan seeded with the first item: its result is an item of the input at least as long as every item. It is proved to be the first longest item by `Core.ScanMeetsSpec`. |
| `Core.ScanAppend` | src/mloq_template/core.py:8 | Visiting one more item is one more comparison. The item replaces the current best only if it is strictly longer. |
| `Core.ScanMeetsSpec` | src/mloq_template/core.py:8 | For every non-empty sequence, the left-to-right scan returns the string at the least index of maximal length. |
| `Core.Compute` | src/mloq_template/core.py:8 | An error exactly when the input is empty. Otherwise the result is an item of the input of the greatest length, it is the first item of that length, and it is the item at the least index of maximal length. |
| `Core.ComputeAppendNotLonger` | src/mloq_template/core.py:8 | Appending a string no longer than the current result leaves the result unchanged. |
| `Core.ComputeAppendLonger` | src/mloq_template/core.py:8 | Appending a string strictly longer than the current result makes that string the result. |
| `Core.ComputeSingleton` | src/mloq_template/core.py:8 | A one-item sequence yields that item. |
| `Core.ComputeMonotone` | src/mloq_template/core.py:8 | Extending a non-empty input never makes the result shorter. |
| `Core.ComputeLoop` | src/mloq_template/core.py:8 | The loop form of the scan, holding only the running best item, fails exactly on empty input. Otherwise it returns the string at the least index of maximal length, so it always agrees with `Core.Compute`. |
| `CoreExamples.DoctestAllEqual` | src/mloq_template/core.py:4-6 | The docstring example: `["1", "2", "3"]` yields `"1"`, because all lengths are equal and the first item wins. |
| `CoreExamples.StrictWinner` | src/mloq_template/core.py:8 | `["a", "bb", "c"]` yields `"bb"`, the one strictly longest item. |
| `CoreExamples.TieGoesToFirst` | src/mloq_template/core.py:8 | `["xx", "yy", "z"]` yields `"xx"`: of two items tied for the greatest length, the earlier one is chosen. |
| `CoreExamples.EmptyRejected` | src/mloq_template/core.py:8 | The empty sequence is rejected with `EmptyInput`. |

## Left out

- `setup.py`: packaging metadata, a read of the README file and a dynamic
  load of the version module. It is configuration and I/O, with no behaviour
  to model.
- Duck typing: `compute` accepts any iterable and `key=len` works on any
  sized object. The model takes only `seq<string>`.
- String length: Python's `len` counts code points. The model uses the length
  of a Dafny `string` as a sequence of `char`, which stands for the same count.
  A Dafny `char` is a Unicode scalar value, so a Python `str` holding a lone
  surrogate (U+D800 to U+DFFF, as `surrogateescape` decoding can produce) has
  no counterpart in the model; such inputs are outside it.
- The error raised on empty input: Python raises `ValueError` with a message.
  The model has a single error value, `EmptyInput`, and does not model the
  exception type or its text.
- Object identity: Python returns the very object found in the input. The
  model has value semantics only, so "returned as-is" is stated as the result
  being equal to the item at the chosen position.
