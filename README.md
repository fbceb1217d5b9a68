# seqtools slicing core in Dafny

This project models the random-access layer of `seqtools`. That layer is what every lazy sequence view relies on. It has three parts:

- **`normalize_slice`** turns a slice key into a canonical `(start, stop, step)` triple for a sequence of length `n`. The model is `Slicing.NormalizeSlice`, a pure function.
  - It fills in the defaults.
  - It raises ValueError on a zero step.
  - It clamps start and stop.
  - It returns `(0, 0, 1)` for an empty range.
  - Otherwise it rounds the stop to a whole number of steps.
- **`basic_getitem` / `basic_setitem`** are the subscript protocol. A key is one of:
  - a slice, which becomes a new view;
  - an integer in `[-len, len)`, which is wrapped to `[0, len)`;
  - anything else: an out-of-range integer raises IndexError and any other key raises TypeError.

  The key dispatch is `Slicing.Dispatch`. The integer wrapping is `Slicing.NormalizeIndex`. The decorated subscript methods are `GetItem`, `SetItem`, `SetIndex` and `SetSlice` of `SeqSlices.SeqSlice`. One-to-one slice assignment is the loop in `SeqSlices.SeqSlice.AssignAll`.
- **`SeqSlice`** is a strided view over an underlying sequence. In the model it is a class whose fields are an `array<T>` (the underlying sequence) and the three ints of the triple. Its invariant `Valid()` says the triple is one that `normalize_slice` produces for the array's length (`Slicing.Canonical`).
  - A slice of a view is flattened into a view over the same array (`NewSeqSlice`, `Slicing.NestedBounds`).
  - Reads and writes go to `sequence[start + i * step]`. A write through any view changes the shared array at that one position and nowhere else.

Edge cases proved about the code as written. These are not Python's `slice.indices` semantics:
- `slice(n, None)` selects the last element (`Slicing.StartPastEnd`).
- `[::-1]` is empty (`Slicing.ReversedDefaultEmpty`).
- Over an empty sequence, a negative step with a negative stop gives a one-element view whose read raises IndexError (`Slicing.EmptyBaseNegativeStep` with `SeqSlices.SeqSlice.Get`).
- A slice of a negative-step view can be re-read by the second normalisation as a different range (`Slicing.NestedNegativeRewrap`).

The flattening theorems (`Slicing.NestedFlattens`, `SeqSlices.NestedGet`) are therefore stated for positive steps.

Files:
- `errors.dfy` (module `Errors`): `Option`, the error kinds and `Result`.
- `slicing.dfy` (module `Slicing`): keys, normalisation, dispatch and the arithmetic lemmas.
- `seq_slice.dfy` (module `SeqSlices`): the `SeqSlice` class, view construction and slice assignment.

## Model

| member | source | states |
|---|---|---|
| Slicing.ClampStart | seqtools/common.py:74-76 | the clamped start lies in `[0, n)` when `n >= 1` and is 0 when `n == 0`; for `n >= 1` an in-range start is kept, a start in `[-n, 0)` counts from the end (`start + n`), a start `>= n` saturates to `n - 1` and a start `< -n` to 0 |
| Slicing.ClampStop | seqtools/common.py:77-79 | the clamped stop lies in `[-1, n]`; a non-negative stop becomes `min(stop, n)`, a stop in `[-n, 0)` counts from the end (`stop + n`) and a stop `< -n` saturates to -1 |
| Slicing.NormalizeSlice | seqtools/common.py:66-89 | fails exactly when the defaulted step is 0, and then with ValueError; otherwise the triple is canonical (nonzero step, stop a whole number of steps from start, `(0, 0, 1)` when empty, start in range, every selected index in `[0, n)` unless `n == 0` with a negative step) and a non-empty result keeps the input step |
| Slicing.NormalizeLength | seqtools/common.py:74-89 | if the clamped `(stop - start) * step <= 0` the result is `(0, 0, 1)` of length 0; otherwise it has the clamped start, the input step and `ceil(abs(stop - start) / abs(step)) > 0` elements, which is `__len__`'s exact quotient |
| Slicing.RoundStopFacts | seqtools/common.py:84-87 | after rounding with `RoundStop` (both branches of lines 84-87), `stop - start` is a positive number of whole steps in the step's direction, equal to the ceiling count, and the last selected index lies strictly before the clamped stop |
| Slicing.NormalizeSelects | seqtools/common.py:74-89 | position `k` is selected iff `start + k * step` lies in the half-open clamped range in the step's direction, and then it is the index of position `k` |
| Slicing.IndexInRange | seqtools/common.py:74-87 | every selected index of a canonical triple lies in `[0, n)` when `n >= 1` or the step is positive; when `n == 0` the only position is 0, at index 0 |
| Slicing.IndexInjective | seqtools/common.py:118-122 | distinct positions of a view address distinct underlying indices |
| Slicing.Dispatch | seqtools/common.py:13-30 | a slice key gives a view of that slice; an integer in `[-len, len)` calls the implementation with `k` or `len + k`, which lies in `[0, len)`; any other integer raises IndexError; any other key raises TypeError |
| Slicing.NormalizeIndex | seqtools/common.py:17-23 | an index is accepted exactly when it lies in `[-len, len)`, else IndexError; the accepted index is `k` or `len + k`, lies in `[0, len)` and is congruent to `k` modulo `len` |
| Slicing.NestedBounds | seqtools/common.py:94-108 | a slice of a view fails exactly when the key's step is 0, and then with ValueError; otherwise the composed, renormalised triple is canonical for the base length |
| Slicing.NestedFlattens | seqtools/common.py:94-111 | with positive outer and inner steps, a slice of a view succeeds, has the inner slice's length, and its position `i` is base index `outer.start + (inner.start + i * inner.step) * outer.step` |
| Slicing.NormalizeIdempotent | seqtools/common.py:105-108 | with a positive step, normalising a stored triple again gives it back unchanged |
| Slicing.StartPastEnd | seqtools/common.py:74-89 | a start at or past the end, no earlier stop and a positive step select exactly the last element |
| Slicing.ReversedDefaultEmpty | seqtools/common.py:66-82 | with start and stop left out, a negative step gives the empty triple `(0, 0, 1)` |
| Slicing.EmptyBaseNegativeStep | seqtools/common.py:74-89 | over an empty sequence, a negative step with a negative stop gives `(0, step, step)`, a triple of length 1 |
| Slicing.NestedNegativeRewrap | seqtools/common.py:94-108 | over five elements `[4:-6:-1]` stores `(4, -1, -1)` with five elements, and `[:]` of that view normalises to the empty triple |
| SeqSlices.SeqSlice.Init | seqtools/common.py:107-111 | the view stores the given base sequence and canonical triple and satisfies its invariant |
| SeqSlices.SeqSlice.Len | seqtools/common.py:113-114 | the stored stop is exactly `len` steps from the start, and an empty view stores `(0, 0, 1)` |
| SeqSlices.SeqSlice.Get | seqtools/common.py:116-118 | position `i` reads the base sequence at `start + i * step`, which lies inside it; the read fails with IndexError exactly when the base is empty |
| SeqSlices.SeqSlice.GetItem | seqtools/common.py:13-30 | follows `Dispatch`: an in-range integer reads the element at its wrapped position, an error key raises its error, and a slice key returns a fresh view over the same base sequence with the nested triple, or the ValueError of a zero step |
| SeqSlices.SeqSlice.SetAt | seqtools/common.py:120-122 | on a non-empty base, the base becomes its old contents with `start + i * step` set to the value and nothing else changed; on an empty base it raises IndexError |
| SeqSlices.SeqSlice.SetIndex | seqtools/common.py:48-56 | an integer key outside `[-len, len)` raises IndexError and writes nothing; otherwise it writes exactly the wrapped position, as `SetAt` |
| SeqSlices.SeqSlice.SetItem | seqtools/common.py:36-61 | any error leaves the base unchanged; a key that is neither integer nor slice raises TypeError; an integer key wraps and writes one position; a slice key assigns through the nested view as `SliceAssigned` describes |
| SeqSlices.SeqSlice.SetSlice | seqtools/common.py:37-46 | the view is built first (zero step: ValueError), then a non-sized value raises TypeError and a length mismatch ValueError, all before any write; otherwise the base ends as the one-to-one assignment through the view |
| SeqSlices.SeqSlice.AssignThrough | seqtools/common.py:40-46 | given a built view over the same base: TypeError for a non-sized value, ValueError for a length mismatch, both without writing, otherwise the one-to-one assignment |
| SeqSlices.SeqSlice.AssignAll | seqtools/common.py:45-46 | writing `xs[i]` to position `i` for `i` from 0 upwards leaves the base equal to `AssignSlice` of the old base, and fails only when the base is empty |
| SeqSlices.NewSeqSlice | seqtools/common.py:93-111 | a view over a base normalises the key against its length; a view over a view composes and renormalises and is stored over the inner view's own base sequence; a zero step raises ValueError; the result is fresh and valid |
| SeqSlices.AssignSlice | seqtools/common.py:45-46 | the result of the first `m` writes keeps the base's length |
| SeqSlices.AssignSliceWrites | seqtools/common.py:45-46 | after the first `m` writes, every written position holds the value written to it |
| SeqSlices.AssignSliceKeeps | seqtools/common.py:45-46 | after the first `m` writes, an index none of them addressed keeps its old element |
| SeqSlices.SliceAssignment | seqtools/common.py:37-46 | a one-to-one slice assignment puts `value[p]` at the view's position `p`, and every index the view does not cover keeps its old element |
| SeqSlices.NestedGet | seqtools/common.py:94-118 | with positive steps, reading position `i` of a slice of a view equals reading position `start + i * step` of the inner slice from the outer view, and the lengths agree |

## Left out

- `seqtools/serialization.py`: it does file and module-loading I/O and pickling, and has nothing to verify.
- The prefetching engine, worker pools, shared-memory slots and result delivery: these are concurrency and inter-process communication.
- The mixins inherited from `typing.Sequence` (`__iter__`, `__contains__`, `index`, `count`): this is library code outside the model.
- Error message strings: only the error kind is modelled.
- Dynamic typing:
  - `isint` and `isinstance` are replaced by the `Key` datatype, so a `bool` key counts as an `Int`.
  - The underlying sequence is an `array<T>`. Reads and writes through it follow Python list indexing. Any other sequence type that `SeqSlice` could wrap is not modelled.
- SeqSlices.SeqSlice.SetItem: for an integer key with a sized value it raises TypeError. Python would store the value object itself as one element, and a typed array cannot hold it. For a slice key, a value without `len` raises TypeError, as in Python.
- Slicing.NestedFlattens, SeqSlices.NestedGet: stated for positive outer and inner steps only. With a negative step the second normalisation can re-wrap a composed stop below 0 (`Slicing.NestedNegativeRewrap`), and no flattening identity holds in general.
- Slicing.IndexInRange: gives no bound in the `n == 0`, negative-step case. There the one position's index 0 lies outside the empty sequence, as the source computes it.
- SeqSlices.SeqSlice.SetItem, SeqSlices.SeqSlice.SetSlice, SeqSlices.SeqSlice.AssignThrough, SeqSlices.SeqSlice.AssignAll: the right-hand side of a slice assignment is taken as a frozen copy (`Items(xs)`), while the source reads it one element at a time between writes. Aliasing between the value and the written base is not modelled: when the value is itself a view over the same array, a later read sees an earlier write in the source but not in the model.
- Integer width: Python integers are unbounded, so `int` is used throughout, with no wrap-around.
