/**
 * The index arithmetic of seqtools' random-access layer: normalising a slice
 * against a length, normalising an integer key, dispatching a key to the
 * right branch of `__getitem__`/`__setitem__`, and composing the bounds of a
 * slice taken of a slice.
 */
module Slicing {
  import opened Errors

  /** A Python `slice` object: every field may be `None`. */
  datatype SliceKey = SliceKey(start: Option<int>, stop: Option<int>, step: Option<int>)

  /** A subscript key: an integer (the `isint` test), a slice, or an object of any other type. */
  datatype Key = Int(i: int) | Slice(slice: SliceKey) | Other

  /** A normalised `(start, stop, step)` triple, as stored in a `SeqSlice`. */
  datatype Bounds = Bounds(start: int, stop: int, step: int)

  /** Which branch a subscript takes: build a view, call the element accessor at an index, or raise. */
  datatype Action = View(slice: SliceKey) | Call(index: nat) | Raise(error: Error)

  function Abs(x: int): nat { if x < 0 then -x else x }
  function Min(a: int, b: int): int { if a <= b then a else b }
  function Max(a: int, b: int): int { if a >= b then a else b }

  /** The ceiling of `a / b` for a positive `b`. */
  function CeilDiv(a: nat, b: nat): nat
    requires b > 0
  {
    (a + b - 1) / b
  }

  /** The step of a slice, `1` when it is `None`. */
  function StepOf(key: SliceKey): int { match key.step case None => 1 case Some(s) => s }

  /** The start of a slice, `0` when it is `None`. */
  function StartOf(key: SliceKey): int { match key.start case None => 0 case Some(s) => s }

  /** The stop of a slice, `n` when it is `None`, whatever the sign of the step. */
  function StopOf(key: SliceKey, n: nat): int { match key.stop case None => n case Some(s) => s }

  /** The start clamped into `[-n, n - 1]` and then shifted to be non-negative. */
  function ClampStart(start: int, n: nat): (r: int)
    ensures n >= 1 ==> 0 <= r < n
    ensures n == 0 ==> r == 0
    ensures n >= 1 && 0 <= start < n ==> r == start
    ensures n >= 1 && -(n as int) <= start < 0 ==> r == start + n
    ensures n >= 1 && start >= n ==> r == n - 1
    ensures n >= 1 && start < -(n as int) ==> r == 0
  {
    var s := Max(-(n as int), Min(start, n - 1));
    if s < 0 then s + n else s
  }

  /** The stop clamped into `[-n - 1, n]` and then shifted by `n` when negative. */
  function ClampStop(stop: int, n: nat): (r: int)
    ensures -1 <= r <= n
    ensures 0 <= stop ==> r == Min(stop, n)
    ensures -(n as int) <= stop < 0 ==> r == stop + n
    ensures stop < -(n as int) ==> r == -1
  {
    var s := Max(-(n as int) - 1, Min(stop, n));
    if s < 0 then s + n else s
  }

  /** The stop moved away from `start` so that `stop - start` becomes a multiple of `step`. */
  function RoundStop(start: int, stop: int, step: int): int
    requires step != 0
  {
    if step > 0 then stop + step - (stop - start - 1) % step - 1
    else stop - (-step - (start - stop - 1) % (-step) - 1)
  }

  /** The number of elements a normalised triple selects: `abs(stop - start) // abs(step)`. */
  function SliceLen(b: Bounds): nat
    requires b.step != 0
  {
    Abs(b.stop - b.start) / Abs(b.step)
  }

  /** The underlying index of position `k` of a triple. */
  function Index(b: Bounds, k: int): int { b.start + k * b.step }

  /**
   * What every triple produced by `NormalizeSlice` over length `n` satisfies:
   * a nonzero step, a stop that is exactly `SliceLen` steps away from the
   * start, the canonical `(0, 0, 1)` when empty, a start inside the sequence,
   * and a last position inside the sequence unless `n` is 0 and the step is
   * negative (then the single position 0 lies outside).
   */
  ghost predicate Canonical(b: Bounds, n: nat) {
    b.step != 0
    && b.stop == b.start + SliceLen(b) * b.step
    && (SliceLen(b) == 0 ==> b == Bounds(0, 0, 1))
    && 0 <= b.start
    && (n >= 1 ==> b.start < n)
    && (n == 0 ==> b.start == 0 && SliceLen(b) <= 1)
    && (SliceLen(b) > 0 && (n >= 1 || b.step > 0) ==> 0 <= Index(b, SliceLen(b) - 1) < n)
  }

  /**
   * normalize_slice(start, stop, step, n): fills in the defaults, raises
   * ValueError on a zero step, clamps start and stop, returns `(0, 0, 1)` for
   * an empty range and otherwise rounds the stop to a whole number of steps.
   */
  function NormalizeSlice(key: SliceKey, n: nat): (r: Result<Bounds>)
    ensures r.Err? <==> StepOf(key) == 0
    ensures r.Err? ==> r.error == ValueError
    ensures r.Ok? ==> Canonical(r.value, n)
    ensures r.Ok? && SliceLen(r.value) > 0 ==> r.value.step == StepOf(key)
  {
    var step := StepOf(key);
    if step == 0 then Err(ValueError)
    else
      var start := ClampStart(StartOf(key), n);
      var stop := ClampStop(StopOf(key, n), n);
      if (stop - start) * step <= 0 then
        EmptyBoundsCanonical(n);
        Ok(Bounds(0, 0, 1))
      else
        RoundStopFacts(start, stop, step);
        RoundedCanonical(start, stop, step, n);
        Ok(Bounds(start, RoundStop(start, stop, step), step))
  }

  /**
   * The length of a normalised slice: `(0, 0, 1)` when the clamped range is
   * empty in the step's direction, and otherwise the clamped start, the given
   * step and `ceil(|stop - start| / |step|)` elements.
   */
  lemma NormalizeLength(key: SliceKey, n: nat)
    requires StepOf(key) != 0
    ensures var step := StepOf(key);
            var start := ClampStart(StartOf(key), n);
            var stop := ClampStop(StopOf(key, n), n);
            var b := NormalizeSlice(key, n).value;
            if (stop - start) * step <= 0 then b == Bounds(0, 0, 1) && SliceLen(b) == 0
            else b.start == start && b.step == step && SliceLen(b) == CeilDiv(Abs(stop - start), Abs(step)) > 0
  {
    var step := StepOf(key);
    var start := ClampStart(StartOf(key), n);
    var stop := ClampStop(StopOf(key, n), n);
    if (stop - start) * step > 0 {
      RoundStopFacts(start, stop, step);
    }
  }

  /**
   * A normalised slice selects exactly the positions `k` whose index
   * `start + k * step`, counted from the clamped start, lies strictly before
   * the clamped stop in the direction of the step.
   */
  lemma NormalizeSelects(key: SliceKey, n: nat, k: int)
    requires StepOf(key) != 0
    ensures var step := StepOf(key);
            var start := ClampStart(StartOf(key), n);
            var stop := ClampStop(StopOf(key, n), n);
            var b := NormalizeSlice(key, n).value;
            (0 <= k < SliceLen(b) <==>
              if step > 0 then start <= start + k * step < stop else stop < start + k * step <= start)
            && (0 <= k < SliceLen(b) ==> Index(b, k) == start + k * step)
  {
    var step := StepOf(key);
    var start := ClampStart(StartOf(key), n);
    var stop := ClampStop(StopOf(key, n), n);
    if (stop - start) * step <= 0 {
      assert NormalizeSlice(key, n) == Ok(Bounds(0, 0, 1));
      ProductSign(stop - start, step);
      ProductSign(k, step);
    } else {
      assert NormalizeSlice(key, n) == Ok(Bounds(start, RoundStop(start, stop, step), step));
      SelectsRounded(start, stop, step, k);
    }
  }

  /** The positions of a rounded triple are those whose index lies between start and the unrounded stop. */
  lemma SelectsRounded(start: int, stop: int, step: int, k: int)
    requires step != 0 && (stop - start) * step > 0
    ensures var len := SliceLen(Bounds(start, RoundStop(start, stop, step), step));
            0 <= k < len <==> if step > 0 then start <= start + k * step < stop else stop < start + k * step <= start
  {
    RoundStopFacts(start, stop, step);
    var len := SliceLen(Bounds(start, RoundStop(start, stop, step), step));
    if step > 0 {
      SelectsForward(start, stop, step, len, k);
    } else {
      SelectsBackward(start, stop, step, len, k);
    }
  }

  /** Position `k` lies before `len` exactly when its index lies in `[start, stop)`. */
  lemma SelectsForward(start: int, stop: int, step: int, len: nat, k: int)
    requires step > 0 && len >= 1
    requires start + (len - 1) * step < stop <= start + len * step
    ensures 0 <= k < len <==> start <= start + k * step < stop
  {
    MulMonotone(k, len - 1, step);
    MulMonotone(0, k, step);
    MulStrict(k, len, step);
    MulStrict(0, k, step);
    assert 0 * step == 0;
  }

  /** Position `k` lies before `len` exactly when its index lies in `(stop, start]`. */
  lemma SelectsBackward(start: int, stop: int, step: int, len: nat, k: int)
    requires step < 0 && len >= 1
    requires start + len * step <= stop < start + (len - 1) * step
    ensures 0 <= k < len <==> stop < start + k * step <= start
  {
    var s := -step;
    assert k * step == -(k * s) && len * step == -(len * s) && (len - 1) * step == -((len - 1) * s);
    MulMonotone(k, len - 1, s);
    MulMonotone(0, k, s);
    MulStrict(k, len, s);
    MulStrict(0, k, s);
    assert 0 * s == 0;
  }

  /**
   * Every position of a canonical triple lies inside the sequence, except in
   * the one case where the sequence is empty and the step negative: then the
   * only position is 0, mapped to index 0.
   */
  lemma IndexInRange(b: Bounds, n: nat, k: int)
    requires Canonical(b, n) && 0 <= k < SliceLen(b)
    ensures n >= 1 || b.step > 0 ==> 0 <= Index(b, k) < n
    ensures n == 0 ==> k == 0 && Index(b, k) == 0
  {
    var len := SliceLen(b);
    if b.step > 0 {
      MulMonotone(k, len - 1, b.step);
      MulMonotone(0, k, b.step);
    } else {
      MulMonotone(k, len - 1, -b.step);
      MulMonotone(0, k, -b.step);
    }
  }

  /** Distinct positions of a triple have distinct indices. */
  lemma IndexInjective(b: Bounds, p: int, q: int)
    requires b.step != 0 && p != q
    ensures Index(b, p) != Index(b, q)
  {
    ProductSign(p - q, b.step);
    assert Index(b, p) - Index(b, q) == (p - q) * b.step;
  }

  /**
   * `isinstance(key, slice)` builds a view, an integer in `[-len, len)` calls
   * the accessor at its non-negative form, any other integer raises
   * IndexError and a key of any other type raises TypeError.
   */
  function Dispatch(key: Key, len: nat): (a: Action)
    ensures a.View? <==> key.Slice?
    ensures a.View? ==> a.slice == key.slice
    ensures a.Call? <==> key.Int? && -(len as int) <= key.i < len
    ensures a.Call? ==> a.index < len && a.index == (if key.i < 0 then len + key.i else key.i)
    ensures key.Int? && !a.Call? ==> a == Raise(IndexError)
    ensures key.Other? ==> a == Raise(TypeError)
  {
    match key
    case Slice(s) => View(s)
    case Int(k) => (match NormalizeIndex(k, len) case Ok(i) => Call(i) case Err(e) => Raise(e))
    case Other => Raise(TypeError)
  }

  /**
   * The bounds check and wrap-around of an integer key against length `len`;
   * the non-negative result is the one index in `[0, len)` congruent to the key.
   */
  function NormalizeIndex(k: int, len: nat): (r: Result<nat>)
    ensures r.Ok? <==> -(len as int) <= k < len
    ensures r.Err? ==> r.error == IndexError
    ensures r.Ok? ==> r.value < len && (r.value - k) % len == 0
    ensures r.Ok? ==> r.value == (if k < 0 then len + k else k)
  {
    if k < -(len as int) || k >= len then Err(IndexError)
    else if k < 0 then Ok(len + k)
    else Ok(k)
  }

  /**
   * The bounds of `SeqSlice(view, key)` over the view's base sequence of
   * length `n`: the key is normalised against the view's length, composed
   * with the view's start and step, and normalised again against `n`.
   */
  function NestedBounds(outer: Bounds, key: SliceKey, n: nat): (r: Result<Bounds>)
    requires outer.step != 0
    ensures r.Err? <==> StepOf(key) == 0
    ensures r.Err? ==> r.error == ValueError
    ensures r.Ok? ==> Canonical(r.value, n)
  {
    match NormalizeSlice(key, SliceLen(outer))
    case Err(e) => Err(e)
    case Ok(inner) =>
      ProductSign(inner.step, outer.step);
      NormalizeSlice(Composed(outer, inner), n)
  }

  /** The slice over the base sequence that the composed start, stop and step describe. */
  function Composed(outer: Bounds, inner: Bounds): SliceKey {
    SliceKey(Some(outer.start + inner.start * outer.step),
             Some(outer.start + inner.stop * outer.step),
             Some(inner.step * outer.step))
  }

  /**
   * With positive steps, a slice of a view is the view whose position `i` is
   * the outer view's position `start + i * step` of the inner slice: the
   * flattened view has the inner slice's length and indexes the base sequence
   * at `outer.start + (inner.start + i * inner.step) * outer.step`.
   */
  lemma NestedFlattens(outer: Bounds, key: SliceKey, n: nat, i: int)
    requires Canonical(outer, n) && outer.step > 0 && StepOf(key) > 0
    ensures var inner := NormalizeSlice(key, SliceLen(outer)).value;
            var r := NestedBounds(outer, key, n);
            r.Ok? && SliceLen(r.value) == SliceLen(inner)
            && (0 <= i < SliceLen(inner) ==> Index(r.value, i) == Index(outer, Index(inner, i)))
  {
    var len := SliceLen(outer);
    var inner := NormalizeSlice(key, len).value;
    assert NestedBounds(outer, key, n) == NormalizeSlice(Composed(outer, inner), n);
    if SliceLen(inner) == 0 {
      NestedEmpty(outer, n);
    } else {
      NestedNonEmpty(outer, inner, n, i);
    }
  }

  /** Composing with the empty inner triple gives an empty view. */
  lemma NestedEmpty(outer: Bounds, n: nat)
    requires Canonical(outer, n)
    ensures NormalizeSlice(Composed(outer, Bounds(0, 0, 1)), n) == Ok(Bounds(0, 0, 1))
  {
    var c := Composed(outer, Bounds(0, 0, 1));
    assert StartOf(c) == outer.start && StopOf(c, n) == outer.start && StepOf(c) == outer.step;
    assert ClampStart(StartOf(c), n) == outer.start;
    assert ClampStop(StopOf(c, n), n) == outer.start;
  }

  /** The composition of a positive-step view with a non-empty positive-step inner slice. */
  lemma NestedNonEmpty(outer: Bounds, inner: Bounds, n: nat, i: int)
    requires Canonical(outer, n) && outer.step > 0
    requires Canonical(inner, SliceLen(outer)) && inner.step > 0 && SliceLen(inner) > 0
    ensures var r := NormalizeSlice(Composed(outer, inner), n).value;
            SliceLen(r) == SliceLen(inner)
            && (0 <= i < SliceLen(inner) ==> Index(r, i) == Index(outer, Index(inner, i)))
  {
    var len, innerLen := SliceLen(outer), SliceLen(inner);
    var c := Composed(outer, inner);
    IndexInRange(inner, len, 0);
    IndexInRange(inner, len, innerLen - 1);
    IndexInRange(outer, n, inner.start);
    IndexInRange(outer, n, Index(inner, innerLen - 1));
    var step := inner.step * outer.step;
    MulPositive(inner.step, outer.step);
    var start := outer.start + inner.start * outer.step;
    ComposeIndex(outer, inner, innerLen - 1);
    ComposeIndex(outer, inner, innerLen);
    ComposeIndex(outer, inner, i);
    assert ClampStart(StartOf(c), n) == start;
    assert StepOf(c) == step;
    NestedCount(start, outer.start + inner.stop * outer.step, step, n, innerLen);
    NormalizeSelects(c, n, innerLen - 1);
    NormalizeSelects(c, n, innerLen);
    NormalizeSelects(c, n, i);
  }

  /**
   * A composed triple whose first `len` positions lie inside `[0, n)` and
   * whose stop is `len` steps from its start selects exactly `len` positions.
   */
  lemma NestedCount(start: int, stop: int, step: int, n: nat, len: nat)
    requires step > 0 && len >= 1 && stop == start + len * step
    requires 0 <= start && start + (len - 1) * step < n
    ensures var ce := ClampStop(stop, n);
            start <= start + (len - 1) * step < ce && !(start + len * step < ce)
  {
    MulMonotone(0, len - 1, step);
    assert (len - 1) * step < len * step by { MulMonotone(len - 1, len, step); }
  }

  /** The underlying index of an inner position, as an index of the composed triple. */
  lemma ComposeIndex(outer: Bounds, inner: Bounds, i: int)
    ensures Index(outer, Index(inner, i)) == outer.start + inner.start * outer.step + i * (inner.step * outer.step)
  {
    assert (inner.start + i * inner.step) * outer.step == inner.start * outer.step + i * (inner.step * outer.step);
  }

  /** The slice key whose fields are the stored start, stop and step of a triple. */
  function KeyOf(b: Bounds): SliceKey {
    SliceKey(Some(b.start), Some(b.stop), Some(b.step))
  }

  /**
   * With a positive step, normalising the stored triple of a view again gives
   * it back unchanged: the second normalisation of a composed slice is then
   * harmless.
   */
  lemma NormalizeIdempotent(b: Bounds, n: nat)
    requires Canonical(b, n) && b.step > 0
    ensures NormalizeSlice(KeyOf(b), n) == Ok(b)
  {
    var len := SliceLen(b);
    if len > 0 {
      IndexInRange(b, n, len - 1);
      MulPositive(len, b.step);
      RestoresStop(b.start, b.stop, b.step, n, len);
      assert ClampStart(b.start, n) == b.start;
      assert NormalizeSlice(KeyOf(b), n) == Ok(Bounds(b.start, RoundStop(b.start, ClampStop(b.stop, n), b.step), b.step));
    }
  }

  /** Clamping the stop of a rounded positive-step triple to `n` and rounding again restores it. */
  lemma RestoresStop(start: int, stop: int, step: int, n: nat, len: nat)
    requires step > 0 && len >= 1 && stop == start + len * step
    requires 0 <= start && start + (len - 1) * step < n
    ensures var ce := ClampStop(stop, n);
            (ce - start) * step > 0 && RoundStop(start, ce, step) == stop
  {
    var ce := ClampStop(stop, n);
    NestedCount(start, stop, step, n, len);
    ProductSign(ce - start, step);
    RoundStopFacts(start, ce, step);
    var m := SliceLen(Bounds(start, RoundStop(start, ce, step), step));
    MulStrict(m - 1, len, step);
    MulStrict(len - 1, m, step);
  }

  /**
   * A start at or past the end is clamped to the last index, so with no
   * earlier stop a positive step selects exactly the last element (where a
   * Python list slice would select nothing).
   */
  lemma StartPastEnd(key: SliceKey, n: nat)
    requires n >= 1 && StartOf(key) >= n && StopOf(key, n) >= n && StepOf(key) > 0
    ensures var s := StepOf(key);
            NormalizeSlice(key, n) == Ok(Bounds(n - 1, n - 1 + s, s)) && SliceLen(Bounds(n - 1, n - 1 + s, s)) == 1
  {
    var s := StepOf(key);
    assert ClampStart(StartOf(key), n) == n - 1;
    assert ClampStop(StopOf(key, n), n) == n;
    assert RoundStop(n - 1, n, s) == n - 1 + s;
  }

  /**
   * With both ends left out, a negative step selects nothing: the stop
   * defaults to `n`, which lies after the start in the wrong direction.
   */
  lemma ReversedDefaultEmpty(key: SliceKey, n: nat)
    requires key.start.None? && key.stop.None? && StepOf(key) < 0
    ensures NormalizeSlice(key, n) == Ok(Bounds(0, 0, 1))
  {
    ProductSign(n, StepOf(key));
  }

  /**
   * Over an empty sequence a negative step with a negative stop keeps one
   * position, index 0, which lies outside the sequence.
   */
  lemma EmptyBaseNegativeStep(key: SliceKey)
    requires StepOf(key) < 0 && StopOf(key, 0) < 0
    ensures var s := StepOf(key);
            NormalizeSlice(key, 0) == Ok(Bounds(0, s, s)) && SliceLen(Bounds(0, s, s)) == 1
  {
    var s := StepOf(key);
    assert ClampStart(StartOf(key), 0) == 0;
    assert ClampStop(StopOf(key, 0), 0) == -1;
    RoundUp(1, -s);
    assert RoundStop(0, -1, s) == s;
  }

  /**
   * A view with a negative step that reaches index 0 stores the stop `-1`,
   * and the second normalisation of a slice taken of it reads that stop as
   * the last index: over five elements `[4:-6:-1]` stores `(4, -1, -1)`, five
   * elements, and `[:]` of that view is empty.
   */
  lemma NestedNegativeRewrap()
    ensures NormalizeSlice(SliceKey(Some(4), Some(-6), Some(-1)), 5) == Ok(Bounds(4, -1, -1))
    ensures SliceLen(Bounds(4, -1, -1)) == 5
    ensures NestedBounds(Bounds(4, -1, -1), SliceKey(None, None, None), 5) == Ok(Bounds(0, 0, 1))
  {
    assert NormalizeSlice(SliceKey(None, None, None), 5) == Ok(Bounds(0, 5, 1));
  }

  // ---------------------------------------------------------------------------
  // Arithmetic behind the rounding of the stop.

  lemma EmptyBoundsCanonical(n: nat)
    ensures Canonical(Bounds(0, 0, 1), n)
  {
  }

  /**
   * Rounding a positive distance `d` up to a multiple of a positive step `s`
   * gives `m` steps, the ceiling of `d / s`, with the last position before `d`.
   */
  lemma RoundUp(d: int, s: int)
    requires d > 0 && s > 0
    ensures var m := (d - 1) / s + 1;
            m >= 1 && d + s - (d - 1) % s - 1 == m * s && (m * s) / s == m
            && (d + s - 1) / s == m && (m - 1) * s < d <= m * s
  {
    var q, r := (d - 1) / s, (d - 1) % s;
    DivMod(d - 1, s);
    MulMonotone(q, -1, s);
    assert q >= 0;
    var m := q + 1;
    assert m * s == q * s + s;
    DivUnique(m * s, s, m, 0);
    DivUnique(d + s - 1, s, m, r);
  }

  /**
   * Rounding the stop leaves a whole, positive number of steps between start
   * and stop: the ceiling of the distance over the step, whose last position
   * lies strictly before the original stop.
   */
  lemma RoundStopFacts(start: int, stop: int, step: int)
    requires step != 0 && (stop - start) * step > 0
    ensures var e := RoundStop(start, stop, step);
            var len := SliceLen(Bounds(start, e, step));
            len >= 1 && e == start + len * step
            && len == CeilDiv(Abs(stop - start), Abs(step))
            && (step > 0 ==> start + (len - 1) * step < stop <= start + len * step)
            && (step < 0 ==> start + len * step <= stop < start + (len - 1) * step)
  {
    ProductSign(stop - start, step);
    if step > 0 {
      RoundForward(start, stop, step);
    } else {
      RoundBackward(start, stop, step);
    }
  }

  /** `RoundStopFacts` for a positive step. */
  lemma RoundForward(start: int, stop: int, step: int)
    requires step > 0 && stop > start
    ensures var e := RoundStop(start, stop, step);
            var len := SliceLen(Bounds(start, e, step));
            len >= 1 && e == start + len * step
            && len == CeilDiv(stop - start, step)
            && start + (len - 1) * step < stop <= start + len * step
  {
    var d := stop - start;
    RoundUp(d, step);
    var m := (d - 1) / step + 1;
    assert RoundStop(start, stop, step) == start + m * step;
    assert SliceLen(Bounds(start, start + m * step, step)) == m;
  }

  /** `RoundStopFacts` for a negative step. */
  lemma RoundBackward(start: int, stop: int, step: int)
    requires step < 0 && stop < start
    ensures var e := RoundStop(start, stop, step);
            var len := SliceLen(Bounds(start, e, step));
            len >= 1 && e == start + len * step
            && len == CeilDiv(start - stop, -step)
            && start + len * step <= stop < start + (len - 1) * step
  {
    var d, s := start - stop, -step;
    RoundUp(d, s);
    var m := (d - 1) / s + 1;
    assert RoundStop(start, stop, step) == start - m * s;
    assert m * step == -(m * s) && (m - 1) * step == -((m - 1) * s);
    assert Abs(start - m * s - start) == m * s;
    assert SliceLen(Bounds(start, start - m * s, step)) == m;
  }

  /** The rounded triple satisfies `Canonical`. */
  lemma RoundedCanonical(start: int, stop: int, step: int, n: nat)
    requires step != 0 && (stop - start) * step > 0
    requires n >= 1 ==> 0 <= start < n
    requires n == 0 ==> start == 0
    requires -1 <= stop <= n
    ensures Canonical(Bounds(start, RoundStop(start, stop, step), step), n)
  {
    RoundStopFacts(start, stop, step);
    var b := Bounds(start, RoundStop(start, stop, step), step);
    var len := SliceLen(b);
    ProductSign(stop - start, step);
    if step > 0 {
      MulMonotone(0, len - 1, step);
    } else {
      MulMonotone(0, len - 1, -step);
      assert (len - 1) * step == -((len - 1) * -step);
      if n == 0 {
        RoundUp(1, -step);
      }
    }
  }

  lemma ProductSign(a: int, b: int)
    ensures a * b > 0 <==> (a > 0 && b > 0) || (a < 0 && b < 0)
    ensures a * b == 0 <==> a == 0 || b == 0
  {
    if a > 0 && b > 0 { MulPositive(a, b); }
    else if a < 0 && b < 0 { MulPositive(-a, -b); }
    else if a > 0 && b < 0 { MulPositive(a, -b); }
    else if a < 0 && b > 0 { MulPositive(-a, b); }
  }

  lemma MulPositive(a: int, b: int)
    requires a > 0 && b > 0
    ensures a * b > 0 && a * b >= a && a * b >= b
  {
  }

  lemma MulMonotone(a: int, b: int, s: int)
    requires s > 0
    ensures a <= b ==> a * s <= b * s
    ensures a < b ==> a * s < b * s
  {
    if a < b {
      MulPositive(b - a, s);
      assert b * s - a * s == (b - a) * s;
    }
  }

  lemma MulStrict(a: int, b: int, s: int)
    requires s > 0
    ensures a * s < b * s ==> a < b
    ensures a * s <= b * s ==> a <= b
  {
    MulMonotone(b, a, s);
  }

  lemma DivMod(a: int, b: int)
    requires b > 0
    ensures a == (a / b) * b + a % b && 0 <= a % b < b
  {
  }

  lemma DivUnique(a: int, b: int, q: int, r: int)
    requires b > 0 && 0 <= r < b && a == q * b + r
    ensures a / b == q && a % b == r
  {
    var q2, r2 := a / b, a % b;
    DivMod(a, b);
    MulMonotone(q2 + 1, q, b);
    MulMonotone(q + 1, q2, b);
    assert (q2 + 1) * b == q2 * b + b;
    assert (q + 1) * b == q * b + b;
  }
}
