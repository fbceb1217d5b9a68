/**
 * `SeqSlice`, the strided view over an underlying sequence, together with the
 * `basic_getitem`/`basic_setitem` subscript protocol it is decorated with.
 * The underlying sequence is an array shared with every view taken of it, so
 * a write through a view is a write to the array.
 */
module SeqSlices {
  import opened Errors
  import opened Slicing

  /** What a `SeqSlice` is built over: a base sequence, or another view (which is flattened). */
  datatype Source<T> = Base(items: array<T>) | Nested(view: SeqSlice<T>)

  /** What a subscript read returns: an element, a new view for a slice key, or the error raised. */
  datatype Item<T> = Element(value: T) | Sub(view: SeqSlice<T>) | Raised(error: Error)

  /** The right-hand side of a subscript assignment: one element, or a sized iterable of elements. */
  datatype Value<T> = Scalar(x: T) | Items(xs: seq<T>)

  class SeqSlice<T> {
    var sequence: array<T>
    var start: int
    var stop: int
    var step: int

    /** The stored triple is one that normalisation against the array's length produces. */
    ghost predicate Valid()
      reads this
    {
      Canonical(Range(), sequence.Length)
    }

    function Range(): Bounds
      reads this
    {
      Bounds(start, stop, step)
    }

    /** Stores the base sequence and an already normalised triple. */
    constructor Init(sequence: array<T>, b: Bounds)
      requires Canonical(b, sequence.Length)
      ensures this.sequence == sequence && Range() == b && Valid()
    {
      this.sequence := sequence;
      start, stop, step := b.start, b.stop, b.step;
    }

    /** `__len__`: the stop lies exactly `Len()` steps from the start. */
    function Len(): (len: nat)
      reads this
      requires Valid()
      ensures stop == start + len * step
      ensures len == 0 ==> Range() == Bounds(0, 0, 1)
    {
      SliceLen(Range())
    }

    /**
     * The undecorated `__getitem__`: position `i` reads the base sequence at
     * `start + i * step`; only on an empty base (where the view may still have
     * one position) does that read fail.
     */
    function Get(i: int): (r: Result<T>)
      reads this, sequence
      requires Valid() && 0 <= i < Len()
      ensures r.Ok? <==> sequence.Length > 0
      ensures r.Err? ==> r.error == IndexError
      ensures r.Ok? ==> 0 <= Index(Range(), i) < sequence.Length && r.value == sequence[Index(Range(), i)]
    {
      IndexInRange(Range(), sequence.Length, i);
      match NormalizeIndex(Index(Range(), i), sequence.Length)
      case Ok(j) => Ok(sequence[j])
      case Err(e) => Err(e)
    }

    /**
     * `__getitem__` as decorated by `basic_getitem`: a slice key gives a new
     * view over the same base sequence, an integer key in range reads the
     * element at its non-negative form, and every other key raises.
     */
    method GetItem(key: Key) returns (r: Item<T>)
      requires Valid()
      ensures match Dispatch(key, Len())
        case Raise(e) => r == Raised(e)
        case Call(i) => r == (match Get(i) case Ok(x) => Element(x) case Err(e) => Raised(e))
        case View(k) =>
          match NestedBounds(Range(), k, sequence.Length)
          case Err(e) => r == Raised(e)
          case Ok(b) => r.Sub? && fresh(r.view) && r.view.sequence == sequence && r.view.Range() == b && r.view.Valid()
    {
      match Dispatch(key, Len()) {
        case Raise(e) =>
          r := Raised(e);
        case Call(i) =>
          var x := Get(i);
          r := match x case Ok(v) => Element(v) case Err(e) => Raised(e);
        case View(k) =>
          var s := NewSeqSlice(Nested(this), k);
          r := match s case Ok(v) => Sub(v) case Err(e) => Raised(e);
      }
    }

    /**
     * The undecorated `__setitem__`: writes the base sequence at
     * `start + i * step` and nowhere else; on an empty base the write fails.
     */
    method SetAt(i: int, x: T) returns (err: Option<Error>)
      requires Valid() && 0 <= i < Len()
      modifies sequence
      ensures err == (if sequence.Length == 0 then Some(IndexError) else None)
      ensures sequence.Length > 0 ==>
        0 <= Index(Range(), i) < sequence.Length && sequence[..] == old(sequence[..])[Index(Range(), i) := x]
    {
      IndexInRange(Range(), sequence.Length, i);
      match NormalizeIndex(Index(Range(), i), sequence.Length) {
        case Ok(j) =>
          sequence[j] := x;
          err := None;
        case Err(e) =>
          err := Some(e);
      }
    }

    /**
     * The integer branch of `basic_setitem`: the key is bounds-checked and
     * wrapped exactly as for a read, then the element is written.
     */
    method SetIndex(k: int, x: T) returns (err: Option<Error>)
      requires Valid()
      modifies sequence
      ensures match NormalizeIndex(k, Len())
        case Err(e) => err == Some(e) && sequence[..] == old(sequence[..])
        case Ok(i) =>
          err == (if sequence.Length == 0 then Some(IndexError) else None)
          && (sequence.Length > 0 ==>
                0 <= Index(Range(), i) < sequence.Length && sequence[..] == old(sequence[..])[Index(Range(), i) := x])
    {
      var index := NormalizeIndex(k, Len());
      if index.Err? {
        err := Some(index.error);
      } else {
        err := SetAt(index.value, x);
      }
    }

    /**
     * `__setitem__` as decorated by `basic_setitem`: a slice key assigns
     * one-to-one through the view it selects, an integer key writes one
     * element, any other key raises TypeError; every error is raised before
     * any write.
     */
    method SetItem(key: Key, value: Value<T>) returns (err: Option<Error>)
      requires Valid()
      modifies sequence
      ensures err.Some? ==> sequence[..] == old(sequence[..])
      ensures key.Other? ==> err == Some(TypeError)
      ensures key.Int? ==>
        match NormalizeIndex(key.i, Len())
        case Err(e) => err == Some(e)
        case Ok(i) =>
          if value.Items? then err == Some(TypeError)
          else if sequence.Length == 0 then err == Some(IndexError)
          else err == None && 0 <= Index(Range(), i) < sequence.Length
               && sequence[..] == old(sequence[..])[Index(Range(), i) := value.x]
      ensures key.Slice? ==>
        SliceAssigned(NestedBounds(Range(), key.slice, sequence.Length), value, err, old(sequence[..]), sequence[..])
    {
      match key {
        case Other =>
          err := Some(TypeError);
        case Int(k) =>
          if NormalizeIndex(k, Len()).Err? {
            err := Some(IndexError);
          } else if value.Items? {
            err := Some(TypeError);
          } else {
            err := SetIndex(k, value.x);
          }
        case Slice(k) =>
          err := SetSlice(k, value);
      }
    }

    /**
     * The slice branch of `basic_setitem`: the view is built first, the value's
     * length is compared with the view's, and then `xs[i]` is written to the
     * view's position `i` for `i` from 0 upwards.
     */
    method SetSlice(k: SliceKey, value: Value<T>) returns (err: Option<Error>)
      requires Valid()
      modifies sequence
      ensures err.Some? ==> sequence[..] == old(sequence[..])
      ensures SliceAssigned(NestedBounds(Range(), k, sequence.Length), value, err, old(sequence[..]), sequence[..])
    {
      var s := NewSeqSlice(Nested(this), k);
      if s.Err? {
        return Some(s.error);
      }
      err := AssignThrough(s.value, value, s.value.Range());
    }

    /**
     * The part of the slice branch after the view is built: the value's
     * shape and length are checked, then it is written through `view`,
     * whose triple is `b`.
     */
    method AssignThrough(view: SeqSlice<T>, value: Value<T>, ghost b: Bounds) returns (err: Option<Error>)
      requires Valid() && view.Valid() && view.sequence == sequence && b == view.Range()
      modifies sequence
      ensures err.Some? ==> sequence[..] == old(sequence[..])
      ensures SliceAssigned(Ok(b), value, err, old(sequence[..]), sequence[..])
    {
      if value.Scalar? {
        return Some(TypeError);
      }
      var xs := value.xs;
      if view.Len() != |xs| {
        return Some(ValueError);
      }
      err := view.AssignAll(xs);
    }

    /**
     * The element-by-element loop of a slice assignment, run on this view:
     * writes `xs[i]` to position `i` for `i` from 0 upwards, stopping at
     * the first write that raises.
     */
    method AssignAll(xs: seq<T>) returns (err: Option<Error>)
      requires Valid() && |xs| == Len()
      modifies sequence
      ensures err == (if sequence.Length == 0 && |xs| > 0 then Some(IndexError) else None)
      ensures sequence[..] == AssignSlice(old(sequence[..]), Range(), xs, |xs|)
    {
      ghost var before := sequence[..];
      var i := 0;
      while i < |xs|
        invariant 0 <= i <= |xs|
        invariant sequence.Length > 0 || i == 0
        invariant sequence[..] == AssignSlice(before, Range(), xs, i)
      {
        var e := SetIndex(i, xs[i]);
        if e.Some? {
          return e;
        }
        i := i + 1;
      }
      err := None;
    }
  }

  /**
   * The outcome of a slice assignment through the view `view` (or the error
   * building it raised): a value that is not sized raises TypeError, one not
   * of the view's length ValueError, a write to an empty base IndexError;
   * otherwise `after` is `before` with the value written through the view.
   */
  ghost predicate SliceAssigned<T>(view: Result<Bounds>, value: Value<T>, err: Option<Error>, before: seq<T>, after: seq<T>)
  {
    match view
    case Err(e) => err == Some(e)
    case Ok(b) =>
      b.step != 0 &&
      if value.Scalar? then err == Some(TypeError)
      else if |value.xs| != SliceLen(b) then err == Some(ValueError)
      else if |before| == 0 && |value.xs| > 0 then err == Some(IndexError)
      else err == None && after == AssignSlice(before, b, value.xs, |value.xs|)
  }

  /**
   * `SeqSlice(sequence, key)`: over a base sequence the key is normalised
   * against its length; over a view the key is normalised against the view's
   * length and composed with it, and the new view is stored over the view's
   * own base sequence. A zero step raises ValueError.
   */
  method NewSeqSlice<T>(source: Source<T>, key: SliceKey) returns (r: Result<SeqSlice<T>>)
    requires source.Nested? ==> source.view.Valid()
    ensures r.Err? <==> StepOf(key) == 0
    ensures r.Err? ==> r.error == ValueError
    ensures r.Ok? ==> fresh(r.value) && r.value.Valid()
    ensures r.Ok? && source.Base? ==>
      r.value.sequence == source.items && NormalizeSlice(key, source.items.Length) == Ok(r.value.Range())
    ensures r.Ok? && source.Nested? ==>
      r.value.sequence == source.view.sequence
      && NestedBounds(source.view.Range(), key, source.view.sequence.Length) == Ok(r.value.Range())
  {
    var sequence: array<T>;
    var bounds: Result<Bounds>;
    match source {
      case Base(items) =>
        sequence := items;
        bounds := NormalizeSlice(key, items.Length);
      case Nested(view) =>
        sequence := view.sequence;
        bounds := NestedBounds(view.Range(), key, sequence.Length);
    }
    if bounds.Err? {
      r := Err(bounds.error);
    } else {
      var s := new SeqSlice<T>.Init(sequence, bounds.value);
      r := Ok(s);
    }
  }

  /**
   * The base sequence after writing `xs[0]`, ..., `xs[m - 1]` in turn to
   * positions `0`, ..., `m - 1` of the triple `b` (a write outside the
   * sequence changes nothing; it raises instead).
   */
  function AssignSlice<T>(base: seq<T>, b: Bounds, xs: seq<T>, m: nat): (r: seq<T>)
    requires m <= |xs|
    ensures |r| == |base|
  {
    if m == 0 then base
    else
      var prev := AssignSlice(base, b, xs, m - 1);
      var j := Index(b, m - 1);
      if 0 <= j < |prev| then prev[j := xs[m - 1]] else prev
  }

  /** After the first `m` writes, each written position holds its value. */
  lemma {:induction false} AssignSliceWrites<T>(base: seq<T>, b: Bounds, xs: seq<T>, m: nat, p: nat)
    requires b.step != 0 && m <= |xs| && p < m && 0 <= Index(b, p) < |base|
    ensures AssignSlice(base, b, xs, m)[Index(b, p)] == xs[p]
  {
    if p < m - 1 {
      IndexInjective(b, p, m - 1);
      AssignSliceWrites(base, b, xs, m - 1, p);
    }
  }

  /** After the first `m` writes, a position none of them hit holds its old value. */
  lemma {:induction false} AssignSliceKeeps<T>(base: seq<T>, b: Bounds, xs: seq<T>, m: nat, j: int)
    requires m <= |xs| && 0 <= j < |base|
    requires forall p :: 0 <= p < m ==> Index(b, p) != j
    ensures AssignSlice(base, b, xs, m)[j] == base[j]
  {
    if m > 0 {
      AssignSliceKeeps(base, b, xs, m - 1, j);
    }
  }

  /**
   * One-to-one slice assignment over a non-empty base: the value's element
   * `p` ends up at the view's position `p`, and every index the view does
   * not cover keeps its old element.
   */
  lemma SliceAssignment<T>(base: seq<T>, b: Bounds, xs: seq<T>)
    requires Canonical(b, |base|) && |xs| == SliceLen(b) && |base| > 0
    ensures var r := AssignSlice(base, b, xs, |xs|);
            |r| == |base|
            && (forall p :: 0 <= p < |xs| ==> 0 <= Index(b, p) < |base| && r[Index(b, p)] == xs[p])
            && (forall j :: 0 <= j < |base| && (forall p :: 0 <= p < |xs| ==> Index(b, p) != j) ==> r[j] == base[j])
  {
    forall p | 0 <= p < |xs|
      ensures 0 <= Index(b, p) < |base| && AssignSlice(base, b, xs, |xs|)[Index(b, p)] == xs[p]
    {
      IndexInRange(b, |base|, p);
      AssignSliceWrites(base, b, xs, |xs|, p);
    }
    forall j | 0 <= j < |base| && (forall p :: 0 <= p < |xs| ==> Index(b, p) != j)
      ensures AssignSlice(base, b, xs, |xs|)[j] == base[j]
    {
      AssignSliceKeeps(base, b, xs, |xs|, j);
    }
  }

  /**
   * Reading a view of a view: with positive steps, position `i` of
   * `SeqSlice(outer, key)` is position `Index(inner, i)` of `outer`, where
   * `inner` is the key normalised against `outer`'s length.
   */
  lemma NestedGet<T>(outer: SeqSlice<T>, view: SeqSlice<T>, key: SliceKey, i: int)
    requires outer.Valid() && view.Valid() && view.sequence == outer.sequence
    requires outer.step > 0 && StepOf(key) > 0
    requires NestedBounds(outer.Range(), key, outer.sequence.Length) == Ok(view.Range())
    ensures var inner := NormalizeSlice(key, outer.Len()).value;
            view.Len() == SliceLen(inner)
            && (0 <= i < view.Len() ==> 0 <= Index(inner, i) < outer.Len() && view.Get(i) == outer.Get(Index(inner, i)))
  {
    var inner := NormalizeSlice(key, outer.Len()).value;
    NestedFlattens(outer.Range(), key, outer.sequence.Length, i);
    if 0 <= i < view.Len() {
      IndexInRange(inner, outer.Len(), i);
    }
  }
}
