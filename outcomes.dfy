/** Optional values, the exceptions the converter can raise, and a Result
    type that carries them (failure-compatible, so methods can use `:-`). */
module Outcomes {

  datatype Option<+T> = None | Some(value: T)

  /** The exceptions raised by mask_to_objects.py, one constructor per cause. */
  datatype Error =
    | DimensionError(ndim: nat)  // ValueError: an entry point got an array of the wrong ndim
    | NoInteriorPoint            // ValueError: get_polygon_inner_point found no interior neighbour
    | MissingOffset              // TypeError: the default offset None was sliced
    | NoExterior                 // AttributeError: a MultiPolygon has no exterior ring
    | RepairFailed               // AttributeError: `.is_valid` read on the None of a failed repair
    | OutOfBounds                // IndexError: the mask was indexed outside its shape

  datatype Result<+T> = Ok(value: T) | Err(error: Error) {

    predicate IsFailure() {
      Err?
    }

    function PropagateFailure<U>(): Result<U>
      requires Err?
    {
      Err(error)
    }

    function Extract(): T
      requires Ok?
    {
      value
    }
  }

  /** `xs` followed by the sequence in `r`, or the error of `r`. */
  function Prepend<T>(xs: seq<T>, r: Result<seq<T>>): Result<seq<T>>
  {
    match r
    case Ok(ys) => Ok(xs + ys)
    case Err(e) => Err(e)
  }

  lemma PrependNothing<T>(r: Result<seq<T>>)
    ensures Prepend([], r) == r
  {
    if r.Ok? {
      assert [] + r.value == r.value;
    }
  }

  lemma PrependTwice<T>(xs: seq<T>, ys: seq<T>, r: Result<seq<T>>)
    ensures Prepend(xs, Prepend(ys, r)) == Prepend(xs + ys, r)
  {
    if r.Ok? {
      assert xs + (ys + r.value) == (xs + ys) + r.value;
    }
  }

  lemma ConcatAssoc<T>(a: seq<T>, b: seq<T>, c: seq<T>)
    ensures a + b + c == a + (b + c)
  {
  }

  function OptionToSeq<T>(o: Option<T>): seq<T>
  {
    match o
    case Some(x) => [x]
    case None => []
  }
}
