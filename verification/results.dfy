/** Optional values, results that may be errors, and numbers that may not be finite. */
module Results {

  datatype Option<T> = None | Some(value: T)

  datatype Result<T, E> = Ok(value: T) | Err(error: E)

  /** A floating-point number: a real, or else infinite or not a number. */
  datatype Float = Finite(value: real) | NonFinite

  // ----- Results collected in a loop

  /** What has been collected so far, in front of what the rest gives. */
  function Prepend<T, E>(xs: seq<T>, r: Result<seq<T>, E>): Result<seq<T>, E> {
    if r.Err? then r else Ok(xs + r.value)
  }

  lemma PrependSnoc<T, E>(xs: seq<T>, x: T, r: Result<seq<T>, E>)
    ensures Prepend(xs, if r.Err? then r else Ok([x] + r.value)) == Prepend(xs + [x], r)
  {
    if r.Ok? {
      assert xs + ([x] + r.value) == xs + [x] + r.value;
    }
  }

  lemma PrependEnds<T, E>(xs: seq<T>, r: Result<seq<T>, E>)
    ensures Prepend([], r) == r && Prepend(xs, Result<seq<T>, E>.Ok([])) == Result<seq<T>, E>.Ok(xs)
  {
    if r.Ok? {
      assert [] + r.value == r.value;
    }
    assert xs + [] == xs;
  }
}
