/** Outcomes of the operations that can fail. The source raises an uncaught
    IndexError in each of these situations; the model names every one. */
module Results {

  datatype Error =
    | MissingField        // a tagged line with fewer than four tab-separated fields
    | EmptyReading        // a word on the general path whose reading is empty
    | EmptyBeforeLongMark // a prolonged-sound mark after a kana that romanises to ""
    | EmptyInput          // a tagged sentence with no lines at all

  datatype Result<+T> = Ok(value: T) | Err(error: Error)

  /** `pre` in front of a successful list; an error passes through unchanged. */
  function Prepend<T>(pre: seq<T>, r: Result<seq<T>>): Result<seq<T>>
  {
    match r
    case Ok(v) => Ok(pre + v)
    case Err(e) => Err(e)
  }

  /** Sequential composition: the first error wins, otherwise the lists are joined. */
  function Concat<T>(r1: Result<seq<T>>, r2: Result<seq<T>>): Result<seq<T>>
  {
    match r1
    case Ok(v) => Prepend(v, r2)
    case Err(e) => Err(e)
  }

  lemma PrependPrepend<T>(a: seq<T>, b: seq<T>, r: Result<seq<T>>)
    ensures Prepend(a, Prepend(b, r)) == Prepend(a + b, r)
  {
    if r.Ok? {
      assert a + (b + r.value) == (a + b) + r.value;
    }
  }

  lemma PrependConcat<T>(a: seq<T>, r1: Result<seq<T>>, r2: Result<seq<T>>)
    ensures Prepend(a, Concat(r1, r2)) == Concat(Prepend(a, r1), r2)
  {
    if r1.Ok? {
      PrependPrepend(a, r1.value, r2);
    }
  }
}
