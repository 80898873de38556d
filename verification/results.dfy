/** Failure-compatible result and option types shared by the model of the
    triangulator. Go's `error` returns and its runtime panics (index out of
    range, nil pointer dereference) both become `Err` values, so that every
    modelled operation is a total function. */
module Results {

  /** Why a call ended without a value. */
  datatype Error =
    | NoTriangulation   // triangulate: no finite third seed was found
    | MalformedInput    // triangulate: the visible-edge walk came back to its start
    | IndexOutOfRange   // a Go runtime panic: slice index out of range
    | NilDereference    // a Go runtime panic: nil pointer dereference
    | NaNKey            // hashKey of the seed circumcenter itself: Go converts NaN to int
    | OutOfFuel         // the model's bound on a loop or a recursion was reached

  /** The errors that stand for a Go runtime panic. */
  predicate Panic(e: Error) {
    e == IndexOutOfRange || e == NilDereference
  }

  datatype Result<+T> = Ok(value: T) | Err(error: Error) {

    predicate IsFailure() {
      Err?
    }

    function PropagateFailure<U>(): Result<U>
      requires Err?
    {
      Err(error)
    }

    function Extract(): T
      requires Ok?
    {
      value
    }
  }

  datatype Option<+T> = None | Some(value: T)
}
