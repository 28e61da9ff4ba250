/** The few pieces of the Python runtime that the polygon classes lean on:
    the exceptions they raise, a result type that carries them, and list or
    tuple indexing with an integer subscript. */
module Py {

  /** Why a ValueError was raised; the source distinguishes them only by message. */
  datatype Reason =
    | TooFewEdges               // "... must have at least 3 edges (sides)"
    | NegativeCircumradius      // "Circumradius must have to be greater than 0"
    | NotEnoughValuesToUnpack   // `[first, *_] = []`

  datatype Error =
    | ValueError(reason: Reason)
    | TypeError
    | IndexError
    | ZeroDivisionError

  /** A value, or the exception raised instead of producing it. */
  datatype Result<+T> = Ok(value: T) | Err(error: Error)

  /** `s[i]` for a Python list or tuple `s` and an integer `i`: a negative
      subscript counts from the end, anything else out of range raises IndexError. */
  function Index<T>(s: seq<T>, i: int): (r: Result<T>)
    ensures r.Ok? <==> -|s| <= i < |s|
    ensures r.Ok? ==> r.value == s[if i < 0 then |s| + i else i]
    ensures r.Err? ==> r.error == IndexError
  {
    if 0 <= i < |s| then Ok(s[i])
    else if -|s| <= i < 0 then Ok(s[|s| + i])
    else Err(IndexError)
  }
}
