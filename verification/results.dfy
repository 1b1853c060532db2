/** Failure-carrying results shared by every part of the pipeline model.

    The Python scripts signal failure by raising (KeyError, TypeError,
    ValueError, ZeroDivisionError) or by printing a diagnostic and returning
    None; each such exit is one constructor of `Failure`.
 */
module Results {

  datatype Option<+T> = None | Some(value: T)

  datatype Failure =
    | MissingKey(key: string)              // KeyError on a configuration lookup
    | NotNumeric(key: string)              // arithmetic on a value that is not a number (TypeError)
    | ShapeMismatch(key: string)           // operands that numpy cannot broadcast or iterate
    | ZeroDivision                         // ZeroDivisionError
    | EmptyIntRange(lo: int, hi: int)      // numpy randint(lo, hi) with lo > hi (ValueError)
    | JitterNeverAccepts(low: real, high: real) // a rejection loop whose test no draw can pass
    | DrawsExhausted                       // the finite draw sequence standing for the generator ran out
    | SampleTooLarge(size: int)            // choice without replacement of more items than exist
    | NegativeSize(count: int)             // choice of a negative number of items
    | EmptyConfig                          // a tree model file whose dictionary is empty

  datatype Result<+T> = Ok(value: T) | Fail(failure: Failure) {

    predicate IsFailure() {
      Fail?
    }

    function PropagateFailure<U>(): Result<U>
      requires Fail?
    {
      Fail(failure)
    }

    function Extract(): T
      requires Ok?
    {
      value
    }
  }
}
