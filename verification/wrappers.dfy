/** Failure-compatible result and option types shared by every module of the model.
    An `Err` stands for a thrown JavaScript `Error` (or a rejected promise). */
module Wrappers {

  datatype Option<+T> = None | Some(value: T) {
    predicate IsFailure() { None? }

    function PropagateFailure<U>(): Option<U>
      requires None?
    {
      None
    }

    function Extract(): T
      requires Some?
    {
      value
    }

    function GetOr(default: T): T {
      if Some? then value else default
    }
  }

  datatype Result<+T, +E> = Ok(value: T) | Err(error: E) {
    predicate IsFailure() { Err? }

    function PropagateFailure<U>(): Result<U, E>
      requires Err?
    {
      Err(error)
    }

    function Extract(): T
      requires Ok?
    {
      value
    }
  }

  /** A JavaScript `x ?? fallback` operand: absent (`undefined`), `null`, or a value. */
  datatype Nullish<+T> = Undefined | Null | Value(v: T) {
    predicate IsNullish() { !Value? }

    function OrElse(fallback: T): T {
      if Value? then v else fallback
    }

    function ToOption(): Option<T> {
      if Value? then Some(v) else None
    }
  }
}
