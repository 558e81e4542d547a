/** The dynamically typed values the game code receives, the errors it throws,
    and a Result type standing for "returns normally or throws". */
module Js {

  /** A JavaScript value as far as the game code inspects it: an integer
      number, a string, or anything else (null, undefined, an object, a
      fractional number). */
  datatype Value = Num(n: int) | Str(s: string) | Other

  /** Every `throw new Error(...)` of the core, one constructor per message. */
  datatype Error =
    | UnknownDirection(dir: Value)   // "Unknown direction: ${dir}"
    | EmptyReplay                    // replay data is empty
    | InvalidNumber                  // wrong number format
    | InvalidBoardSize               // board size is not valid
    | InvalidMoveLength              // move data length is not valid

  /** The outcome of a call that may throw. */
  datatype Result<+T> = Ok(value: T) | Err(error: Error) {

    predicate IsFailure() {
      Err?
    }

    function PropagateFailure<U>(): Result<U>
      requires Err?
    {
      Err(error)
    }

    function Extract(): T
      requires Ok?
    {
      value
    }
  }

  datatype Option<+T> = None | Some(value: T)
}
