/** Failure-compatible wrappers shared by every decoder and index of the model.

    `Result` stands for `anyhow::Result`: the `Error` carried on failure names the
    kind of message the decoders raise, so that a contract can say which check
    rejected a row without modelling message formatting. */
module Wrappers {

  datatype Option<+T> = None | Some(value: T) {

    predicate IsFailure() {
      None?
    }

    function PropagateFailure<U>(): Option<U>
      requires None?
    {
      None
    }

    function Extract(): T
      requires Some?
    {
      value
    }
  }

  /** The reasons a decoder gives up on its input. */
  datatype Error =
    | Malformed                                 // the JSON envelope itself did not decode
    | ExpectedArray                             // "expected array"
    | WrongArity(expected: nat, got: nat)       // "expected N items, got M"
    | ExpectedStr(index: nat)                   // "expected str at position I"
    | UnknownTerminal(text: string)             // "unknown terminal stop: S"
    | UnknownDirection(text: string)            // "unknown direction: S" (two-valued stop direction)
    | MissingStopName                           // "expected Stop name"
    | MissingInput                              // "missing input"
    | MissingRouteDirection                     // "missing route direction"
    | UnknownDisplay(text: string)              // "unknown bus display: S"
    | BadTime(text: string)                     // a clock-time format rejected the text
    | BadDate(text: string)                     // the date format rejected the text
    | BadInteger(text: string)                  // integer parsing failed
    | BadNumber(text: string)                   // floating-point parsing failed
    | UnknownVariant(text: string)              // an enum keyword was not recognised
    | InvalidType(index: nat)                   // an enum cell was not a JSON string

  datatype Result<+T> = Ok(value: T) | Err(error: Error) {

    predicate IsFailure() {
      Err?
    }

    function PropagateFailure<U>(): Result<U>
      requires Err?
    {
      Err(error)
    }

    function Extract(): T
      requires Ok?
    {
      value
    }
  }

  /** Turns an optional value into a result, failing with `e` when absent. */
  function OkOr<T>(o: Option<T>, e: Error): (r: Result<T>)
    ensures r.Ok? <==> o.Some?
    ensures r.Ok? ==> r.value == o.value
    ensures r.Err? ==> r.error == e
  {
    match o
    case Some(v) => Ok(v)
    case None => Err(e)
  }

  /** The ordering a comparison returns (`std::cmp::Ordering`). */
  datatype Ordering = Less | Equal | Greater {

    function Reverse(): Ordering {
      match this
      case Less => Greater
      case Equal => Equal
      case Greater => Less
    }
  }
}
