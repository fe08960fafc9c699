/** Errors raised by the converter and the failure-compatible result type
    that replaces Python's exceptions. Every error the model covers is a
    `ValueError` whose message is shown to the user; the four kinds below
    are the four distinct messages. */
module Outcomes {

  datatype Error =
    | NotAnInteger        // int() could not parse the trimmed text
    | Negative            // the parsed value is below zero
    | MinutesOutOfRange   // a minutes field is 60 or more
    | ZeroWorkday         // the workday is zero minutes long

  /** The message the program attaches to each error. */
  function Message(e: Error): (m: string)
    ensures m != []
  {
    match e
    case NotAnInteger => "Entrada no es un número entero."
    case Negative => "Los valores no pueden ser negativos."
    case MinutesOutOfRange => "Los minutos deben estar entre 0 y 59."
    case ZeroWorkday => "La jornada laboral no puede ser 0 minutos (introduce horas y/o minutos)."
  }

  /** Each kind of error has its own message, so the user can tell them
      apart. */
  lemma MessagesDistinct(e: Error, f: Error)
    requires Message(e) == Message(f)
    ensures e == f
  {
  }

  datatype Result<+T> = Ok(value: T) | Err(error: Error) {
    predicate IsFailure() { Err? }

    function PropagateFailure<U>(): Result<U>
      requires Err?
    {
      Err(error)
    }

    function Extract(): T
      requires Ok?
    {
      value
    }
  }
}
