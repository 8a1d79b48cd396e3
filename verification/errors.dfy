/** Failure values shared by the parser and the evaluator.

    The interpreter signals every failure with a Java exception; here each
    kind of exception is one constructor of `Error`, and every operation that
    can throw returns a `Result`. */
module Errors {

  datatype Option<+T> = None | Some(value: T)

  datatype Error =
    /** Malformed surface syntax (the parser's ParseError). */
    | ParseError
    /** A list index past the end: the host raises IndexOutOfBoundsException. */
    | IndexOutOfBounds
    /** A null value was used: evaluating a special form yields null. */
    | NullValue
    /** No frame of the environment chain binds the symbol. */
    | Unbound
    /** The symbol is already bound in the frame that should receive it. */
    | AlreadyBound
    /** `car`/`cdr` on a value that is not a cons pair. */
    | NotSupported
    /** Application of a value that is neither a function nor a special form. */
    | NotCallable
    /** A numeric operation on a value that is not a number. */
    | NotANumber
    /** A non-symbol where a special form needs a symbol. */
    | NotASymbol
    /** Wrong number of operands for a special form, builtin or lambda. */
    | Arity
    /** Division or remainder by zero. */
    | DivideByZero
    /** A quotient without a terminating decimal expansion. */
    | NonTerminating
    /** The evaluation budget ran out (the host's call stack overflows). */
    | OutOfFuel

  datatype Result<+T> = Ok(value: T) | Err(error: Error) {
    predicate IsFailure() { Err? }

    function PropagateFailure<U>(): Result<U>
      requires Err?
    {
      Err(error)
    }

    function Extract(): T
      requires Ok?
    {
      value
    }
  }
}
