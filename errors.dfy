/** Outcomes shared by every stage: the compiler stops at its first fatal error
    (an errx call), so each stage returns either its value or the kind of that error. */
module Errors {

  /** One constructor per fatal diagnostic; the message text and the line:col it prints
      are not modelled. */
  datatype Error =
    | WordTooLong            // lex.c:97
    | LiteralOverflow        // lex.c:180
    | LexError               // lex.c:245
    | UnexpectedEof          // parse.c:19
    | UnexpectedToken        // parse.c:25
    | NotStartOfItem         // parse.c:101
    | VoidHasNoSize          // gen.c:19
    | UnsupportedReturnType  // gen.c:26
    | DuplicateArg           // gen.c:31
    | ArgStackvarCollision   // gen.c:36
    | DuplicateStackvar      // gen.c:43

  datatype Option<+T> = None | Some(value: T)

  /** A value, or the fatal error that stopped the computation. */
  datatype Result<+T> = Ok(value: T) | Fail(err: Error) {
    predicate IsFailure() { Fail? }
    function PropagateFailure<U>(): Result<U>
      requires Fail?
    {
      Fail(err)
    }
    function Extract(): T
      requires Ok?
    {
      value
    }
  }

  /** Completion of a step that produces no value. */
  datatype Outcome = Pass | Abort(err: Error) {
    predicate IsFailure() { Abort? }
    function PropagateFailure(): Outcome
      requires Abort?
    {
      this
    }
  }
}
