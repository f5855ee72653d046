/** The Option type used wherever the script may produce "no value": a regular
    expression without a match, a `parseInt` that yields NaN, or a run that
    ends in an uncaught exception. */
module Wrappers {

  datatype Option<+T> = None | Some(value: T)
}
