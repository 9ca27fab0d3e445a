/** Option, Result and the error kinds the modelled Python code raises. */
module Wrappers {

  datatype Option<+T> = None | Some(value: T)

  /**
   * The Python exception classes the core raises (an `assert` that fails
   * raises AssertionError; UnboundLocalError comes from reading a local name
   * before it is assigned).
   */
  datatype Error = ValueError | TypeError | AssertionError | KeyError | AttributeError | IndexError | UnboundLocalError

  /** A value, or the exception that the Python call would raise instead. */
  datatype Result<+T> = Ok(value: T) | Err(error: Error)

  /** The outcome of a call made for its side effects. */
  datatype Outcome = Pass | Fail(error: Error)

  /**
   * An argument of the dynamically typed `get_type(x)` helpers: a string, a
   * member of the enum itself, or anything else, split by Python truthiness
   * (None and other falsy values, or some other truthy object).
   */
  datatype TypeArg<T> = Str(s: string) | Member(member: T) | Absent | Foreign
}
