/** Option and Result wrappers shared by every module of the model. */
module Wrappers {
  datatype Option<T> = None | Some(value: T)

  /** A computation that either yields a value or aborts with a message
      (a Sail `throw`, a Python `SystemExit`, a C++ exception). */
  datatype Result<T> = Ok(value: T) | Err(error: string)
  {
    predicate IsFailure()
    {
      Err?
    }

    function PropagateFailure<U>(): Result<U>
      requires Err?
    {
      Err(error)
    }

    function Extract(): T
      requires Ok?
    {
      value
    }
  }
}
