/** Failure-compatible wrappers shared by every module of the model.

    The Rust code returns `Result<T, Error>` whose error carries only a
    message; the message text is irrelevant to the session's behaviour, so
    `Err` carries nothing here. */
module Wrappers {

  datatype Option<+T> = None | Some(value: T)

  datatype Result<+T> = Ok(value: T) | Err {

    predicate IsFailure() {
      Err?
    }

    function PropagateFailure<U>(): Result<U>
      requires Err?
    {
      Err
    }

    function Extract(): T
      requires Ok?
    {
      value
    }
  }
}
