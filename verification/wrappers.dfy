/** Failure-carrying wrappers shared by every module of the model.

    Go reports failures in two ways: a returned `error` value and a runtime
    panic. Both are kept apart here, so that a contract can say which of the
    two an operation produces. The `NoAction` sentinel of the action package
    is a distinguished error of its own.
 */
module Wrappers {

  datatype Option<+T> = None | Some(value: T)

  /** Why an operation did not produce its result. */
  datatype Fault =
    | NoAction            // the `action.NoAction` sentinel error
    | Error(msg: string)  // any other returned `error`
    | Panic(msg: string)  // a Go runtime panic (nil dereference, bad slice bound, explicit panic)

  datatype Result<+T> = Ok(value: T) | Fail(fault: Fault)
}
