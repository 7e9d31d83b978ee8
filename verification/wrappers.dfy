/** Failure-carrying results shared by every module of the model.

    The modelled code reports configuration errors by throwing (THROWERROR) or by
    calling exit(); both abort the generation of the current operator, so both are
    modelled as `Fatal`. */
module Wrappers {

  datatype Option<+T> = None | Some(value: T)

  /** `Ok` carries the value an operation produced; `Fatal` stands for a THROWERROR,
      an exit() or a thrown string, with the message the code prints. */
  datatype Result<+T> = Ok(value: T) | Fatal(msg: string) {

    predicate IsFailure() {
      Fatal?
    }

    function PropagateFailure<U>(): Result<U>
      requires Fatal?
    {
      Fatal(msg)
    }

    function Extract(): T
      requires Ok?
    {
      value
    }
  }
}
