/** Failure-carrying wrappers shared by every module of the model.
    `Option` stands for Python's "value or None", `Outcome` for
    "returned normally or raised". */
module Results {

  datatype Option<+T> = None | Some(value: T)

  /** Either the call returned normally, or it raised `error`. */
  datatype Outcome<+E> = Pass | Fail(error: E)
}
