/** Small failure-carrying datatypes shared by the modules of the model. */
module Common {

  datatype Option<+T> = None | Some(value: T)

  datatype Result<+R, +E> = Success(value: R) | Failure(error: E)

  datatype Outcome<+E> = Pass | Fail(error: E)

  /** The exceptions the game code can raise.
      NotImplemented: an abstract method (`raise NotImplementedError`) was called.
      NoRoleAssigned: a night action was asked of a player whose role is still unset. */
  datatype Error = NotImplemented | NoRoleAssigned
}
