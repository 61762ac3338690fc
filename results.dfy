/** Value wrappers for partial operations and for the two exception channels of the program. */
module Results {

  datatype Option<+T> = None | Some(value: T)

  datatype Result<+T, +E> = Success(value: T) | Failure(error: E)

  /**
   * What a command does when it finishes: it returns a response text (`Done`), throws a
   * `PiggyException` carrying a user-facing message (`Error`), or lets an unchecked Java
   * exception escape (`Fault`, naming the exception class).
   */
  datatype Outcome = Done(text: string) | Error(message: string) | Fault(exception: string)
}
