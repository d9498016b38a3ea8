/** Failure-carrying wrappers used throughout the model.
    `None` stands for the pandas "not a number" sentinel of an undefined metric. */
module Options {

  datatype Option<+T> = None | Some(value: T) {
    function GetOr(default: T): T {
      match this
      case Some(v) => v
      case None => default
    }
  }

  datatype Result<+R, +E> = Success(value: R) | Failure(error: E)
}
