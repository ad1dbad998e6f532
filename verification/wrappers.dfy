/** Value wrappers shared by the model: Swift's `Optional`, a thrown-or-returned
    `Result`, and the `Either` used by `splitIncludingSeparators`. */
module Wrappers {

  /** Swift's `Optional<Wrapped>`: `nil` is `None`, `.some(x)` is `Some(x)`. */
  datatype Option<+T> = None | Some(value: T) {

    /** The `x ?? default` operator. */
    function GetOr(default: T): T {
      match this
      case Some(v) => v
      case None => default
    }
  }

  /** A call that either returns a value or throws an error. */
  datatype Result<+T, +E> = Success(value: T) | Failure(error: E) {

    /** `try?` on the call: the thrown error becomes `nil`. */
    function ToOption(): Option<T> {
      match this
      case Success(v) => Some(v)
      case Failure(_) => None
    }
  }

  /** `Either<Left, Right>` with the `.left` / `.right` cases. */
  datatype Either<+L, +R> = Left(left: L) | Right(right: R)
}
