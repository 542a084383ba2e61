/** Shared value types: optional values, fallible results, bytes and the
    unsigned 64-bit range that Rust's `u64` imposes. */
module Common {

  /** A value that may be absent. */
  datatype Option<T> = None | Some(value: T)

  /** The outcome of an operation that can fail; `Failure` stands for the
      places where the program returns an error or panics. */
  datatype Result<T, E> = Success(value: T) | Failure(error: E) {

    predicate IsFailure() {
      Failure?
    }

    function PropagateFailure<U>(): Result<U, E>
      requires Failure?
    {
      Failure(error)
    }

    function Extract(): T
      requires Success?
    {
      value
    }
  }

  /** One octet of a file, a request or a response. */
  type byte = b: int | 0 <= b < 256

  /** 2^64: one more than the largest `u64`. */
  const U64_LIMIT: int := 0x1_0000_0000_0000_0000

  /** The values of Rust's `u64`. */
  type u64 = n: int | 0 <= n < U64_LIMIT
}
