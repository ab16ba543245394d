/** Optional values, failure-compatible results, and the value types shared by
    the base-modification decoder. */
module Results {

  /** A value that may be absent; stands for a Java reference that may be null. */
  datatype Option<+T> = None | Some(value: T)

  /** Either a value or the reason the computation stopped. Usable with `:-`. */
  datatype Result<+T, +E> = Success(value: T) | Failure(error: E) {

    predicate IsFailure() {
      Failure?
    }

    function PropagateFailure<U>(): Result<U, E>
      requires Failure?
    {
      Failure(error)
    }

    function Extract(): T
      requires Success?
    {
      value
    }
  }

  /** A Java `byte`, stored as its unsigned bit pattern 0..255. */
  type byte = x: int | 0 <= x < 256

  /** The exceptions the Java decoder can raise, one constructor per cause. */
  datatype DecodeError =
      /** `tokens[0]` on the empty array that `",".split(",")` returns. */
    | MissingHeader
      /** `charAt(0)` or `charAt(1)` on a header shorter than two characters. */
    | HeaderTooShort(header: string)
      /** `substring(2, length - 1)` on a two-character header ending in `.` or `?`. */
    | CodeRangeError(header: string)
      /** `Integer.parseInt` rejected a skip count. */
    | BadSkipCount(token: string)
      /** `ml[mlIdx]` with `mlIdx` past the end of the likelihood array. */
    | LikelihoodUnderrun(index: nat)

  /** One decoded modification call: the header's base and strand characters,
      one modification code, and the position -> likelihood map for that code. */
  datatype BaseModificationSet = BaseModificationSet(
    base: char,
    strand: char,
    modification: string,
    likelihoods: map<nat, byte>)
}
