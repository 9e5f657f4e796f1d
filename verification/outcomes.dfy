/** Outcomes of the toolkit's operations.

 The C# code signals trouble in two ways: by throwing (an `ArgumentException`
 for an unsupported matrix size, an `IndexOutOfRangeException` for a short
 array, a `NotImplementedException` for the trapezium rule) and by silently
 producing IEEE NaN or an infinity after a division by zero or a square root
 of a negative number. Over the reals both become a `Failure`.
 */
module Outcomes {

  /** What went wrong. `NonFinite` stands for any NaN or infinity the IEEE code would produce. */
  datatype Fault = UnsupportedSize | IndexOutOfRange | NonFinite | NotImplemented

  datatype Result<+T> = Success(value: T) | Failure(fault: Fault) {

    predicate IsFailure() {
      Failure?
    }

    function PropagateFailure<U>(): Result<U>
      requires Failure?
    {
      Failure(fault)
    }

    function Extract(): T
      requires Success?
    {
      value
    }
  }
}
