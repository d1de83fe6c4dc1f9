/**
 Failure values for the engine. `PricingRule.java` and `Checkout.java` signal
 every failure by throwing (`NextailException`, or a runtime exception of the
 JDK); each such throw is a value of `Error` here, carried by a `Result` that
 works with Dafny's `:-` operator.
 */
module Results {
  import opened Values

  /** A field the Java builders and rules leave `null` is `None`. */
  datatype Option<T> = None | Some(value: T)

  datatype Error =
      // Thrown while building a rule (configuration errors)
    | MissingConditionType
    | MissingConditionValue
    | MissingActionType
    | MissingActionValue
      // Thrown while evaluating a rule
    | ClassMismatch(fact: JavaClass, expected: JavaClass)   // evalCondition on values of different classes
    | ClassCast(found: JavaClass)                           // X_QUANTITY value read as an Integer
      // `subList(0, toIndex)` outside `[0, size]`: a negative `toIndex` is the
      // IllegalArgumentException of `fromIndex > toIndex`, a `toIndex` above
      // `size` the IndexOutOfBoundsException; the sign of `toIndex` tells them apart
    | SubListOutOfRange(toIndex: int, size: int)
    | MissingActions                                        // a matching rule whose action list is null

  datatype Result<T> = Ok(value: T) | Err(error: Error) {
    predicate IsFailure() {
      Err?
    }

    function PropagateFailure<U>(): Result<U>
      requires Err?
    {
      Err(error)
    }

    function Extract(): T
      requires Ok?
    {
      value
    }
  }
}
