/** Outcomes of the operations that the source ends with an exception.
    The encode path and the ring buffers throw on caller bugs; the model
    returns a `Failure` naming the fault instead. */
module Results {

  /** The distinct hard failures of the core. */
  datatype Fault =
    | NoRoom            // Serializer: output span smaller than the write
    | InvalidArray      // NetArray::serialized_length: length above capacity
    | ArrayFull         // NetArray::push_back: no free element
    | PushTooLarge      // TypedRingBuffer::push: beyond the writable region
    | PopTooLarge       // TypedRingBuffer::pop: beyond the readable region

  datatype Result<+T> = Success(value: T) | Failure(fault: Fault) {

    predicate IsFailure() {
      Failure?
    }

    function PropagateFailure<U>(): Result<U>
      requires Failure?
    {
      Failure(fault)
    }

    function Extract(): T
      requires Success?
    {
      value
    }
  }

  /** A check that either passes or fails with the given fault. */
  datatype Check = Pass | Fail(fault: Fault) {

    predicate IsFailure() {
      Fail?
    }

    function PropagateFailure<U>(): Result<U>
      requires Fail?
    {
      Failure(fault)
    }
  }

  function Need(condition: bool, fault: Fault): Check {
    if condition then Pass else Fail(fault)
  }
}
