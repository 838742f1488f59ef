/**
 Failure handling shared by the capture reader and the aggregator.

 Every failure in the modelled code is a Rust panic: a slice or index out of
 range, or a failed `assert!`.  A panic aborts the whole run, so it is modelled
 as a value that propagates unchanged to the top.
 */
module Results {

  /** Why the program panicked. */
  datatype Fault =
    | SliceOutOfRange(start: nat, end: nat, len: nat) // `&xs[start..end]` with `start > end` or `end > len`
    | IndexOutOfRange(index: nat, len: nat)           // `xs[index]` with `index >= len`
    | MagicMismatch(magic: nat)                       // `assert!(magic == 0xA1B2C3D4)`
    | FcsPresent(fcs: nat)                            // `assert!(fcs_f == 0)`

  /** Either the value computed, or the panic that stopped the computation. */
  datatype Result<+T> = Ok(value: T) | Panic(fault: Fault) {

    predicate IsFailure() {
      Panic?
    }

    function PropagateFailure<U>(): Result<U>
      requires Panic?
    {
      Panic(fault)
    }

    function Extract(): T
      requires Ok?
    {
      value
    }
  }
}
