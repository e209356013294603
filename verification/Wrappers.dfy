/** Outcomes shared by the modelled kernel code. */
module Wrappers {

  datatype Option<+T> = None | Some(value: T)

  /**
   The outcome of a kernel operation.
    - Ok carries the result of a call that returned.
    - Panic means that the code stopped in kernelPanic, in a failed assertion, or in a fault
      that the kernel does not handle; nothing runs afterwards.
    - Cyclic means that the code returned but linked a free list into a ring, because the
      last element of the list was released a second time.
   */
  datatype Res<+T> = Ok(value: T) | Panic | Cyclic {
    /** The same failure, as the outcome of a caller. */
    function Failed<U>(): Res<U>
      requires !Ok?
    {
      if Panic? then Panic else Cyclic
    }
  }
}
