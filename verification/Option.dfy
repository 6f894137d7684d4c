/** Partiality: a computation that the kernel can not carry out yields `None`.

    The kernel functions modelled here are written in C and check almost nothing: a frame
    request that fails, or a table pointer outside physical memory, is simply used.  The
    model stops there instead of inventing an outcome. */
module Options {
  datatype Option<+T> = None | Some(value: T) {
    predicate IsFailure() {
      None?
    }

    function PropagateFailure<U>(): Option<U>
      requires None?
    {
      None
    }

    function Extract(): T
      requires Some?
    {
      value
    }
  }
}
