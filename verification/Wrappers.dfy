module Wrappers {
  import opened Arithmetic

  type Byte = n: nat | n < 256
  type Word = n: nat | n < TWO_64

  datatype Option<+T> = None | Some(value: T) {
    predicate IsFailure() { None? }
    function PropagateFailure<U>(): Option<U>
      requires None?
    {
      None
    }
    function Extract(): T
      requires Some?
    {
      value
    }
  }
}
