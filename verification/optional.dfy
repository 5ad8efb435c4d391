/**
  The optional results of the model: the record a classifier may or may not send, the
  event a buffer may or may not decode to, and the value a rendered string may or may
  not parse back to.
*/
module Optional {

  datatype Option<+T> = None | Some(value: T)
  {
    /** With these three members `:-` stops a parser at the first `None`. */
    predicate IsFailure() { None? }

    function PropagateFailure<U>(): Option<U>
      requires None?
    {
      None
    }

    function Extract(): T
      requires Some?
    {
      value
    }
  }
}
