/** What one step of a modelled device comes to. */
module Steps {

  /** A value; a thrown error, which ends the run; or a part of the source outside this model, such as the
      handlers behind an I/O port or the start of a transmission. */
  datatype Step<+T> = Ok(value: T) | Fail | Outside {

    predicate IsFailure() {
      !Ok?
    }

    function PropagateFailure<U>(): Step<U>
      requires IsFailure()
    {
      if Fail? then Fail else Outside
    }

    function Extract(): T
      requires !IsFailure()
    {
      value
    }
  }
}
