/** Small result types shared by the rental store model. */
module Outcomes {

  /** An optional value, used where the source returns "not found". */
  datatype Option<+T> = None | Some(value: T)

  /**
   * The outcome of a mutating operation of the store: the success flag the
   * source returns, together with the state after the call. On failure the
   * operations of this model hand back their input state unchanged unless
   * their contract says otherwise.
   */
  datatype Attempt<+S> = Attempt(ok: bool, state: S)
}
