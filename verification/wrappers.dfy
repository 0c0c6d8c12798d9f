/** Small result types shared by the model. */
module Wrappers {

  /** Rust's `Option`. */
  datatype Option<+T> = None | Some(value: T)

  /** The outcome of a computation that the source may never finish.
      `Diverges` means the fuel bound ran out before the computation
      finished; a lemma that shows `Diverges` for every fuel shows that
      the source does not terminate on that input. */
  datatype Outcome<+T> = Done(value: T) | Diverges
}
