/** The Option and Result types shared by the index-builder modules. */
module Outcomes {
  /** A value that may be absent; `None` plays the part of a null pointer. */
  datatype Option<+T> = None | Some(value: T)

  /** The result of a step that can fail with an error of type `E`. */
  datatype Result<+T, +E> = Success(value: T) | Failure(error: E)

  /** Appending `added` to `before + done` gives `before + next` when `next` is
      `done + added`: the step of every append loop. */
  lemma AppendStep<T>(before: seq<T>, done: seq<T>, added: seq<T>, next: seq<T>)
    requires next == done + added
    ensures (before + done) + added == before + next
  {
  }
}
