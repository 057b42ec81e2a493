/** The failure-or-value types the other modules share. */
module Wrappers {

  datatype Option<+T> = None | Some(value: T)

  datatype Result<+T, +E> = Ok(value: T) | Err(error: E)

  /** The answer is i exactly for item i. */
  ghost predicate Found<T>(items: seq<T>, item: T, answer: Option<nat>) {
    forall i: nat :: answer == Some(i) <==> i < |items| && items[i] == item
  }
}
