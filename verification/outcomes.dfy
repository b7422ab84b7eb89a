/**
 The values that flow through the first-ok pipeline: the outcome a checker
 produces for one item, and the optional outcome the aggregator returns.
 */
module Outcomes {

  /** The `Result<T, E>` a checker produces for one item. */
  datatype Outcome<+T, +E> = Ok(value: T) | Err(error: E)

  /** The `Option` the aggregator returns (`None` when no outcome was kept). */
  datatype Option<+X> = None | Some(value: X)

  function Min(a: nat, b: nat): nat
  {
    if a <= b then a else b
  }

  /** No outcome of `s` is a success. */
  predicate NoOk<T, E>(s: seq<Outcome<T, E>>)
  {
    forall i :: 0 <= i < |s| ==> s[i].Err?
  }

  /** Some outcome of `s` is a success. */
  predicate HasOk<T, E>(s: seq<Outcome<T, E>>)
  {
    exists i :: 0 <= i < |s| && s[i].Ok?
  }
}
