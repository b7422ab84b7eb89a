/**
 The library's aggregator: the receive loop with reservoir sampling of size
 one among the errors.

 The floating-point draw `gen::<f64>() * nth <= 1.0` is replaced by a choice
 oracle: `choices[nth - 1]` is a draw uniform over `0 .. nth - 1`, and the
 error is accepted when that draw is 0, i.e. with probability `1/nth`.
 */
module Aggregator {
  import opened Outcomes
  import opened ResponseLoop

  /** A choice vector that covers `length` receives: the draw at receive
      `nth` lies below `nth`. */
  predicate IsOracle(choices: seq<nat>, length: nat)
  {
    length <= |choices| && forall i :: 0 <= i < |choices| ==> choices[i] <= i
  }

  /** Receive `nth` accepts its error when its draw is 0. */
  function Decisions(choices: seq<nat>): (accept: seq<bool>)
    ensures |accept| == |choices|
    // the only draw at the first receive is 0, so the first error is always taken
    ensures IsOracle(choices, 1) ==> accept[0]
  {
    seq(|choices|, i requires 0 <= i < |choices| => choices[i] == 0)
  }

  /** The library's `process_item_responses`. */
  function ProcessItemResponses<T, E>(length: nat, stream: seq<Outcome<T, E>>, choices: seq<nat>)
    : (r: Option<Outcome<T, E>>)
    requires IsOracle(choices, length)
    // no items: nothing is returned
    ensures length == 0 ==> r == None
    // nothing is returned exactly when nothing arrives, since the first error is always accepted
    ensures r.None? <==> Min(length, |stream|) == 0
    // a success is returned exactly when one arrives, and it is the first to arrive
    ensures r.Some? && r.value.Ok? <==> HasOk(Window(length, stream))
    ensures r.Some? && r.value.Ok? ==>
              exists i :: 0 <= i < Min(length, |stream|) && stream[i] == r.value && NoOk(stream[..i])
    // an error is returned only when every arrival was an error, and it is one of them
    ensures r.Some? && r.value.Err? ==>
              NoOk(Window(length, stream)) && r.value in Window(length, stream)
  {
    var accept := Decisions(choices);
    assert length > 0 ==> accept[0];
    Run(length, stream, accept)
  }

  /** The error held once `|choices|` errors have passed: the one at the last
      zero draw. */
  function Holder(choices: seq<nat>): Option<nat>
  {
    LastAccepted(Decisions(choices), |choices|)
  }

  /** With only errors arriving, the held error is the one at `Holder`. */
  lemma AllErrorsHeldByHolder<T, E>(stream: seq<Outcome<T, E>>, choices: seq<nat>)
    requires NoOk(stream)
    requires |choices| == |stream| && IsOracle(choices, |stream|)
    ensures |stream| > 0 ==> Holder(choices).Some?
    ensures ProcessItemResponses(|stream|, stream, choices) ==
              match Holder(choices)
              case None => None
              case Some(j) => Some(stream[j])
  {
    assert Window(|stream|, stream) == stream;
    var r := ProcessItemResponses(|stream|, stream, choices);
    assert r == Expected(|stream|, stream, Decisions(choices));
  }

  /** Appending a draw: a zero draw takes the new error, any other keeps the
      held one. */
  lemma HolderStep(choices: seq<nat>, x: nat)
    ensures Holder(choices + [x]) == if x == 0 then Some(|choices|) else Holder(choices)
  {
    var a := Decisions(choices + [x]);
    var b := Decisions(choices);
    if x != 0 {
      assert forall i :: 0 <= i < |choices| ==> a[i] == b[i];
    }
  }
}
