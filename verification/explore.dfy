/**
 The hand-written receive loops of the explore example
 (`wait_for_first_ok_task` and `all_tasks_errors`). They are the library's
 loop with a different acceptance test, `u * idx <= idx` for a draw `u` in
 [0, 1), which every draw passes: each error replaces the held one, so the
 loop keeps the last error instead of a uniformly chosen one.
 */
module Explore {
  import opened Outcomes
  import opened ResponseLoop

  /** Both loops of the example receive at most ten outcomes. */
  const Length: nat := 10

  /** One draw in [0, 1) per receive, for `length` receives. */
  predicate IsDraws(u: seq<real>, length: nat)
  {
    length <= |u| && forall i :: 0 <= i < |u| ==> 0.0 <= u[i] < 1.0
  }

  /** The example's test at receive `idx = i + 1`: `u * idx <= idx`. */
  function ExploreDecisions(u: seq<real>): (accept: seq<bool>)
    ensures |accept| == |u|
    // every draw in [0, 1) passes the test
    ensures IsDraws(u, 0) ==> forall i :: 0 <= i < |u| ==> accept[i]
  {
    seq(|u|, i requires 0 <= i < |u| => u[i] * (i + 1) as real <= (i + 1) as real)
  }

  /** The example's receive loop for `length` receives. */
  function ExploreLoop<T, E>(length: nat, stream: seq<Outcome<T, E>>, u: seq<real>): (r: Option<Outcome<T, E>>)
    requires IsDraws(u, length)
    // nothing is returned exactly when nothing arrives
    ensures r.None? <==> Min(length, |stream|) == 0
    // a success is returned exactly when one arrives, and it is the first to arrive
    ensures r.Some? && r.value.Ok? <==> HasOk(Window(length, stream))
    ensures r.Some? && r.value.Ok? ==>
              exists i :: 0 <= i < Min(length, |stream|) && stream[i] == r.value && NoOk(stream[..i])
    // otherwise the last error to arrive is returned
    ensures r.Some? && r.value.Err? ==>
              NoOk(Window(length, stream)) && r.value == stream[Min(length, |stream|) - 1]
  {
    Run(length, stream, ExploreDecisions(u))
  }

  /** What the producers of `wait_for_first_ok_task` send: producer `index`
      sleeps `10 * index` milliseconds and sends that duration, as an error
      for `index` below `Length / 2` and as a success from there on. */
  function FirstOkProducers(): (s: seq<Outcome<nat, nat>>)
    ensures |s| == Length
  {
    seq(Length, i requires 0 <= i < Length =>
      var index := i + 1;
      if index < Length / 2 then Err(10 * index) else Ok(10 * index))
  }

  /** What the producers of `all_tasks_errors` send: every one an error. */
  function AllErrorProducers(): (s: seq<Outcome<nat, nat>>)
    ensures |s| == Length
  {
    seq(Length, i requires 0 <= i < Length => Err(10 * (i + 1)))
  }

  /** `wait_for_first_ok_task`: the ten outcomes arrive in any order (the
      example keeps its own sender, so the channel never closes), and the
      loop returns one of the producers' successes. */
  function WaitForFirstOkTask(stream: seq<Outcome<nat, nat>>, u: seq<real>): (r: Option<Outcome<nat, nat>>)
    requires multiset(stream) == multiset(FirstOkProducers())
    requires IsDraws(u, Length)
    ensures r.Some? && r.value.Ok?
    ensures r.value in FirstOkProducers()
    ensures 10 * (Length / 2) <= r.value.value <= 10 * Length
  {
    var producers := FirstOkProducers();
    assert |stream| == Length by {
      assert |multiset(stream)| == |multiset(producers)|;
    }
    assert producers[Length - 1] in multiset(stream);
    var r := ExploreLoop(Length, stream, u);
    assert Window(Length, stream) == stream;
    assert r.value in multiset(producers);
    r
  }

  /** `all_tasks_errors`: every producer sends an error, so the loop never
      returns a success and returns the error that arrived last. */
  function AllTasksErrors(stream: seq<Outcome<nat, nat>>, u: seq<real>): (r: Option<Outcome<nat, nat>>)
    requires multiset(stream) == multiset(AllErrorProducers())
    requires IsDraws(u, Length)
    ensures r.Some? && r.value.Err?
    ensures |stream| == Length && r.value == stream[Length - 1]
    ensures r.value in AllErrorProducers()
  {
    var producers := AllErrorProducers();
    assert |stream| == Length by {
      assert |multiset(stream)| == |multiset(producers)|;
    }
    assert NoOk(stream) by {
      forall i | 0 <= i < |stream|
        ensures stream[i].Err?
      {
        assert stream[i] in multiset(producers);
      }
    }
    assert Window(Length, stream) == stream;
    var r := ExploreLoop(Length, stream, u);
    assert r.value in multiset(producers);
    r
  }
}
