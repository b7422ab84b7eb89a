/**
 `get_first_ok_bounded`: the worker pool is sized, the items are checked, and
 the aggregator reads the outcomes. Which worker checks which item and when
 its outcome arrives is scheduling, so the arrival order is an input: any
 ordering of the checker's outcomes, one per item.
 */
module Pipeline {
  import opened Outcomes
  import opened ResponseLoop
  import opened Aggregator

  /** The number of workers for `itemCount` items and a bound `concurrent`. */
  function WorkerCount(itemCount: nat, concurrent: nat): (n: nat)
    // there is always a worker when there is an item to check
    ensures itemCount > 0 ==> n > 0
    // a bound, when given, is never exceeded
    ensures concurrent > 0 ==> n <= concurrent
  {
    if concurrent == 0 then itemCount else concurrent
  }

  /** The spawning loop: returns the worker slots spawned. */
  method SpawnWorkers(itemCount: nat, concurrent: nat) returns (workers: seq<nat>)
    ensures |workers| == WorkerCount(itemCount, concurrent)
    // one worker per item when no bound is given, otherwise exactly the bound
    ensures concurrent == 0 ==> |workers| == itemCount
    ensures concurrent > 0 ==> |workers| == concurrent
    ensures forall w :: 0 <= w < |workers| ==> workers[w] == w
  {
    var n := WorkerCount(itemCount, concurrent);
    workers := [];
    var k := 0;
    while k < n
      invariant k <= n
      invariant |workers| == k
      invariant forall w :: 0 <= w < k ==> workers[w] == w
    {
      workers := workers + [k];
      k := k + 1;
    }
  }

  /** The checker's outcome for every item, in item order. */
  function Checked<I, T, E>(items: seq<I>, checker: I -> Outcome<T, E>): (s: seq<Outcome<T, E>>)
    ensures |s| == |items|
    ensures forall i :: 0 <= i < |items| ==> s[i] == checker(items[i])
  {
    seq(|items|, i requires 0 <= i < |items| => checker(items[i]))
  }

  datatype Report<T, E> = Report(workers: nat, result: Option<Outcome<T, E>>)

  /** The whole call: `arrival` is the order in which the checker's outcomes
      reach the aggregator. */
  function GetFirstOkBounded<I, T, E>(items: seq<I>, concurrent: nat, checker: I -> Outcome<T, E>,
                                      arrival: seq<Outcome<T, E>>, choices: seq<nat>): (p: Report<T, E>)
    requires multiset(arrival) == multiset(Checked(items, checker))
    requires IsOracle(choices, |items|)
    ensures p.workers == WorkerCount(|items|, concurrent)
    // no items: nothing is returned, for any bound
    ensures |items| == 0 ==> p.result == None
    // some item passes the check exactly when a success is returned
    ensures (exists i :: 0 <= i < |items| && checker(items[i]).Ok?) <==> p.result.Some? && p.result.value.Ok?
    // with at least one item, an outcome is always returned
    ensures |items| > 0 ==> p.result.Some?
    // and it is the checker's outcome for one of the items
    ensures p.result.Some? ==> exists i :: 0 <= i < |items| && p.result.value == checker(items[i])
  {
    var outcomes := Checked(items, checker);
    assert |arrival| == |items| by {
      assert |multiset(arrival)| == |multiset(outcomes)|;
    }
    assert Window(|items|, arrival) == arrival;
    var r := ProcessItemResponses(|items|, arrival, choices);
    assert HasOk(arrival) <==> HasOk(outcomes) by {
      if HasOk(outcomes) {
        var i :| 0 <= i < |outcomes| && outcomes[i].Ok?;
        assert outcomes[i] in multiset(arrival);
      }
      if HasOk(arrival) {
        var i :| 0 <= i < |arrival| && arrival[i].Ok?;
        assert arrival[i] in multiset(outcomes);
      }
    }
    assert r.Some? ==> r.value in multiset(outcomes);
    Report(WorkerCount(|items|, concurrent), r)
  }

  /** A bound of 0 behaves as a bound equal to the number of items. */
  lemma ZeroBoundIsItemCount<I, T, E>(items: seq<I>, checker: I -> Outcome<T, E>,
                                      arrival: seq<Outcome<T, E>>, choices: seq<nat>)
    requires multiset(arrival) == multiset(Checked(items, checker))
    requires IsOracle(choices, |items|)
    ensures GetFirstOkBounded(items, 0, checker, arrival, choices) ==
            GetFirstOkBounded(items, |items|, checker, arrival, choices)
  {
  }
}
