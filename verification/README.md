# first-ok: a Dafny model of the sequential decision logic

`first-ok` applies an asynchronous checker to a list of items on a bounded
pool of workers and returns the first successful outcome. When no item
succeeds it returns one error, chosen by reservoir sampling of size one
among the errors received. This project models the parts of that pipeline
that decide what is returned:

- the **aggregator** (`process_item_responses`): at most `length` receives,
  stop at a closed channel, return the first `Ok`, otherwise keep one error,
  replacing it at the nth receive with probability 1/n;
- the **pool sizing rule** of `get_first_ok_bounded`: a bound of 0 means one
  worker per item;
- the **dispatcher** (`send_item_requests`): items go out in order until the
  first send that finds the workers gone;
- the **explore example's** hand-written loops, whose acceptance test
  `u * idx <= idx` always passes, so they keep the last error.

Modelling choices:

- The result channel is a `seq<Outcome>` of the outcomes it delivers in
  arrival order. A receive past its end is the `None` of a closed channel.
- The random draw is an input. In the library the draw at receive `nth` is
  a natural number below `nth` (`IsOracle`), and the error is accepted when
  the draw is 0. This stands in for `gen::<f64>() * nth <= 1.0`. In the
  explore example the draws are reals in [0, 1) and the test is compared
  on reals rather than `f64`. Both give the same answer: a draw below 1
  makes the exact product smaller than `idx`, and `idx` (at most 10) is
  exactly representable, so the rounded product never exceeds it either.
- Both loops are one function, `ResponseLoop.Run`, over a sequence of
  accept decisions. `ResponseLoop.Expected` is an independent reference
  that states the result without iteration.
- Uniformity is stated by counting. `Uniformity.Vectors(k)` is the set of
  the `k!` choice vectors for `k` receives. Each of `k` distinct errors is
  returned for exactly `(k-1)!` of them.
- In `get_first_ok_bounded` the arrival order is an input: any ordering of
  the checker's outcomes, one per item, stated as equal multisets.

Both the library and the example keep a sender of the result channel alive
while the loop runs, so in those call sites the channel never reports
closed. Each item (in the example, each producer) yields one outcome. All
of them arrive unless the loop stops at a success first; once it returns,
the receiver is dropped and the workers stop at their next `select!`. The
outcomes after that success cannot change the result, so modelling the
arrival as an ordering of all of them covers every run. The model keeps
the closed-channel branch of the loop, because the loop's code handles it.

## Model

| member | source | states |
|---|---|---|
| `ResponseLoop.Run` | src/lib.rs:42-68 | The loop equals the reference `Expected`. With `length == 0` it returns `None`. It returns `Ok` exactly when a success arrives within the window, and that is the first success to arrive. It returns an error only when every outcome in the window is an error, and then it is the error at the last accepting decision. It returns `None` exactly when no success arrives and no error is accepted. |
| `ResponseLoop.ReceiveLoop` | src/lib.rs:46-67 | The loop as written, with a receive counter. It returns what `Run` returns. It performs at most `length` receives and at most one past the last delivered outcome. A returned success is the last outcome taken off the channel, and all before it were errors. Otherwise every outcome taken was an error. It stops before `length` receives only on a success or a closed channel. |
| `ResponseLoop.DrainMatchesExpected` | src/lib.rs:48-65 | Loop invariant: after `nth - 1` errors the held value is the error at the last accepting decision. Hence the loop ends with the reference result. |
| `ResponseLoop.Drain` | src/lib.rs:48-65 | From any point of the loop, the result is the value held so far or an outcome received from then on. |
| `ResponseLoop.FirstOk` | src/lib.rs:52-55 | The index of the first success: `None` exactly when there is no success, and otherwise a success with only errors before it. |
| `ResponseLoop.LastAccepted` | src/lib.rs:57-59 | The index of the last accepting decision: `None` exactly when no decision accepts, and otherwise an accepting one with no accepting decision after it. |
| `Aggregator.ProcessItemResponses` | src/lib.rs:42-68 | With an oracle draw below `nth` at receive `nth`, the first error is always accepted. So the result is `None` exactly when nothing arrives, which includes `length == 0`. The result is `Ok` exactly when a success arrives, and then it is the first one. An error is returned only when all arrivals were errors, and it is one of them. |
| `Aggregator.AllErrorsHeldByHolder` | src/lib.rs:56-59 | When only errors arrive, the returned error is the one at the last zero draw, and there is one whenever an error arrived. |
| `Aggregator.HolderStep` | src/lib.rs:57-58 | A zero draw at a new receive takes the new error. Any other draw keeps the held one. |
| `Aggregator.Decisions` | src/lib.rs:57 | There is one accept decision per receive. The first receive's only possible draw is 0, so its error is always accepted, as `u * 1 <= 1.0` holds for every `u` in [0, 1). |
| `Uniformity.VectorsAreOracles` | src/lib.rs:57 | The recursively built set of choice vectors for `n` receives holds exactly the oracles of length `n`. |
| `Uniformity.VectorsCount` | src/lib.rs:57 | There are `n!` choice vectors for `n` receives. |
| `Uniformity.HeldByNewest` | src/lib.rs:57-58 | The newest error is held exactly in the vectors whose last draw is 0. |
| `Uniformity.HeldByEarlier` | src/lib.rs:57-58 | An earlier error stays held exactly in the vectors whose new draw is not 0. |
| `Uniformity.HeldCount` | src/lib.rs:56-59 | Each of the `n` errors is held in exactly `(n-1)!` of the `n!` vectors. |
| `Uniformity.PicksCount` | src/lib.rs:56-59 | When only distinct errors arrive, the vectors for which the aggregator returns the error of receive `j + 1` are exactly those whose last zero draw is at receive `j + 1`. There are `(k-1)!` of them. |
| `Uniformity.ReservoirUniform` | src/lib.rs:70-72 | Let `k` distinct errors arrive and nothing else. There are `k!` choice vectors, and the aggregator returns each of the `k` errors for exactly `(k-1)!` of them (the set `Picks`). So the returned error is uniform. |
| `Dispatcher.SendItemRequests` | src/lib.rs:5-12 | The items handed over are the items before the first failed send, in input order. No send is attempted after the failed one. When no send fails, every item is handed over. |
| `Pipeline.WorkerCount` | src/lib.rs:87-89 | There is a worker whenever there is an item, and a nonzero bound is never exceeded. |
| `Pipeline.SpawnWorkers` | src/lib.rs:87-99 | One worker is spawned per item when the bound is 0. Otherwise exactly the bound is spawned. |
| `Pipeline.GetFirstOkBounded` | src/lib.rs:70-102 | With no items the result is `None`, for any bound. A success is returned exactly when some item passes the check. With at least one item an outcome is always returned, and it is the checker's outcome for one of the items. |
| `Pipeline.ZeroBoundIsItemCount` | src/lib.rs:87-89 | A bound of 0 gives the same report as a bound equal to the number of items. The arrival order is an input for every bound, so this states only that the two bounds size the pool alike; it is not a claim about scheduling. |
| `Explore.ExploreDecisions` | examples/explore.rs:133-134 | The decision at receive `idx` is the test `u * idx <= idx`, and every draw `u` in [0, 1) passes it. |
| `Explore.ExploreLoop` | examples/explore.rs:123-143 | The result is `None` exactly when nothing arrives. It is `Ok` exactly when a success arrives, and then it is the first one. Otherwise it is the last error to arrive. It is `ResponseLoop.Run` with every decision accepting, so the receive bounds of `ResponseLoop.ReceiveLoop` apply to it. |
| `Explore.WaitForFirstOkTask` | examples/explore.rs:83-147 | Four producers send errors and six send successes, in any arrival order. The loop returns one of the producers' successes, whose duration is 50 to 100 ms. |
| `Explore.AllTasksErrors` | examples/explore.rs:149-195 | Every producer sends an error. The loop never returns a success, and it returns the error that arrived last. |

## Left out

- The worker loop `process_item_requests` (src/lib.rs:14-40) is not modelled. Its race against the closed result channel concerns scheduling and cancellation, not what is returned.
- Channel capacity, backpressure and single delivery on the bounded channels (src/lib.rs:91-92) are left out. They belong to the channel libraries.
- Task spawning, the runtime, sleeps and the example drivers `run_many_tasks`, `wait_for_first_task` and `testing_sleep` (examples/explore.rs:5-81) are left out as runtime plumbing.
- Pipeline.WorkerCount: its contract states only that there is a worker whenever there is an item and that a nonzero bound is not exceeded. The exact rule (0 means one worker per item, otherwise the bound) is stated by `Pipeline.SpawnWorkers`, since stating it on `WorkerCount` would repeat its body.
- `Aggregator.ProcessItemResponses` replaces the floating-point test `gen::<f64>() * nth <= 1.0` with an exact draw below `nth`. The real test accepts with a probability that differs slightly from 1/n because of `<=` and the granularity of `f64`.
- `Explore.WaitForFirstOkTask` and `Explore.AllTasksErrors` take the arrival order as any ordering of the producers' outcomes. The sleep durations that make the order predictable are not modelled.
- `Dispatcher.SendItemRequests` takes the index of the first failed send as an input. When the workers drop their receiver is decided by scheduling.
- The checker is a total function from item to outcome. Its asynchrony, its side effects and a panicking checker are outside the model.
- examples/ip.rs and examples/port.rs are call sites that probe the network. They have no logic of their own.
