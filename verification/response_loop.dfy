/**
 The receive loop of the aggregator: at most `length` receives from the result
 channel, stop at the first success, stop when the channel is closed, and on
 every error decide whether it replaces the error held so far.

 The channel is modelled by `stream`, the outcomes it delivers in arrival
 order; a receive past the end of `stream` is the `None` of a closed channel.
 The random decision is an input: `accept[nth - 1]` says whether the error
 received by the nth receive replaces the held one. The library and the
 explore example differ only in how that decision is drawn.
 */
module ResponseLoop {
  import opened Outcomes

  /** The outcomes the loop could take off the channel: the first `length`,
      or all of them when the channel closes earlier. */
  function Window<T, E>(length: nat, stream: seq<Outcome<T, E>>): (w: seq<Outcome<T, E>>)
    ensures |w| <= length && w <= stream
  {
    stream[..Min(length, |stream|)]
  }

  /** Index of the first success in `s`, if any. */
  function FirstOk<T, E>(s: seq<Outcome<T, E>>): (r: Option<nat>)
    ensures r.None? <==> NoOk(s)
    ensures r.Some? ==> r.value < |s| && s[r.value].Ok?
    ensures r.Some? ==> forall i :: 0 <= i < r.value ==> s[i].Err?
  {
    if |s| == 0 then None
    else if s[0].Ok? then Some(0)
    else match FirstOk(s[1..])
      case None => None
      case Some(i) => Some(i + 1)
  }

  /** Index of the last accepting decision among the first `k`, if any. */
  function LastAccepted(accept: seq<bool>, k: nat): (r: Option<nat>)
    requires k <= |accept|
    ensures r.None? <==> forall i :: 0 <= i < k ==> !accept[i]
    ensures r.Some? ==> r.value < k && accept[r.value]
    ensures r.Some? ==> forall i :: r.value < i < k ==> !accept[i]
  {
    if k == 0 then None
    else if accept[k - 1] then Some(k - 1)
    else LastAccepted(accept, k - 1)
  }

  /** The outcome held after `k` errors have gone through the decisions. */
  function HeldAfter<T, E>(s: seq<Outcome<T, E>>, accept: seq<bool>, k: nat): Option<Outcome<T, E>>
    requires k <= |s| && k <= |accept|
  {
    match LastAccepted(accept, k)
    case None => None
    case Some(j) => Some(s[j])
  }

  /** What the loop returns, stated without iteration: the first success in
      the window if there is one, otherwise the error at the last accepting
      decision, otherwise nothing. */
  function Expected<T, E>(length: nat, stream: seq<Outcome<T, E>>, accept: seq<bool>): Option<Outcome<T, E>>
    requires length <= |accept|
  {
    var w := Window(length, stream);
    match FirstOk(w)
    case Some(i) => Some(w[i])
    case None => HeldAfter(w, accept, |w|)
  }

  /** The loop from receive number `nth` on, with `held` kept so far. */
  function Drain<T, E>(length: nat, stream: seq<Outcome<T, E>>, accept: seq<bool>,
                       nth: nat, held: Option<Outcome<T, E>>): (r: Option<Outcome<T, E>>)
    requires 1 <= nth <= length + 1 <= |accept| + 1
    ensures r == held || (r.Some? && exists i :: nth - 1 <= i < Min(length, |stream|) && r.value == stream[i])
    decreases length + 1 - nth
  {
    if nth > length then
      held
    else if nth > |stream| then
      // the receive returns None: the channel is closed
      held
    else match stream[nth - 1]
      case Ok(v) => Some(Ok(v))
      case Err(e) =>
        Drain(length, stream, accept, nth + 1, if accept[nth - 1] then Some(Err(e)) else held)
  }

  /** Every step of the loop keeps `held` equal to the error at the last
      accepting decision, so the loop ends with the reference result. */
  lemma {:induction false} DrainMatchesExpected<T, E>(length: nat, stream: seq<Outcome<T, E>>, accept: seq<bool>,
                                                      nth: nat, held: Option<Outcome<T, E>>)
    requires 1 <= nth <= length + 1 <= |accept| + 1
    requires nth - 1 <= |stream|
    requires NoOk(stream[..nth - 1])
    requires held == HeldAfter(stream, accept, nth - 1)
    ensures Drain(length, stream, accept, nth, held) == Expected(length, stream, accept)
    decreases length + 1 - nth
  {
    var w := Window(length, stream);
    if nth > length || nth > |stream| {
      assert |w| == nth - 1;
      assert w == stream[..nth - 1];
    } else {
      assert w[..nth - 1] == stream[..nth - 1];
      match stream[nth - 1]
      case Ok(v) =>
        assert FirstOk(w) == Some(nth - 1);
      case Err(e) =>
        var held' := if accept[nth - 1] then Some(Err(e)) else held;
        assert stream[..nth] == stream[..nth - 1] + [stream[nth - 1]];
        DrainMatchesExpected(length, stream, accept, nth + 1, held');
    }
  }

  /** The aggregator loop as a function of the channel contents and the
      decisions. */
  function Run<T, E>(length: nat, stream: seq<Outcome<T, E>>, accept: seq<bool>): (r: Option<Outcome<T, E>>)
    requires length <= |accept|
    ensures r == Expected(length, stream, accept)
    // zero receives: nothing is returned
    ensures length == 0 ==> r == None
    // a success is returned exactly when one arrives within the window
    ensures r.Some? && r.value.Ok? <==> HasOk(Window(length, stream))
    // and it is the first one to arrive
    ensures r.Some? && r.value.Ok? ==>
              exists i :: 0 <= i < Min(length, |stream|) && stream[i] == r.value && NoOk(stream[..i])
    // an error is returned only when every outcome in the window is an error,
    // and it is the one at the last accepting decision
    ensures r.Some? && r.value.Err? ==>
              NoOk(Window(length, stream)) &&
              exists i :: 0 <= i < Min(length, |stream|) && stream[i] == r.value && accept[i] &&
                          forall j :: i < j < Min(length, |stream|) ==> !accept[j]
    // nothing is returned exactly when no success arrives and no error is accepted
    ensures r.None? <==> NoOk(Window(length, stream)) &&
                         forall i :: 0 <= i < Min(length, |stream|) ==> !accept[i]
  {
    DrainMatchesExpected(length, stream, accept, 1, None);
    Drain(length, stream, accept, 1, None)
  }

  /** The loop as the library writes it, counting the receives it performs
      (including a final receive that finds the channel closed). */
  method ReceiveLoop<T, E>(length: nat, stream: seq<Outcome<T, E>>, accept: seq<bool>)
    returns (r: Option<Outcome<T, E>>, receives: nat)
    requires length <= |accept|
    ensures r == Run(length, stream, accept)
    ensures receives <= length && receives <= |stream| + 1
    // a success is the last outcome taken off the channel, and all before it were errors
    ensures r.Some? && r.value.Ok? ==>
              1 <= receives <= |stream| && stream[receives - 1] == r.value && NoOk(stream[..receives - 1])
    // otherwise every outcome taken off the channel was an error
    ensures !(r.Some? && r.value.Ok?) ==> NoOk(stream[..Min(receives, |stream|)])
    // the loop stops before `length` receives only on a success or a closed channel
    ensures receives < length ==> (r.Some? && r.value.Ok?) || receives == |stream| + 1
  {
    r := None;
    receives := 0;
    var nth := 1;
    while nth <= length
      invariant 1 <= nth <= length + 1
      invariant receives == nth - 1 <= |stream|
      invariant NoOk(stream[..nth - 1])
      invariant Drain(length, stream, accept, nth, r) == Drain(length, stream, accept, 1, None)
    {
      receives := receives + 1;
      if nth > |stream| {
        // the receive returns None: the channel is closed
        break;
      }
      match stream[nth - 1] {
        case Ok(v) =>
          r := Some(Ok(v));
          break;
        case Err(e) =>
          if accept[nth - 1] {
            r := Some(Err(e));
          }
      }
      assert stream[..nth] == stream[..nth - 1] + [stream[nth - 1]];
      nth := nth + 1;
    }
  }
}
