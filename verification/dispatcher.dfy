/**
 The dispatcher (`send_item_requests`): it hands the items to the workers'
 channel one at a time, in order, and returns at the first send that finds
 the receiving side dropped.
 */
module Dispatcher {
  import opened Outcomes

  /** `closedAt` is the index of the first send that fails (the workers have
      all gone); no send fails when `closedAt >= |items|`. Returns the items
      handed over and the number of sends attempted. */
  method SendItemRequests<I>(items: seq<I>, closedAt: nat) returns (delivered: seq<I>, attempts: nat)
    // the items handed over are the items before the failed send, in input order
    ensures delivered == items[..Min(closedAt, |items|)]
    // no send is attempted after the failed one
    ensures attempts == Min(closedAt + 1, |items|)
    ensures |delivered| <= attempts <= |delivered| + 1
    // when no send fails, every item is handed over
    ensures closedAt >= |items| ==> delivered == items
  {
    delivered := [];
    attempts := 0;
    var k := 0;
    while k < |items|
      invariant k <= |items| && k <= closedAt
      invariant attempts == k
      invariant delivered == items[..k]
    {
      attempts := attempts + 1;
      if k == closedAt {
        // the receiving side is dropped: stop without further sends
        return;
      }
      delivered := delivered + [items[k]];
      k := k + 1;
    }
  }
}
