/**
 Reservoir sampling of size one selects uniformly: over all equally likely
 choice vectors for `k` receives (there are `k!` of them, the draw at
 receive `n` being one of `n` values), each of the `k` errors received is
 the one returned in exactly `(k-1)!` of them.
 */
module Uniformity {
  import opened Outcomes
  import opened ResponseLoop
  import opened Aggregator

  function Fact(n: nat): nat
  {
    if n == 0 then 1 else n * Fact(n - 1)
  }

  /** Every vector of `S` with the draw `x` appended. */
  ghost function Append(S: set<seq<nat>>, x: nat): set<seq<nat>>
  {
    set c | c in S :: c + [x]
  }

  /** Every vector of `S` with one draw from `lo .. hi - 1` appended. */
  ghost function Extend(S: set<seq<nat>>, lo: nat, hi: nat): set<seq<nat>>
  {
    set c, x: nat | c in S && lo <= x < hi :: c + [x]
  }

  /** All choice vectors for `n` receives, one draw appended at a time. */
  ghost function Vectors(n: nat): set<seq<nat>>
  {
    if n == 0 then {[]} else Extend(Vectors(n - 1), 0, n)
  }

  /** The choice vectors in which the error of receive `j + 1` is the one held
      at the end. */
  ghost function Held(n: nat, j: nat): set<seq<nat>>
  {
    set c | c in Vectors(n) && Holder(c) == Some(j)
  }

  /** `Vectors(n)` holds exactly the oracles of length `n`. */
  lemma {:induction false} VectorsAreOracles(n: nat, c: seq<nat>)
    ensures c in Vectors(n) <==> |c| == n && IsOracle(c, n)
  {
    if n > 0 {
      if c in Vectors(n) {
        var c': seq<nat>, x: nat :| c' in Vectors(n - 1) && x < n && c == c' + [x];
        VectorsAreOracles(n - 1, c');
        assert forall i :: 0 <= i < n - 1 ==> c[i] == c'[i];
      }
      if |c| == n && IsOracle(c, n) {
        var c' := c[..n - 1];
        assert IsOracle(c', n - 1);
        VectorsAreOracles(n - 1, c');
        assert c == c' + [c[n - 1]];
        assert c in Extend(Vectors(n - 1), 0, n);
      }
    }
  }

  /** Appending one draw is injective, so it keeps the count. */
  lemma {:induction false} AppendCard(S: set<seq<nat>>, x: nat)
    ensures |Append(S, x)| == |S|
    decreases S
  {
    if S != {} {
      var c0 :| c0 in S;
      var S' := S - {c0};
      AppendCard(S', x);
      assert c0 + [x] !in Append(S', x) by {
        forall c | c in S'
          ensures c + [x] != c0 + [x]
        {
          if |c| == |c0| {
            assert (c + [x])[..|c|] == c && (c0 + [x])[..|c0|] == c0;
          }
        }
      }
      assert Append(S, x) == Append(S', x) + {c0 + [x]};
    }
  }

  /** Drawing from `lo .. hi - 1` is drawing from `lo .. hi - 2` or drawing `hi - 1`. */
  lemma ExtendSplit(S: set<seq<nat>>, lo: nat, hi: nat)
    requires lo < hi
    ensures Extend(S, lo, hi) == Extend(S, lo, hi - 1) + Append(S, hi - 1)
  {
    var last := hi - 1;
    forall d | d in Extend(S, lo, hi)
      ensures d in Extend(S, lo, last) + Append(S, last)
    {
      var c: seq<nat>, x: nat :| c in S && lo <= x < hi && d == c + [x];
      if x < last {
        assert d in Extend(S, lo, last);
      } else {
        assert d in Append(S, last);
      }
    }
  }

  /** Vectors ending in different draws are different. */
  lemma ExtendAppendDisjoint(S: set<seq<nat>>, lo: nat, last: nat)
    requires lo <= last
    ensures Extend(S, lo, last) !! Append(S, last)
  {
    forall d | d in Extend(S, lo, last)
      ensures d !in Append(S, last)
    {
      var c: seq<nat>, x: nat :| c in S && lo <= x < last && d == c + [x];
      assert d[|d| - 1] == x;
    }
  }

  lemma DisjointUnionCard(A: set<seq<nat>>, B: set<seq<nat>>)
    requires A !! B
    ensures |A + B| == |A| + |B|
  {
  }

  lemma MulStep(a: nat, b: nat)
    requires b > 0
    ensures a * b == a * (b - 1) + a
  {
  }

  /** One more possible draw adds one vector per vector of `S`. */
  lemma ExtendCardStep(S: set<seq<nat>>, lo: nat, hi: nat)
    requires lo < hi
    ensures |Extend(S, lo, hi)| == |Extend(S, lo, hi - 1)| + |S|
  {
    var last := hi - 1;
    AppendCard(S, last);
    ExtendSplit(S, lo, hi);
    ExtendAppendDisjoint(S, lo, last);
    DisjointUnionCard(Extend(S, lo, last), Append(S, last));
  }

  /** Appending one of `hi - lo` draws multiplies the count by `hi - lo`. */
  lemma {:induction false} ExtendCard(S: set<seq<nat>>, lo: nat, hi: nat)
    requires lo <= hi
    ensures |Extend(S, lo, hi)| == |S| * (hi - lo)
    decreases hi - lo
  {
    if lo == hi {
      assert Extend(S, lo, hi) == {};
    } else {
      ExtendCard(S, lo, hi - 1);
      ExtendCardStep(S, lo, hi);
      MulStep(|S|, hi - lo);
    }
  }

  /** There are `n!` choice vectors for `n` receives. */
  lemma {:induction false} VectorsCount(n: nat)
    ensures |Vectors(n)| == Fact(n)
  {
    if n > 0 {
      VectorsCount(n - 1);
      ExtendCard(Vectors(n - 1), 0, n);
    }
  }

  /** The newest error is held exactly when its draw is 0, whatever came before. */
  lemma HeldByNewest(n: nat)
    ensures Held(n + 1, n) == Append(Vectors(n), 0)
  {
    forall d | d in Held(n + 1, n)
      ensures d in Append(Vectors(n), 0)
    {
      var c: seq<nat>, x: nat :| c in Vectors(n) && x < n + 1 && d == c + [x];
      VectorsAreOracles(n, c);
      HolderStep(c, x);
    }
    forall d | d in Append(Vectors(n), 0)
      ensures d in Held(n + 1, n)
    {
      var c :| c in Vectors(n) && d == c + [0];
      VectorsAreOracles(n, c);
      HolderStep(c, 0);
      assert d in Extend(Vectors(n), 0, n + 1);
    }
  }

  /** An earlier error stays held exactly when the new draw is not 0. */
  lemma HeldByEarlier(n: nat, j: nat)
    requires j < n
    ensures Held(n + 1, j) == Extend(Held(n, j), 1, n + 1)
  {
    var later := Held(n + 1, j);
    var earlier := Extend(Held(n, j), 1, n + 1);
    forall d | d in later
      ensures d in earlier
    {
      var c: seq<nat>, x: nat :| c in Vectors(n) && x < n + 1 && d == c + [x];
      VectorsAreOracles(n, c);
      HolderStep(c, x);
      assert c in Held(n, j);
    }
    forall d | d in earlier
      ensures d in later
    {
      var c: seq<nat>, x: nat :| c in Held(n, j) && 1 <= x < n + 1 && d == c + [x];
      HolderStep(c, x);
      assert d in Extend(Vectors(n), 0, n + 1);
    }
  }

  /** Each of the `n` errors is held in `(n-1)!` of the `n!` vectors. */
  lemma {:induction false} HeldCount(n: nat, j: nat)
    requires j < n
    ensures |Held(n, j)| == Fact(n - 1)
  {
    var m := n - 1;
    if j == m {
      HeldByNewest(m);
      AppendCard(Vectors(m), 0);
      VectorsCount(m);
      assert |Held(n, j)| == |Vectors(m)|;
    } else {
      var earlier := Held(m, j);
      HeldCount(m, j);
      HeldByEarlier(m, j);
      ExtendCard(earlier, 1, m + 1);
      assert |Held(n, j)| == |earlier| * m;
      assert Fact(m) == m * Fact(m - 1);
    }
  }

  /** The choice vectors for `|stream|` receives for which the aggregator,
      reading `stream`, returns `o`. */
  ghost function Picks<T, E>(stream: seq<Outcome<T, E>>, o: Outcome<T, E>): set<seq<nat>>
  {
    set c | c in Vectors(|stream|) && IsOracle(c, |stream|) &&
            ProcessItemResponses(|stream|, stream, c) == Some(o)
  }

  /** With distinct errors, a vector picks `stream[j]` exactly when it holds `j`. */
  lemma PickedIffHeld<T, E>(stream: seq<Outcome<T, E>>, j: nat, c: seq<nat>)
    requires j < |stream|
    requires NoOk(stream)
    requires forall a, b :: 0 <= a < b < |stream| ==> stream[a] != stream[b]
    requires c in Vectors(|stream|)
    ensures c in Picks(stream, stream[j]) <==> c in Held(|stream|, j)
  {
    VectorsAreOracles(|stream|, c);
    AllErrorsHeldByHolder(stream, c);
    var h := Holder(c).value;
    assert stream[h] == stream[j] <==> h == j;
  }

  /** With distinct errors, the vectors that pick `stream[j]` are those that
      hold `j`, and there are `(k-1)!` of them. */
  lemma PicksCount<T, E>(stream: seq<Outcome<T, E>>, j: nat)
    requires j < |stream|
    requires NoOk(stream)
    requires forall a, b :: 0 <= a < b < |stream| ==> stream[a] != stream[b]
    ensures Picks(stream, stream[j]) == Held(|stream|, j)
    ensures |Picks(stream, stream[j])| == Fact(|stream| - 1)
  {
    var picked := Picks(stream, stream[j]);
    var held := Held(|stream|, j);
    forall c | c in picked
      ensures c in held
    {
      PickedIffHeld(stream, j, c);
    }
    forall c | c in held
      ensures c in picked
    {
      PickedIffHeld(stream, j, c);
    }
    assert picked == held;
    HeldCount(|stream|, j);
  }

  /** When `k` distinct errors arrive and nothing else, the aggregator returns
      each of them in exactly `(k-1)!` of the `k!` choice vectors: the
      returned error is uniform. */
  lemma ReservoirUniform<T, E>(stream: seq<Outcome<T, E>>, j: nat)
    requires j < |stream|
    requires NoOk(stream)
    requires forall a, b :: 0 <= a < b < |stream| ==> stream[a] != stream[b]
    ensures |Vectors(|stream|)| == Fact(|stream|)
    ensures |Picks(stream, stream[j])| == Fact(|stream| - 1)
  {
    PicksCount(stream, j);
    VectorsCount(|stream|);
  }
}
