/**
 * The directed graph store: nodes 0..n-1, forward and reversed arc
 * lists with their degree counters, the arc count, and three n x n
 * matrices counting two-paths between every ordered pair of nodes.
 *
 * The store is modelled concretely (lists and matrices) and tied by the
 * invariant `Valid` to the abstract arc set `Arcs(g)`: every derived
 * view (degrees, reversed lists, arc count, two-path counts) is what the
 * arc set determines. `InsertArc` and `RemoveArc` update the views
 * incrementally, in O(degree) style, and keep `Valid`.
 */
module Digraph {
  import opened Numeric

  type Arc = (nat, nat)

  /* ---------------------------------------------------------------
   * Node attribute encodings. A binary attribute is stored as 0, 1 or
   * the missing-value sentinel; a categorical one as a category >= 0 or
   * the sentinel. Both sentinels are -1.
   * --------------------------------------------------------------- */

  const BinNA: int := -1
  const CatNA: int := -1

  predicate ValidBinaryValue(v: int) { v == 0 || v == 1 || v == BinNA }

  predicate ValidCategoricalValue(v: int) { v >= 0 || v == CatNA }

  /** Stored representation of a binary attribute value (None = missing). */
  function EncodeBinary(x: Option<bool>): (v: int)
    ensures ValidBinaryValue(v)
    ensures x == None <==> v == BinNA
    ensures x == Some(true) <==> v == 1
  {
    match x
    case None => BinNA
    case Some(b) => if b then 1 else 0
  }

  function DecodeBinary(v: int): (x: Option<bool>)
    requires ValidBinaryValue(v)
    ensures EncodeBinary(x) == v
  {
    if v == BinNA then None else Some(v == 1)
  }

  /** Stored representation of a categorical attribute value. */
  function EncodeCategorical(x: Option<nat>): (v: int)
    ensures ValidCategoricalValue(v)
    ensures x == None <==> v == CatNA
    ensures x.Some? ==> v == x.value
  {
    match x
    case None => CatNA
    case Some(c) => c
  }

  function DecodeCategorical(v: int): (x: Option<nat>)
    requires ValidCategoricalValue(v)
    ensures EncodeCategorical(x) == v
  {
    if v == CatNA then None else Some(v)
  }

  /** The sentinels lie outside the ranges of present values, so a
      missing value is never confused with 0 (false) or category 0. */
  lemma SentinelsOutsideValueRanges()
    ensures DecodeBinary(BinNA) == None
    ensures forall v :: ValidBinaryValue(v) && v != BinNA ==> DecodeBinary(v).Some?
    ensures DecodeCategorical(CatNA) == None
    ensures forall v :: v >= 0 ==> DecodeCategorical(v) == Some(v)
  {
  }

  /* ---------------------------------------------------------------
   * The store
   * --------------------------------------------------------------- */

  datatype Digraph = Digraph(
    numNodes: nat,
    numArcs: nat,
    outdegree: seq<nat>,
    arclist: seq<seq<nat>>,
    indegree: seq<nat>,
    revarclist: seq<seq<nat>>,
    mixTwoPath: seq<seq<int>>,
    inTwoPath: seq<seq<int>>,
    outTwoPath: seq<seq<int>>)

  predicate NoDup(s: seq<nat>)
  {
    forall p, q :: 0 <= p < q < |s| ==> s[p] != s[q]
  }

  predicate IsSquare(m: seq<seq<int>>, n: nat)
  {
    |m| == n && forall a :: 0 <= a < n ==> |m[a]| == n
  }

  predicate Shaped(g: Digraph)
  {
    && |g.outdegree| == g.numNodes
    && |g.arclist| == g.numNodes
    && |g.indegree| == g.numNodes
    && |g.revarclist| == g.numNodes
    && IsSquare(g.mixTwoPath, g.numNodes)
    && IsSquare(g.inTwoPath, g.numNodes)
    && IsSquare(g.outTwoPath, g.numNodes)
  }

  /** Arc lookup. */
  predicate IsArc(g: Digraph, i: nat, j: nat)
  {
    i < |g.arclist| && j in g.arclist[i]
  }

  /** The abstract arc set the forward lists describe. */
  function Arcs(g: Digraph): set<Arc>
    requires Shaped(g)
  {
    set i, j | 0 <= i < g.numNodes && j in g.arclist[i] :: (i, j)
  }

  lemma ArcsMembership(g: Digraph, a: nat, b: nat)
    requires Shaped(g)
    ensures (a, b) in Arcs(g) <==> IsArc(g, a, b)
  {
    if IsArc(g, a, b) {
      assert 0 <= a < g.numNodes && b in g.arclist[a];
    }
  }

  /* Two-paths between distinct nodes a and b through an intermediate v
     that differs from both: mixed a -> v -> b, in a -> v <- b, and
     out a <- v -> b. A two-path matrix holds 0 on its diagonal. */

  function MixPaths(A: set<Arc>, n: nat, a: nat, b: nat): set<nat>
  {
    set v | 0 <= v < n && v != a && v != b && (a, v) in A && (v, b) in A
  }

  function InPaths(A: set<Arc>, n: nat, a: nat, b: nat): set<nat>
  {
    set v | 0 <= v < n && v != a && v != b && (a, v) in A && (b, v) in A
  }

  function OutPaths(A: set<Arc>, n: nat, a: nat, b: nat): set<nat>
  {
    set v | 0 <= v < n && v != a && v != b && (v, a) in A && (v, b) in A
  }

  function MixCount(A: set<Arc>, n: nat, a: nat, b: nat): nat
  {
    if a == b then 0 else |MixPaths(A, n, a, b)|
  }

  function InCount(A: set<Arc>, n: nat, a: nat, b: nat): nat
  {
    if a == b then 0 else |InPaths(A, n, a, b)|
  }

  function OutCount(A: set<Arc>, n: nat, a: nat, b: nat): nat
  {
    if a == b then 0 else |OutPaths(A, n, a, b)|
  }

  predicate ListsInRange(g: Digraph)
    requires Shaped(g)
  {
    && (forall i, k :: 0 <= i < g.numNodes && 0 <= k < |g.arclist[i]| ==> g.arclist[i][k] < g.numNodes)
    && (forall i, k :: 0 <= i < g.numNodes && 0 <= k < |g.revarclist[i]| ==> g.revarclist[i][k] < g.numNodes)
  }

  predicate ListsDistinct(g: Digraph)
    requires Shaped(g)
  {
    forall i :: 0 <= i < g.numNodes ==> NoDup(g.arclist[i]) && NoDup(g.revarclist[i])
  }

  predicate DegreesMatch(g: Digraph)
    requires Shaped(g)
  {
    forall i :: 0 <= i < g.numNodes ==>
      g.outdegree[i] == |g.arclist[i]| && g.indegree[i] == |g.revarclist[i]|
  }

  /** j is in arclist[i] exactly when i is in revarclist[j]. */
  predicate Mirrored(g: Digraph)
    requires Shaped(g)
  {
    forall i, j :: 0 <= i < g.numNodes && 0 <= j < g.numNodes ==>
      (j in g.arclist[i] <==> i in g.revarclist[j])
  }

  predicate Counted(g: Digraph)
    requires Shaped(g)
  {
    && g.numArcs == |Arcs(g)|
    && g.numArcs == SumNat(g.outdegree)
    && g.numArcs == SumNat(g.indegree)
  }

  predicate TwoPathsMatch(g: Digraph)
    requires Shaped(g)
  {
    forall a: nat, b: nat :: 0 <= a < g.numNodes && 0 <= b < g.numNodes ==>
      && g.mixTwoPath[a][b] == MixCount(Arcs(g), g.numNodes, a, b)
      && g.inTwoPath[a][b] == InCount(Arcs(g), g.numNodes, a, b)
      && g.outTwoPath[a][b] == OutCount(Arcs(g), g.numNodes, a, b)
  }

  /** The store invariant. */
  predicate Valid(g: Digraph)
  {
    && Shaped(g)
    && ListsInRange(g)
    && ListsDistinct(g)
    && DegreesMatch(g)
    && Mirrored(g)
    && Counted(g)
    && TwoPathsMatch(g)
  }

  /* ---------------------------------------------------------------
   * Construction
   * --------------------------------------------------------------- */

  function ZeroMatrix(n: nat): (m: seq<seq<int>>)
    ensures IsSquare(m, n)
    ensures forall a: nat, b: nat :: 0 <= a < n && 0 <= b < n ==> m[a][b] == 0
  {
    seq(n, _ => seq(n, _ => 0))
  }

  lemma {:induction false} SumNatZeros(n: nat)
    ensures SumNat(seq(n, _ => 0)) == 0
  {
    if n > 0 {
      assert seq(n, _ => 0)[..n - 1] == seq(n - 1, _ => 0);
      SumNatZeros(n - 1);
    }
  }

  /** The empty graph on n nodes. */
  function Empty(n: nat): (g: Digraph)
    ensures Valid(g)
    ensures g.numNodes == n
    ensures Arcs(g) == {}
  {
    SumNatZeros(n);
    var g := Digraph(n, 0, seq(n, _ => 0), seq(n, _ => []), seq(n, _ => 0), seq(n, _ => []),
                     ZeroMatrix(n), ZeroMatrix(n), ZeroMatrix(n));
    assert Arcs(g) == {};
    g
  }

  /* ---------------------------------------------------------------
   * Incremental two-path update. When arc i -> j (i != j) is toggled,
   * the only two-paths that appear or disappear are those that use it
   * as one leg: the steps below are what a loop over the out-neighbours
   * of j and the in-neighbours of i (mixed), the in-neighbours of j (in)
   * and the out-neighbours of i (out) adds to each entry.
   * --------------------------------------------------------------- */

  function MixDelta(A: set<Arc>, i: nat, j: nat, a: nat, b: nat): nat
  {
    if a == b || i == j then 0
    else
      (if a == i && b != j && (j, b) in A then 1 else 0)
      + (if b == j && a != i && (a, i) in A then 1 else 0)
  }

  function InDelta(A: set<Arc>, i: nat, j: nat, a: nat, b: nat): nat
  {
    if a == b || i == j then 0
    else
      (if a == i && b != j && (b, j) in A then 1 else 0)
      + (if b == i && a != j && (a, j) in A then 1 else 0)
  }

  function OutDelta(A: set<Arc>, i: nat, j: nat, a: nat, b: nat): nat
  {
    if a == b || i == j then 0
    else
      (if a == j && b != i && (i, b) in A then 1 else 0)
      + (if b == j && a != i && (i, a) in A then 1 else 0)
  }

  lemma MixInsertAt(A: set<Arc>, n: nat, i: nat, j: nat, a: nat, b: nat)
    requires (i, j) !in A && i < n && j < n
    ensures MixCount(A + {(i, j)}, n, a, b) == MixCount(A, n, a, b) + MixDelta(A, i, j, a, b)
  {
    if a != b {
      var S := MixPaths(A, n, a, b);
      var S' := MixPaths(A + {(i, j)}, n, a, b);
      var E: set<nat> :=
        if i != j && a == i && b != j && (j, b) in A then {j}
        else if i != j && b == j && a != i && (a, i) in A then {i}
        else {};
      forall v | v in S' ensures v in S + E { }
      forall v | v in S + E ensures v in S' { }
      assert S' == S + E;
      assert S !! E;
    }
  }

  lemma InInsertAt(A: set<Arc>, n: nat, i: nat, j: nat, a: nat, b: nat)
    requires (i, j) !in A && i < n && j < n
    ensures InCount(A + {(i, j)}, n, a, b) == InCount(A, n, a, b) + InDelta(A, i, j, a, b)
  {
    if a != b {
      var S := InPaths(A, n, a, b);
      var S' := InPaths(A + {(i, j)}, n, a, b);
      if i != j && a == i && b != j && (b, j) in A {
        assert j !in S;
        assert S' == S + {j};
      } else if i != j && b == i && a != j && (a, j) in A {
        assert j !in S;
        assert S' == S + {j};
      } else {
        assert S' == S;
      }
    }
  }

  lemma OutInsertAt(A: set<Arc>, n: nat, i: nat, j: nat, a: nat, b: nat)
    requires (i, j) !in A && i < n && j < n
    ensures OutCount(A + {(i, j)}, n, a, b) == OutCount(A, n, a, b) + OutDelta(A, i, j, a, b)
  {
    if a != b {
      var S := OutPaths(A, n, a, b);
      var S' := OutPaths(A + {(i, j)}, n, a, b);
      if i != j && a == j && b != i && (i, b) in A {
        assert i !in S;
        assert S' == S + {i};
      } else if i != j && b == j && a != i && (i, a) in A {
        assert i !in S;
        assert S' == S + {i};
      } else {
        assert S' == S;
      }
    }
  }

  /** Incremental/batch equivalence for one toggle: the counts after
      inserting arc i -> j equal the counts before plus the deltas, for
      all three kinds of two-path and every pair of nodes. */
  lemma {:induction false} TwoPathCountsAfterInsert(A: set<Arc>, n: nat, i: nat, j: nat)
    requires (i, j) !in A && i < n && j < n
    ensures forall a: nat, b: nat ::
      && MixCount(A + {(i, j)}, n, a, b) == MixCount(A, n, a, b) + MixDelta(A, i, j, a, b)
      && InCount(A + {(i, j)}, n, a, b) == InCount(A, n, a, b) + InDelta(A, i, j, a, b)
      && OutCount(A + {(i, j)}, n, a, b) == OutCount(A, n, a, b) + OutDelta(A, i, j, a, b)
  {
    forall a: nat, b: nat
      ensures && MixCount(A + {(i, j)}, n, a, b) == MixCount(A, n, a, b) + MixDelta(A, i, j, a, b)
              && InCount(A + {(i, j)}, n, a, b) == InCount(A, n, a, b) + InDelta(A, i, j, a, b)
              && OutCount(A + {(i, j)}, n, a, b) == OutCount(A, n, a, b) + OutDelta(A, i, j, a, b)
    {
      MixInsertAt(A, n, i, j, a, b);
      InInsertAt(A, n, i, j, a, b);
      OutInsertAt(A, n, i, j, a, b);
    }
  }

  /** The deltas never look at arc i -> j itself, so they are the same
      whether computed before or after the toggle. */
  lemma DeltasIgnoreToggledArc(A: set<Arc>, i: nat, j: nat, a: nat, b: nat)
    ensures MixDelta(A - {(i, j)}, i, j, a, b) == MixDelta(A, i, j, a, b)
    ensures InDelta(A - {(i, j)}, i, j, a, b) == InDelta(A, i, j, a, b)
    ensures OutDelta(A - {(i, j)}, i, j, a, b) == OutDelta(A, i, j, a, b)
  {
  }

  /** Matrix after adding `sign` times the toggle deltas to each entry. */
  function UpdateMatrix(m: seq<seq<int>>, n: nat, A: set<Arc>, i: nat, j: nat, sign: int,
                        delta: (set<Arc>, nat, nat, nat, nat) -> nat): (r: seq<seq<int>>)
    requires IsSquare(m, n)
    ensures IsSquare(r, n)
    ensures forall a: nat, b: nat :: 0 <= a < n && 0 <= b < n ==> r[a][b] == m[a][b] + sign * delta(A, i, j, a, b)
  {
    seq(n, a requires 0 <= a < n => seq(n, b requires 0 <= b < n => m[a][b] + sign * delta(A, i, j, a, b)))
  }

  /* ---------------------------------------------------------------
   * Swap-with-last removal from an arc list
   * --------------------------------------------------------------- */

  function IndexOf(s: seq<nat>, x: nat): (k: nat)
    requires x in s
    ensures k < |s| && s[k] == x
  {
    if s[0] == x then 0 else 1 + IndexOf(s[1..], x)
  }

  /** Remove x by overwriting it with the last element and shortening. */
  function SwapRemove(s: seq<nat>, x: nat): (r: seq<nat>)
    requires x in s && NoDup(s)
    ensures |r| == |s| - 1
    ensures NoDup(r)
    ensures forall y :: y in r <==> y in s && y != x
    ensures forall y :: y in r ==> y in s
  {
    var k := IndexOf(s, x);
    var last := |s| - 1;
    var r := s[k := s[last]][..last];
    assert forall p :: 0 <= p < last ==> r[p] == (if p == k then s[last] else s[p]);
    forall y
      ensures y in r <==> y in s && y != x
    {
      if y in s && y != x {
        var p :| 0 <= p < |s| && s[p] == y;
        if p == last {
          assert r[k] == y;
        } else {
          assert p != k && r[p] == y;
        }
      }
    }
    r
  }

  /* ---------------------------------------------------------------
   * Insert and remove
   * --------------------------------------------------------------- */

  /** The store after appending arc i -> j to both lists, bumping the
      counters and adding the toggle deltas to the matrices. */
  function Inserted(g: Digraph, i: nat, j: nat): (r: Digraph)
    requires Shaped(g) && i < g.numNodes && j < g.numNodes
    ensures Shaped(r) && r.numNodes == g.numNodes
  {
    var n := g.numNodes;
    var A := Arcs(g);
    Digraph(n, g.numArcs + 1,
      g.outdegree[i := g.outdegree[i] + 1], g.arclist[i := g.arclist[i] + [j]],
      g.indegree[j := g.indegree[j] + 1], g.revarclist[j := g.revarclist[j] + [i]],
      UpdateMatrix(g.mixTwoPath, n, A, i, j, 1, MixDelta),
      UpdateMatrix(g.inTwoPath, n, A, i, j, 1, InDelta),
      UpdateMatrix(g.outTwoPath, n, A, i, j, 1, OutDelta))
  }

  /** The store after swap-removing arc i -> j from both lists,
      decrementing the counters and subtracting the toggle deltas. */
  function Removed(g: Digraph, i: nat, j: nat): (r: Digraph)
    requires Valid(g) && IsArc(g, i, j)
    ensures Shaped(r) && r.numNodes == g.numNodes
  {
    RemovablePreconditions(g, i, j);
    var n := g.numNodes;
    var A := Arcs(g);
    Digraph(n, g.numArcs - 1,
      g.outdegree[i := g.outdegree[i] - 1], g.arclist[i := SwapRemove(g.arclist[i], j)],
      g.indegree[j := g.indegree[j] - 1], g.revarclist[j := SwapRemove(g.revarclist[j], i)],
      UpdateMatrix(g.mixTwoPath, n, A, i, j, -1, MixDelta),
      UpdateMatrix(g.inTwoPath, n, A, i, j, -1, InDelta),
      UpdateMatrix(g.outTwoPath, n, A, i, j, -1, OutDelta))
  }

  lemma InsertedArcs(g: Digraph, i: nat, j: nat)
    requires Shaped(g) && i < g.numNodes && j < g.numNodes
    ensures forall a: nat, b: nat :: IsArc(Inserted(g, i, j), a, b) <==> IsArc(g, a, b) || (a, b) == (i, j)
    ensures Arcs(Inserted(g, i, j)) == Arcs(g) + {(i, j)}
  {
    var r := Inserted(g, i, j);
    assert forall a: nat, b: nat :: IsArc(r, a, b) <==> IsArc(g, a, b) || (a, b) == (i, j);
    forall a: nat, b: nat
      ensures (a, b) in Arcs(r) <==> (a, b) in Arcs(g) + {(i, j)}
    {
      ArcsMembership(g, a, b);
      ArcsMembership(r, a, b);
    }
  }

  lemma InsertedLists(g: Digraph, i: nat, j: nat)
    requires Valid(g) && i < g.numNodes && j < g.numNodes && !IsArc(g, i, j)
    ensures var r := Inserted(g, i, j);
      ListsInRange(r) && ListsDistinct(r) && DegreesMatch(r) && Mirrored(r)
  {
    InsertedInRange(g, i, j);
    InsertedDistinct(g, i, j);
    InsertedDegrees(g, i, j);
    InsertedMirrored(g, i, j);
  }

  lemma InsertedInRange(g: Digraph, i: nat, j: nat)
    requires Valid(g) && i < g.numNodes && j < g.numNodes && !IsArc(g, i, j)
    ensures ListsInRange(Inserted(g, i, j))
  {
  }

  lemma InsertedDistinct(g: Digraph, i: nat, j: nat)
    requires Valid(g) && i < g.numNodes && j < g.numNodes && !IsArc(g, i, j)
    ensures ListsDistinct(Inserted(g, i, j))
  {
    var r := Inserted(g, i, j);
    forall v | 0 <= v < g.numNodes
      ensures NoDup(r.arclist[v]) && NoDup(r.revarclist[v])
    {
      if v == j {
        assert i !in g.revarclist[j];
      }
    }
  }

  lemma InsertedDegrees(g: Digraph, i: nat, j: nat)
    requires Valid(g) && i < g.numNodes && j < g.numNodes && !IsArc(g, i, j)
    ensures DegreesMatch(Inserted(g, i, j))
  {
  }

  lemma InsertedMirrored(g: Digraph, i: nat, j: nat)
    requires Valid(g) && i < g.numNodes && j < g.numNodes && !IsArc(g, i, j)
    ensures Mirrored(Inserted(g, i, j))
  {
  }

  lemma InsertedCounted(g: Digraph, i: nat, j: nat)
    requires Valid(g) && i < g.numNodes && j < g.numNodes && !IsArc(g, i, j)
    ensures Counted(Inserted(g, i, j))
  {
    InsertedArcs(g, i, j);
    ArcsMembership(g, i, j);
    CountedAfterStep(g, Inserted(g, i, j), (i, j), i, j, 1);
  }

  lemma InsertedTwoPaths(g: Digraph, i: nat, j: nat)
    requires Shaped(g) && TwoPathsMatch(g) && i < g.numNodes && j < g.numNodes
    requires (i, j) !in Arcs(g)
    ensures TwoPathsMatch(Inserted(g, i, j))
  {
    var r := Inserted(g, i, j);
    var n := g.numNodes;
    var A := Arcs(g);
    InsertedArcs(g, i, j);
    forall a: nat, b: nat | a < n && b < n
      ensures && r.mixTwoPath[a][b] == MixCount(Arcs(r), n, a, b)
              && r.inTwoPath[a][b] == InCount(Arcs(r), n, a, b)
              && r.outTwoPath[a][b] == OutCount(Arcs(r), n, a, b)
    {
      MixInsertAt(A, n, i, j, a, b);
      InInsertAt(A, n, i, j, a, b);
      OutInsertAt(A, n, i, j, a, b);
    }
  }

  /** Adding arc i -> j. The caller guarantees the arc is absent (the
      source asserts this). */
  function InsertArc(g: Digraph, i: nat, j: nat): (r: Digraph)
    requires Valid(g) && i < g.numNodes && j < g.numNodes && !IsArc(g, i, j)
    ensures Valid(r)
    ensures r.numNodes == g.numNodes
    ensures Arcs(r) == Arcs(g) + {(i, j)}
    ensures IsArc(r, i, j)
    ensures forall a: nat, b: nat :: (a, b) != (i, j) ==> (IsArc(r, a, b) <==> IsArc(g, a, b))
    ensures r.numArcs == g.numArcs + 1
  {
    InsertedArcs(g, i, j);
    InsertedLists(g, i, j);
    InsertedCounted(g, i, j);
    ArcsMembership(g, i, j);
    InsertedTwoPaths(g, i, j);
    Inserted(g, i, j)
  }

  lemma RemovablePreconditions(g: Digraph, i: nat, j: nat)
    requires Valid(g) && IsArc(g, i, j)
    ensures i < g.numNodes && j < g.numNodes
    ensures NoDup(g.arclist[i]) && i in g.revarclist[j] && NoDup(g.revarclist[j])
    ensures g.numArcs >= 1 && g.outdegree[i] >= 1 && g.indegree[j] >= 1
  {
    var k :| 0 <= k < |g.arclist[i]| && g.arclist[i][k] == j;
    ArcsMembership(g, i, j);
    assert |Arcs(g) - {(i, j)}| == |Arcs(g)| - 1;
  }

  lemma RemovedArcs(g: Digraph, i: nat, j: nat)
    requires Valid(g) && IsArc(g, i, j)
    ensures forall a: nat, b: nat :: IsArc(Removed(g, i, j), a, b) <==> IsArc(g, a, b) && (a, b) != (i, j)
    ensures Arcs(Removed(g, i, j)) == Arcs(g) - {(i, j)}
  {
    RemovablePreconditions(g, i, j);
    var r := Removed(g, i, j);
    assert forall a: nat, b: nat :: IsArc(r, a, b) <==> IsArc(g, a, b) && (a, b) != (i, j);
    forall a: nat, b: nat
      ensures (a, b) in Arcs(r) <==> (a, b) in Arcs(g) - {(i, j)}
    {
      ArcsMembership(g, a, b);
      ArcsMembership(r, a, b);
    }
  }

  lemma RemovedLists(g: Digraph, i: nat, j: nat)
    requires Valid(g) && IsArc(g, i, j)
    ensures var r := Removed(g, i, j);
      ListsInRange(r) && ListsDistinct(r) && DegreesMatch(r) && Mirrored(r)
  {
    RemovedInRange(g, i, j);
    RemovedDistinct(g, i, j);
    RemovedDegrees(g, i, j);
    RemovedMirrored(g, i, j);
  }

  lemma RemovedInRange(g: Digraph, i: nat, j: nat)
    requires Valid(g) && IsArc(g, i, j)
    ensures ListsInRange(Removed(g, i, j))
  {
    RemovablePreconditions(g, i, j);
    var r := Removed(g, i, j);
    var n := g.numNodes;
    forall v, k | 0 <= v < n && 0 <= k < |r.arclist[v]|
      ensures r.arclist[v][k] < n
    {
      assert r.arclist[v][k] in g.arclist[v];
    }
    forall v, k | 0 <= v < n && 0 <= k < |r.revarclist[v]|
      ensures r.revarclist[v][k] < n
    {
      assert r.revarclist[v][k] in g.revarclist[v];
    }
  }

  lemma RemovedDistinct(g: Digraph, i: nat, j: nat)
    requires Valid(g) && IsArc(g, i, j)
    ensures ListsDistinct(Removed(g, i, j))
  {
    RemovablePreconditions(g, i, j);
  }

  lemma RemovedDegrees(g: Digraph, i: nat, j: nat)
    requires Valid(g) && IsArc(g, i, j)
    ensures DegreesMatch(Removed(g, i, j))
  {
    RemovablePreconditions(g, i, j);
  }

  lemma RemovedMirrored(g: Digraph, i: nat, j: nat)
    requires Valid(g) && IsArc(g, i, j)
    ensures Mirrored(Removed(g, i, j))
  {
    RemovablePreconditions(g, i, j);
  }

  lemma RemovedCounted(g: Digraph, i: nat, j: nat)
    requires Valid(g) && IsArc(g, i, j)
    ensures Counted(Removed(g, i, j))
  {
    RemovablePreconditions(g, i, j);
    var r := Removed(g, i, j);
    RemovedArcs(g, i, j);
    ArcsMembership(g, i, j);
    CountedAfterStep(g, r, (i, j), i, j, -1);
  }

  /** Counted survives a step that toggles one arc and moves the arc
      count, one out-degree and one in-degree by the same unit. */
  lemma CountedAfterStep(g: Digraph, r: Digraph, x: Arc, i: nat, j: nat, d: int)
    requires Shaped(g) && Shaped(r) && Counted(g) && i < g.numNodes && j < g.numNodes
    requires d == 1 || d == -1
    requires d == 1 ==> x !in Arcs(g) && Arcs(r) == Arcs(g) + {x}
    requires d == -1 ==> x in Arcs(g) && Arcs(r) == Arcs(g) - {x}
    requires r.numArcs == g.numArcs + d
    requires g.outdegree[i] + d >= 0 && r.outdegree == g.outdegree[i := g.outdegree[i] + d]
    requires g.indegree[j] + d >= 0 && r.indegree == g.indegree[j := g.indegree[j] + d]
    ensures Counted(r)
  {
    SumNatUpdate(g.outdegree, i, g.outdegree[i] + d);
    SumNatUpdate(g.indegree, j, g.indegree[j] + d);
  }

  lemma RemovedTwoPaths(g: Digraph, i: nat, j: nat)
    requires Valid(g) && IsArc(g, i, j)
    ensures TwoPathsMatch(Removed(g, i, j))
  {
    RemovablePreconditions(g, i, j);
    var r := Removed(g, i, j);
    var A := Arcs(g);
    RemovedArcs(g, i, j);
    ArcsMembership(g, i, j);
    SubtractedMatricesMatch(g.mixTwoPath, g.inTwoPath, g.outTwoPath, g.numNodes, A, i, j);
    assert r.mixTwoPath == UpdateMatrix(g.mixTwoPath, g.numNodes, A, i, j, -1, MixDelta);
    assert r.inTwoPath == UpdateMatrix(g.inTwoPath, g.numNodes, A, i, j, -1, InDelta);
    assert r.outTwoPath == UpdateMatrix(g.outTwoPath, g.numNodes, A, i, j, -1, OutDelta);
  }

  /** Matrices that count the two-paths of A, with the deltas of an arc
      i -> j of A subtracted, count the two-paths of A without it. */
  lemma SubtractedMatricesMatch(mix: seq<seq<int>>, inn: seq<seq<int>>, out: seq<seq<int>>,
                                n: nat, A: set<Arc>, i: nat, j: nat)
    requires IsSquare(mix, n) && IsSquare(inn, n) && IsSquare(out, n)
    requires i < n && j < n && (i, j) in A
    requires forall a: nat, b: nat :: a < n && b < n ==>
      && mix[a][b] == MixCount(A, n, a, b)
      && inn[a][b] == InCount(A, n, a, b)
      && out[a][b] == OutCount(A, n, a, b)
    ensures forall a: nat, b: nat :: a < n && b < n ==>
      && UpdateMatrix(mix, n, A, i, j, -1, MixDelta)[a][b] == MixCount(A - {(i, j)}, n, a, b)
      && UpdateMatrix(inn, n, A, i, j, -1, InDelta)[a][b] == InCount(A - {(i, j)}, n, a, b)
      && UpdateMatrix(out, n, A, i, j, -1, OutDelta)[a][b] == OutCount(A - {(i, j)}, n, a, b)
  {
    forall a: nat, b: nat | a < n && b < n
      ensures && UpdateMatrix(mix, n, A, i, j, -1, MixDelta)[a][b] == MixCount(A - {(i, j)}, n, a, b)
              && UpdateMatrix(inn, n, A, i, j, -1, InDelta)[a][b] == InCount(A - {(i, j)}, n, a, b)
              && UpdateMatrix(out, n, A, i, j, -1, OutDelta)[a][b] == OutCount(A - {(i, j)}, n, a, b)
    {
      RemovedEntry(A, A - {(i, j)}, n, i, j, a, b, mix[a][b], inn[a][b], out[a][b]);
    }
  }

  /** One entry of the three matrices after the deltas of arc i -> j are
      subtracted: the counts over the arc set without i -> j. */
  lemma RemovedEntry(A: set<Arc>, A': set<Arc>, n: nat, i: nat, j: nat, a: nat, b: nat,
                     mix: int, inn: int, out: int)
    requires i < n && j < n && (i, j) in A && A' == A - {(i, j)}
    requires mix == MixCount(A, n, a, b) && inn == InCount(A, n, a, b) && out == OutCount(A, n, a, b)
    ensures mix - MixDelta(A, i, j, a, b) == MixCount(A', n, a, b)
    ensures inn - InDelta(A, i, j, a, b) == InCount(A', n, a, b)
    ensures out - OutDelta(A, i, j, a, b) == OutCount(A', n, a, b)
  {
    assert A' + {(i, j)} == A;
    MixInsertAt(A', n, i, j, a, b);
    InInsertAt(A', n, i, j, a, b);
    OutInsertAt(A', n, i, j, a, b);
    DeltasIgnoreToggledArc(A, i, j, a, b);
  }

  /** Removing arc i -> j. The caller guarantees the arc is present. */
  function RemoveArc(g: Digraph, i: nat, j: nat): (r: Digraph)
    requires Valid(g) && IsArc(g, i, j)
    ensures Valid(r)
    ensures r.numNodes == g.numNodes
    ensures Arcs(r) == Arcs(g) - {(i, j)}
    ensures !IsArc(r, i, j)
    ensures forall a: nat, b: nat :: (a, b) != (i, j) ==> (IsArc(r, a, b) <==> IsArc(g, a, b))
    ensures r.numArcs + 1 == g.numArcs
  {
    RemovablePreconditions(g, i, j);
    RemovedArcs(g, i, j);
    RemovedLists(g, i, j);
    RemovedCounted(g, i, j);
    RemovedTwoPaths(g, i, j);
    Removed(g, i, j)
  }

  /* ---------------------------------------------------------------
   * Derived views are determined by the arc set
   * --------------------------------------------------------------- */

  function OutDegreeOf(A: set<Arc>, n: nat, i: nat): nat
  {
    |set v: nat | v < n && (i, v) in A|
  }

  function InDegreeOf(A: set<Arc>, n: nat, j: nat): nat
  {
    |set v: nat | v < n && (v, j) in A|
  }

  function Elements(s: seq<nat>): set<nat>
  {
    set x | x in s
  }

  lemma {:induction false} NoDupLength(s: seq<nat>)
    requires NoDup(s)
    ensures |Elements(s)| == |s|
  {
    if |s| > 0 {
      assert NoDup(s[1..]);
      NoDupLength(s[1..]);
      assert Elements(s) == Elements(s[1..]) + {s[0]};
      assert s[0] !in Elements(s[1..]);
    }
  }

  /** Every degree counter equals the number of arcs the arc set has
      at that node. */
  lemma DegreesAreDerived(g: Digraph, v: nat)
    requires Valid(g) && v < g.numNodes
    ensures g.outdegree[v] == OutDegreeOf(Arcs(g), g.numNodes, v)
    ensures g.indegree[v] == InDegreeOf(Arcs(g), g.numNodes, v)
  {
    var n := g.numNodes;
    NoDupLength(g.arclist[v]);
    NoDupLength(g.revarclist[v]);
    forall w: nat ensures w in Elements(g.arclist[v]) <==> w < n && (v, w) in Arcs(g)
    {
      ArcsMembership(g, v, w);
      if w in g.arclist[v] {
        var k :| 0 <= k < |g.arclist[v]| && g.arclist[v][k] == w;
      }
    }
    assert Elements(g.arclist[v]) == set w: nat | w < n && (v, w) in Arcs(g);
    forall w: nat ensures w in Elements(g.revarclist[v]) <==> w < n && (w, v) in Arcs(g)
    {
      ArcsMembership(g, w, v);
      if w in g.revarclist[v] {
        var k :| 0 <= k < |g.revarclist[v]| && g.revarclist[v][k] == w;
      }
    }
    assert Elements(g.revarclist[v]) == set w: nat | w < n && (w, v) in Arcs(g);
  }

  lemma SquareExtensional(m1: seq<seq<int>>, m2: seq<seq<int>>, n: nat)
    requires IsSquare(m1, n) && IsSquare(m2, n)
    requires forall a: nat, b: nat :: a < n && b < n ==> m1[a][b] == m2[a][b]
    ensures m1 == m2
  {
    forall a | 0 <= a < n ensures m1[a] == m2[a]
    {
      assert forall b :: 0 <= b < n ==> m1[a][b] == m2[a][b];
    }
  }

  /** Two valid stores over the same nodes that hold the same arcs agree
      on the arc count, every degree and every two-path matrix; they can
      differ only in the order of their arc lists. */
  lemma SameArcsSameViews(g1: Digraph, g2: Digraph)
    requires Valid(g1) && Valid(g2) && g1.numNodes == g2.numNodes
    requires Arcs(g1) == Arcs(g2)
    ensures g1.numArcs == g2.numArcs
    ensures g1.outdegree == g2.outdegree && g1.indegree == g2.indegree
    ensures g1.mixTwoPath == g2.mixTwoPath
    ensures g1.inTwoPath == g2.inTwoPath
    ensures g1.outTwoPath == g2.outTwoPath
    ensures forall v :: 0 <= v < g1.numNodes ==>
      Elements(g1.arclist[v]) == Elements(g2.arclist[v]) &&
      Elements(g1.revarclist[v]) == Elements(g2.revarclist[v])
  {
    var n := g1.numNodes;
    forall v | 0 <= v < n
      ensures g1.outdegree[v] == g2.outdegree[v] && g1.indegree[v] == g2.indegree[v]
    {
      DegreesAreDerived(g1, v);
      DegreesAreDerived(g2, v);
    }
    forall v | 0 <= v < n
      ensures Elements(g1.arclist[v]) == Elements(g2.arclist[v])
      ensures Elements(g1.revarclist[v]) == Elements(g2.revarclist[v])
    {
      forall w: nat ensures w in g1.arclist[v] <==> w in g2.arclist[v]
      {
        ArcsMembership(g1, v, w);
        ArcsMembership(g2, v, w);
      }
      forall w: nat ensures w in g1.revarclist[v] <==> w in g2.revarclist[v]
      {
        if w in g1.revarclist[v] {
          var k :| 0 <= k < |g1.revarclist[v]| && g1.revarclist[v][k] == w;
        }
        if w in g2.revarclist[v] {
          var k :| 0 <= k < |g2.revarclist[v]| && g2.revarclist[v][k] == w;
        }
        if 0 <= w < n {
          ArcsMembership(g1, w, v);
          ArcsMembership(g2, w, v);
        }
      }
    }
    SquareExtensional(g1.mixTwoPath, g2.mixTwoPath, n);
    SquareExtensional(g1.inTwoPath, g2.inTwoPath, n);
    SquareExtensional(g1.outTwoPath, g2.outTwoPath, n);
  }

  /** A tentative removal of arc i -> j followed by its re-insertion. */
  function Reinstated(g: Digraph, i: nat, j: nat): (r: Digraph)
    requires Valid(g) && IsArc(g, i, j)
    ensures Valid(r) && r.numNodes == g.numNodes
    ensures Arcs(r) == Arcs(g)
  {
    ArcsMembership(g, i, j);
    RemovablePreconditions(g, i, j);
    var g' := RemoveArc(g, i, j);
    ReaddRestoresSet(Arcs(g), (i, j));
    InsertArc(g', i, j)
  }

  lemma ReaddRestoresSet(A: set<Arc>, x: Arc)
    ensures x in A ==> (A - {x}) + {x} == A
  {
  }

  /** Conservation under rejection: taking an arc out tentatively and
      putting it back restores the arc count, every degree and all three
      two-path matrices exactly. */
  lemma RemoveThenReinsertRestores(g: Digraph, i: nat, j: nat)
    requires Valid(g) && IsArc(g, i, j)
    ensures Reinstated(g, i, j).numArcs == g.numArcs
    ensures Reinstated(g, i, j).outdegree == g.outdegree
    ensures Reinstated(g, i, j).indegree == g.indegree
    ensures Reinstated(g, i, j).mixTwoPath == g.mixTwoPath
    ensures Reinstated(g, i, j).inTwoPath == g.inTwoPath
    ensures Reinstated(g, i, j).outTwoPath == g.outTwoPath
  {
    SameArcsSameViews(Reinstated(g, i, j), g);
  }
}
