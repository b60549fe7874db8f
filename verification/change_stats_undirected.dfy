/**
 * Change statistics for undirected graphs: the amount by which a
 * statistic of the graph grows when the edge i -- j is added. A delete
 * move uses the negation of the value computed on the graph without
 * the edge.
 *
 * The graph store is an adjacency list per node with a degree
 * counter. The number of two-paths between two nodes is their number
 * of common neighbours, and `Pow` stands for the table of powers of
 * the decay base 1 - 1/lambda. The decay parameter lambda is the
 * argument `lam` throughout.
 */
module ChangeStatsUndirected {
  import opened Numeric
  import opened Digraph

  /* ---------------------------------------------------------------
   * The undirected graph store
   * --------------------------------------------------------------- */

  datatype Graph = Graph(n: nat, degree: seq<nat>, edgelist: seq<seq<nat>>)

  predicate Adj(g: Graph, a: nat, b: nat)
  {
    a < |g.edgelist| && b in g.edgelist[a]
  }

  /** The store's invariant: one list and one degree per node, the
      degree is the list's length, no list repeats a node or names one
      outside the graph, and every edge is listed at both ends. */
  predicate Valid(g: Graph)
  {
    |g.degree| == g.n && |g.edgelist| == g.n &&
    (forall v :: 0 <= v < g.n ==> g.degree[v] == |g.edgelist[v]|) &&
    (forall v :: 0 <= v < g.n ==> NoDup(g.edgelist[v])) &&
    (forall v, k :: 0 <= v < g.n && 0 <= k < |g.edgelist[v]| ==> g.edgelist[v][k] < g.n) &&
    (forall a, b :: 0 <= a < g.n && 0 <= b < g.n ==> (Adj(g, a, b) <==> Adj(g, b, a)))
  }

  /** The common neighbours of a and b. */
  function Common(g: Graph, a: nat, b: nat): set<nat>
  {
    set w | 0 <= w < g.n && Adj(g, a, w) && Adj(g, w, b)
  }

  /** The number of two-paths a - w - b. */
  function TwoPath(g: Graph, a: nat, b: nat): nat
  {
    |Common(g, a, b)|
  }

  lemma TwoPathSymmetric(g: Graph, a: nat, b: nat)
    requires Valid(g)
    ensures Common(g, a, b) == Common(g, b, a)
    ensures TwoPath(g, a, b) == TwoPath(g, b, a)
  {
  }

  /** Adding the edge i -- j to the store: each end lists the other and
      counts one more neighbour. */
  function AddEdge(g: Graph, i: nat, j: nat): (h: Graph)
    requires Valid(g) && i < g.n && j < g.n && i != j && !Adj(g, i, j)
    ensures Valid(h) && h.n == g.n
    ensures h.degree == Bumped(g.degree, i, j)
    ensures forall a, b :: Adj(h, a, b) <==> Adj(g, a, b) || (a == i && b == j) || (a == j && b == i)
  {
    var h := Graph(
      g.n,
      Bumped(g.degree, i, j),
      g.edgelist[i := g.edgelist[i] + [j]][j := g.edgelist[j] + [i]]);
    assert forall v :: 0 <= v < g.n && v != i && v != j ==> h.edgelist[v] == g.edgelist[v];
    assert h.edgelist[i] == g.edgelist[i] + [j] && h.edgelist[j] == g.edgelist[j] + [i];
    assert forall a, b :: Adj(h, a, b) <==> Adj(g, a, b) || (a == i && b == j) || (a == j && b == i);
    h
  }

  /** A degree vector with the entries of i and j raised by one. */
  function Bumped(deg: seq<nat>, i: nat, j: nat): (r: seq<nat>)
    requires i < |deg| && j < |deg|
    ensures |r| == |deg|
  {
    deg[i := deg[i] + 1][j := deg[j] + 1]
  }

  /* ---------------------------------------------------------------
   * Sums over lists and over node ranges
   * --------------------------------------------------------------- */

  /** The loop of the source: f summed over a list in order. */
  function ListSum(xs: seq<nat>, f: nat -> real): real
    decreases |xs|
  {
    if |xs| == 0 then 0.0 else f(xs[0]) + ListSum(xs[1..], f)
  }

  /** f summed over the members of S below n. */
  function RangeSum(n: nat, S: set<nat>, f: nat -> real): real
  {
    if n == 0 then 0.0 else RangeSum(n - 1, S, f) + (if n - 1 in S then f(n - 1) else 0.0)
  }

  lemma {:induction false} ListSumBounds(xs: seq<nat>, f: nat -> real)
    requires forall k :: 0 <= k < |xs| ==> 0.0 <= f(xs[k]) <= 1.0
    ensures 0.0 <= ListSum(xs, f) <= |xs| as real
    decreases |xs|
  {
    if |xs| > 0 {
      assert forall k :: 0 <= k < |xs| - 1 ==> xs[1..][k] == xs[k + 1];
      ListSumBounds(xs[1..], f);
    }
  }

  /** A sum of non-negative terms is positive exactly when one term
      is. */
  lemma {:induction false} ListSumPositive(xs: seq<nat>, f: nat -> real)
    requires forall k :: 0 <= k < |xs| ==> 0.0 <= f(xs[k])
    ensures 0.0 <= ListSum(xs, f)
    ensures 0.0 < ListSum(xs, f) <==> exists k :: 0 <= k < |xs| && 0.0 < f(xs[k])
    decreases |xs|
  {
    if |xs| > 0 {
      assert forall k :: 0 <= k < |xs| - 1 ==> xs[1..][k] == xs[k + 1];
      ListSumPositive(xs[1..], f);
      if exists k :: 0 <= k < |xs| && 0.0 < f(xs[k]) {
        var k :| 0 <= k < |xs| && 0.0 < f(xs[k]);
        if k > 0 {
          assert xs[1..][k - 1] == xs[k];
        }
      }
    }
  }

  lemma {:induction false} RangeSumInsert(n: nat, S: set<nat>, x: nat, f: nat -> real)
    requires x < n && x !in S
    ensures RangeSum(n, S + {x}, f) == RangeSum(n, S, f) + f(x)
  {
    if n - 1 != x {
      RangeSumInsert(n - 1, S, x, f);
    } else {
      RangeSumMasked(n - 1, S + {x}, S, f, f);
    }
  }

  /** Two range sums agree when their masked terms agree. */
  lemma {:induction false} RangeSumMasked(n: nat, S: set<nat>, T: set<nat>, f: nat -> real, h: nat -> real)
    requires forall v :: 0 <= v < n ==> (if v in S then f(v) else 0.0) == (if v in T then h(v) else 0.0)
    ensures RangeSum(n, S, f) == RangeSum(n, T, h)
  {
    if n > 0 {
      RangeSumMasked(n - 1, S, T, f, h);
    }
  }

  /** The loop over a duplicate-free list of nodes is the sum over the
      set of those nodes: the list's order does not matter. */
  lemma {:induction false} ListSumAsRangeSum(xs: seq<nat>, n: nat, f: nat -> real)
    requires NoDup(xs) && forall k :: 0 <= k < |xs| ==> xs[k] < n
    ensures ListSum(xs, f) == RangeSum(n, Elements(xs), f)
    decreases |xs|
  {
    if |xs| == 0 {
      RangeSumMasked(n, {}, {}, f, f);
      assert Elements(xs) == {};
      RangeSumEmpty(n, f);
    } else {
      var rest := xs[1..];
      assert NoDup(rest) by {
        forall p, q | 0 <= p < q < |rest|
          ensures rest[p] != rest[q]
        {
          assert rest[p] == xs[p + 1] && rest[q] == xs[q + 1];
        }
      }
      ListSumAsRangeSum(rest, n, f);
      assert Elements(xs) == Elements(rest) + {xs[0]};
      RangeSumInsert(n, Elements(rest), xs[0], f);
    }
  }

  lemma {:induction false} RangeSumEmpty(n: nat, f: nat -> real)
    ensures RangeSum(n, {}, f) == 0.0
  {
    if n > 0 {
      RangeSumEmpty(n - 1, f);
    }
  }

  /** The neighbours of a. */
  function Neighbours(g: Graph, a: nat): set<nat>
  {
    set v | 0 <= v < g.n && Adj(g, a, v)
  }

  /** A loop over a's adjacency list is the sum over a's neighbours. */
  lemma NeighbourSum(g: Graph, a: nat, f: nat -> real)
    requires Valid(g) && a < g.n
    ensures ListSum(g.edgelist[a], f) == RangeSum(g.n, Neighbours(g, a), f)
  {
    assert Elements(g.edgelist[a]) == Neighbours(g, a);
    ListSumAsRangeSum(g.edgelist[a], g.n, f);
  }

  /* ---------------------------------------------------------------
   * The decay base
   * --------------------------------------------------------------- */

  /** 1 - 1/lambda, strictly between 0 and 1 for lambda > 1. */
  function Decay(lam: real): (r: real)
    requires lam > 1.0
    ensures 0.0 < r < 1.0
  {
    1.0 - 1.0 / lam
  }

  lemma {:induction false} PowBelowOne(x: real, k: nat)
    requires 0.0 < x < 1.0 && k > 0
    ensures Pow(x, k) < 1.0
  {
    PowAtMostOne(x, k - 1);
    assert x * Pow(x, k - 1) <= x * 1.0;
  }

  /* ---------------------------------------------------------------
   * Edge
   * --------------------------------------------------------------- */

  function ChangeEdge(g: Graph, i: nat, j: nat, lam: real): real
  {
    1.0
  }

  /** The edge statistic is half the degree sum; adding an edge raises
      the degree sum by two, so by twice the change statistic. */
  lemma EdgeChange(g: Graph, i: nat, j: nat, lam: real)
    requires i < |g.degree| && j < |g.degree| && i != j
    ensures SumNat(Bumped(g.degree, i, j)) as real == SumNat(g.degree) as real + 2.0 * ChangeEdge(g, i, j, lam)
  {
    var d1 := g.degree[i := g.degree[i] + 1];
    SumNatUpdate(g.degree, i, g.degree[i] + 1);
    SumNatUpdate(d1, j, d1[j] + 1);
  }

  /* ---------------------------------------------------------------
   * Alternating k-stars
   * --------------------------------------------------------------- */

  function ChangeAltStars(g: Graph, i: nat, j: nat, lam: real): (r: real)
    requires lam > 1.0 && i < |g.degree| && j < |g.degree|
    ensures 0.0 <= r < 2.0 * lam
    ensures g.degree[i] == 0 && g.degree[j] == 0 ==> r == 0.0
  {
    var x := Decay(lam);
    PowPositive(x, g.degree[i]);
    PowPositive(x, g.degree[j]);
    PowAtMostOne(x, g.degree[i]);
    PowAtMostOne(x, g.degree[j]);
    var u := 2.0 - Pow(x, g.degree[i]) - Pow(x, g.degree[j]);
    BelowTwice(lam, u);
    Mul(lam, u)
  }

  lemma BelowTwice(lam: real, u: real)
    requires 0.0 < lam && 0.0 <= u < 2.0
    ensures 0.0 <= Mul(lam, u) < 2.0 * lam
  {
    MulNonNeg(lam, u);
    MulPos(lam, 2.0 - u);
    assert Mul(lam, 2.0 - u) == 2.0 * lam - Mul(lam, u);
  }

  /** A node's contribution to the alternating k-star statistic,
      lambda^2 ((1 - 1/lambda)^d - 1 + d/lambda) for degree d. */
  function StarTerm(lam: real, d: nat): real
    requires lam > 1.0
  {
    Mul(Mul(lam, lam), Pow(Decay(lam), d) - 1.0 + d as real / lam)
  }

  /** The alternating k-star statistic of a degree vector. */
  function AltStars(lam: real, deg: seq<nat>): real
    requires lam > 1.0
  {
    Sum(seq(|deg|, v requires 0 <= v < |deg| => StarTerm(lam, deg[v])))
  }

  /** One more neighbour adds lambda (1 - (1 - 1/lambda)^d) to a node's
      term. */
  lemma StarTermStep(lam: real, d: nat)
    requires lam > 1.0
    ensures StarTerm(lam, d + 1) - StarTerm(lam, d) == Mul(lam, 1.0 - Pow(Decay(lam), d))
  {
    var x := Decay(lam);
    var p := Pow(x, d);
    assert Pow(x, d + 1) == x * p;
    var q := 1.0 / lam;
    assert q * lam == 1.0;
    assert x * p - p == -(q * p);
    var sq := Mul(lam, lam);
    assert (Pow(x, d + 1) - 1.0 + (d + 1) as real / lam) - (p - 1.0 + d as real / lam)
           == q * (1.0 - p);
    assert sq * (q * (1.0 - p)) == (lam * (lam * q)) * (1.0 - p);
  }

  /** changeAltStars is the growth of the alternating k-star statistic
      when the edge i -- j is added, which raises the degrees of i and
      j by one; the statistic falls by the same amount when the edge is
      deleted again. */
  lemma AltStarsChange(g: Graph, i: nat, j: nat, lam: real)
    requires lam > 1.0 && i < |g.degree| && j < |g.degree| && i != j
    ensures AltStars(lam, Bumped(g.degree, i, j)) - AltStars(lam, g.degree) == ChangeAltStars(g, i, j, lam)
    ensures AltStars(lam, g.degree) - AltStars(lam, Bumped(g.degree, i, j)) == -ChangeAltStars(g, i, j, lam)
  {
    var deg := g.degree;
    var t0 := seq(|deg|, v requires 0 <= v < |deg| => StarTerm(lam, deg[v]));
    var t1 := t0[i := StarTerm(lam, deg[i] + 1)];
    var t2 := t1[j := StarTerm(lam, deg[j] + 1)];
    var b := Bumped(deg, i, j);
    assert seq(|b|, v requires 0 <= v < |b| => StarTerm(lam, b[v])) == t2;
    SumUpdate(t0, i, StarTerm(lam, deg[i] + 1));
    SumUpdate(t1, j, StarTerm(lam, deg[j] + 1));
    StarTermStep(lam, deg[i]);
    StarTermStep(lam, deg[j]);
    var x := Decay(lam);
    assert Mul(lam, 1.0 - Pow(x, deg[i])) + Mul(lam, 1.0 - Pow(x, deg[j]))
           == Mul(lam, 2.0 - Pow(x, deg[i]) - Pow(x, deg[j]));
  }

  /* ---------------------------------------------------------------
   * Alternating two-paths
   * --------------------------------------------------------------- */

  /** The term for neighbour v of b in the loop that pairs a with b's
      neighbours: (1 - 1/lambda)^TwoPath(a, v), and nothing for a or b
      themselves. */
  function TwoPathTerm(g: Graph, a: nat, b: nat, lam: real, v: nat): real
    requires lam > 1.0
  {
    if v == a || v == b then 0.0 else Pow(Decay(lam), TwoPath(g, a, v))
  }

  function ChangeAltTwoPaths(g: Graph, i: nat, j: nat, lam: real): (r: real)
    requires Valid(g) && i < g.n && j < g.n && lam > 1.0
    ensures i == j ==> r == 0.0
    ensures 0.0 <= r <= (g.degree[i] + g.degree[j]) as real
    ensures i != j ==> (0.0 < r <==> exists v :: 0 <= v < g.n && v != i && v != j && (Adj(g, i, v) || Adj(g, j, v)))
  {
    if i == j then
      0.0
    else
      AltTwoPathsFacts(g, i, j, lam);
      AltTwoPathsFacts(g, j, i, lam);
      ListSum(g.edgelist[j], (v: nat) => TwoPathTerm(g, i, j, lam, v)) +
      ListSum(g.edgelist[i], (v: nat) => TwoPathTerm(g, j, i, lam, v))
  }

  /** The loop over b's list: between 0 and deg(b), and positive
      exactly when b has a neighbour other than a and b. */
  lemma AltTwoPathsFacts(g: Graph, a: nat, b: nat, lam: real)
    requires Valid(g) && a < g.n && b < g.n && lam > 1.0
    ensures 0.0 <= ListSum(g.edgelist[b], (v: nat) => TwoPathTerm(g, a, b, lam, v)) <= g.degree[b] as real
    ensures 0.0 < ListSum(g.edgelist[b], (v: nat) => TwoPathTerm(g, a, b, lam, v)) <==>
              exists v :: 0 <= v < g.n && v != a && v != b && Adj(g, b, v)
  {
    var xs := g.edgelist[b];
    assert |xs| == g.degree[b];
    assert forall k :: 0 <= k < |xs| ==> xs[k] < g.n && Adj(g, b, xs[k]);
    LoopTermsFacts(xs, g, a, b, lam);
  }

  lemma LoopTermsFacts(xs: seq<nat>, g: Graph, a: nat, b: nat, lam: real)
    requires lam > 1.0 && forall k :: 0 <= k < |xs| ==> xs[k] < g.n
    ensures 0.0 <= ListSum(xs, (v: nat) => TwoPathTerm(g, a, b, lam, v)) <= |xs| as real
    ensures 0.0 < ListSum(xs, (v: nat) => TwoPathTerm(g, a, b, lam, v)) <==>
              exists v :: 0 <= v < g.n && v != a && v != b && v in xs
  {
    var f := (v: nat) => TwoPathTerm(g, a, b, lam, v);
    forall k | 0 <= k < |xs|
      ensures 0.0 <= f(xs[k]) <= 1.0
      ensures 0.0 < f(xs[k]) <==> xs[k] != a && xs[k] != b
    {
      TwoPathTermFacts(g, a, b, lam, xs[k]);
    }
    ListSumBounds(xs, f);
    ListSumPositive(xs, f);
    if exists v :: 0 <= v < g.n && v != a && v != b && v in xs {
      var v :| 0 <= v < g.n && v != a && v != b && v in xs;
      var k :| 0 <= k < |xs| && xs[k] == v;
      assert 0.0 < f(xs[k]);
    }
    if 0.0 < ListSum(xs, f) {
      var k :| 0 <= k < |xs| && 0.0 < f(xs[k]);
      assert xs[k] != a && xs[k] != b && xs[k] in xs;
    }
  }

  lemma TwoPathTermFacts(g: Graph, a: nat, b: nat, lam: real, v: nat)
    requires lam > 1.0
    ensures 0.0 <= TwoPathTerm(g, a, b, lam, v) <= 1.0
    ensures 0.0 < TwoPathTerm(g, a, b, lam, v) <==> v != a && v != b
  {
    PowPositive(Decay(lam), TwoPath(g, a, v));
    PowAtMostOne(Decay(lam), TwoPath(g, a, v));
  }

  /** The loops add up the terms over the neighbour sets, whatever the
      order of the adjacency lists. */
  lemma AltTwoPathsOverNeighbours(g: Graph, i: nat, j: nat, lam: real)
    requires Valid(g) && i < g.n && j < g.n && lam > 1.0 && i != j
    ensures ChangeAltTwoPaths(g, i, j, lam) ==
            RangeSum(g.n, Neighbours(g, j), (v: nat) => TwoPathTerm(g, i, j, lam, v)) +
            RangeSum(g.n, Neighbours(g, i), (v: nat) => TwoPathTerm(g, j, i, lam, v))
  {
    NeighbourSum(g, j, (v: nat) => TwoPathTerm(g, i, j, lam, v));
    NeighbourSum(g, i, (v: nat) => TwoPathTerm(g, j, i, lam, v));
  }

  /** Two stores holding the same edges give the same change statistic,
      however their lists are ordered. */
  lemma AltTwoPathsDependsOnEdgesOnly(g: Graph, h: Graph, i: nat, j: nat, lam: real)
    requires Valid(g) && Valid(h) && g.n == h.n && i < g.n && j < g.n && lam > 1.0
    requires forall a, b :: 0 <= a < g.n && 0 <= b < g.n ==> (Adj(g, a, b) <==> Adj(h, a, b))
    ensures ChangeAltTwoPaths(g, i, j, lam) == ChangeAltTwoPaths(h, i, j, lam)
  {
    if i != j {
      AltTwoPathsOverNeighbours(g, i, j, lam);
      AltTwoPathsOverNeighbours(h, i, j, lam);
      SameEdgesSameCounts(g, h);
      RangeSumMasked(g.n, Neighbours(g, j), Neighbours(h, j),
                     (v: nat) => TwoPathTerm(g, i, j, lam, v), (v: nat) => TwoPathTerm(h, i, j, lam, v));
      RangeSumMasked(g.n, Neighbours(g, i), Neighbours(h, i),
                     (v: nat) => TwoPathTerm(g, j, i, lam, v), (v: nat) => TwoPathTerm(h, j, i, lam, v));
    }
  }

  lemma SameEdgesSameCounts(g: Graph, h: Graph)
    requires Valid(g) && Valid(h) && g.n == h.n
    requires forall a, b :: 0 <= a < g.n && 0 <= b < g.n ==> (Adj(g, a, b) <==> Adj(h, a, b))
    ensures forall a :: 0 <= a < g.n ==> Neighbours(g, a) == Neighbours(h, a)
    ensures forall a, b :: 0 <= a < g.n ==> TwoPath(g, a, b) == TwoPath(h, a, b)
  {
    forall a, b | 0 <= a < g.n
      ensures Common(g, a, b) == Common(h, a, b)
    {
    }
  }

  /* ---------------------------------------------------------------
   * Alternating k-triangles
   * --------------------------------------------------------------- */

  /** The term for neighbour v of b in the loop: when v is also a
      neighbour of a, the discounted two-path counts of a -- v and
      v -- b. */
  function TriangleTerm(g: Graph, a: nat, b: nat, lam: real, v: nat): real
    requires lam > 1.0
  {
    if v == a || v == b then 0.0
    else if Adj(g, a, v) then Pow(Decay(lam), TwoPath(g, a, v)) + Pow(Decay(lam), TwoPath(g, v, b))
    else 0.0
  }

  /** The statistic with a as the node of larger degree: the loop over
      b's list, then lambda (1 - (1 - 1/lambda)^TwoPath(a, b)). */
  function AltKTrianglesFrom(g: Graph, a: nat, b: nat, lam: real): (r: real)
    requires Valid(g) && a < g.n && b < g.n && lam > 1.0
    ensures 0.0 <= r
    ensures 0.0 < r <==> 0 < TwoPath(g, a, b)
  {
    var x := Decay(lam);
    TrianglesLoopFacts(g, a, b, lam);
    ClosureTermFacts(lam, TwoPath(g, a, b));
    ListSum(g.edgelist[b], (v: nat) => TriangleTerm(g, a, b, lam, v)) +
    Mul(lam, 1.0 - Pow(x, TwoPath(g, a, b)))
  }

  lemma ClosureTermFacts(lam: real, t: nat)
    requires lam > 1.0
    ensures 0.0 <= Mul(lam, 1.0 - Pow(Decay(lam), t))
    ensures 0.0 < Mul(lam, 1.0 - Pow(Decay(lam), t)) <==> 0 < t
  {
    var x := Decay(lam);
    PowAtMostOne(x, t);
    MulNonNeg(lam, 1.0 - Pow(x, t));
    if 0 < t {
      PowBelowOne(x, t);
      MulPos(lam, 1.0 - Pow(x, t));
    }
  }

  /** The loop is non-negative, and zero when a and b have no common
      neighbour. */
  lemma TrianglesLoopFacts(g: Graph, a: nat, b: nat, lam: real)
    requires Valid(g) && a < g.n && b < g.n && lam > 1.0
    ensures 0.0 <= ListSum(g.edgelist[b], (v: nat) => TriangleTerm(g, a, b, lam, v))
    ensures TwoPath(g, a, b) == 0 ==> ListSum(g.edgelist[b], (v: nat) => TriangleTerm(g, a, b, lam, v)) == 0.0
  {
    var xs := g.edgelist[b];
    var f := (v: nat) => TriangleTerm(g, a, b, lam, v);
    var x := Decay(lam);
    forall k | 0 <= k < |xs|
      ensures 0.0 <= f(xs[k])
      ensures 0.0 < f(xs[k]) ==> xs[k] in Common(g, a, b)
    {
      PowPositive(x, TwoPath(g, a, xs[k]));
      PowPositive(x, TwoPath(g, xs[k], b));
    }
    ListSumPositive(xs, f);
  }

  function ChangeAltKTriangles(g: Graph, i: nat, j: nat, lam: real): (r: real)
    requires Valid(g) && i < g.n && j < g.n && lam > 1.0
    ensures i == j ==> r == 0.0
    ensures 0.0 <= r
    ensures i != j ==> (0.0 < r <==> 0 < TwoPath(g, i, j))
  {
    if i == j then
      0.0
    else if g.degree[i] < g.degree[j] then
      TwoPathSymmetric(g, i, j);
      AltKTrianglesFrom(g, j, i, lam)
    else
      AltKTrianglesFrom(g, i, j, lam)
  }

  /** The value as a sum over the common neighbours of a and b. */
  lemma AltKTrianglesOverCommon(g: Graph, a: nat, b: nat, lam: real)
    requires Valid(g) && a < g.n && b < g.n && lam > 1.0
    ensures AltKTrianglesFrom(g, a, b, lam) ==
            RangeSum(g.n, Common(g, a, b) - {a, b},
                     (v: nat) => Pow(Decay(lam), TwoPath(g, a, v)) + Pow(Decay(lam), TwoPath(g, v, b))) +
            Mul(lam, 1.0 - Pow(Decay(lam), TwoPath(g, a, b)))
  {
    var f := (v: nat) => TriangleTerm(g, a, b, lam, v);
    NeighbourSum(g, b, f);
    RangeSumMasked(g.n, Neighbours(g, b), Common(g, a, b) - {a, b}, f,
                   (v: nat) => Pow(Decay(lam), TwoPath(g, a, v)) + Pow(Decay(lam), TwoPath(g, v, b)));
  }

  /** The degree swap only picks which list to scan: the change
      statistic is symmetric in i and j. */
  lemma AltKTrianglesSymmetric(g: Graph, i: nat, j: nat, lam: real)
    requires Valid(g) && i < g.n && j < g.n && lam > 1.0
    ensures ChangeAltKTriangles(g, i, j, lam) == ChangeAltKTriangles(g, j, i, lam)
  {
    if i != j && g.degree[i] == g.degree[j] {
      var x := Decay(lam);
      AltKTrianglesOverCommon(g, i, j, lam);
      AltKTrianglesOverCommon(g, j, i, lam);
      TwoPathSymmetric(g, i, j);
      assert Common(g, i, j) - {i, j} == Common(g, j, i) - {j, i};
      forall v | 0 <= v < g.n
        ensures Pow(x, TwoPath(g, i, v)) + Pow(x, TwoPath(g, v, j)) ==
                Pow(x, TwoPath(g, j, v)) + Pow(x, TwoPath(g, v, i))
      {
        TwoPathSymmetric(g, i, v);
        TwoPathSymmetric(g, v, j);
      }
      RangeSumMasked(g.n, Common(g, i, j) - {i, j}, Common(g, j, i) - {j, i},
                     (v: nat) => Pow(x, TwoPath(g, i, v)) + Pow(x, TwoPath(g, v, j)),
                     (v: nat) => Pow(x, TwoPath(g, j, v)) + Pow(x, TwoPath(g, v, i)));
    }
  }

  /* ---------------------------------------------------------------
   * Activity (binary attribute)
   * --------------------------------------------------------------- */

  /** A stored binary value as a number, a missing value counting 0. */
  function AttrValue(v: int): real
  {
    if v == BinNA then 0.0 else v as real
  }

  function ChangeActivity(binattr: seq<seq<int>>, a: nat, i: nat, j: nat, isDelete: bool): (r: real)
    requires a < |binattr| && i < |binattr[a]| && j < |binattr[a]|
    ensures ValidBinaryValue(binattr[a][i]) && ValidBinaryValue(binattr[a][j]) ==>
              (r == 0.0 || r == 1.0 || r == 2.0) &&
              (r == 0.0 <==> DecodeBinary(binattr[a][i]) != Some(true) && DecodeBinary(binattr[a][j]) != Some(true)) &&
              (r == 2.0 <==> DecodeBinary(binattr[a][i]) == Some(true) && DecodeBinary(binattr[a][j]) == Some(true))
  {
    AttrValue(binattr[a][i]) + AttrValue(binattr[a][j])
  }

  /** The activity statistic: the degree sum over nodes with the
      attribute, each node weighted by its value. */
  function Activity(deg: seq<nat>, x: seq<int>): real
    requires |x| == |deg|
  {
    Sum(Weighted(deg, x))
  }

  function Weighted(deg: seq<nat>, x: seq<int>): (r: seq<real>)
    requires |x| == |deg|
    ensures |r| == |deg|
  {
    seq(|deg|, v requires 0 <= v < |deg| => Mul(deg[v] as real, AttrValue(x[v])))
  }

  /** One more edge at node v adds v's attribute value to the
      statistic. */
  lemma ActivityBump(deg: seq<nat>, x: seq<int>, v: nat)
    requires |x| == |deg| && v < |deg|
    ensures Activity(deg[v := deg[v] + 1], x) - Activity(deg, x) == AttrValue(x[v])
  {
    var t0 := Weighted(deg, x);
    var t1 := Weighted(deg[v := deg[v] + 1], x);
    assert t1 == t0[v := t1[v]];
    SumUpdate(t0, v, t1[v]);
  }

  /** changeActivity is the growth of the activity statistic when the
      edge i -- j is added, whether or not the move is a delete. */
  lemma ActivityChange(binattr: seq<seq<int>>, a: nat, deg: seq<nat>, i: nat, j: nat, isDelete: bool)
    requires a < |binattr| && |binattr[a]| == |deg| && i < |deg| && j < |deg| && i != j
    ensures Activity(Bumped(deg, i, j), binattr[a]) - Activity(deg, binattr[a]) ==
            ChangeActivity(binattr, a, i, j, isDelete)
    ensures ChangeActivity(binattr, a, i, j, isDelete) == ChangeActivity(binattr, a, i, j, !isDelete)
  {
    var x := binattr[a];
    var d1 := deg[i := deg[i] + 1];
    ActivityBump(deg, x, i);
    ActivityBump(d1, x, j);
    assert Bumped(deg, i, j) == d1[j := d1[j] + 1];
  }
}
