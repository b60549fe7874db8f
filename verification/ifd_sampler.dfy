/**
 * The Improved Fixed Density (IFD) sampler: a loop of proposals, each of
 * which picks an add or delete candidate, tentatively removes the arc of
 * a delete, accepts or rejects, commits or undoes the change, accumulates
 * the change statistics of accepted moves and flips the persistent
 * add/delete flag. After the loop the auxiliary (density) parameter is
 * moved towards balancing deletions and additions.
 *
 * Randomness is replaced by an oracle: each `Proposal` carries the
 * candidate pair and the accept decision that `urand() < exp(total)`
 * would have produced. The rejection-sampling loops that draw a candidate
 * become the predicate `Legal`, which is the exit condition of those loops.
 * The change statistics function is a parameter.
 */
module IfdSampler {
  import opened Numeric
  import opened Digraph

  /* ---------------------------------------------------------------
   * Configuration and proposal legality
   * --------------------------------------------------------------- */

  /** The three sampling regimes: unconstrained, conditional on a
      snowball sample (ties in the outermost waves are fixed), and the
      citation ERGM (only arcs sent from the last term are free). */
  datatype Mode = Unconstrained | Snowball | Citation

  datatype Config = Config(
    mode: Mode,
    allowLoops: bool,
    forbidReciprocity: bool,
    performMove: bool,
    zone: seq<nat>,
    maxZone: nat,
    term: seq<nat>,
    maxTerm: nat)

  /** The combinations the sampler asserts for the constrained regimes:
      no loops and no reciprocity ban, and per-node zones or terms. */
  predicate Configured(cfg: Config, n: nat)
  {
    match cfg.mode
    case Unconstrained => true
    case Snowball => |cfg.zone| == n && !cfg.allowLoops && !cfg.forbidReciprocity
    case Citation => |cfg.term| == n && !cfg.allowLoops && !cfg.forbidReciprocity
  }

  /** A node in a wave other than the outermost one. */
  predicate Inner(cfg: Config, v: nat)
  {
    v < |cfg.zone| && cfg.zone[v] < cfg.maxZone
  }

  /** A node in the last term. */
  predicate MaxTermNode(cfg: Config, v: nat)
  {
    v < |cfg.term| && cfg.term[v] == cfg.maxTerm
  }

  /** The arcs, taken without direction, that join v to a node of the
      preceding wave. */
  function PrevWaveArcs(zone: seq<nat>, A: set<Arc>, v: nat): set<Arc>
  {
    set x | x in A && x.0 < |zone| && x.1 < |zone| && v < |zone| &&
      ((x.0 == v && zone[x.1] + 1 == zone[v]) || (x.1 == v && zone[x.0] + 1 == zone[v]))
  }

  function PrevWaveDegree(zone: seq<nat>, A: set<Arc>, v: nat): nat
  {
    |PrevWaveArcs(zone, A, v)|
  }

  function MaxTermSenderArcs(cfg: Config, g: Digraph): set<Arc>
    requires Shaped(g)
  {
    set x | x in Arcs(g) && MaxTermNode(cfg, x.0)
  }

  /** The move actually made: a pending delete becomes an add in the
      citation regime when no arc from the last term exists. */
  predicate MoveIsDelete(cfg: Config, g: Digraph, isDelete: bool)
    requires Shaped(g)
  {
    isDelete && !(cfg.mode == Citation && |MaxTermSenderArcs(cfg, g)| == 0)
  }

  /** The arcs a regime lets the sampler toggle. */
  predicate Movable(cfg: Config, a: nat, b: nat)
  {
    match cfg.mode
    case Unconstrained => true
    case Snowball => Inner(cfg, a) && Inner(cfg, b)
    case Citation => MaxTermNode(cfg, a)
  }

  /** The candidates the rejection-sampling loops can return. */
  predicate Legal(cfg: Config, g: Digraph, del: bool, i: nat, j: nat)
    requires Valid(g)
  {
    && Configured(cfg, g.numNodes)
    && i < g.numNodes && j < g.numNodes
    && (if del then IsArc(g, i, j) else !IsArc(g, i, j))
    && Movable(cfg, i, j)
    && match cfg.mode
       case Unconstrained =>
         del || ((cfg.allowLoops || i != j) && !(cfg.forbidReciprocity && IsArc(g, j, i)))
       case Snowball =>
         if del then
           !((cfg.zone[i] > cfg.zone[j] && PrevWaveDegree(cfg.zone, Arcs(g), i) == 1) ||
             (cfg.zone[j] > cfg.zone[i] && PrevWaveDegree(cfg.zone, Arcs(g), j) == 1))
         else
           i != j && cfg.zone[i] <= cfg.zone[j] + 1 && cfg.zone[j] <= cfg.zone[i] + 1
       case Citation =>
         del || i != j
  }

  /* ---------------------------------------------------------------
   * One proposal
   * --------------------------------------------------------------- */

  /** The change statistics for toggling i -> j, computed on the graph
      without the arc, and negated for a delete. */
  type ChangeStats = (Digraph, nat, nat, bool) -> seq<real>

  ghost predicate StatsWidth(cs: ChangeStats, n: nat)
  {
    forall g, i, j, d :: |cs(g, i, j, d)| == n
  }

  /** The change statistics of a proposal for arc i -> j, computed on
      the graph without that arc: a delete takes it out first. */
  function ProposalStats(cs: ChangeStats, n: nat, g: Digraph, i: nat, j: nat, del: bool): (v: seq<real>)
    requires Valid(g) && StatsWidth(cs, n) && (del ==> IsArc(g, i, j))
    ensures |v| == n
    ensures !del ==> v == cs(g, i, j, false)
  {
    cs(if del then RemoveArc(g, i, j) else g, i, j, del)
  }

  datatype SamplerState = SamplerState(
    g: Digraph,
    isDelete: bool,
    nDel: nat,
    nAdd: nat,
    accepted: nat,
    addStats: seq<real>,
    delStats: seq<real>)

  /** A candidate pair and the outcome of the acceptance test. */
  datatype Proposal = Proposal(i: nat, j: nat, accept: bool)

  predicate Inv(st: SamplerState, n: nat)
  {
    Valid(st.g) && |st.addStats| == n && |st.delStats| == n
  }

  /** The state on entry: counters and accumulators zeroed, the graph and
      the flag carried over from the previous call. */
  function Start(g: Digraph, isDelete: bool, n: nat): (st: SamplerState)
    requires Valid(g)
    ensures Inv(st, n)
    ensures st.nDel == 0 && st.nAdd == 0 && st.accepted == 0
    ensures forall l :: 0 <= l < n ==> st.addStats[l] == 0.0 && st.delStats[l] == 0.0
  {
    SamplerState(g, isDelete, 0, 0, 0, Zeros(n), Zeros(n))
  }

  /** The pair names an arc of g when the move is a delete, and a
      non-arc when it is an add. */
  predicate Toggleable(g: Digraph, del: bool, i: nat, j: nat)
    requires Valid(g)
  {
    i < g.numNodes && j < g.numNodes && (del <==> IsArc(g, i, j))
  }

  /** One proposal: the move is a delete or an add as MoveIsDelete says;
      its change statistics are accumulated only when accepted, and the
      store changes only when accepted with performMove on. */
  function Step(cfg: Config, cs: ChangeStats, n: nat, st: SamplerState, p: Proposal): (r: SamplerState)
    requires Inv(st, n) && StatsWidth(cs, n)
    requires Toggleable(st.g, MoveIsDelete(cfg, st.g, st.isDelete), p.i, p.j)
    ensures Inv(r, n) && r.g.numNodes == st.g.numNodes
    ensures r.nDel + r.nAdd == st.nDel + st.nAdd + 1
    ensures r.nDel == st.nDel + (if MoveIsDelete(cfg, st.g, st.isDelete) then 1 else 0)
    ensures r.accepted == st.accepted + (if p.accept then 1 else 0)
    ensures !(p.accept && cfg.performMove) ==> Arcs(r.g) == Arcs(st.g)
    ensures p.accept && cfg.performMove && MoveIsDelete(cfg, st.g, st.isDelete) ==>
              Arcs(r.g) == Arcs(st.g) - {(p.i, p.j)}
    ensures p.accept && cfg.performMove && !MoveIsDelete(cfg, st.g, st.isDelete) ==>
              Arcs(r.g) == Arcs(st.g) + {(p.i, p.j)}
    ensures r.isDelete == (p.accept != MoveIsDelete(cfg, st.g, st.isDelete))
  {
    var del := MoveIsDelete(cfg, st.g, st.isDelete);
    ArcsMembership(st.g, p.i, p.j);
    var v := ProposalStats(cs, n, st.g, p.i, p.j, del);
    SamplerState(
      Moved(st.g, p.i, p.j, del, p.accept && cfg.performMove),
      p.accept != del,
      st.nDel + (if del then 1 else 0),
      st.nAdd + (if del then 0 else 1),
      st.accepted + (if p.accept then 1 else 0),
      Accumulate(st.addStats, v, p.accept && !del),
      Accumulate(st.delStats, v, p.accept && del))
  }

  /** An accumulator after a proposal: v is added only when `add`. */
  function Accumulate(acc: seq<real>, v: seq<real>, add: bool): (r: seq<real>)
    requires |v| == |acc|
    ensures |r| == |acc|
    ensures !add ==> r == acc
    ensures add ==> forall l :: 0 <= l < |acc| ==> r[l] - acc[l] == v[l]
  {
    if add then AddVec(acc, v) else acc
  }

  /** The accumulators after one proposal: a rejected proposal leaves
      both as they were; an accepted one adds its change statistics to
      the accumulator of its kind and leaves the other alone. */
  lemma StepAccumulates(cfg: Config, cs: ChangeStats, n: nat, st: SamplerState, p: Proposal)
    requires Inv(st, n) && StatsWidth(cs, n)
    requires Toggleable(st.g, MoveIsDelete(cfg, st.g, st.isDelete), p.i, p.j)
    ensures var r := Step(cfg, cs, n, st, p);
            !p.accept ==> r.addStats == st.addStats && r.delStats == st.delStats
    ensures p.accept && MoveIsDelete(cfg, st.g, st.isDelete) ==>
              var r, v := Step(cfg, cs, n, st, p), ProposalStats(cs, n, st.g, p.i, p.j, true);
              r.addStats == st.addStats && forall l :: 0 <= l < n ==> r.delStats[l] - st.delStats[l] == v[l]
    ensures p.accept && !MoveIsDelete(cfg, st.g, st.isDelete) ==>
              var r, v := Step(cfg, cs, n, st, p), ProposalStats(cs, n, st.g, p.i, p.j, false);
              r.delStats == st.delStats && forall l :: 0 <= l < n ==> r.addStats[l] - st.addStats[l] == v[l]
  {
  }

  /** In the citation regime a pending delete with no arc from the last
      term to take away is made as an add; the flag then ends up set
      exactly when that add is accepted. */
  lemma CitationForcesAdd(cfg: Config, cs: ChangeStats, n: nat, st: SamplerState, p: Proposal)
    requires Inv(st, n) && StatsWidth(cs, n)
    requires Toggleable(st.g, MoveIsDelete(cfg, st.g, st.isDelete), p.i, p.j)
    requires cfg.mode == Citation && st.isDelete && |MaxTermSenderArcs(cfg, st.g)| == 0
    ensures var r := Step(cfg, cs, n, st, p);
            r.nAdd == st.nAdd + 1 && r.nDel == st.nDel && r.isDelete == p.accept &&
            (p.accept && cfg.performMove ==> Arcs(r.g) == Arcs(st.g) + {(p.i, p.j)})
  {
  }

  /** The store after a proposal for arc i -> j. A delete takes the arc
      out tentatively (the change statistics are computed without it) and
      puts it back unless the move is committed; an add inserts it only
      when committed. */
  function Moved(g: Digraph, i: nat, j: nat, del: bool, commit: bool): (r: Digraph)
    requires Valid(g) && i < g.numNodes && j < g.numNodes && (del <==> IsArc(g, i, j))
    ensures Valid(r) && r.numNodes == g.numNodes
    ensures Arcs(r) == if !commit then Arcs(g) else if del then Arcs(g) - {(i, j)} else Arcs(g) + {(i, j)}
  {
    ArcsMembership(g, i, j);
    ReaddRestoresSet(Arcs(g), (i, j));
    if del then
      var tentative := RemoveArc(g, i, j);
      if commit then tentative else InsertArc(tentative, i, j)
    else if commit then InsertArc(g, i, j)
    else g
  }

  /* ---------------------------------------------------------------
   * The proposal loop
   * --------------------------------------------------------------- */

  /** Every proposal of the sequence is one the sampler could draw in the
      state it is made in. */
  predicate LegalRun(cfg: Config, cs: ChangeStats, n: nat, st: SamplerState, ps: seq<Proposal>)
    requires Inv(st, n) && StatsWidth(cs, n)
    decreases |ps|
  {
    |ps| == 0 ||
    (Legal(cfg, st.g, MoveIsDelete(cfg, st.g, st.isDelete), ps[0].i, ps[0].j) &&
     LegalRun(cfg, cs, n, Step(cfg, cs, n, st, ps[0]), ps[1..]))
  }

  function Run(cfg: Config, cs: ChangeStats, n: nat, st: SamplerState, ps: seq<Proposal>): (r: SamplerState)
    requires Inv(st, n) && StatsWidth(cs, n) && LegalRun(cfg, cs, n, st, ps)
    ensures Inv(r, n) && r.g.numNodes == st.g.numNodes
    ensures r.nDel + r.nAdd == st.nDel + st.nAdd + |ps|
    ensures st.accepted <= r.accepted <= st.accepted + |ps|
    ensures !cfg.performMove ==> Arcs(r.g) == Arcs(st.g)
    decreases |ps|
  {
    if |ps| == 0 then st else Run(cfg, cs, n, Step(cfg, cs, n, st, ps[0]), ps[1..])
  }

  /* ---------------------------------------------------------------
   * What the sampler preserves
   * --------------------------------------------------------------- */

  ghost predicate Irreflexive(A: set<Arc>)
  {
    forall v: nat :: (v, v) !in A
  }

  ghost predicate NoReciprocated(A: set<Arc>)
  {
    forall a: nat, b: nat :: (a, b) in A && a != b ==> (b, a) !in A
  }

  /** A and B hold the same arcs among those the regime fixes. */
  ghost predicate AgreeOnFixed(cfg: Config, A: set<Arc>, B: set<Arc>)
  {
    forall a: nat, b: nat :: !Movable(cfg, a, b) ==> ((a, b) in A <==> (a, b) in B)
  }

  /** Ties between inner nodes join the same or adjacent waves. */
  ghost predicate WavesAdjacent(cfg: Config, A: set<Arc>)
  {
    forall a: nat, b: nat :: (a, b) in A && Inner(cfg, a) && Inner(cfg, b) ==>
      cfg.zone[a] <= cfg.zone[b] + 1 && cfg.zone[b] <= cfg.zone[a] + 1
  }

  /** Every node linked to its preceding wave in A is still linked in B. */
  ghost predicate WaveLinksKept(zone: seq<nat>, A: set<Arc>, B: set<Arc>)
  {
    forall v: nat :: PrevWaveDegree(zone, A, v) >= 1 ==> PrevWaveDegree(zone, B, v) >= 1
  }

  /** What legality guarantees about the toggled arc x, in terms of the
      arc set alone. */
  ghost predicate ToggleAllowed(cfg: Config, A: set<Arc>, x: Arc, added: bool)
  {
    && Movable(cfg, x.0, x.1)
    && (added ==>
         && (!cfg.allowLoops ==> x.0 != x.1)
         && (cfg.forbidReciprocity ==> (x.1, x.0) !in A)
         && (cfg.mode == Snowball ==>
               cfg.zone[x.0] <= cfg.zone[x.1] + 1 && cfg.zone[x.1] <= cfg.zone[x.0] + 1))
    && (!added && cfg.mode == Snowball ==>
         && !(cfg.zone[x.0] > cfg.zone[x.1] && PrevWaveDegree(cfg.zone, A, x.0) == 1)
         && !(cfg.zone[x.1] > cfg.zone[x.0] && PrevWaveDegree(cfg.zone, A, x.1) == 1))
  }

  /** The possible arc sets after toggling x: unchanged, x removed, or
      x added, as legality permits. */
  ghost predicate Toggled(cfg: Config, A: set<Arc>, B: set<Arc>, x: Arc)
  {
    || B == A
    || (B == A - {x} && ToggleAllowed(cfg, A, x, false))
    || (B == A + {x} && ToggleAllowed(cfg, A, x, true))
  }

  lemma LegalAllows(cfg: Config, g: Digraph, del: bool, i: nat, j: nat)
    requires Valid(g) && Legal(cfg, g, del, i, j)
    ensures ToggleAllowed(cfg, Arcs(g), (i, j), !del)
  {
    ArcsMembership(g, j, i);
  }

  /** The arc set after one proposal. */
  lemma StepArcs(cfg: Config, cs: ChangeStats, n: nat, st: SamplerState, p: Proposal)
    requires Inv(st, n) && StatsWidth(cs, n)
    requires Legal(cfg, st.g, MoveIsDelete(cfg, st.g, st.isDelete), p.i, p.j)
    ensures Toggled(cfg, Arcs(st.g), Arcs(Step(cfg, cs, n, st, p).g), (p.i, p.j))
  {
    LegalAllows(cfg, st.g, MoveIsDelete(cfg, st.g, st.isDelete), p.i, p.j);
  }

  lemma PrevWaveRemove(zone: seq<nat>, A: set<Arc>, x: Arc, v: nat)
    ensures PrevWaveArcs(zone, A - {x}, v) == PrevWaveArcs(zone, A, v) - {x}
  {
  }

  lemma PrevWaveAdd(zone: seq<nat>, A: set<Arc>, x: Arc, v: nat)
    ensures PrevWaveDegree(zone, A, v) <= PrevWaveDegree(zone, A + {x}, v)
  {
    var S, T := PrevWaveArcs(zone, A, v), PrevWaveArcs(zone, A + {x}, v);
    assert T == S + (T - S);
  }

  /** A legal snowball delete never takes away a node's last tie to its
      preceding wave, and an add only creates ties. */
  lemma ToggleKeepsWaveLinks(cfg: Config, A: set<Arc>, B: set<Arc>, x: Arc)
    requires Toggled(cfg, A, B, x)
    ensures cfg.mode == Snowball ==> WaveLinksKept(cfg.zone, A, B)
  {
    if cfg.mode == Snowball {
      forall v: nat | PrevWaveDegree(cfg.zone, A, v) >= 1
        ensures PrevWaveDegree(cfg.zone, B, v) >= 1
      {
        if B == A - {x} {
          PrevWaveRemove(cfg.zone, A, x, v);
          if x in PrevWaveArcs(cfg.zone, A, v) {
            assert PrevWaveDegree(cfg.zone, A, v) != 1;
          }
        } else if B == A + {x} {
          PrevWaveAdd(cfg.zone, A, x, v);
        }
      }
    }
  }

  /** What a regime keeps between arc sets A and B: the fixed ties, and
      each structural rule it asks for. */
  ghost predicate Kept(cfg: Config, A: set<Arc>, B: set<Arc>)
  {
    && AgreeOnFixed(cfg, A, B)
    && (!cfg.allowLoops && Irreflexive(A) ==> Irreflexive(B))
    && (cfg.forbidReciprocity && NoReciprocated(A) ==> NoReciprocated(B))
    && (cfg.mode == Snowball && WavesAdjacent(cfg, A) ==> WavesAdjacent(cfg, B))
    && (cfg.mode == Snowball ==> WaveLinksKept(cfg.zone, A, B))
  }

  lemma KeptTransitive(cfg: Config, A: set<Arc>, M: set<Arc>, B: set<Arc>)
    requires Kept(cfg, A, M) && Kept(cfg, M, B)
    ensures Kept(cfg, A, B)
  {
  }

  lemma StepKeepsConstraints(cfg: Config, cs: ChangeStats, n: nat, st: SamplerState, p: Proposal)
    requires Inv(st, n) && StatsWidth(cs, n)
    requires Legal(cfg, st.g, MoveIsDelete(cfg, st.g, st.isDelete), p.i, p.j)
    ensures Kept(cfg, Arcs(st.g), Arcs(Step(cfg, cs, n, st, p).g))
  {
    var A, B := Arcs(st.g), Arcs(Step(cfg, cs, n, st, p).g);
    StepArcs(cfg, cs, n, st, p);
    ToggleKeepsFixed(cfg, A, B, (p.i, p.j));
    ToggleKeepsIrreflexive(cfg, A, B, (p.i, p.j));
    ToggleKeepsNoReciprocated(cfg, A, B, (p.i, p.j));
    ToggleKeepsWavesAdjacent(cfg, A, B, (p.i, p.j));
    ToggleKeepsWaveLinks(cfg, A, B, (p.i, p.j));
  }

  lemma ToggleKeepsFixed(cfg: Config, A: set<Arc>, B: set<Arc>, x: Arc)
    requires Toggled(cfg, A, B, x)
    ensures AgreeOnFixed(cfg, A, B)
  {
  }

  lemma ToggleKeepsIrreflexive(cfg: Config, A: set<Arc>, B: set<Arc>, x: Arc)
    requires Toggled(cfg, A, B, x)
    ensures !cfg.allowLoops && Irreflexive(A) ==> Irreflexive(B)
  {
  }

  lemma ToggleKeepsNoReciprocated(cfg: Config, A: set<Arc>, B: set<Arc>, x: Arc)
    requires Toggled(cfg, A, B, x)
    ensures cfg.forbidReciprocity && NoReciprocated(A) ==> NoReciprocated(B)
  {
  }

  lemma ToggleKeepsWavesAdjacent(cfg: Config, A: set<Arc>, B: set<Arc>, x: Arc)
    requires Toggled(cfg, A, B, x)
    ensures cfg.mode == Snowball && WavesAdjacent(cfg, A) ==> WavesAdjacent(cfg, B)
  {
  }

  /** Over a whole run: the fixed ties never change, and the absence of
      loops, of reciprocated pairs, of wave-skipping ties and of broken
      links to the preceding wave is kept whenever the regime asks for
      it. */
  lemma {:induction false} RunKeepsConstraints(cfg: Config, cs: ChangeStats, n: nat, st: SamplerState, ps: seq<Proposal>)
    requires Inv(st, n) && StatsWidth(cs, n) && LegalRun(cfg, cs, n, st, ps)
    ensures Kept(cfg, Arcs(st.g), Arcs(Run(cfg, cs, n, st, ps).g))
    decreases |ps|
  {
    if |ps| > 0 {
      var st' := Step(cfg, cs, n, st, ps[0]);
      var last := Run(cfg, cs, n, st', ps[1..]);
      assert Run(cfg, cs, n, st, ps) == last;
      StepKeepsConstraints(cfg, cs, n, st, ps[0]);
      RunKeepsConstraints(cfg, cs, n, st', ps[1..]);
      KeptTransitive(cfg, Arcs(st.g), Arcs(st'.g), Arcs(last.g));
    }
  }

  /** A proposal that is rejected, or made with performMove off, leaves
      the store exactly as it was: arc set, arc count, degrees and all
      two-path matrices. */
  lemma StepRestoresStore(cfg: Config, cs: ChangeStats, n: nat, st: SamplerState, p: Proposal)
    requires Inv(st, n) && StatsWidth(cs, n)
    requires Legal(cfg, st.g, MoveIsDelete(cfg, st.g, st.isDelete), p.i, p.j)
    requires !(p.accept && cfg.performMove)
    ensures var r := Step(cfg, cs, n, st, p).g;
      && Arcs(r) == Arcs(st.g)
      && r.numArcs == st.g.numArcs
      && r.outdegree == st.g.outdegree && r.indegree == st.g.indegree
      && r.mixTwoPath == st.g.mixTwoPath
      && r.inTwoPath == st.g.inTwoPath
      && r.outTwoPath == st.g.outTwoPath
  {
    SameArcsSameViews(Step(cfg, cs, n, st, p).g, st.g);
  }

  /* ---------------------------------------------------------------
   * The auxiliary parameter
   * --------------------------------------------------------------- */

  /** For q > 0, p / q lies in [0, 1] when 0 <= p <= q. */
  lemma RatioInUnit(p: real, q: real)
    requires 0.0 < q && 0.0 <= p <= q
    ensures 0.0 <= p / q <= 1.0
  {
    var r := p / q;
    assert r * q == p;
    if r > 1.0 {
      PosMul(r - 1.0, q);
    }
    if r < 0.0 {
      PosMul(-r, q);
    }
  }

  /** K p / q lies between 0 and K when 0 <= p <= q. */
  lemma ScaledRatio(K: real, p: real, q: real)
    requires 0.0 < q && 0.0 <= p <= q
    ensures K >= 0.0 ==> 0.0 <= K * p / q <= K
    ensures p == 0.0 ==> K * p / q == 0.0
    ensures K > 0.0 && p > 0.0 ==> K * p / q > 0.0
  {
    RatioInUnit(p, q);
    var r := p / q;
    assert K * p / q == K * r;
    assert r * q == p;
    if K > 0.0 && p > 0.0 {
      PosMul(K, r);
    }
  }

  /** |d| <= t implies d^2 <= t^2. */
  lemma SquareAtMost(d: int, t: int)
    requires 0 < t && -t <= d <= t
    ensures 0 <= d * d <= t * t && 0 < t * t
    ensures d != 0 ==> 0 < d * d
  {
    var e := if d < 0 then -d else d;
    assert d * d == e * e;
    assert e * e <= t * e;
    assert t * e <= t * t;
  }

  /** For y > 0, x / y > c exactly when x > c * y. */
  lemma QuotientAbove(x: real, y: real, c: real)
    ensures 0.0 < y ==> (x / y > c <==> x > c * y)
  {
    if 0.0 < y {
      assert x / y * y == x;
      if x / y > c {
        assert x / y * y > c * y;
      }
      if x > c * y {
        assert (x / y - c) * y == x - c * y;
      }
    }
  }

  /** The size of the auxiliary-parameter move, K (Ndel - Nadd)^2 /
      (Ndel + Nadd)^2, computed exactly. */
  function AuxStep(K: real, nDel: nat, nAdd: nat): (s: real)
    requires nDel + nAdd > 0
    ensures K >= 0.0 ==> 0.0 <= s <= K
    ensures nDel == nAdd ==> s == 0.0
    ensures K > 0.0 && nDel != nAdd ==> s > 0.0
  {
    var d := nDel - nAdd;
    var t := nDel + nAdd;
    SquareAtMost(d, t);
    var p := (d * d) as real;
    var q := (t * t) as real;
    ScaledRatio(K, p, q);
    K * p / q
  }

  /** The parameter goes down when more deletions than additions were
      made and up in the opposite case. */
  function UpdateAux(aux: real, K: real, nDel: nat, nAdd: nat): (r: real)
    ensures nDel == nAdd ==> r == aux
    ensures K >= 0.0 && nDel > nAdd ==> aux - K <= r <= aux
    ensures K >= 0.0 && nDel < nAdd ==> aux <= r <= aux + K
    ensures K > 0.0 && nDel > nAdd ==> r < aux
    ensures K > 0.0 && nDel < nAdd ==> r > aux
  {
    if nDel > nAdd then aux - AuxStep(K, nDel, nAdd)
    else if nDel < nAdd then aux + AuxStep(K, nDel, nAdd)
    else aux
  }

  /** The step as the C expression evaluates it: the numerator is a
      double, the denominator the product of two C ints, which wraps
      once Ndel + Nadd exceeds 46340. */
  function AuxStepAsWritten(K: real, nDel: nat, nAdd: nat): (s: Float)
    ensures s.Finite? <==> Wrap32((nDel + nAdd) * (nDel + nAdd)) != 0
  {
    var d := nDel - nAdd;
    var t := nDel + nAdd;
    Divide(K * (d * d) as real, Wrap32(t * t) as real)
  }

  function UpdateAuxAsWritten(aux: real, K: real, nDel: nat, nAdd: nat): (r: Float)
    ensures nDel == nAdd ==> r == Finite(aux)
  {
    if nDel == nAdd then Finite(aux)
    else
      match AuxStepAsWritten(K, nDel, nAdd)
      case Finite(s) => Finite(if nDel > nAdd then aux - s else aux + s)
      case PosInf => if nDel > nAdd then NegInf else PosInf
      case NegInf => if nDel > nAdd then PosInf else NegInf
      case NaN => NaN
  }

  lemma MulMonotone(a: nat, b: nat)
    requires a <= b
    ensures a * a <= b * b
  {
    assert a * a <= a * b <= b * b;
  }

  /** Below 46341 proposals the int product does not wrap and the
      computation as written agrees with the exact one. */
  lemma AuxAsWrittenAgreesBelowOverflow(aux: real, K: real, nDel: nat, nAdd: nat)
    requires 0 < nDel + nAdd <= 46340
    ensures UpdateAuxAsWritten(aux, K, nDel, nAdd) == Finite(UpdateAux(aux, K, nDel, nAdd))
  {
    var t := nDel + nAdd;
    MulMonotone(t, 46340);
    assert 0 < t * t < TwoTo31;
    assert Wrap32(t * t) == t * t;
  }

  /** 30000 deletions against 20000 additions: the exact step lowers the
      parameter, while the wrapped denominator 50000^2 - 2^32 is negative
      and the computation as written raises it. */
  lemma AuxAsWrittenRisesWhenDeletesDominate()
    ensures UpdateAux(0.0, 1.0, 30000, 20000) < 0.0
    ensures UpdateAuxAsWritten(0.0, 1.0, 30000, 20000).Finite?
    ensures UpdateAuxAsWritten(0.0, 1.0, 30000, 20000).v > 0.0
  {
    assert 50000 * 50000 == 2500000000;
    assert Wrap32(2500000000) == -1794967296;
    assert 10000 * 10000 == 100000000;
    assert AuxStepAsWritten(1.0, 30000, 20000) == Finite(100000000.0 / (-1794967296.0));
  }

  /** The overload warning: |Ndel - Nadd| / (Ndel + Nadd) > 0.8, where a
      0/0 quotient (no proposals) compares false. */
  function Warns(nDel: nat, nAdd: nat): (w: bool)
    ensures w <==> nDel + nAdd > 0 && 5.0 * Abs((nDel - nAdd) as real) > 4.0 * (nDel + nAdd) as real
  {
    var q := Divide(Abs((nDel - nAdd) as real), (nDel + nAdd) as real);
    QuotientAbove(Abs((nDel - nAdd) as real), (nDel + nAdd) as real, 0.8);
    q.Finite? && q.v > 0.8
  }

  /* ---------------------------------------------------------------
   * The sampler
   * --------------------------------------------------------------- */

  lemma RateInUnit(a: nat, m: nat)
    requires a <= m
    ensures Divide(a as real, m as real).Finite? ==> 0.0 <= Divide(a as real, m as real).v <= 1.0
  {
    if m > 0 {
      RatioInUnit(a as real, m as real);
    }
  }

  datatype SamplerResult = SamplerResult(
    g: Digraph,
    isDelete: bool,
    addStats: seq<real>,
    delStats: seq<real>,
    aux: real,
    dzArc: real,
    acceptanceRate: Float,
    warned: bool,
    nDel: nat,
    nAdd: nat)

  function IfdSampler(cfg: Config, cs: ChangeStats, n: nat, g: Digraph, isDelete: bool,
                      K: real, aux: real, ps: seq<Proposal>): (r: SamplerResult)
    requires Valid(g) && StatsWidth(cs, n)
    requires LegalRun(cfg, cs, n, Start(g, isDelete, n), ps)
    ensures Valid(r.g) && r.g.numNodes == g.numNodes
    ensures |r.addStats| == n && |r.delStats| == n
    ensures -(|ps| as real) <= r.dzArc <= |ps| as real
    ensures r.acceptanceRate.Finite? <==> |ps| > 0
    ensures r.acceptanceRate.Finite? ==> 0.0 <= r.acceptanceRate.v <= 1.0
    ensures |ps| == 0 ==> r.acceptanceRate == NaN && r.dzArc == 0.0 && r.aux == aux
    ensures !cfg.performMove ==> Arcs(r.g) == Arcs(g)
    ensures r.dzArc == 0.0 ==> r.aux == aux
    ensures K >= 0.0 && r.dzArc > 0.0 ==> aux - K <= r.aux <= aux
    ensures K >= 0.0 && r.dzArc < 0.0 ==> aux <= r.aux <= aux + K
    ensures K > 0.0 && r.dzArc > 0.0 ==> r.aux < aux
    ensures K > 0.0 && r.dzArc < 0.0 ==> r.aux > aux
    ensures r.warned <==> |ps| > 0 && 5.0 * Abs(r.dzArc) > 4.0 * |ps| as real
    ensures r.nDel + r.nAdd == |ps| && r.dzArc == r.nDel as real - r.nAdd as real
    ensures |ps| <= 46340 ==> UpdateAuxAsWritten(aux, K, r.nDel, r.nAdd) == Finite(r.aux)
  {
    var st := Run(cfg, cs, n, Start(g, isDelete, n), ps);
    RateInUnit(st.accepted, |ps|);
    if 0 < |ps| <= 46340 then AuxAsWrittenAgreesBelowOverflow(aux, K, st.nDel, st.nAdd); Result(st, ps, aux, K)
    else Result(st, ps, aux, K)
  }

  /** The sampler's outputs from its final state: the auxiliary
      parameter by the exact update, the acceptance rate, and dzArc. */
  function Result(st: SamplerState, ps: seq<Proposal>, aux: real, K: real): SamplerResult
  {
    SamplerResult(
      st.g,
      st.isDelete,
      st.addStats,
      st.delStats,
      UpdateAux(aux, K, st.nDel, st.nAdd),
      st.nDel as real - st.nAdd as real,
      Divide(st.accepted as real, |ps| as real),
      Warns(st.nDel, st.nAdd),
      st.nDel,
      st.nAdd)
  }

  /* ---------------------------------------------------------------
   * The arc correction: how many arcs the regime allows
   * --------------------------------------------------------------- */

  /** The number of possible arcs as the source computes it: N(N-1)
      ordered pairs, or N^2 with loops; with reciprocity forbidden, half
      the non-loop pairs (plus the N loops when those are allowed). */
  function PossibleArcs(n: nat, allowLoops: bool, forbidReciprocity: bool): real
  {
    var N := n as real;
    var dyads := if allowLoops then (n * n) as real else (n * (n - 1)) as real;
    if forbidReciprocity then
      (if allowLoops then dyads - (n * (n - 1)) as real / 2.0 else dyads / 2.0)
    else
      dyads
  }

  /** The citation regime's dyad count M(N-1)/2 with the division
      truncating, and the product taken exactly. */
  function MaxTermSenderDyads(maxTermNodes: nat, n: nat): (r: nat)
    ensures 2 * r <= maxTermNodes * (n - 1) || n == 0
    ensures n == 0 || maxTermNodes * (n - 1) < 2 * r + 2
  {
    if n == 0 then 0 else maxTermNodes * (n - 1) / 2
  }

  /** The same count as the C expression evaluates it: M and N are
      32-bit unsigned, so N - 1 and the product M(N-1) are reduced
      modulo 2^32 before the truncating halving. */
  function MaxTermSenderDyadsAsWritten(maxTermNodes: nat, n: nat): (r: nat)
    ensures 2 * r <= WrapU32(maxTermNodes * WrapU32(n - 1)) < 2 * r + 2
  {
    WrapU32(maxTermNodes * WrapU32(n - 1)) / 2
  }

  /** While M(N-1) fits in 32 bits the count as written is the exact
      one. */
  lemma MaxTermDyadsAgreeBelowOverflow(maxTermNodes: nat, n: nat)
    requires 0 < n && maxTermNodes * (n - 1) < TwoTo32
    ensures MaxTermSenderDyadsAsWritten(maxTermNodes, n) == MaxTermSenderDyads(maxTermNodes, n)
  {
    var p := maxTermNodes * (n - 1);
    if maxTermNodes > 0 {
      FactorAtMostProduct(maxTermNodes, n - 1);
      assert WrapU32(n - 1) == n - 1;
    }
    assert WrapU32(maxTermNodes * WrapU32(n - 1)) == WrapU32(p) == p;
  }

  lemma FactorAtMostProduct(a: nat, b: nat)
    requires a > 0
    ensures b <= a * b
  {
    assert a * b == b + (a - 1) * b;
  }

  /** 70000 nodes all of the last term: M(N-1) = 4899930000 wraps to
      604962704, so the count as written is far below the exact one and
      a citation graph with 10^9 arcs from last-term senders, well within
      the exact count, gets a negative log argument. */
  lemma MaxTermDyadsAsWrittenUndercount()
    ensures MaxTermSenderDyads(70000, 70000) == 2449965000
    ensures MaxTermSenderDyadsAsWritten(70000, 70000) == 302481352
    ensures 1000000000 <= MaxTermSenderDyads(70000, 70000)
    ensures MaxTermSenderDyadsAsWritten(70000, 70000) < 1000000000
  {
    assert 70000 * 69999 == 4899930000;
    assert WrapU32(69999) == 69999;
    assert WrapU32(4899930000) == 604962704;
  }

  /** The argument of the logarithm in the arc correction: free dyads
      over arcs plus one, for the regime in force. */
  function ArcCorrectionArgument(mode: Mode, allowLoops: bool, forbidReciprocity: bool,
                                 n: nat, numArcs: nat, innerDyads: real, innerArcs: nat,
                                 maxTermNodes: nat, maxTermArcs: nat): (r: real)
    requires !(allowLoops && mode != Unconstrained)
    ensures mode == Unconstrained ==>
      (r >= 0.0 <==> numArcs as real <= PossibleArcs(n, allowLoops, forbidReciprocity))
    ensures mode == Snowball ==> (r >= 0.0 <==> innerArcs as real <= innerDyads)
    ensures mode == Citation ==> (r >= 0.0 <==> maxTermArcs <= MaxTermSenderDyads(maxTermNodes, n))
  {
    match mode
    case Snowball =>
      FreeOverCount(innerDyads, innerArcs);
      (innerDyads - innerArcs as real) / (innerArcs as real + 1.0)
    case Citation =>
      FreeOverCount(MaxTermSenderDyads(maxTermNodes, n) as real, maxTermArcs);
      (MaxTermSenderDyads(maxTermNodes, n) as real - maxTermArcs as real) / (maxTermArcs as real + 1.0)
    case Unconstrained =>
      FreeOverCount(PossibleArcs(n, allowLoops, forbidReciprocity), numArcs);
      (PossibleArcs(n, allowLoops, forbidReciprocity) - numArcs as real) / (numArcs as real + 1.0)
  }

  lemma FreeOverCount(total: real, used: nat)
    ensures (total - used as real) / (used as real + 1.0) >= 0.0 <==> used as real <= total
  {
    var q := used as real + 1.0;
    var r := (total - used as real) / q;
    assert r * q == total - used as real;
    if r < 0.0 {
      PosMul(-r, q);
    }
    if used as real <= total && r < 0.0 {
      PosMul(-r, q);
    }
  }

  /** The arc correction, log((possible - present) / (present + 1)). */
  function ArcCorrection(mode: Mode, allowLoops: bool, forbidReciprocity: bool,
                         n: nat, numArcs: nat, innerDyads: real, innerArcs: nat,
                         maxTermNodes: nat, maxTermArcs: nat, log: real -> real): real
    requires !(allowLoops && mode != Unconstrained)
  {
    log(ArcCorrectionArgument(mode, allowLoops, forbidReciprocity, n, numArcs,
                              innerDyads, innerArcs, maxTermNodes, maxTermArcs))
  }

  /* Counting ordered pairs. */

  function Grid(n: nat): set<Arc>
  {
    set a: nat, b: nat | a < n && b < n :: (a, b)
  }

  function Diagonal(n: nat): set<Arc>
  {
    set v: nat | v < n :: (v, v)
  }

  function RowOf(a: nat, k: nat): set<Arc>
  {
    set b: nat | b < k :: (a, b)
  }

  function ColumnOf(b: nat, k: nat): set<Arc>
  {
    set a: nat | a < k :: (a, b)
  }

  function Mirror(M: set<Arc>): set<Arc>
  {
    set x | x in M :: (x.1, x.0)
  }

  lemma {:induction false} RowSize(a: nat, k: nat)
    ensures |RowOf(a, k)| == k
  {
    if k > 0 {
      assert RowOf(a, k) == RowOf(a, k - 1) + {(a, k - 1)};
      RowSize(a, k - 1);
    }
  }

  lemma {:induction false} ColumnSize(b: nat, k: nat)
    ensures |ColumnOf(b, k)| == k
  {
    if k > 0 {
      assert ColumnOf(b, k) == ColumnOf(b, k - 1) + {(k - 1, b)};
      ColumnSize(b, k - 1);
    }
  }

  lemma GridGrows(m: nat)
    ensures Grid(m + 1) == Grid(m) + RowOf(m, m) + ColumnOf(m, m + 1)
    ensures Grid(m) * RowOf(m, m) == {}
    ensures (Grid(m) + RowOf(m, m)) * ColumnOf(m, m + 1) == {}
  {
    var G := Grid(m + 1);
    forall x: Arc | x in G
      ensures x in Grid(m) + RowOf(m, m) + ColumnOf(m, m + 1)
    {
      if x.0 < m && x.1 < m {
        assert x in Grid(m);
      } else if x.0 == m && x.1 < m {
        assert x in RowOf(m, m);
      } else {
        assert x in ColumnOf(m, m + 1);
      }
    }
  }

  lemma {:induction false} GridSize(n: nat)
    ensures |Grid(n)| == n * n
  {
    if n > 0 {
      var m := n - 1;
      GridSize(m);
      RowSize(m, m);
      ColumnSize(m, m + 1);
      GridGrows(m);
      assert n * n == m * m + m + (m + 1);
    }
  }

  lemma {:induction false} DiagonalSize(n: nat)
    ensures |Diagonal(n)| == n
  {
    if n > 0 {
      assert Diagonal(n) == Diagonal(n - 1) + {(n - 1, n - 1)};
      DiagonalSize(n - 1);
    }
  }

  lemma {:induction false} MirrorSize(M: set<Arc>)
    ensures |Mirror(M)| == |M|
    decreases |M|
  {
    if M != {} {
      var x :| x in M;
      var M' := M - {x};
      MirrorSize(M');
      assert Mirror(M) == Mirror(M') + {(x.1, x.0)};
      assert (x.1, x.0) !in Mirror(M');
    }
  }

  lemma SubsetSize(S: set<Arc>, T: set<Arc>)
    requires S <= T
    ensures |S| <= |T|
  {
    assert T == S + (T - S);
  }

  lemma ArcsInGrid(g: Digraph)
    requires Valid(g)
    ensures Arcs(g) <= Grid(g.numNodes)
  {
    forall x | x in Arcs(g) ensures x in Grid(g.numNodes)
    {
      ArcsMembership(g, x.0, x.1);
      var k :| 0 <= k < |g.arclist[x.0]| && g.arclist[x.0][k] == x.1;
    }
  }

  /** Splitting an arc set into its loops L and the rest M. */
  lemma LoopSplit(A: set<Arc>, n: nat, allowLoops: bool)
    requires A <= Grid(n)
    requires !allowLoops ==> Irreflexive(A)
    ensures |A| == |A * Diagonal(n)| + |A - Diagonal(n)|
    ensures |A * Diagonal(n)| <= (if allowLoops then n else 0)
    ensures A - Diagonal(n) <= Grid(n) - Diagonal(n)
  {
    var L := A * Diagonal(n);
    var M := A - Diagonal(n);
    assert A == L + M && L * M == {};
    SubsetSize(L, Diagonal(n));
    DiagonalSize(n);
    if !allowLoops {
      assert L == {};
    }
  }

  lemma OffDiagonalSize(n: nat)
    ensures |Grid(n) - Diagonal(n)| == n * (n - 1)
  {
    GridSize(n);
    DiagonalSize(n);
    assert Diagonal(n) <= Grid(n);
    assert n * n - n == n * (n - 1);
  }

  /** Without reciprocated pairs, at most half the non-loop pairs. */
  lemma HalfWithoutReciprocity(M: set<Arc>, Off: set<Arc>)
    requires M <= Off
    requires forall x :: x in Off ==> (x.1, x.0) in Off
    requires NoReciprocated(M) && forall x :: x in M ==> x.0 != x.1
    ensures 2 * |M| <= |Off|
  {
    MirrorSize(M);
    assert M * Mirror(M) == {};
    SubsetSize(M + Mirror(M), Off);
  }

  /** A valid graph that respects the loop and reciprocity rules in force
      holds at most as many arcs as the arc correction counts as
      possible, so the unconstrained argument is never negative. */
  lemma ArcCountWithinPossible(g: Digraph, allowLoops: bool, forbidReciprocity: bool)
    requires Valid(g)
    requires !allowLoops ==> Irreflexive(Arcs(g))
    requires forbidReciprocity ==> NoReciprocated(Arcs(g))
    ensures |Arcs(g)| as real <= PossibleArcs(g.numNodes, allowLoops, forbidReciprocity)
  {
    ArcsInGrid(g);
    CountWithinPossible(Arcs(g), g.numNodes, allowLoops, forbidReciprocity);
  }

  lemma CountWithinPossible(A: set<Arc>, n: nat, allowLoops: bool, forbidReciprocity: bool)
    requires A <= Grid(n)
    requires !allowLoops ==> Irreflexive(A)
    requires forbidReciprocity ==> NoReciprocated(A)
    ensures |A| as real <= PossibleArcs(n, allowLoops, forbidReciprocity)
  {
    LoopSplit(A, n, allowLoops);
    OffDiagonalSize(n);
    var M := A - Diagonal(n);
    SubsetSize(M, Grid(n) - Diagonal(n));
    if forbidReciprocity {
      HalfWithoutReciprocity(M, Grid(n) - Diagonal(n));
    }
    PossibleArcsBound(n, |A * Diagonal(n)|, |M|, allowLoops, forbidReciprocity);
  }

  lemma PossibleArcsBound(n: nat, loops: nat, others: nat, allowLoops: bool, forbidReciprocity: bool)
    requires loops <= (if allowLoops then n else 0)
    requires others <= n * (n - 1)
    requires forbidReciprocity ==> 2 * others <= n * (n - 1)
    ensures (loops + others) as real <= PossibleArcs(n, allowLoops, forbidReciprocity)
  {
    assert n * n == n * (n - 1) + n;
  }

  /** Chaining the two facts: an unconstrained run that starts from a
      graph obeying the loop and reciprocity rules ends with no more arcs
      than the arc correction counts as possible. */
  lemma RunStaysWithinPossibleArcs(cfg: Config, cs: ChangeStats, n: nat, st: SamplerState, ps: seq<Proposal>)
    requires Inv(st, n) && StatsWidth(cs, n) && LegalRun(cfg, cs, n, st, ps)
    requires !cfg.allowLoops ==> Irreflexive(Arcs(st.g))
    requires cfg.forbidReciprocity ==> NoReciprocated(Arcs(st.g))
    ensures |Arcs(Run(cfg, cs, n, st, ps).g)| as real <=
            PossibleArcs(st.g.numNodes, cfg.allowLoops, cfg.forbidReciprocity)
  {
    RunKeepsConstraints(cfg, cs, n, st, ps);
    ArcCountWithinPossible(Run(cfg, cs, n, st, ps).g, cfg.allowLoops, cfg.forbidReciprocity);
  }
}
