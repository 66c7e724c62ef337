/** `src/matching.rs`: the two pairing engines. `random_pair` shuffles and cuts
    into pairs; `graph_pair` shuffles, numbers the participants by position,
    turns the history into "may-not-pair" edges, asks a maximum-matching solver
    for constraint-free pairs on the complement graph, pairs the leftovers in
    id order, and puts a single remaining participant into the existing match
    it has the fewest constraints against. */
module Matching {
  import opened Prelude
  import opened Seqs
  import opened Helpers
  import opened Pair

  /** A node of the candidate graph: a position in the shuffled participant list. */
  type NodeId = nat

  /** The participant limit of `graph_pair`. */
  const GraphPairLimit: nat := 200

  /** Shuffles, cuts the result into consecutive pairs and appends a leftover
      element to the last pair; nobody is flagged. With at most one element
      the source panics, so that is excluded. */
  method RandomPair<T(!new)>(vec: seq<T>, seed: u64, shuffle: Shuffler<T>) returns (p: Pairing<T>)
    requires IsShuffler(shuffle)
    requires |vec| > 1
    ensures Flatten(p.matches) == shuffle(vec, seed)
    ensures multiset(Flatten(p.matches)) == multiset(vec)
    ensures ChunkShape(p.matches, |vec|)
    ensures p.imperfect == []
  {
    var shuffled := shuffle(vec, seed);
    assert |shuffled| == |vec| by {
      assert |multiset(shuffled)| == |shuffled| && |multiset(vec)| == |vec|;
    }
    var chunks := ChunksOfTwo(shuffled);
    var remainder := ChunkRemainder(shuffled);
    var x := chunks;
    x := x[|x| - 1 := x[|x| - 1] + remainder];
    ChunksOfTwoCover(shuffled);
    FlattenExtendLast(chunks, remainder);
    ExtendedChunkShape(shuffled, x);
    p := Pairing(x, []);
  }

  /** An unordered pair of node ids, stored smaller id first so that equal
      pairs are equal values. Used both for history constraints and for the
      edges of the candidate graph. */
  datatype ConstraintEdge = ConstraintEdge(lower: NodeId, upper: NodeId)

  /** `ConstraintEdge::new`: the normalised form of a pair. */
  function NewEdge(a: NodeId, b: NodeId): (e: ConstraintEdge)
    ensures e.lower <= e.upper
    ensures multiset{e.lower, e.upper} == multiset{a, b}
  {
    if a <= b then ConstraintEdge(a, b) else ConstraintEdge(b, a)
  }

  /** The id of a participant: the `nodes` map collected from `enumerate`
      keeps the position of its last occurrence. */
  function NodeOf<T(==)>(vec: seq<T>, x: T): Option<NodeId>
  {
    LastIndexOf(vec, x)
  }

  /** The ids of the members of a historical match that are participants, in
      the match's order; members who are not participants are dropped. */
  function MemberIds<T(==)>(vec: seq<T>, m: seq<T>): (ids: seq<NodeId>)
    ensures forall k :: 0 <= k < |ids| ==> ids[k] < |vec| && vec[ids[k]] in m
    ensures forall k :: 0 <= k < |m| && m[k] in vec ==> NodeOf(vec, m[k]).value in ids
  {
    if m == [] then []
    else
      (match NodeOf(vec, m[0]) case Some(i) => [i] case None => []) + MemberIds(vec, m[1..])
  }

  /** `tuple_combinations` of a list of ids, each pair normalised. */
  function PairEdges(ids: seq<NodeId>): set<ConstraintEdge>
  {
    set i, j | 0 <= i < j < |ids| :: NewEdge(ids[i], ids[j])
  }

  /** The "may-not-pair" edges: every pair of participants that share a
      historical match. */
  function Constraints<T(==)>(vec: seq<T>, previous: seq<Match<T>>): (c: set<ConstraintEdge>)
    ensures forall e :: e in c ==> e.lower <= e.upper < |vec|
  {
    if previous == [] then {}
    else
      var ids := MemberIds(vec, previous[0]);
      assert forall e :: e in PairEdges(ids) ==> e.upper < |vec|;
      PairEdges(ids) + Constraints(vec, previous[1..])
  }

  /** The values of the `nodes` map: positions that are the last occurrence of
      their participant (every position, when participants are distinct). */
  function NodeIds<T(==)>(vec: seq<T>): (ids: set<NodeId>)
    ensures forall i :: i in ids ==> i < |vec|
  {
    set i | 0 <= i < |vec| && NodeOf(vec, vec[i]) == Some(i)
  }

  /** The complete graph on `ids` minus the constraint edges. */
  function CandidateEdges(ids: set<NodeId>, constraints: set<ConstraintEdge>): set<ConstraintEdge>
  {
    set a, b | a in ids && b in ids && a < b && ConstraintEdge(a, b) !in constraints
      :: ConstraintEdge(a, b)
  }

  /** An undirected graph on the nodes `0..nodeCount`. */
  datatype Graph = Graph(nodeCount: nat, edges: set<ConstraintEdge>)

  predicate WellFormed(g: Graph)
  {
    forall e :: e in g.edges ==> e.lower < e.upper < g.nodeCount
  }

  /** The node count `MatrixGraph::from_edges` ends with: one more than the
      largest id that occurs in an edge, and zero without edges. Searched
      downwards from `bound`, above which no edge reaches. */
  function FromEdgesNodeCount(edges: set<ConstraintEdge>, bound: nat): (n: nat)
    ensures n <= bound
    ensures forall e :: e in edges && e.upper < bound ==> e.upper < n
    ensures n == 0 || exists e :: e in edges && e.upper == n - 1
  {
    if bound == 0 then 0
    else if exists e :: e in edges && e.upper == bound - 1 then bound
    else FromEdgesNodeCount(edges, bound - 1)
  }

  /** `build_matching_graph` as written: the graph gets only as many nodes as
      `from_edges` creates. */
  function BuildMatchingGraph<T(==)>(vec: seq<T>, previous: seq<Match<T>>): (r: (Graph, set<ConstraintEdge>))
    ensures WellFormed(r.0) && r.0.nodeCount <= |vec|
  {
    var constraints := Constraints(vec, previous);
    var edges := CandidateEdges(NodeIds(vec), constraints);
    (Graph(FromEdgesNodeCount(edges, |vec|), edges), constraints)
  }

  /** The corrected graph: one node per participant position, whether or not
      it has a candidate edge. */
  function BuildFullMatchingGraph<T(==)>(vec: seq<T>, previous: seq<Match<T>>): (r: (Graph, set<ConstraintEdge>))
    ensures WellFormed(r.0) && r.0.nodeCount == |vec|
  {
    var constraints := Constraints(vec, previous);
    (Graph(|vec|, CandidateEdges(NodeIds(vec), constraints)), constraints)
  }

  /** The foreign `maximum_matching`: the list of matched edges it reports. */
  type Solver = Graph -> seq<(NodeId, NodeId)>

  /** `m` is a matching of `g`: its edges are edges of `g`, and no node is in two of them. */
  predicate IsMatching(g: Graph, m: seq<(NodeId, NodeId)>)
  {
    && (forall k :: 0 <= k < |m| ==> NewEdge(m[k].0, m[k].1) in g.edges)
    && (forall k, l :: 0 <= k < l < |m| ==>
          m[k].0 != m[l].0 && m[k].0 != m[l].1 && m[k].1 != m[l].0 && m[k].1 != m[l].1)
  }

  /** What the model assumes of the solver: it always returns a matching. */
  ghost predicate IsSolver(solve: Solver)
  {
    forall g :: IsMatching(g, solve(g))
  }

  /** The matched edges as two-member matches (`vec![a, b]`). */
  function EdgeMatches(m: seq<(NodeId, NodeId)>): (r: seq<Match<NodeId>>)
    ensures |r| == |m| && forall k :: 0 <= k < |m| ==> r[k] == [m[k].0, m[k].1]
  {
    seq(|m|, k requires 0 <= k < |m| => [m[k].0, m[k].1])
  }

  /** The nodes `matching.contains_node` accepts. */
  function Covered(m: seq<(NodeId, NodeId)>): set<NodeId>
  {
    set x: NodeId | x in Flatten<NodeId>(EdgeMatches(m))
  }

  /** A maximal matching leaves no edge with both ends uncovered. Every
      maximum matching is maximal; lemmas that need it say so. */
  ghost predicate IsMaximal(g: Graph, m: seq<(NodeId, NodeId)>)
  {
    forall e :: e in g.edges ==> e.lower in Covered(m) || e.upper in Covered(m)
  }

  ghost predicate IsMaximalSolver(solve: Solver)
  {
    forall g :: IsMaximal(g, solve(g))
  }

  /** The nodes below `n` that the matching leaves uncovered, in increasing order. */
  function Unmatched(n: nat, m: seq<(NodeId, NodeId)>): (u: seq<NodeId>)
    ensures forall k :: 0 <= k < |u| ==> u[k] < n && u[k] !in Covered(m)
    ensures forall x: NodeId :: x < n && x !in Covered(m) ==> x in u
    ensures forall i, j :: 0 <= i < j < |u| ==> u[i] < u[j]
  {
    if n == 0 then []
    else Unmatched(n - 1, m) + (if n - 1 in Covered(m) then [] else [n - 1])
  }

  /** `pair_unmatched`: the uncovered nodes below the graph's node count, cut
      into consecutive pairs, and the odd one left over. */
  function PairUnmatched(nodeCount: nat, m: seq<(NodeId, NodeId)>): (r: (seq<Match<NodeId>>, Option<NodeId>))
    ensures |r.0| == |Unmatched(nodeCount, m)| / 2
    ensures forall k :: 0 <= k < |r.0| ==> |r.0[k]| == 2
    ensures r.1.Some? <==> |Unmatched(nodeCount, m)| % 2 == 1
  {
    var unmatched := Unmatched(nodeCount, m);
    var rest := ChunkRemainder(unmatched);
    (ChunksOfTwo(unmatched), if |rest| == 1 then Some(rest[0]) else None)
  }

  /** How many members of `m` have a constraint against `r`. */
  function ConstraintCount(m: Match<NodeId>, r: NodeId, constraints: set<ConstraintEdge>): nat
  {
    if m == [] then 0
    else (if NewEdge(m[0], r) in constraints then 1 else 0) + ConstraintCount(m[1..], r, constraints)
  }

  /** What `.min()` compares for each match: its constraint count against
      the remainder, then the match itself (Rust orders tuples field by field). */
  type MatchKey = (nat, seq<NodeId>)

  function Keys(matched: seq<Match<NodeId>>, r: NodeId, constraints: set<ConstraintEdge>): (keys: seq<MatchKey>)
    ensures |keys| == |matched|
    ensures forall k :: 0 <= k < |matched| ==> keys[k] == (ConstraintCount(matched[k], r, constraints), matched[k])
  {
    seq(|matched|, k requires 0 <= k < |matched| => (ConstraintCount(matched[k], r, constraints), matched[k]))
  }

  /** The strict order of those keys. */
  predicate Precedes(a: MatchKey, b: MatchKey)
  {
    a.0 < b.0 || (a.0 == b.0 && LexLess(a.1, b.1))
  }

  /** The index `.min()` picks among the first `n` keys: a later key replaces
      the current choice only when it is strictly smaller, so the first of
      several equal keys wins. */
  function FirstMin(keys: seq<MatchKey>, n: nat): (b: nat)
    requires 1 <= n <= |keys|
    ensures b < n
  {
    if n == 1 then 0
    else
      var b := FirstMin(keys, n - 1);
      if Precedes(keys[n - 1], keys[b]) then n - 1 else b
  }

  lemma FirstMinStep(keys: seq<MatchKey>, n: nat)
    requires 1 <= n < |keys|
    ensures FirstMin(keys, n + 1) == if Precedes(keys[n], keys[FirstMin(keys, n)]) then n else FirstMin(keys, n)
  {
  }

  /** `add_remainder_to_pairing` as a function of its inputs: without a
      remainder nothing changes and the score is 0; otherwise the remainder
      joins the match `.min()` picks and the score is that match's count. */
  function AddRemainder(matched: seq<Match<NodeId>>, remainder: Option<NodeId>, constraints: set<ConstraintEdge>)
    : (r: Result<(seq<Match<NodeId>>, nat)>)
    ensures r.Err? <==> remainder.Some? && |matched| == 0
    ensures r.Ok? ==> |r.value.0| == |matched|
  {
    match remainder
    case None => Ok((matched, 0))
    case Some(rem) =>
      if |matched| == 0 then Err(EmptyMatchedIterable)
      else
        var k := FirstMin(Keys(matched, rem, constraints), |matched|);
        Ok((matched[k := matched[k] + [rem]], ConstraintCount(matched[k], rem, constraints)))
  }

  /** The `.min()` pass over the matches: keeps the first match with the
      smallest key, replacing it only on a strictly smaller one. */
  method FindBest(matched: seq<Match<NodeId>>, rem: NodeId, constraints: set<ConstraintEdge>)
    returns (best: nat, bestScore: nat)
    requires |matched| > 0
    ensures best == FirstMin(Keys(matched, rem, constraints), |matched|)
    ensures bestScore == ConstraintCount(matched[best], rem, constraints)
  {
    ghost var keys := Keys(matched, rem, constraints);
    best := 0;
    bestScore := ConstraintCount(matched[0], rem, constraints);
    var i := 1;
    while i < |matched|
      invariant 1 <= i <= |matched|
      invariant best == FirstMin(keys, i)
      invariant keys[best] == (bestScore, matched[best])
    {
      var score := ConstraintCount(matched[i], rem, constraints);
      assert keys[i] == (score, matched[i]);
      var smaller := Precedes((score, matched[i]), (bestScore, matched[best]));
      assert smaller == Precedes(keys[i], keys[best]);
      FirstMinStep(keys, i);
      if smaller {
        best, bestScore := i, score;
      }
      assert best == FirstMin(keys, i + 1);
      i := i + 1;
    }
  }

  /** `add_remainder_to_pairing` as the source runs it: one pass to find the
      match, then a push onto it. */
  method AddRemainderToPairing(matched: seq<Match<NodeId>>, remainder: Option<NodeId>, constraints: set<ConstraintEdge>)
    returns (r: Result<(seq<Match<NodeId>>, nat)>)
    ensures r == AddRemainder(matched, remainder, constraints)
  {
    if remainder.None? {
      return Ok((matched, 0));
    }
    var rem := remainder.value;
    if |matched| == 0 {
      return Err(EmptyMatchedIterable);
    }
    var best, bestScore := FindBest(matched, rem, constraints);
    var updated := matched;
    updated := updated[best := updated[best] + [rem]];
    r := Ok((updated, bestScore));
  }

  /** All ids of all matches are below `n`. */
  predicate IdsBelow(ms: seq<Match<NodeId>>, n: nat)
  {
    forall k, j :: 0 <= k < |ms| && 0 <= j < |ms[k]| ==> ms[k][j] < n
  }

  /** All ids of a list are below `n`. */
  predicate AllBelow(ids: seq<NodeId>, n: nat)
  {
    forall k :: 0 <= k < |ids| ==> ids[k] < n
  }

  /** `index_to_element` over a list of ids. */
  function Elements<T>(ids: seq<NodeId>, vec: seq<T>): (r: seq<T>)
    requires forall k :: 0 <= k < |ids| ==> ids[k] < |vec|
    ensures |r| == |ids| && forall k :: 0 <= k < |ids| ==> r[k] == vec[ids[k]]
  {
    seq(|ids|, k requires 0 <= k < |ids| => vec[ids[k]])
  }

  /** `index_to_element` over every match. */
  function ElementMatches<T>(ms: seq<Match<NodeId>>, vec: seq<T>): (r: seq<Match<T>>)
    requires IdsBelow(ms, |vec|)
    ensures |r| == |ms| && forall k :: 0 <= k < |ms| ==> r[k] == Elements(ms[k], vec)
  {
    seq(|ms|, k requires 0 <= k < |ms| => Elements(ms[k], vec))
  }

  /** Facts about the solver's matching used to make the pairing well defined. */
  lemma MatchingIdsBelow(g: Graph, m: seq<(NodeId, NodeId)>)
    requires WellFormed(g) && IsMatching(g, m)
    ensures IdsBelow(EdgeMatches(m), g.nodeCount)
    ensures forall k :: 0 <= k < |m| ==> m[k].0 != m[k].1
  {
    forall k | 0 <= k < |m|
      ensures m[k].0 < g.nodeCount && m[k].1 < g.nodeCount && m[k].0 != m[k].1
    {
      var e := NewEdge(m[k].0, m[k].1);
      assert e in g.edges;
      assert e.lower in multiset{m[k].0, m[k].1} && e.upper in multiset{m[k].0, m[k].1};
    }
  }

  /** What `graph_pair` computes on node ids after the solver call: the
      solver's matches (one possibly extended by the remainder) followed by
      the pairs of unmatched nodes, and the flagged ids (every member of an
      unmatched pair, then the remainder when it has a constraint in its match). */
  function IdPairing(g: Graph, constraints: set<ConstraintEdge>, m: seq<(NodeId, NodeId)>): (r: Result<Pairing<NodeId>>)
    requires WellFormed(g) && IsMatching(g, m)
    ensures r.Ok? ==> IdsBelow(r.value.matches, g.nodeCount)
    ensures r.Ok? ==> AllBelow(r.value.imperfect, g.nodeCount)
  {
    var matched := EdgeMatches(m);
    if |matched| == 0 then Err(EmptyMatching)
    else
      var (pairs, remainder) := PairUnmatched(g.nodeCount, m);
      match AddRemainder(matched, remainder, constraints)
      case Err(e) => Err(e)
      case Ok((withRemainder, score)) =>
        IdPairingBelow(g, constraints, m, withRemainder, score);
        Ok(Pairing(withRemainder + pairs, FlaggedIds(pairs, remainder, score)))
  }

  /** The flagged ids: every member of an unmatched pair, in order, then the
      remainder when its score is positive. */
  function FlaggedIds(pairs: seq<Match<NodeId>>, remainder: Option<NodeId>, score: nat): seq<NodeId>
  {
    Flatten<NodeId>(pairs) + (if remainder.Some? && score > 0 then [remainder.value] else [])
  }

  /** `index_to_element` applied to the id pairing computed on `vec`'s graph. */
  function PairOnGraph<T>(vec: seq<T>, g: Graph, constraints: set<ConstraintEdge>, m: seq<(NodeId, NodeId)>)
    : (r: Result<Pairing<T>>)
    requires WellFormed(g) && g.nodeCount <= |vec| && IsMatching(g, m)
  {
    match IdPairing(g, constraints, m)
    case Err(e) => Err(e)
    case Ok(p) =>
      assert AllBelow(p.imperfect, |vec|);
      Ok(Pairing(ElementMatches(p.matches, vec), Elements(p.imperfect, vec)))
  }

  lemma FlattenBelow(ms: seq<Match<NodeId>>, n: nat)
    requires IdsBelow(ms, n)
    ensures forall k :: 0 <= k < |Flatten<NodeId>(ms)| ==> Flatten<NodeId>(ms)[k] < n
  {
    var flat := Flatten<NodeId>(ms);
    forall k | 0 <= k < |flat|
      ensures flat[k] < n
    {
      InFlatten<NodeId>(ms, flat[k]);
    }
  }

  lemma IdPairingBelow(g: Graph, constraints: set<ConstraintEdge>, m: seq<(NodeId, NodeId)>,
                       withRemainder: seq<Match<NodeId>>, score: nat)
    requires WellFormed(g) && IsMatching(g, m)
    requires AddRemainder(EdgeMatches(m), PairUnmatched(g.nodeCount, m).1, constraints) == Ok((withRemainder, score))
    ensures IdsBelow(withRemainder + PairUnmatched(g.nodeCount, m).0, g.nodeCount)
    ensures IdsBelow(PairUnmatched(g.nodeCount, m).0, g.nodeCount)
    ensures AllBelow(FlaggedIds(PairUnmatched(g.nodeCount, m).0, PairUnmatched(g.nodeCount, m).1, score), g.nodeCount)
  {
    var n := g.nodeCount;
    var unmatched := PairUnmatched(n, m);
    MatchingIdsBelow(g, m);
    UnmatchedPairsBelow(n, m);
    AddRemainderIdsBelow(EdgeMatches(m), unmatched.1, constraints, n);
    JoinedBelow(withRemainder, unmatched.0, unmatched.1, score, n);
  }

  lemma JoinedBelow(withRemainder: seq<Match<NodeId>>, pairs: seq<Match<NodeId>>, remainder: Option<NodeId>,
                    score: nat, n: nat)
    requires IdsBelow(withRemainder, n) && IdsBelow(pairs, n)
    requires remainder.Some? ==> remainder.value < n
    ensures IdsBelow(withRemainder + pairs, n)
    ensures AllBelow(FlaggedIds(pairs, remainder, score), n)
  {
    FlaggedBelow(pairs, if remainder.Some? && score > 0 then [remainder.value] else [], n);
  }

  lemma FlaggedBelow(pairs: seq<Match<NodeId>>, extra: seq<NodeId>, n: nat)
    requires IdsBelow(pairs, n)
    requires AllBelow(extra, n)
    ensures AllBelow(Flatten<NodeId>(pairs) + extra, n)
  {
    FlattenBelow(pairs, n);
  }

  lemma UnmatchedPairsBelow(n: nat, m: seq<(NodeId, NodeId)>)
    ensures IdsBelow(PairUnmatched(n, m).0, n)
    ensures PairUnmatched(n, m).1.Some? ==> PairUnmatched(n, m).1.value < n
  {
    var u := Unmatched(n, m);
    var pairs := ChunksOfTwo(u);
    forall k, j | 0 <= k < |pairs| && 0 <= j < |pairs[k]|
      ensures pairs[k][j] < n
    {
      assert pairs[k][j] == u[2 * k + j];
    }
  }

  lemma AddRemainderIdsBelow(matched: seq<Match<NodeId>>, remainder: Option<NodeId>, constraints: set<ConstraintEdge>, n: nat)
    requires IdsBelow(matched, n)
    requires remainder.Some? ==> remainder.value < n
    requires AddRemainder(matched, remainder, constraints).Ok?
    ensures IdsBelow(AddRemainder(matched, remainder, constraints).value.0, n)
  {
  }

  /** `graph_pair` with the corrected graph (one node per participant). The
      shuffle and the solver are parameters; see `GraphPairAsWritten` for the
      graph the source builds. */
  function GraphPair<T(==,!new)>(vec: seq<T>, previous: seq<Match<T>>, seed: u64, shuffle: Shuffler<T>, solve: Solver)
    : (r: Result<Pairing<T>>)
    requires IsShuffler(shuffle) && IsSolver(solve)
  {
    if |vec| < 2 then Err(TooFewElements)
    else if |vec| > GraphPairLimit then Err(TooManyElements)
    else
      var shuffled := shuffle(vec, seed);
      var (g, constraints) := BuildFullMatchingGraph(shuffled, previous);
      PairOnGraph(shuffled, g, constraints, solve(g))
  }

  /** `graph_pair` as written: the solver and `pair_unmatched` see only the
      nodes `from_edges` created. */
  function GraphPairAsWritten<T(==,!new)>(vec: seq<T>, previous: seq<Match<T>>, seed: u64, shuffle: Shuffler<T>, solve: Solver)
    : (r: Result<Pairing<T>>)
    requires IsShuffler(shuffle) && IsSolver(solve)
  {
    if |vec| < 2 then Err(TooFewElements)
    else if |vec| > GraphPairLimit then Err(TooManyElements)
    else
      var shuffled := shuffle(vec, seed);
      var (g, constraints) := BuildMatchingGraph(shuffled, previous);
      PairOnGraph(shuffled, g, constraints, solve(g))
  }
}
