/** The node count of `build_matching_graph` as written. `MatrixGraph::from_edges`
    creates nodes only up to the largest id that occurs in a candidate edge,
    so participants with a higher id — everyone after the last position that
    still has a possible new partner — are neither given to the solver nor
    paired as leftovers, and vanish from the round. The corrected graph keeps
    one node per participant. */
module NodeCountFinding {
  import opened Prelude
  import opened Seqs
  import opened Helpers
  import opened Pair
  import opened Matching
  import opened MatchingLemmas
  import opened IdPairingLemmas
  import opened GraphPairLemmas

  /** The two versions agree whenever `from_edges` happens to create a node
      for every participant. */
  lemma AsWrittenAgreesWhenAllNodesCreated<T(!new)>(vec: seq<T>, previous: seq<Match<T>>, seed: u64,
                                                    shuffle: Shuffler<T>, solve: Solver)
    requires IsShuffler(shuffle) && IsSolver(solve)
    requires BuildMatchingGraph(shuffle(vec, seed), previous).0.nodeCount == |vec|
    ensures GraphPairAsWritten(vec, previous, seed, shuffle, solve) == GraphPair(vec, previous, seed, shuffle, solve)
  {
    ShuffledLength(vec, seed, shuffle);
    assert BuildMatchingGraph(shuffle(vec, seed), previous).0 == BuildFullMatchingGraph(shuffle(vec, seed), previous).0;
  }

  // --------------------------------------------------- the counterexample

  /** Three participants; 2 and 3 met before, and so did 1 and 3. */
  const Trio: seq<int> := [1, 2, 3]
  const TrioHistory: seq<Match<int>> := [[2, 3], [1, 3]]

  /** A shuffle that keeps the order (a permutation like any other). */
  function KeepOrder(v: seq<int>, seed: u64): seq<int>
  {
    v
  }

  lemma KeepOrderIsShuffler()
    ensures IsShuffler(KeepOrder)
  {
  }

  /** A solver that matches nodes 0 and 1 when they are joined, and nobody
      otherwise: a maximum matching on the graphs of this example. */
  function JoinFirstTwo(g: Graph): seq<(NodeId, NodeId)>
  {
    if ConstraintEdge(0, 1) in g.edges then [(0, 1)] else []
  }

  lemma JoinFirstTwoIsSolver()
    ensures IsSolver(JoinFirstTwo)
  {
    forall g: Graph
      ensures IsMatching(g, JoinFirstTwo(g))
    {
      assert NewEdge(0, 1) == ConstraintEdge(0, 1);
    }
  }

  lemma TrioConstraints()
    ensures Constraints(Trio, TrioHistory) == {ConstraintEdge(1, 2), ConstraintEdge(0, 2)}
  {
    ConstraintsOfTrio(Trio, TrioHistory);
  }

  lemma ConstraintsOfTrio(vec: seq<int>, h: seq<Match<int>>)
    requires vec == Trio && h == TrioHistory
    ensures Constraints(vec, h) == {ConstraintEdge(1, 2), ConstraintEdge(0, 2)}
  {
    ConstraintsOfTwo(vec, h);
    TrioFirstEdges(vec, h);
    TrioSecondEdges(vec, h);
    UnionOfTwo(PairEdges(MemberIds(vec, h[0])), PairEdges(MemberIds(vec, h[1])),
               ConstraintEdge(1, 2), ConstraintEdge(0, 2));
  }

  lemma TrioFirstEdges(vec: seq<int>, h: seq<Match<int>>)
    requires vec == Trio && h == TrioHistory
    ensures PairEdges(MemberIds(vec, h[0])) == {ConstraintEdge(1, 2)}
  {
    assert h[0] == [2, 3];
    TrioMemberIds();
    PairEdgesOfTwo(1, 2);
  }

  lemma TrioSecondEdges(vec: seq<int>, h: seq<Match<int>>)
    requires vec == Trio && h == TrioHistory
    ensures PairEdges(MemberIds(vec, h[1])) == {ConstraintEdge(0, 2)}
  {
    assert h[1] == [1, 3];
    TrioMemberIds();
    PairEdgesOfTwo(0, 2);
  }

  lemma UnionOfTwo<T>(a: set<T>, b: set<T>, x: T, y: T)
    requires a == {x} && b == {y}
    ensures a + b == {x, y}
  {
  }

  lemma ConstraintsOfTwo<T>(vec: seq<T>, h: seq<Match<T>>)
    requires |h| == 2
    ensures Constraints(vec, h) == PairEdges(MemberIds(vec, h[0])) + PairEdges(MemberIds(vec, h[1]))
  {
    assert h[1..][0] == h[1] && h[1..][1..] == [];
    assert Constraints(vec, h[1..][1..]) == {};
    assert Constraints(vec, h[1..]) == PairEdges(MemberIds(vec, h[1])) + {};
  }

  lemma TrioMemberIds()
    ensures MemberIds(Trio, [2, 3]) == [1, 2]
    ensures MemberIds(Trio, [1, 3]) == [0, 2]
  {
    assert NodeOf(Trio, 1) == Some(0);
    assert NodeOf(Trio, 2) == Some(1);
    assert NodeOf(Trio, 3) == Some(2);
    assert MemberIds(Trio, [3]) == [2];
    assert [2, 3][1..] == [3];
    assert [1, 3][1..] == [3];
  }

  lemma PairEdgesOfTwo(a: NodeId, b: NodeId)
    requires a <= b
    ensures PairEdges([a, b]) == {ConstraintEdge(a, b)}
  {
    assert NewEdge([a, b][0], [a, b][1]) == ConstraintEdge(a, b);
  }

  lemma TrioNodeIds()
    ensures NodeIds(Trio) == {0, 1, 2}
  {
    assert NoDup(Trio);
    NodeIdsAll(Trio, 0);
    NodeIdsAll(Trio, 1);
    NodeIdsAll(Trio, 2);
  }

  lemma TrioCandidates()
    ensures CandidateEdges(NodeIds(Trio), Constraints(Trio, TrioHistory)) == {ConstraintEdge(0, 1)}
  {
    TrioConstraints();
    TrioNodeIds();
    CandidatesOfTrio();
  }

  lemma CandidatesOfTrio()
    ensures CandidateEdges({0, 1, 2}, {ConstraintEdge(1, 2), ConstraintEdge(0, 2)}) == {ConstraintEdge(0, 1)}
  {
    var cand := CandidateEdges({0, 1, 2}, {ConstraintEdge(1, 2), ConstraintEdge(0, 2)});
    assert ConstraintEdge(0, 1) in cand;
    forall e | e in cand
      ensures e == ConstraintEdge(0, 1)
    {
    }
  }

  /** The graph as written has two nodes; the corrected one has three. Both
      have the single edge between the positions of 1 and 2. */
  lemma TrioGraphs()
    ensures BuildMatchingGraph(Trio, TrioHistory).0 == Graph(2, {ConstraintEdge(0, 1)})
    ensures BuildFullMatchingGraph(Trio, TrioHistory).0 == Graph(3, {ConstraintEdge(0, 1)})
  {
    TrioCandidates();
    var edges := {ConstraintEdge(0, 1)};
    assert !exists e :: e in edges && e.upper == 2;
    assert ConstraintEdge(0, 1) in edges && ConstraintEdge(0, 1).upper == 1;
    assert FromEdgesNodeCount(edges, 3) == FromEdgesNodeCount(edges, 2);
  }

  /** As written, participant 3 is in no match, whatever matching the solver returns. */
  lemma AsWrittenDropsTrioMember(solve: Solver)
    requires IsSolver(solve)
    requires GraphPairAsWritten(Trio, TrioHistory, 0, KeepOrder, solve).Ok?
    ensures 3 !in Flatten(GraphPairAsWritten(Trio, TrioHistory, 0, KeepOrder, solve).value.matches)
    ensures multiset(Flatten(GraphPairAsWritten(Trio, TrioHistory, 0, KeepOrder, solve).value.matches)) != multiset(Trio)
  {
    KeepOrderIsShuffler();
    TrioGraphs();
    var (g, c) := BuildMatchingGraph(Trio, TrioHistory);
    var ip := IdPairing(g, c, solve(g)).value;
    assert GraphPairAsWritten(Trio, TrioHistory, 0, KeepOrder, solve).value.matches == ElementMatches(ip.matches, Trio);
    OnlyFirstTwo(ip.matches);
    assert 3 in multiset(Trio);
  }

  /** Matches over the ids 0 and 1 hold only the participants 1 and 2. */
  lemma OnlyFirstTwo(ms: seq<Match<NodeId>>)
    requires IdsBelow(ms, 2)
    ensures 3 !in Flatten(ElementMatches(ms, Trio))
  {
    FlattenElements(ms, Trio);
    var flat := Flatten<NodeId>(ms);
    FlattenBelow(ms, 2);
    var out := Elements(flat, Trio);
    forall t | 0 <= t < |out|
      ensures out[t] != 3
    {
      assert out[t] == Trio[flat[t]];
    }
  }

  /** With a solver that matches 1 and 2, the round as written succeeds
      with a single match, and 3 is missing from it. */
  lemma AsWrittenTrioResult()
    ensures IsShuffler(KeepOrder) && IsSolver(JoinFirstTwo)
    ensures GraphPairAsWritten(Trio, TrioHistory, 0, KeepOrder, JoinFirstTwo) == Ok(Pairing([[1, 2]], []))
  {
    KeepOrderIsShuffler();
    JoinFirstTwoIsSolver();
    TrioGraphs();
    var g := Graph(2, {ConstraintEdge(0, 1)});
    var c := Constraints(Trio, TrioHistory);
    assert JoinFirstTwo(g) == [(0, 1)];
    AsWrittenTrioIds(c);
    var ms: seq<Match<NodeId>> := [[0, 1]];
    var none: seq<NodeId> := [];
    TrioElements();
    assert PairOnGraph(Trio, g, c, [(0, 1)]) == Ok(Pairing(ElementMatches(ms, Trio), Elements(none, Trio)));
  }

  lemma AsWrittenTrioIds(c: set<ConstraintEdge>)
    ensures IsMatching(Graph(2, {ConstraintEdge(0, 1)}), [(0, 1)])
    ensures IdPairing(Graph(2, {ConstraintEdge(0, 1)}), c, [(0, 1)]) == Ok(Pairing([[0, 1]], []))
  {
    var m: seq<(NodeId, NodeId)> := [(0, 1)];
    assert NewEdge(0, 1) == ConstraintEdge(0, 1);
    TwoCovered(m);
    assert Unmatched(2, m) == [];
    assert PairUnmatched(2, m) == ([], None);
    var matched := EdgeMatches(m);
    assert matched == [[0, 1]];
    var pairs: seq<Match<NodeId>> := [];
    assert PairUnmatched(2, m).0 == pairs;
    assert AddRemainder(matched, None, c) == Ok((matched, 0));
    assert matched + pairs == [[0, 1]];
    assert Flatten<NodeId>(pairs) == [];
    assert FlaggedIds(pairs, None, 0) == [];
  }

  lemma TrioElements()
    ensures var ms: seq<Match<NodeId>> := [[0, 1]]; ElementMatches(ms, Trio) == [[1, 2]]
    ensures var ms: seq<Match<NodeId>> := [[0, 1, 2]]; ElementMatches(ms, Trio) == [[1, 2, 3]]
    ensures var ids: seq<NodeId> := [2]; Elements(ids, Trio) == [3]
    ensures var ids: seq<NodeId> := []; Elements(ids, Trio) == []
  {
    var a: seq<NodeId> := [0, 1];
    var b: seq<NodeId> := [0, 1, 2];
    assert Elements(a, Trio) == [1, 2];
    assert Elements(b, Trio) == [1, 2, 3];
  }

  lemma TwoCovered(m: seq<(NodeId, NodeId)>)
    requires m == [(0, 1)]
    ensures 0 in Covered(m) && 1 in Covered(m) && 2 !in Covered(m)
  {
    assert EdgeMatches(m) == [[0, 1]];
    FlattenSingle<NodeId>([0, 1]);
  }

  /** The corrected round on the same input keeps 3: it joins the match of
      1 and 2 and is flagged, since it met both before. */
  lemma CorrectedTrioResult()
    ensures IsShuffler(KeepOrder) && IsSolver(JoinFirstTwo)
    ensures GraphPair(Trio, TrioHistory, 0, KeepOrder, JoinFirstTwo) == Ok(Pairing([[1, 2, 3]], [3]))
  {
    KeepOrderIsShuffler();
    JoinFirstTwoIsSolver();
    TrioGraphs();
    TrioConstraints();
    var g := Graph(3, {ConstraintEdge(0, 1)});
    var c := Constraints(Trio, TrioHistory);
    assert JoinFirstTwo(g) == [(0, 1)];
    CorrectedTrioIds(c);
    var ms: seq<Match<NodeId>> := [[0, 1, 2]];
    var flagged: seq<NodeId> := [2];
    TrioElements();
    assert PairOnGraph(Trio, g, c, [(0, 1)]) == Ok(Pairing(ElementMatches(ms, Trio), Elements(flagged, Trio)));
  }

  lemma CorrectedTrioIds(c: set<ConstraintEdge>)
    requires c == {ConstraintEdge(1, 2), ConstraintEdge(0, 2)}
    ensures IsMatching(Graph(3, {ConstraintEdge(0, 1)}), [(0, 1)])
    ensures IdPairing(Graph(3, {ConstraintEdge(0, 1)}), c, [(0, 1)]) == Ok(Pairing([[0, 1, 2]], [2]))
  {
    var m: seq<(NodeId, NodeId)> := [(0, 1)];
    assert NewEdge(0, 1) == ConstraintEdge(0, 1);
    TwoCovered(m);
    assert Unmatched(3, m) == [2];
    assert PairUnmatched(3, m) == ([], Some(2));
    var matched := EdgeMatches(m);
    assert matched == [[0, 1]];
    ConstraintCountTwo2(c);
    var keys := Keys(matched, 2, c);
    assert FirstMin(keys, 1) == 0;
    assert matched[0] == [0, 1];
    assert matched[0] + [2] == [0, 1, 2];
    assert matched[0 := matched[0] + [2]] == [[0, 1, 2]];
    assert AddRemainder(matched, Some(2), c) == Ok(([[0, 1, 2]], 2));
    var pairs: seq<Match<NodeId>> := [];
    assert PairUnmatched(3, m).0 == pairs;
    assert [[0, 1, 2]] + pairs == [[0, 1, 2]];
    assert Flatten<NodeId>(pairs) == [];
    assert FlaggedIds(pairs, Some(2), 2) == [2];
  }

  lemma ConstraintCountTwo2(c: set<ConstraintEdge>)
    requires c == {ConstraintEdge(1, 2), ConstraintEdge(0, 2)}
    ensures ConstraintCount([0, 1], 2, c) == 2
  {
    assert [0, 1][1..] == [1];
    assert [1][1..] == [];
    assert NewEdge(0, 2) == ConstraintEdge(0, 2) && NewEdge(1, 2) == ConstraintEdge(1, 2);
    assert ConstraintCount([1], 2, c) == 1;
    assert ConstraintCount([0, 1], 2, c) == 1 + ConstraintCount([1], 2, c);
  }
}
