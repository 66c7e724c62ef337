/** Which node ids `graph_pair` flags as "imperfect": the members of the pairs
    made from uncovered nodes, and the remainder when it has a constraint in
    the match it joined — never a member of a solver edge. */
module FlaggedLemmas {
  import opened Prelude
  import opened Seqs
  import opened Helpers
  import opened Matching
  import opened MatchingLemmas
  import opened IdPairingLemmas

  /** `x` is in a match together with someone it has a constraint against. */
  ghost predicate HasConstrainedPartner(ms: seq<Match<NodeId>>, x: NodeId, constraints: set<ConstraintEdge>)
  {
    exists k, i, j :: 0 <= k < |ms| && 0 <= i < |ms[k]| && 0 <= j < |ms[k]| &&
      ms[k][i] == x && ms[k][j] != x && NewEdge(x, ms[k][j]) in constraints
  }

  /** The members of the leftover pairs and the remainder are uncovered nodes,
      and the remainder is in no leftover pair. */
  lemma LeftoverFacts(n: nat, m: seq<(NodeId, NodeId)>)
    ensures forall x: NodeId :: x in Flatten<NodeId>(PairUnmatched(n, m).0) ==> x in Unmatched(n, m)
    ensures PairUnmatched(n, m).1.Some? ==>
      PairUnmatched(n, m).1.value in Unmatched(n, m) &&
      PairUnmatched(n, m).1.value !in Flatten<NodeId>(PairUnmatched(n, m).0)
  {
    PairUnmatchedSpec(n, m);
    IncreasingSplit(Flatten<NodeId>(PairUnmatched(n, m).0), OptionSeq(PairUnmatched(n, m).1), Unmatched(n, m));
  }

  /** Splitting an increasing sequence: the front's elements are in it, and
      a single last element is not in the front. */
  lemma IncreasingSplit(f: seq<NodeId>, r: seq<NodeId>, u: seq<NodeId>)
    requires f + r == u
    requires forall i, j :: 0 <= i < j < |u| ==> u[i] < u[j]
    ensures forall x: NodeId :: x in f ==> x in u
    ensures |r| == 1 ==> r[0] in u && r[0] !in f
  {
    forall x: NodeId | x in f
      ensures x in u
    {
      var i :| 0 <= i < |f| && f[i] == x;
      assert u[i] == x;
    }
    if |r| == 1 {
      assert u[|f|] == r[0];
      forall i | 0 <= i < |f|
        ensures f[i] != r[0]
      {
        assert f[i] == u[i] && u[i] < u[|f|];
      }
    }
  }

  /** Every flagged id is a node the solver left uncovered. */
  lemma FlaggedAreLeftovers(g: Graph, constraints: set<ConstraintEdge>, m: seq<(NodeId, NodeId)>)
    requires WellFormed(g) && IsMatching(g, m) && IdPairing(g, constraints, m).Ok?
    ensures forall x: NodeId :: x in IdPairing(g, constraints, m).value.imperfect ==> x in Unmatched(g.nodeCount, m)
  {
    IdPairingParts(g, constraints, m);
    LeftoverFacts(g.nodeCount, m);
  }

  /** The members of a solver edge are never flagged, even when the remainder
      joined their match with a constraint against one of them. */
  lemma IdPairingSolverMembersUnflagged(g: Graph, constraints: set<ConstraintEdge>, m: seq<(NodeId, NodeId)>)
    requires WellFormed(g) && IsMatching(g, m) && IdPairing(g, constraints, m).Ok?
    ensures forall k :: 0 <= k < |m| ==>
      m[k].0 !in IdPairing(g, constraints, m).value.imperfect &&
      m[k].1 !in IdPairing(g, constraints, m).value.imperfect
  {
    FlaggedAreLeftovers(g, constraints, m);
    forall k | 0 <= k < |m|
      ensures m[k].0 in Covered(m) && m[k].1 in Covered(m)
    {
      assert EdgeMatches(m)[k] == [m[k].0, m[k].1];
      InFlatten<NodeId>(EdgeMatches(m), m[k].0);
      InFlatten<NodeId>(EdgeMatches(m), m[k].1);
    }
  }

  /** Every member of every match after the solver's is flagged. */
  lemma IdPairingFlagsLeftoverPairs(g: Graph, constraints: set<ConstraintEdge>, m: seq<(NodeId, NodeId)>)
    requires WellFormed(g) && IsMatching(g, m) && IdPairing(g, constraints, m).Ok?
    ensures forall k, j ::
      |m| <= k < |IdPairing(g, constraints, m).value.matches| && 0 <= j < |IdPairing(g, constraints, m).value.matches[k]|
      ==> IdPairing(g, constraints, m).value.matches[k][j] in IdPairing(g, constraints, m).value.imperfect
  {
    IdPairingParts(g, constraints, m);
    var pairs := PairUnmatched(g.nodeCount, m).0;
    var w := AddRemainder(EdgeMatches(m), PairUnmatched(g.nodeCount, m).1, constraints).value.0;
    var p := IdPairing(g, constraints, m).value;
    assert p.matches == w + pairs;
    IdPairingLayout(g, constraints, m);
    forall k, j | |m| <= k < |p.matches| && 0 <= j < |p.matches[k]|
      ensures p.matches[k][j] in p.imperfect
    {
      assert p.matches[k] == pairs[k - |m|];
      InFlatten<NodeId>(pairs, p.matches[k][j]);
    }
  }

  /** The match the remainder joined: a solver edge followed by the
      remainder, scored by that edge's constraints against it. */
  lemma RemainderMatch(g: Graph, constraints: set<ConstraintEdge>, m: seq<(NodeId, NodeId)>) returns (k: nat)
    requires WellFormed(g) && IsMatching(g, m) && IdPairing(g, constraints, m).Ok?
    requires PairUnmatched(g.nodeCount, m).1.Some?
    ensures k < |m|
    ensures IdPairing(g, constraints, m).value.matches[k] == [m[k].0, m[k].1, PairUnmatched(g.nodeCount, m).1.value]
    ensures AddRemainder(EdgeMatches(m), PairUnmatched(g.nodeCount, m).1, constraints).value.1 ==
      ConstraintCount([m[k].0, m[k].1], PairUnmatched(g.nodeCount, m).1.value, constraints)
    ensures forall j :: 0 <= j < |m| && j != k ==> |IdPairing(g, constraints, m).value.matches[j]| == 2
  {
    IdPairingParts(g, constraints, m);
    var matched := EdgeMatches(m);
    var pairs := PairUnmatched(g.nodeCount, m).0;
    var rem := PairUnmatched(g.nodeCount, m).1.value;
    assert PairUnmatched(g.nodeCount, m).1 == Some(rem);
    var ms := IdPairing(g, constraints, m).value.matches;
    k := RemainderJoins(matched, pairs, rem, constraints, ms);
    EdgeMatchJoined(m, ms, k, rem);
  }

  /** The solver's edges with the remainder joined to edge `k`. */
  lemma EdgeMatchJoined(m: seq<(NodeId, NodeId)>, ms: seq<Match<NodeId>>, k: nat, rem: NodeId)
    requires |ms| >= |m| && k < |m| && ms[k] == EdgeMatches(m)[k] + [rem]
    requires forall j :: 0 <= j < |m| && j != k ==> ms[j] == EdgeMatches(m)[j]
    ensures ms[k] == [m[k].0, m[k].1, rem]
    ensures forall j :: 0 <= j < |m| && j != k ==> |ms[j]| == 2
  {
    var matched := EdgeMatches(m);
    assert matched[k] + [rem] == [m[k].0, m[k].1, rem];
    forall j | 0 <= j < |m| && j != k
      ensures |ms[j]| == 2
    {
      assert ms[j] == matched[j];
    }
  }

  /** The remainder joins the match `FirstMin` picks; the matches before the
      leftover pairs are otherwise unchanged. */
  lemma RemainderJoins(matched: seq<Match<NodeId>>, pairs: seq<Match<NodeId>>, rem: NodeId,
                       constraints: set<ConstraintEdge>, ms: seq<Match<NodeId>>) returns (k: nat)
    requires |matched| > 0
    requires ms == AddRemainder(matched, Some(rem), constraints).value.0 + pairs
    ensures |ms| == |matched| + |pairs|
    ensures k < |matched| && ms[k] == matched[k] + [rem]
    ensures AddRemainder(matched, Some(rem), constraints).value.1 == ConstraintCount(matched[k], rem, constraints)
    ensures forall j :: 0 <= j < |matched| && j != k ==> ms[j] == matched[j]
  {
    k := FirstMin(Keys(matched, rem, constraints), |matched|);
    var w := matched[k := matched[k] + [rem]];
    assert AddRemainder(matched, Some(rem), constraints).value.0 == w;
    assert forall j :: 0 <= j < |w| ==> ms[j] == w[j];
  }

  /** A match of two has a positive count against `r` exactly when one of
      its members has a constraint against `r`. */
  lemma ConstraintCountTwo(a: NodeId, b: NodeId, r: NodeId, constraints: set<ConstraintEdge>)
    ensures ConstraintCount([a, b], r, constraints) > 0 <==>
      NewEdge(a, r) in constraints || NewEdge(b, r) in constraints
  {
    assert [a, b][1..] == [b];
    assert [b][1..] == [];
    assert ConstraintCount([b], r, constraints) == if NewEdge(b, r) in constraints then 1 else 0;
    assert ConstraintCount([a, b], r, constraints) ==
      (if NewEdge(a, r) in constraints then 1 else 0) + ConstraintCount([b], r, constraints);
  }

  /** A match of three is a solver edge joined by the remainder. */
  lemma TripleIsRemainderMatch(g: Graph, constraints: set<ConstraintEdge>, m: seq<(NodeId, NodeId)>, k: nat)
    requires WellFormed(g) && IsMatching(g, m) && IdPairing(g, constraints, m).Ok?
    requires k < |IdPairing(g, constraints, m).value.matches| && |IdPairing(g, constraints, m).value.matches[k]| == 3
    ensures k < |m| && PairUnmatched(g.nodeCount, m).1.Some?
    ensures IdPairing(g, constraints, m).value.matches[k] == [m[k].0, m[k].1, PairUnmatched(g.nodeCount, m).1.value]
    ensures AddRemainder(EdgeMatches(m), PairUnmatched(g.nodeCount, m).1, constraints).value.1 ==
      ConstraintCount([m[k].0, m[k].1], PairUnmatched(g.nodeCount, m).1.value, constraints)
  {
    IdPairingParts(g, constraints, m);
    var matched := EdgeMatches(m);
    var (pairs, remainder) := PairUnmatched(g.nodeCount, m);
    AddRemainderSpec(matched, remainder, constraints);
    var w := AddRemainder(matched, remainder, constraints).value.0;
    var ms := IdPairing(g, constraints, m).value.matches;
    assert ms == w + pairs;
    PairsHaveTwo(g.nodeCount, m);
    assert k < |w|;
    assert remainder.Some?;
    var k0 := RemainderMatch(g, constraints, m);
    assert k == k0;
  }

  /** The third member of a match of three is flagged exactly when it has a
      constraint against one of the other two. */
  lemma IdPairingRemainderFlag(g: Graph, constraints: set<ConstraintEdge>, m: seq<(NodeId, NodeId)>, k: nat)
    requires WellFormed(g) && IsMatching(g, m) && IdPairing(g, constraints, m).Ok?
    requires k < |IdPairing(g, constraints, m).value.matches| && |IdPairing(g, constraints, m).value.matches[k]| == 3
    ensures var ms := IdPairing(g, constraints, m).value.matches;
      ms[k][2] in IdPairing(g, constraints, m).value.imperfect <==>
      NewEdge(ms[k][0], ms[k][2]) in constraints || NewEdge(ms[k][1], ms[k][2]) in constraints
  {
    TripleIsRemainderMatch(g, constraints, m, k);
    IdPairingParts(g, constraints, m);
    LeftoverFacts(g.nodeCount, m);
    var r := PairUnmatched(g.nodeCount, m).1.value;
    ConstraintCountTwo(m[k].0, m[k].1, r, constraints);
  }

  /** Both members of a leftover pair have a constraint against each other
      when the solver's matching is maximal on the complement graph. */
  lemma LeftoverPairPartner(g: Graph, constraints: set<ConstraintEdge>, m: seq<(NodeId, NodeId)>, i: nat)
    requires WellFormed(g) && IsMatching(g, m) && IsMaximal(g, m) && JoinsAllUnconstrained(g, constraints)
    requires i < |PairUnmatched(g.nodeCount, m).0|
    ensures var p := PairUnmatched(g.nodeCount, m).0[i];
      p[0] != p[1] && NewEdge(p[0], p[1]) in constraints && NewEdge(p[1], p[0]) in constraints
  {
    PairUnmatchedSpec(g.nodeCount, m);
    var u := Unmatched(g.nodeCount, m);
    var a, b := u[2 * i], u[2 * i + 1];
    assert a < b < g.nodeCount;
    assert a !in Covered(m) && b !in Covered(m);
    assert ConstraintEdge(a, b) !in g.edges;
    NewEdgeSymmetric(a, b);
  }

  /** Under a maximal solver on the complement graph, every flagged id has a
      constraint against someone in its own match. */
  lemma IdPairingFlaggedSound(g: Graph, constraints: set<ConstraintEdge>, m: seq<(NodeId, NodeId)>)
    requires WellFormed(g) && IsMatching(g, m) && IdPairing(g, constraints, m).Ok?
    requires IsMaximal(g, m) && JoinsAllUnconstrained(g, constraints)
    ensures forall x: NodeId :: x in IdPairing(g, constraints, m).value.imperfect ==>
      HasConstrainedPartner(IdPairing(g, constraints, m).value.matches, x, constraints)
  {
    var p := IdPairing(g, constraints, m).value;
    forall x: NodeId | x in p.imperfect
      ensures HasConstrainedPartner(p.matches, x, constraints)
    {
      IdPairingParts(g, constraints, m);
      var pairs := PairUnmatched(g.nodeCount, m).0;
      if x in Flatten<NodeId>(pairs) {
        LeftoverPartner(g, constraints, m, x);
      } else {
        RemainderPartner(g, constraints, m);
      }
    }
  }

  lemma LeftoverPartner(g: Graph, constraints: set<ConstraintEdge>, m: seq<(NodeId, NodeId)>, x: NodeId)
    requires WellFormed(g) && IsMatching(g, m) && IdPairing(g, constraints, m).Ok?
    requires IsMaximal(g, m) && JoinsAllUnconstrained(g, constraints)
    requires x in Flatten<NodeId>(PairUnmatched(g.nodeCount, m).0)
    ensures HasConstrainedPartner(IdPairing(g, constraints, m).value.matches, x, constraints)
  {
    var pairs := PairUnmatched(g.nodeCount, m).0;
    InFlatten<NodeId>(pairs, x);
    var i :| 0 <= i < |pairs| && x in pairs[i];
    LeftoverPairPartner(g, constraints, m, i);
    LeftoverPairMemberPartner(g, constraints, m, i, x);
  }

  lemma LeftoverPairMemberPartner(g: Graph, constraints: set<ConstraintEdge>, m: seq<(NodeId, NodeId)>, i: nat, x: NodeId)
    requires WellFormed(g) && IsMatching(g, m) && IdPairing(g, constraints, m).Ok?
    requires i < |PairUnmatched(g.nodeCount, m).0| && x in PairUnmatched(g.nodeCount, m).0[i]
    requires var p := PairUnmatched(g.nodeCount, m).0[i];
      |p| >= 2 && p[0] != p[1] && NewEdge(p[0], p[1]) in constraints && NewEdge(p[1], p[0]) in constraints
    ensures HasConstrainedPartner(IdPairing(g, constraints, m).value.matches, x, constraints)
  {
    var p := PairUnmatched(g.nodeCount, m).0[i];
    PairsHaveTwo(g.nodeCount, m);
    LeftoverAt(g, constraints, m, i);
    PairMemberPartner(IdPairing(g, constraints, m).value.matches, |m| + i, p, x, constraints);
  }

  /** The leftover pair `i` is the match at position `|m| + i`. */
  lemma LeftoverAt(g: Graph, constraints: set<ConstraintEdge>, m: seq<(NodeId, NodeId)>, i: nat)
    requires WellFormed(g) && IsMatching(g, m) && IdPairing(g, constraints, m).Ok?
    requires i < |PairUnmatched(g.nodeCount, m).0|
    ensures |m| + i < |IdPairing(g, constraints, m).value.matches|
    ensures IdPairing(g, constraints, m).value.matches[|m| + i] == PairUnmatched(g.nodeCount, m).0[i]
  {
    IdPairingLayout(g, constraints, m);
  }

  /** Either member of a match of two whose members have constraints against
      each other has a constrained partner. */
  lemma PairMemberPartner(ms: seq<Match<NodeId>>, k: nat, p: Match<NodeId>, x: NodeId, constraints: set<ConstraintEdge>)
    requires k < |ms| && ms[k] == p && |p| == 2 && x in p
    requires p[0] != p[1] && NewEdge(p[0], p[1]) in constraints && NewEdge(p[1], p[0]) in constraints
    ensures HasConstrainedPartner(ms, x, constraints)
  {
    assert p == [p[0], p[1]];
    if x == p[0] {
      PartnerAt(ms, k, 0, 1, x, constraints);
    } else {
      PartnerAt(ms, k, 1, 0, x, constraints);
    }
  }

  /** A witness for `HasConstrainedPartner`. */
  lemma PartnerAt(ms: seq<Match<NodeId>>, k: nat, i: nat, j: nat, x: NodeId, constraints: set<ConstraintEdge>)
    requires k < |ms| && i < |ms[k]| && j < |ms[k]|
    requires ms[k][i] == x && ms[k][j] != x && NewEdge(x, ms[k][j]) in constraints
    ensures HasConstrainedPartner(ms, x, constraints)
  {
  }

  lemma RemainderPartner(g: Graph, constraints: set<ConstraintEdge>, m: seq<(NodeId, NodeId)>)
    requires WellFormed(g) && IsMatching(g, m) && IdPairing(g, constraints, m).Ok?
    requires PairUnmatched(g.nodeCount, m).1.Some?
    requires AddRemainder(EdgeMatches(m), PairUnmatched(g.nodeCount, m).1, constraints).value.1 > 0
    ensures HasConstrainedPartner(IdPairing(g, constraints, m).value.matches, PairUnmatched(g.nodeCount, m).1.value, constraints)
  {
    var r := PairUnmatched(g.nodeCount, m).1.value;
    var ms := IdPairing(g, constraints, m).value.matches;
    var k := RemainderMatch(g, constraints, m);
    ConstraintCountTwo(m[k].0, m[k].1, r, constraints);
    LeftoverFacts(g.nodeCount, m);
    IdPairingSolverMembersUnflaggedCovered(m, k);
    assert r != m[k].0 && r != m[k].1;
    TriplePartner(ms, k, m[k].0, m[k].1, r, constraints);
  }

  /** The third member of a match of three has a constrained partner when it
      has a constraint against one of the other two. */
  lemma TriplePartner(ms: seq<Match<NodeId>>, k: nat, a: NodeId, b: NodeId, r: NodeId, constraints: set<ConstraintEdge>)
    requires k < |ms| && ms[k] == [a, b, r] && r != a && r != b
    requires NewEdge(a, r) in constraints || NewEdge(b, r) in constraints
    ensures HasConstrainedPartner(ms, r, constraints)
  {
    NewEdgeSymmetric(a, r);
    NewEdgeSymmetric(b, r);
    if NewEdge(a, r) in constraints {
      PartnerAt(ms, k, 2, 0, r, constraints);
    } else {
      PartnerAt(ms, k, 2, 1, r, constraints);
    }
  }

  /** The members of a solver edge are covered, so no uncovered node equals them. */
  lemma IdPairingSolverMembersUnflaggedCovered(m: seq<(NodeId, NodeId)>, k: nat)
    requires k < |m|
    ensures forall n: nat :: m[k].0 !in Unmatched(n, m) && m[k].1 !in Unmatched(n, m)
  {
    assert EdgeMatches(m)[k] == [m[k].0, m[k].1];
    InFlatten<NodeId>(EdgeMatches(m), m[k].0);
    InFlatten<NodeId>(EdgeMatches(m), m[k].1);
    assert m[k].0 in Covered(m) && m[k].1 in Covered(m);
  }

  /** When no solver edge is a constraint, every two members of one match
      with a constraint between them include a flagged id. */
  lemma IdPairingFlaggedComplete(g: Graph, constraints: set<ConstraintEdge>, m: seq<(NodeId, NodeId)>)
    requires WellFormed(g) && IsMatching(g, m) && IdPairing(g, constraints, m).Ok?
    requires AvoidsConstraints(g, constraints)
    ensures var p := IdPairing(g, constraints, m).value;
      forall k, i, j ::
        && 0 <= k < |p.matches| && 0 <= i < |p.matches[k]| && 0 <= j < |p.matches[k]|
        && p.matches[k][i] != p.matches[k][j] && NewEdge(p.matches[k][i], p.matches[k][j]) in constraints
        ==> p.matches[k][i] in p.imperfect || p.matches[k][j] in p.imperfect
  {
    var p := IdPairing(g, constraints, m).value;
    forall k, i, j |
        && 0 <= k < |p.matches| && 0 <= i < |p.matches[k]| && 0 <= j < |p.matches[k]|
        && p.matches[k][i] != p.matches[k][j] && NewEdge(p.matches[k][i], p.matches[k][j]) in constraints
      ensures p.matches[k][i] in p.imperfect || p.matches[k][j] in p.imperfect
    {
      ConstrainedMembersFlagged(g, constraints, m, k, i, j);
    }
  }

  lemma ConstrainedMembersFlagged(g: Graph, constraints: set<ConstraintEdge>, m: seq<(NodeId, NodeId)>, k: nat, i: nat, j: nat)
    requires WellFormed(g) && IsMatching(g, m) && IdPairing(g, constraints, m).Ok?
    requires AvoidsConstraints(g, constraints)
    requires var ms := IdPairing(g, constraints, m).value.matches;
      && k < |ms| && i < |ms[k]| && j < |ms[k]|
      && ms[k][i] != ms[k][j] && NewEdge(ms[k][i], ms[k][j]) in constraints
    ensures var p := IdPairing(g, constraints, m).value;
      p.matches[k][i] in p.imperfect || p.matches[k][j] in p.imperfect
  {
    var ms := IdPairing(g, constraints, m).value.matches;
    if k < |m| {
      SolverMatchShape(g, constraints, m, k);
      ConstrainedInThree(ms[k], i, j, constraints);
      IdPairingRemainderFlag(g, constraints, m, k);
    } else {
      IdPairingFlagsLeftoverPairs(g, constraints, m);
    }
  }

  /** A solver match has two or three members and its first two are an
      unconstrained edge. */
  lemma SolverMatchShape(g: Graph, constraints: set<ConstraintEdge>, m: seq<(NodeId, NodeId)>, k: nat)
    requires WellFormed(g) && IsMatching(g, m) && IdPairing(g, constraints, m).Ok?
    requires AvoidsConstraints(g, constraints) && k < |m|
    ensures var s := IdPairing(g, constraints, m).value.matches[k];
      (|s| == 2 || |s| == 3) && NewEdge(s[0], s[1]) !in constraints
  {
    IdPairingLayout(g, constraints, m);
    IdPairingSizes(g, constraints, m);
    assert NewEdge(m[k].0, m[k].1) in g.edges;
  }

  /** In a match of two or three whose first two members are unconstrained,
      a constrained pair of members involves the third. */
  lemma ConstrainedInThree(s: seq<NodeId>, i: nat, j: nat, constraints: set<ConstraintEdge>)
    requires |s| == 2 || |s| == 3
    requires NewEdge(s[0], s[1]) !in constraints
    requires i < |s| && j < |s| && s[i] != s[j] && NewEdge(s[i], s[j]) in constraints
    ensures |s| == 3 && (i == 2 || j == 2)
    ensures NewEdge(s[0], s[2]) in constraints || NewEdge(s[1], s[2]) in constraints
  {
    NewEdgeSymmetric(s[0], s[1]);
    NewEdgeSymmetric(s[i], s[j]);
  }

  /** The remainder differs from the two members of the edge it joined. */
  lemma TripleDistinct(g: Graph, constraints: set<ConstraintEdge>, m: seq<(NodeId, NodeId)>, k: nat)
    requires WellFormed(g) && IsMatching(g, m) && IdPairing(g, constraints, m).Ok?
    requires k < |IdPairing(g, constraints, m).value.matches| && |IdPairing(g, constraints, m).value.matches[k]| == 3
    ensures var t := IdPairing(g, constraints, m).value.matches[k];
      t[0] != t[2] && t[1] != t[2] && AllBelow(t, g.nodeCount)
  {
    TripleIsRemainderMatch(g, constraints, m, k);
    LeftoverFacts(g.nodeCount, m);
    IdPairingSolverMembersUnflaggedCovered(m, k);
  }
}
