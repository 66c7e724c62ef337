/** What `graph_pair` computes on node ids once the solver has answered:
    every node in exactly one match, the match sizes, the solver's edges kept
    at the front, and which ids are flagged. */
module IdPairingLemmas {
  import opened Prelude
  import opened Seqs
  import opened Helpers
  import opened Matching
  import opened MatchingLemmas

  /** The node ids `0..n`. */
  function Ids(n: nat): (s: seq<NodeId>)
    ensures |s| == n && forall i :: 0 <= i < n ==> s[i] == i
  {
    seq(n, i requires 0 <= i < n => i)
  }

  lemma IdsSpec(n: nat)
    ensures NoDup(Ids(n))
    ensures forall x: NodeId :: x in Ids(n) <==> x < n
  {
    forall x: NodeId | x < n
      ensures x in Ids(n)
    {
      assert Ids(n)[x] == x;
    }
  }

  lemma MatchingTail(g: Graph, m: seq<(NodeId, NodeId)>)
    requires |m| > 0 && IsMatching(g, m)
    ensures IsMatching(g, m[1..])
  {
    var rest := m[1..];
    forall k | 0 <= k < |rest|
      ensures NewEdge(rest[k].0, rest[k].1) in g.edges
    {
      assert rest[k] == m[k + 1];
    }
    forall k, l | 0 <= k < l < |rest|
      ensures rest[k].0 != rest[l].0 && rest[k].0 != rest[l].1 && rest[k].1 != rest[l].0 && rest[k].1 != rest[l].1
    {
      assert rest[k] == m[k + 1] && rest[l] == m[l + 1];
    }
  }

  lemma EdgeMatchesCons(m: seq<(NodeId, NodeId)>)
    requires |m| > 0
    ensures Flatten<NodeId>(EdgeMatches(m)) == [m[0].0, m[0].1] + Flatten<NodeId>(EdgeMatches(m[1..]))
  {
    assert EdgeMatches(m) == [[m[0].0, m[0].1]] + EdgeMatches(m[1..]);
    FlattenAppend<NodeId>([[m[0].0, m[0].1]], EdgeMatches(m[1..]));
    FlattenSingle<NodeId>([m[0].0, m[0].1]);
  }

  /** The first edge's nodes occur in no later edge. */
  lemma HeadNotInTail(g: Graph, m: seq<(NodeId, NodeId)>)
    requires |m| > 0 && IsMatching(g, m)
    ensures forall j :: 0 <= j < |Flatten<NodeId>(EdgeMatches(m[1..]))| ==>
      Flatten<NodeId>(EdgeMatches(m[1..]))[j] != m[0].0 && Flatten<NodeId>(EdgeMatches(m[1..]))[j] != m[0].1
  {
    var rest := m[1..];
    var tail := Flatten<NodeId>(EdgeMatches(rest));
    forall j | 0 <= j < |tail|
      ensures tail[j] != m[0].0 && tail[j] != m[0].1
    {
      InFlatten<NodeId>(EdgeMatches(rest), tail[j]);
      var k :| 0 <= k < |rest| && tail[j] in EdgeMatches(rest)[k];
      assert EdgeMatches(rest)[k] == [m[k + 1].0, m[k + 1].1];
    }
  }

  /** The solver's matches, flattened: no node twice, two nodes per edge, all below the node count. */
  lemma {:induction false} MatchedIds(g: Graph, m: seq<(NodeId, NodeId)>)
    requires WellFormed(g) && IsMatching(g, m)
    ensures NoDup(Flatten<NodeId>(EdgeMatches(m)))
    ensures |Flatten<NodeId>(EdgeMatches(m))| == 2 * |m|
    ensures forall x: NodeId :: x in Flatten<NodeId>(EdgeMatches(m)) ==> x < g.nodeCount
  {
    if m != [] {
      MatchingTail(g, m);
      MatchedIds(g, m[1..]);
      EdgeMatchesCons(m);
      MatchingIdsBelow(g, m);
      assert EdgeMatches(m)[0] == [m[0].0, m[0].1];
      assert m[0].0 < g.nodeCount && m[0].1 < g.nodeCount;
      HeadNotInTail(g, m);
      NoDupAppend([m[0].0, m[0].1], Flatten<NodeId>(EdgeMatches(m[1..])));
    }
  }

  /** The solver's nodes and the uncovered nodes together are every node
      below the node count, each once. */
  lemma CoverAll(g: Graph, m: seq<(NodeId, NodeId)>)
    requires WellFormed(g) && IsMatching(g, m)
    ensures NoDup(Flatten<NodeId>(EdgeMatches(m)) + Unmatched(g.nodeCount, m))
    ensures forall x: NodeId :: x in Flatten<NodeId>(EdgeMatches(m)) + Unmatched(g.nodeCount, m) <==> x < g.nodeCount
    ensures |Flatten<NodeId>(EdgeMatches(m))| + |Unmatched(g.nodeCount, m)| == g.nodeCount
  {
    MatchedIds(g, m);
    var a := Flatten<NodeId>(EdgeMatches(m));
    var u := Unmatched(g.nodeCount, m);
    assert NoDup(u);
    forall i, j | 0 <= i < |a| && 0 <= j < |u|
      ensures a[i] != u[j]
    {
      assert a[i] in Covered(m);
    }
    NoDupAppend(a, u);
    forall x: NodeId | x < g.nodeCount
      ensures x in a + u
    {
      if x in Covered(m) {
        assert x in a;
      } else {
        assert x in u;
      }
    }
    assert forall x: NodeId :: x in a + u ==> x < g.nodeCount;
    IdsSpec(g.nodeCount);
    NoDupSameSet<NodeId>(a + u, Ids(g.nodeCount));
    assert |multiset(a + u)| == |multiset(Ids(g.nodeCount))|;
  }

  /** The pieces `IdPairing` is assembled from. */
  lemma IdPairingParts(g: Graph, constraints: set<ConstraintEdge>, m: seq<(NodeId, NodeId)>)
    requires WellFormed(g) && IsMatching(g, m) && IdPairing(g, constraints, m).Ok?
    ensures |m| > 0
    ensures AddRemainder(EdgeMatches(m), PairUnmatched(g.nodeCount, m).1, constraints).Ok?
    ensures IdPairing(g, constraints, m).value.matches ==
      AddRemainder(EdgeMatches(m), PairUnmatched(g.nodeCount, m).1, constraints).value.0 + PairUnmatched(g.nodeCount, m).0
    ensures IdPairing(g, constraints, m).value.imperfect ==
      FlaggedIds(PairUnmatched(g.nodeCount, m).0, PairUnmatched(g.nodeCount, m).1,
                 AddRemainder(EdgeMatches(m), PairUnmatched(g.nodeCount, m).1, constraints).value.1)
  {
  }

  /** Every node below the node count is in exactly one match. */
  lemma IdPairingPartition(g: Graph, constraints: set<ConstraintEdge>, m: seq<(NodeId, NodeId)>)
    requires WellFormed(g) && IsMatching(g, m) && IdPairing(g, constraints, m).Ok?
    ensures multiset(Flatten<NodeId>(IdPairing(g, constraints, m).value.matches)) == multiset(Ids(g.nodeCount))
    ensures NoDup(Flatten<NodeId>(IdPairing(g, constraints, m).value.matches))
  {
    IdPairingParts(g, constraints, m);
    var n := g.nodeCount;
    var matched := EdgeMatches(m);
    var unmatched := PairUnmatched(n, m);
    WithRemainderMultiset(matched, unmatched.1, constraints);
    PairUnmatchedSpec(n, m);
    CoverAll(g, m);
    IdsSpec(n);
    PartsCoverIds(matched, unmatched.0, unmatched.1, AddRemainder(matched, unmatched.1, constraints).value.0,
                  Unmatched(n, m), IdPairing(g, constraints, m).value.matches, n);
  }

  /** Joining the remainder to a match adds exactly the remainder. */
  lemma WithRemainderMultiset(matched: seq<Match<NodeId>>, remainder: Option<NodeId>, constraints: set<ConstraintEdge>)
    requires AddRemainder(matched, remainder, constraints).Ok?
    ensures multiset(Flatten<NodeId>(AddRemainder(matched, remainder, constraints).value.0)) ==
      multiset(Flatten<NodeId>(matched)) + multiset(OptionSeq(remainder))
  {
    if remainder.Some? {
      var k := FirstMin(Keys(matched, remainder.value, constraints), |matched|);
      FlattenExtendAt<NodeId>(matched, k, [remainder.value]);
    }
  }

  /** The output matches hold the matched ids and the unmatched ones, each
      once: exactly the ids below `n`. */
  lemma PartsCoverIds(matched: seq<Match<NodeId>>, pairs: seq<Match<NodeId>>, remainder: Option<NodeId>,
                      withRemainder: seq<Match<NodeId>>, u: seq<NodeId>, out: seq<Match<NodeId>>, n: nat)
    requires out == withRemainder + pairs
    requires multiset(Flatten<NodeId>(withRemainder)) == multiset(Flatten<NodeId>(matched)) + multiset(OptionSeq(remainder))
    requires Flatten<NodeId>(pairs) + OptionSeq(remainder) == u
    requires NoDup(Flatten<NodeId>(matched) + u)
    requires forall x: NodeId :: x in Flatten<NodeId>(matched) + u <==> x < n
    requires NoDup(Ids(n)) && forall x: NodeId :: x in Ids(n) <==> x < n
    ensures multiset(Flatten<NodeId>(out)) == multiset(Ids(n))
    ensures NoDup(Flatten<NodeId>(out))
  {
    FlattenAppend<NodeId>(withRemainder, pairs);
    assert multiset(Flatten<NodeId>(out)) == multiset(Flatten<NodeId>(matched) + u);
    NoDupSameSet<NodeId>(Flatten<NodeId>(matched) + u, Ids(n));
    NoDupPermutation(Ids(n), Flatten<NodeId>(out));
  }

  /** The solver's edges stay at the front, in order, each as the first two
      members of its match; the pairs of uncovered nodes follow. */
  lemma IdPairingLayout(g: Graph, constraints: set<ConstraintEdge>, m: seq<(NodeId, NodeId)>)
    requires WellFormed(g) && IsMatching(g, m) && IdPairing(g, constraints, m).Ok?
    ensures |IdPairing(g, constraints, m).value.matches| == |m| + |PairUnmatched(g.nodeCount, m).0|
    ensures forall k :: 0 <= k < |m| ==>
      |IdPairing(g, constraints, m).value.matches[k]| >= 2 &&
      IdPairing(g, constraints, m).value.matches[k][0] == m[k].0 &&
      IdPairing(g, constraints, m).value.matches[k][1] == m[k].1
    ensures forall k :: 0 <= k < |PairUnmatched(g.nodeCount, m).0| ==>
      IdPairing(g, constraints, m).value.matches[|m| + k] == PairUnmatched(g.nodeCount, m).0[k]
  {
    IdPairingParts(g, constraints, m);
    var matched := EdgeMatches(m);
    var (pairs, remainder) := PairUnmatched(g.nodeCount, m);
    AddRemainderSpec(matched, remainder, constraints);
    var (withRemainder, score) := AddRemainder(matched, remainder, constraints).value;
    var out := IdPairing(g, constraints, m).value.matches;
    assert |withRemainder| == |m|;
    forall k | 0 <= k < |m|
      ensures |out[k]| >= 2 && out[k][0] == m[k].0 && out[k][1] == m[k].1
    {
      assert out[k] == withRemainder[k];
      assert withRemainder[k] == matched[k] || withRemainder[k] == matched[k] + [remainder.value];
    }
  }

  /** Attaching the remainder to matches of two gives one match of three
      when there is a remainder, and leaves every other match at two. */
  lemma WithRemainderSizes(matched: seq<Match<NodeId>>, remainder: Option<NodeId>, constraints: set<ConstraintEdge>)
    requires |matched| > 0 && AllOfSize(matched, 2)
    ensures AddRemainder(matched, remainder, constraints).Ok?
    ensures TwosWithOneThree(AddRemainder(matched, remainder, constraints).value.0, remainder.Some?)
  {
    AddRemainderSpec(matched, remainder, constraints);
    if remainder.Some? {
      var w := AddRemainder(matched, remainder, constraints).value.0;
      var k :| 0 <= k < |matched| && |w| == |matched| && w[k] == matched[k] + [remainder.value]
        && (forall j :: 0 <= j < |matched| && j != k ==> w[j] == matched[j]);
      OneJoined(matched, w, k, remainder.value);
    }
  }

  /** Pairs with one of them extended by a member: one match of three. */
  lemma OneJoined<T>(matched: seq<Match<T>>, w: seq<Match<T>>, k: nat, r: T)
    requires AllOfSize(matched, 2) && |w| == |matched| && k < |matched| && w[k] == matched[k] + [r]
    requires forall j :: 0 <= j < |matched| && j != k ==> w[j] == matched[j]
    ensures TwosWithOneThree(w, true)
  {
    assert |w[k]| == 3;
  }

  predicate AllOfSize<T>(ms: seq<Match<T>>, size: nat)
  {
    forall j :: 0 <= j < |ms| ==> |ms[j]| == size
  }

  /** Every match has two members, except exactly one of three when `three` holds. */
  predicate TwosWithOneThree<T>(w: seq<Match<T>>, three: bool)
  {
    && (!three ==> AllOfSize(w, 2))
    && (three ==> exists k :: 0 <= k < |w| && |w[k]| == 3 && forall j :: 0 <= j < |w| && j != k ==> |w[j]| == 2)
  }

  /** There is a remainder exactly when the node count is odd. */
  lemma RemainderParity(g: Graph, m: seq<(NodeId, NodeId)>)
    requires WellFormed(g) && IsMatching(g, m)
    ensures PairUnmatched(g.nodeCount, m).1.Some? <==> g.nodeCount % 2 == 1
  {
    var u := |Unmatched(g.nodeCount, m)|;
    RemainderWhenOdd(g.nodeCount, m);
    CoverCount(g, m);
    SameParity(g.nodeCount, |m|, u);
  }

  lemma RemainderWhenOdd(n: nat, m: seq<(NodeId, NodeId)>)
    ensures PairUnmatched(n, m).1.Some? <==> |Unmatched(n, m)| % 2 == 1
  {
    PairUnmatchedSpec(n, m);
  }

  lemma {:induction false} SameParity(n: nat, k: nat, u: nat)
    requires n == 2 * k + u
    ensures n % 2 == u % 2
  {
    if k > 0 {
      SameParity(n - 2, k - 1, u);
    }
  }

  lemma CoverCount(g: Graph, m: seq<(NodeId, NodeId)>)
    requires WellFormed(g) && IsMatching(g, m)
    ensures 2 * |m| + |Unmatched(g.nodeCount, m)| == g.nodeCount
  {
    CoverAll(g, m);
    MatchedIds(g, m);
  }

  lemma PairsHaveTwo(n: nat, m: seq<(NodeId, NodeId)>)
    ensures AllOfSize(PairUnmatched(n, m).0, 2)
  {
    PairUnmatchedSpec(n, m);
  }

  /** Every match has two or three members, at most one has three, and one
      has three exactly when `three` holds. */
  predicate PairsAndOneTriple<T>(ms: seq<Match<T>>, three: bool)
  {
    && (forall k :: 0 <= k < |ms| ==> |ms[k]| == 2 || |ms[k]| == 3)
    && (forall k, l :: 0 <= k < |ms| && 0 <= l < |ms| && k != l && |ms[k]| == 3 ==> |ms[l]| == 2)
    && ((exists k :: 0 <= k < |ms| && |ms[k]| == 3) <==> three)
  }

  /** Size bookkeeping for the solver's matches followed by the pairs. */
  lemma ConcatSizes(w: seq<Match<NodeId>>, pairs: seq<Match<NodeId>>, three: bool)
    requires AllOfSize(pairs, 2) && TwosWithOneThree(w, three)
    ensures PairsAndOneTriple(w + pairs, three)
  {
    var ms := w + pairs;
    assert forall j :: 0 <= j < |pairs| ==> ms[|w| + j] == pairs[j];
    assert forall j :: 0 <= j < |w| ==> ms[j] == w[j];
    if three {
      var k :| 0 <= k < |w| && |w[k]| == 3 && forall j :: 0 <= j < |w| && j != k ==> |w[j]| == 2;
      assert |ms[k]| == 3;
    }
  }

  /** Every match has two or three members, at most one has three, and one
      has three exactly when the node count is odd. */
  lemma IdPairingSizes(g: Graph, constraints: set<ConstraintEdge>, m: seq<(NodeId, NodeId)>)
    requires WellFormed(g) && IsMatching(g, m) && IdPairing(g, constraints, m).Ok?
    ensures PairsAndOneTriple(IdPairing(g, constraints, m).value.matches, g.nodeCount % 2 == 1)
  {
    IdPairingParts(g, constraints, m);
    var matched := EdgeMatches(m);
    var pu := PairUnmatched(g.nodeCount, m);
    assert AllOfSize(matched, 2);
    WithRemainderSizes(matched, pu.1, constraints);
    PairsHaveTwo(g.nodeCount, m);
    RemainderParity(g, m);
    var w := AddRemainder(matched, pu.1, constraints).value.0;
    ConcatSizes(w, pu.0, g.nodeCount % 2 == 1);
  }

  /** The id pairing fails exactly when the solver matched nobody, and then
      with `EmptyMatching`: with at least one solver match the remainder
      always finds a match to join. */
  lemma IdPairingErrors(g: Graph, constraints: set<ConstraintEdge>, m: seq<(NodeId, NodeId)>)
    requires WellFormed(g) && IsMatching(g, m)
    ensures IdPairing(g, constraints, m).Err? <==> m == []
    ensures IdPairing(g, constraints, m).Err? ==> IdPairing(g, constraints, m).error == EmptyMatching
  {
    if m != [] {
      AddRemainderSpec(EdgeMatches(m), PairUnmatched(g.nodeCount, m).1, constraints);
    }
  }
}
