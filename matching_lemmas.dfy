/** Properties of the `src/matching.rs` model: normalised edges, the
    constraint and candidate graphs, `pair_unmatched`, the remainder choice,
    and what `graph_pair` returns. */
module MatchingLemmas {
  import opened Prelude
  import opened Seqs
  import opened Helpers
  import opened Pair
  import opened Matching

  /** Two participants sat together in some historical match. */
  ghost predicate PairedBefore<T>(x: T, y: T, previous: seq<Match<T>>)
  {
    exists k :: 0 <= k < |previous| && x in previous[k] && y in previous[k]
  }

  // ---------------------------------------------------------------- edges

  /** `ConstraintEdge::new` forgets the order of its two ids and nothing else:
      two normalised edges are equal exactly when they join the same ids. */
  lemma NewEdgeCanonical(a: NodeId, b: NodeId, c: NodeId, d: NodeId)
    ensures NewEdge(a, b) == NewEdge(c, d) <==> multiset{a, b} == multiset{c, d}
  {
    if multiset{a, b} == multiset{c, d} {
      assert a in multiset{c, d} && b in multiset{c, d};
      assert (a == c && b == d) || (a == d && b == c) by {
        if a == c {
          assert multiset{a, b} - multiset{a} == multiset{c, d} - multiset{c};
        } else {
          assert a == d;
          assert multiset{a, b} - multiset{a} == multiset{c, d} - multiset{d};
        }
      }
    }
  }

  lemma NewEdgeSymmetric(a: NodeId, b: NodeId)
    ensures NewEdge(a, b) == NewEdge(b, a)
  {
    NewEdgeCanonical(a, b, b, a);
  }

  // ---------------------------------------------------------- constraints

  /** Two distinct participants' ids form a constraint of one historical match
      exactly when both of them are members of it. */
  lemma PairEdgesIff<T>(vec: seq<T>, m: Match<T>, i: NodeId, j: NodeId)
    requires NoDup(vec) && i < |vec| && j < |vec| && i != j
    ensures NewEdge(i, j) in PairEdges(MemberIds(vec, m)) <==> vec[i] in m && vec[j] in m
  {
    if NewEdge(i, j) in PairEdges(MemberIds(vec, m)) {
      PairEdgeMembers(vec, m, i, j);
    }
    if vec[i] in m && vec[j] in m {
      MembersPairEdge(vec, m, i, j);
    }
  }

  lemma PairEdgeMembers<T>(vec: seq<T>, m: Match<T>, i: NodeId, j: NodeId)
    requires NewEdge(i, j) in PairEdges(MemberIds(vec, m))
    ensures i < |vec| && j < |vec| && vec[i] in m && vec[j] in m
  {
    var ids := MemberIds(vec, m);
    var p, q :| 0 <= p < q < |ids| && NewEdge(ids[p], ids[q]) == NewEdge(i, j);
    NewEdgeEnds(ids[p], ids[q], i, j);
  }

  /** Two normalised edges are equal only when they join the same two ends. */
  lemma NewEdgeEnds(a: NodeId, b: NodeId, c: NodeId, d: NodeId)
    requires NewEdge(a, b) == NewEdge(c, d)
    ensures (a == c && b == d) || (a == d && b == c)
  {
  }

  lemma MembersPairEdge<T>(vec: seq<T>, m: Match<T>, i: NodeId, j: NodeId)
    requires NoDup(vec) && i < |vec| && j < |vec| && i != j
    requires vec[i] in m && vec[j] in m
    ensures NewEdge(i, j) in PairEdges(MemberIds(vec, m))
  {
    var ids := MemberIds(vec, m);
    var a :| 0 <= a < |m| && m[a] == vec[i];
    var b :| 0 <= b < |m| && m[b] == vec[j];
    LastIndexOfNoDup(vec, i);
    LastIndexOfNoDup(vec, j);
    assert i in ids && j in ids;
    var p :| 0 <= p < |ids| && ids[p] == i;
    var q :| 0 <= q < |ids| && ids[q] == j;
    if p < q {
      assert NewEdge(ids[p], ids[q]) in PairEdges(ids);
    } else {
      assert NewEdge(ids[q], ids[p]) in PairEdges(ids);
      NewEdgeSymmetric(i, j);
    }
  }

  /** The constraint set holds the normalised edge of two distinct
      participants exactly when some historical match contains both. Every
      constraint joins two participant ids, so members who are not
      participants impose nothing. */
  lemma {:induction false} ConstraintsIff<T>(vec: seq<T>, previous: seq<Match<T>>, i: NodeId, j: NodeId)
    requires NoDup(vec) && i < |vec| && j < |vec| && i != j
    ensures NewEdge(i, j) in Constraints(vec, previous) <==> PairedBefore(vec[i], vec[j], previous)
  {
    if previous != [] {
      PairEdgesIff(vec, previous[0], i, j);
      ConstraintsIff(vec, previous[1..], i, j);
      if PairedBefore(vec[i], vec[j], previous) {
        var k :| 0 <= k < |previous| && vec[i] in previous[k] && vec[j] in previous[k];
        if k > 0 {
          assert previous[1..][k - 1] == previous[k];
        }
      }
      if PairedBefore(vec[i], vec[j], previous[1..]) {
        var k :| 0 <= k < |previous[1..]| && vec[i] in previous[1..][k] && vec[j] in previous[1..][k];
        assert previous[1..][k] == previous[k + 1];
      }
    }
  }

  /** With distinct participants every position is a node of the graph. */
  lemma NodeIdsAll<T>(vec: seq<T>, i: NodeId)
    requires NoDup(vec) && i < |vec|
    ensures i in NodeIds(vec)
  {
    LastIndexOfNoDup(vec, i);
  }

  /** The candidate graph joins two distinct participants exactly when they
      never sat in the same historical match. The graph `from_edges` builds
      has the same edges. */
  lemma CandidateIff<T>(vec: seq<T>, previous: seq<Match<T>>, i: NodeId, j: NodeId)
    requires NoDup(vec) && i < |vec| && j < |vec| && i != j
    ensures NewEdge(i, j) in BuildFullMatchingGraph(vec, previous).0.edges <==> !PairedBefore(vec[i], vec[j], previous)
    ensures BuildMatchingGraph(vec, previous).0.edges == BuildFullMatchingGraph(vec, previous).0.edges
  {
    ConstraintsIff(vec, previous, i, j);
    NodeIdsAll(vec, i);
    NodeIdsAll(vec, j);
    var e := NewEdge(i, j);
    var ids := NodeIds(vec);
    var c := Constraints(vec, previous);
    assert e.lower in ids && e.upper in ids && e.lower < e.upper;
    if e !in c {
      assert e == ConstraintEdge(e.lower, e.upper);
      assert e in CandidateEdges(ids, c);
    }
  }

  /** Every candidate edge avoids the constraints, and with distinct
      participants every pair of nodes is joined by a candidate edge or by a
      constraint. */
  predicate AvoidsConstraints(g: Graph, constraints: set<ConstraintEdge>)
  {
    forall e :: e in g.edges ==> e !in constraints
  }

  predicate JoinsAllUnconstrained(g: Graph, constraints: set<ConstraintEdge>)
  {
    forall a: NodeId, b: NodeId :: a < b < g.nodeCount ==>
      ConstraintEdge(a, b) in g.edges || ConstraintEdge(a, b) in constraints
  }

  lemma FullGraphIsComplement<T>(vec: seq<T>, previous: seq<Match<T>>)
    ensures AvoidsConstraints(BuildFullMatchingGraph(vec, previous).0, BuildFullMatchingGraph(vec, previous).1)
    ensures NoDup(vec) ==> JoinsAllUnconstrained(BuildFullMatchingGraph(vec, previous).0, BuildFullMatchingGraph(vec, previous).1)
  {
    var (g, c) := BuildFullMatchingGraph(vec, previous);
    var ids := NodeIds(vec);
    if NoDup(vec) {
      forall a: NodeId, b: NodeId | a < b < g.nodeCount
        ensures ConstraintEdge(a, b) in g.edges || ConstraintEdge(a, b) in c
      {
        NodeIdsAll(vec, a);
        NodeIdsAll(vec, b);
        if ConstraintEdge(a, b) !in c {
          assert ConstraintEdge(a, b) in CandidateEdges(ids, c);
        }
      }
    }
  }

  // -------------------------------------------------------- pair_unmatched

  /** The elements of an optional value, as a list of none or one. */
  function OptionSeq(o: Option<NodeId>): (s: seq<NodeId>)
    ensures |s| <= 1 && (o.Some? <==> |s| == 1) && (o.Some? ==> s[0] == o.value)
  {
    if o.Some? then [o.value] else []
  }

  /** `pair_unmatched` cuts the increasing list of uncovered nodes into
      consecutive pairs; there is a remainder exactly when that list has odd
      length, and then it is the list's last node. */
  lemma PairUnmatchedSpec(n: nat, m: seq<(NodeId, NodeId)>)
    ensures Flatten<NodeId>(PairUnmatched(n, m).0) + OptionSeq(PairUnmatched(n, m).1) == Unmatched(n, m)
    ensures forall k :: 0 <= k < |PairUnmatched(n, m).0| ==>
      PairUnmatched(n, m).0[k] == [Unmatched(n, m)[2 * k], Unmatched(n, m)[2 * k + 1]]
    ensures PairUnmatched(n, m).1.Some? <==> |Unmatched(n, m)| % 2 == 1
  {
    var u := Unmatched(n, m);
    ChunksOfTwoShape(u);
    var rest := ChunkRemainder(u);
    if |rest| == 1 {
      assert rest == [rest[0]];
    }
    assert OptionSeq(PairUnmatched(n, m).1) == rest;
    ChunksOfTwoCover(u);
  }

  lemma ChunksOfTwoShape(u: seq<NodeId>)
    ensures forall k :: 0 <= k < |ChunksOfTwo(u)| ==> ChunksOfTwo(u)[k] == [u[2 * k], u[2 * k + 1]]
  {
    forall k | 0 <= k < |ChunksOfTwo(u)|
      ensures ChunksOfTwo(u)[k] == [u[2 * k], u[2 * k + 1]]
    {
      assert ChunksOfTwo(u)[k] == u[2 * k..2 * k + 2];
    }
  }

  // ------------------------------------------------------- the remainder

  /** A match's count against `r` is zero exactly when none of its members
      has a constraint against `r`; it never exceeds the match's size. */
  lemma {:induction false} ConstraintCountZero(m: Match<NodeId>, r: NodeId, constraints: set<ConstraintEdge>)
    ensures ConstraintCount(m, r, constraints) <= |m|
    ensures ConstraintCount(m, r, constraints) == 0 <==> forall k :: 0 <= k < |m| ==> NewEdge(m[k], r) !in constraints
  {
    if m != [] {
      ConstraintCountZero(m[1..], r, constraints);
      assert forall k :: 1 <= k < |m| ==> m[k] == m[1..][k - 1];
    }
  }

  lemma PrecedesIrreflexive(a: MatchKey)
    ensures !Precedes(a, a)
  {
    LexLessIrreflexive(a.1);
  }

  lemma PrecedesAsymmetric(a: MatchKey, b: MatchKey)
    requires Precedes(a, b)
    ensures !Precedes(b, a)
  {
    if a.0 == b.0 {
      LexLessAsymmetric(a.1, b.1);
    }
  }

  lemma PrecedesTransitive(a: MatchKey, b: MatchKey, c: MatchKey)
    requires Precedes(a, b) && Precedes(b, c)
    ensures Precedes(a, c)
  {
    if a.0 == b.0 == c.0 {
      LexLessTransitive(a.1, b.1, c.1);
    }
  }

  lemma PrecedesTotal(a: MatchKey, b: MatchKey)
    requires a != b
    ensures Precedes(a, b) || Precedes(b, a)
  {
    if a.0 == b.0 {
      LexLessTotal(a.1, b.1);
    }
  }

  /** `.min()`'s choice among the first `n` keys: no key is strictly smaller,
      and every key before it is strictly larger (the first of several minimal
      keys wins). */
  lemma {:induction false} FirstMinIsFirstMinimum(keys: seq<MatchKey>, n: nat)
    requires 1 <= n <= |keys|
    ensures forall j :: 0 <= j < n ==> !Precedes(keys[j], keys[FirstMin(keys, n)])
    ensures forall j :: 0 <= j < FirstMin(keys, n) ==> Precedes(keys[FirstMin(keys, n)], keys[j])
  {
    if n > 1 {
      var b := FirstMin(keys, n - 1);
      FirstMinIsFirstMinimum(keys, n - 1);
      if Precedes(keys[n - 1], keys[b]) {
        forall j | 0 <= j < n - 1
          ensures Precedes(keys[n - 1], keys[j])
        {
          if keys[j] != keys[b] {
            PrecedesTotal(keys[j], keys[b]);
            PrecedesTransitive(keys[n - 1], keys[b], keys[j]);
          }
        }
        forall j | 0 <= j < n
          ensures !Precedes(keys[j], keys[n - 1])
        {
          if j == n - 1 {
            PrecedesIrreflexive(keys[n - 1]);
          } else {
            PrecedesAsymmetric(keys[n - 1], keys[j]);
          }
        }
      }
    } else {
      PrecedesIrreflexive(keys[0]);
    }
  }

  /** The result of attaching `rem` to the first match with the smallest key:
      that match gains `rem` at its end, the others are unchanged, and the
      score is its constraint count, which no other match's count undercuts. */
  ghost predicate JoinsFirstFewestConstraints(matched: seq<Match<NodeId>>, rem: NodeId, constraints: set<ConstraintEdge>,
                                              out: (seq<Match<NodeId>>, nat))
  {
    var keys := Keys(matched, rem, constraints);
    exists k :: 0 <= k < |matched|
      && |out.0| == |matched|
      && out.0[k] == matched[k] + [rem]
      && (forall j :: 0 <= j < |matched| && j != k ==> out.0[j] == matched[j])
      && out.1 == ConstraintCount(matched[k], rem, constraints)
      && (forall j :: 0 <= j < |matched| ==> out.1 <= ConstraintCount(matched[j], rem, constraints))
      && (forall j :: 0 <= j < |matched| ==> !Precedes(keys[j], keys[k]))
      && (forall j :: 0 <= j < k ==> Precedes(keys[k], keys[j]))
  }

  /** `add_remainder_to_pairing`: without a remainder the matches come back
      unchanged with score 0; a remainder with no matches is an error; any
      other remainder joins the first match with the fewest constraints. */
  lemma AddRemainderSpec(matched: seq<Match<NodeId>>, remainder: Option<NodeId>, constraints: set<ConstraintEdge>)
    ensures remainder.None? ==> AddRemainder(matched, remainder, constraints) == Ok((matched, 0))
    ensures remainder.Some? && |matched| == 0 ==>
      AddRemainder(matched, remainder, constraints) == Err(EmptyMatchedIterable)
    ensures remainder.Some? && |matched| > 0 ==>
      AddRemainder(matched, remainder, constraints).Ok? &&
      JoinsFirstFewestConstraints(matched, remainder.value, constraints, AddRemainder(matched, remainder, constraints).value)
  {
    if remainder.Some? && |matched| > 0 {
      var rem := remainder.value;
      var keys := Keys(matched, rem, constraints);
      var k := FirstMin(keys, |matched|);
      FirstMinIsFirstMinimum(keys, |matched|);
      var out := AddRemainder(matched, remainder, constraints).value;
      forall j | 0 <= j < |matched|
        ensures out.1 <= ConstraintCount(matched[j], rem, constraints)
      {
        assert !Precedes(keys[j], keys[k]);
      }
      assert JoinsFirstFewestConstraints(matched, rem, constraints, out) by {
        assert out.0[k] == matched[k] + [rem];
      }
    }
  }
}
