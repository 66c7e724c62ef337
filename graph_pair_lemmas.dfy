/** What `graph_pair` returns, in terms of the participants: its error cases,
    a partition of the participants into matches of two with at most one of
    three, solver matches of people who never met, and a flag list that holds
    exactly the members who may be meeting someone again. */
module GraphPairLemmas {
  import opened Prelude
  import opened Seqs
  import opened Helpers
  import opened Pair
  import opened Matching
  import opened MatchingLemmas
  import opened IdPairingLemmas
  import opened FlaggedLemmas

  // ------------------------------------------------------ index_to_element

  lemma ElementsAppend<T>(a: seq<NodeId>, b: seq<NodeId>, vec: seq<T>)
    requires AllBelow(a, |vec|) && AllBelow(b, |vec|)
    ensures AllBelow(a + b, |vec|)
    ensures Elements(a + b, vec) == Elements(a, vec) + Elements(b, vec)
  {
  }

  /** Translating every match and then flattening is translating the flattened ids. */
  lemma {:induction false} FlattenElements<T>(ms: seq<Match<NodeId>>, vec: seq<T>)
    requires IdsBelow(ms, |vec|)
    ensures AllBelow(Flatten<NodeId>(ms), |vec|)
    ensures Flatten(ElementMatches(ms, vec)) == Elements(Flatten<NodeId>(ms), vec)
  {
    FlattenBelow(ms, |vec|);
    if ms != [] {
      var rest := ms[1..];
      assert IdsBelow(rest, |vec|) by {
        assert forall k :: 0 <= k < |rest| ==> rest[k] == ms[k + 1];
      }
      FlattenElements(rest, vec);
      assert ElementMatches(ms, vec)[1..] == ElementMatches(rest, vec);
      assert AllBelow(ms[0], |vec|);
      ElementsAppend(ms[0], Flatten<NodeId>(rest), vec);
    }
  }

  /** Ids that are a permutation of each other translate to elements that are. */
  lemma {:induction false} ElementsPermutation<T>(a: seq<NodeId>, b: seq<NodeId>, vec: seq<T>)
    requires AllBelow(a, |vec|) && multiset(a) == multiset(b)
    ensures AllBelow(b, |vec|)
    ensures multiset(Elements(a, vec)) == multiset(Elements(b, vec))
    decreases |a|
  {
    forall j | 0 <= j < |b|
      ensures b[j] < |vec|
    {
      assert b[j] in multiset(a);
    }
    if a != [] {
      assert a[0] in multiset(b);
      var p :| 0 <= p < |b| && b[p] == a[0];
      var rest := b[..p] + b[p + 1..];
      MultisetRemove(a, b, p);
      assert AllBelow(a[1..], |vec|);
      ElementsPermutation(a[1..], rest, vec);
      ElementsCons(a, vec);
      ElementsRemove(b, p, vec);
    } else {
      assert |multiset(b)| == 0;
    }
  }

  lemma MultisetRemove(a: seq<NodeId>, b: seq<NodeId>, p: nat)
    requires multiset(a) == multiset(b) && a != [] && p < |b| && b[p] == a[0]
    ensures multiset(a[1..]) == multiset(b[..p] + b[p + 1..])
  {
    assert a == [a[0]] + a[1..];
    assert b == b[..p] + [b[p]] + b[p + 1..];
    assert multiset(a[1..]) == multiset(a) - multiset{a[0]};
    assert multiset(b[..p] + b[p + 1..]) == multiset(b) - multiset{b[p]};
  }

  lemma ElementsCons<T>(a: seq<NodeId>, vec: seq<T>)
    requires a != [] && AllBelow(a, |vec|)
    ensures AllBelow(a[1..], |vec|)
    ensures multiset(Elements(a, vec)) == multiset{vec[a[0]]} + multiset(Elements(a[1..], vec))
  {
    assert Elements(a, vec) == [vec[a[0]]] + Elements(a[1..], vec);
  }

  lemma ElementsRemove<T>(b: seq<NodeId>, p: nat, vec: seq<T>)
    requires AllBelow(b, |vec|) && p < |b|
    ensures AllBelow(b[..p] + b[p + 1..], |vec|)
    ensures multiset(Elements(b, vec)) == multiset{vec[b[p]]} + multiset(Elements(b[..p] + b[p + 1..], vec))
  {
    var front, back := b[..p], b[p + 1..];
    assert Elements(b, vec) == Elements(front, vec) + [vec[b[p]]] + Elements(back, vec);
    assert Elements(front + back, vec) == Elements(front, vec) + Elements(back, vec);
  }

  lemma ElementsOfIds<T>(vec: seq<T>)
    ensures Elements(Ids(|vec|), vec) == vec
  {
  }

  /** With distinct elements, an element is in the translation of some ids
      exactly when its position is one of the ids. */
  lemma ElementsMember<T>(ids: seq<NodeId>, vec: seq<T>, a: NodeId)
    requires NoDup(vec) && AllBelow(ids, |vec|) && a < |vec|
    ensures vec[a] in Elements(ids, vec) <==> a in ids
  {
    if vec[a] in Elements(ids, vec) {
      var t :| 0 <= t < |ids| && Elements(ids, vec)[t] == vec[a];
      assert vec[ids[t]] == vec[a];
    }
    if a in ids {
      var t :| 0 <= t < |ids| && ids[t] == a;
      assert Elements(ids, vec)[t] == vec[a];
    }
  }

  // ------------------------------------------------------------ unfolding

  /** The graph of one round: the corrected matching graph of the shuffled participants. */
  function RoundGraph<T(==,!new)>(vec: seq<T>, previous: seq<Match<T>>, seed: u64, shuffle: Shuffler<T>)
    : (Graph, set<ConstraintEdge>)
  {
    BuildFullMatchingGraph(shuffle(vec, seed), previous)
  }

  lemma ShuffledLength<T(!new)>(vec: seq<T>, seed: u64, shuffle: Shuffler<T>)
    requires IsShuffler(shuffle)
    ensures |shuffle(vec, seed)| == |vec| && multiset(shuffle(vec, seed)) == multiset(vec)
  {
    assert |multiset(shuffle(vec, seed))| == |multiset(vec)|;
  }

  lemma ShuffledNoDup<T(!new)>(vec: seq<T>, seed: u64, shuffle: Shuffler<T>)
    requires IsShuffler(shuffle) && NoDup(vec)
    ensures NoDup(shuffle(vec, seed))
  {
    NoDupPermutation(vec, shuffle(vec, seed));
  }

  /** Within the size limits, `graph_pair` is the id pairing of the round's
      graph translated back to participants. */
  lemma GraphPairUnfold<T(!new)>(vec: seq<T>, previous: seq<Match<T>>, seed: u64, shuffle: Shuffler<T>, solve: Solver)
    requires IsShuffler(shuffle) && IsSolver(solve)
    requires 2 <= |vec| <= GraphPairLimit
    ensures var s := shuffle(vec, seed);
      var (g, c) := RoundGraph(vec, previous, seed, shuffle);
      && |s| == |vec| && g.nodeCount == |s| && WellFormed(g) && IsMatching(g, solve(g))
      && GraphPair(vec, previous, seed, shuffle, solve).Ok? == IdPairing(g, c, solve(g)).Ok?
      && (GraphPair(vec, previous, seed, shuffle, solve).Ok? ==>
           GraphPair(vec, previous, seed, shuffle, solve).value.matches ==
             ElementMatches(IdPairing(g, c, solve(g)).value.matches, s) &&
           GraphPair(vec, previous, seed, shuffle, solve).value.imperfect ==
             Elements(IdPairing(g, c, solve(g)).value.imperfect, s))
      && (GraphPair(vec, previous, seed, shuffle, solve).Err? ==>
           GraphPair(vec, previous, seed, shuffle, solve).error == IdPairing(g, c, solve(g)).error)
  {
    ShuffledLength(vec, seed, shuffle);
  }

  // ------------------------------------------------------------- results

  /** `graph_pair` rejects fewer than two and more than 200 participants; in
      between it fails only when the solver matched nobody, and then with
      `EmptyMatching`. A remainder never finds the matches empty. */
  lemma GraphPairErrors<T(!new)>(vec: seq<T>, previous: seq<Match<T>>, seed: u64, shuffle: Shuffler<T>, solve: Solver)
    requires IsShuffler(shuffle) && IsSolver(solve)
    ensures GraphPair(vec, previous, seed, shuffle, solve) == Err(TooFewElements) <==> |vec| < 2
    ensures GraphPair(vec, previous, seed, shuffle, solve) == Err(TooManyElements) <==> |vec| > GraphPairLimit
    ensures GraphPair(vec, previous, seed, shuffle, solve) == Err(EmptyMatching) <==>
      2 <= |vec| <= GraphPairLimit && solve(RoundGraph(vec, previous, seed, shuffle).0) == []
    ensures GraphPair(vec, previous, seed, shuffle, solve) != Err(EmptyMatchedIterable)
  {
    if 2 <= |vec| <= GraphPairLimit {
      GraphPairUnfold(vec, previous, seed, shuffle, solve);
      var (g, c) := RoundGraph(vec, previous, seed, shuffle);
      IdPairingErrors(g, c, solve(g));
    }
  }

  /** Every participant is in exactly as many matches as it occurs in the
      input: the matches, flattened, are a permutation of the participants. */
  lemma GraphPairPartition<T(!new)>(vec: seq<T>, previous: seq<Match<T>>, seed: u64, shuffle: Shuffler<T>, solve: Solver)
    requires IsShuffler(shuffle) && IsSolver(solve)
    requires GraphPair(vec, previous, seed, shuffle, solve).Ok?
    ensures multiset(Flatten(GraphPair(vec, previous, seed, shuffle, solve).value.matches)) == multiset(vec)
  {
    GraphPairUnfold(vec, previous, seed, shuffle, solve);
    var s := shuffle(vec, seed);
    var (g, c) := RoundGraph(vec, previous, seed, shuffle);
    var ms := IdPairing(g, c, solve(g)).value.matches;
    IdPairingPartition(g, c, solve(g));
    FlattenElements(ms, s);
    ElementsPermutation(Flatten<NodeId>(ms), Ids(|s|), s);
    ElementsOfIds(s);
  }

  lemma ElementSizes<T>(ms: seq<Match<NodeId>>, vec: seq<T>, three: bool)
    requires IdsBelow(ms, |vec|) && PairsAndOneTriple(ms, three)
    ensures PairsAndOneTriple(ElementMatches(ms, vec), three)
  {
    var es := ElementMatches(ms, vec);
    assert forall k :: 0 <= k < |ms| ==> |es[k]| == |ms[k]|;
  }

  /** Every match has two or three members, at most one has three, and one
      has three exactly when the number of participants is odd. */
  lemma GraphPairSizes<T(!new)>(vec: seq<T>, previous: seq<Match<T>>, seed: u64, shuffle: Shuffler<T>, solve: Solver)
    requires IsShuffler(shuffle) && IsSolver(solve)
    requires GraphPair(vec, previous, seed, shuffle, solve).Ok?
    ensures PairsAndOneTriple(GraphPair(vec, previous, seed, shuffle, solve).value.matches, |vec| % 2 == 1)
  {
    GraphPairUnfold(vec, previous, seed, shuffle, solve);
    var s := shuffle(vec, seed);
    var (g, c) := RoundGraph(vec, previous, seed, shuffle);
    IdPairingSizes(g, c, solve(g));
    ElementSizes(IdPairing(g, c, solve(g)).value.matches, s, |vec| % 2 == 1);
  }

  /** With distinct participants, the first `|solve(g)|` matches each start
      with two different people who never shared a historical match. */
  lemma GraphPairNovelPairs<T(!new)>(vec: seq<T>, previous: seq<Match<T>>, seed: u64, shuffle: Shuffler<T>, solve: Solver)
    requires IsShuffler(shuffle) && IsSolver(solve) && NoDup(vec)
    requires GraphPair(vec, previous, seed, shuffle, solve).Ok?
    ensures var ms := GraphPair(vec, previous, seed, shuffle, solve).value.matches;
      forall k :: 0 <= k < |solve(RoundGraph(vec, previous, seed, shuffle).0)| ==>
        k < |ms| && |ms[k]| >= 2 && ms[k][0] != ms[k][1] && !PairedBefore(ms[k][0], ms[k][1], previous)
  {
    GraphPairUnfold(vec, previous, seed, shuffle, solve);
    ShuffledNoDup(vec, seed, shuffle);
    var s := shuffle(vec, seed);
    var (g, c) := RoundGraph(vec, previous, seed, shuffle);
    var m := solve(g);
    var ms := GraphPair(vec, previous, seed, shuffle, solve).value.matches;
    IdPairingLayout(g, c, m);
    MatchingIdsBelow(g, m);
    forall k | 0 <= k < |m|
      ensures k < |ms| && |ms[k]| >= 2 && ms[k][0] != ms[k][1] && !PairedBefore(ms[k][0], ms[k][1], previous)
    {
      CandidateIff(s, previous, m[k].0, m[k].1);
      assert ms[k][0] == s[m[k].0] && ms[k][1] == s[m[k].1];
    }
  }

  /** Someone `x` shares a match in `ms` with a person it met before. */
  ghost predicate MeetsSomeoneAgain<T>(ms: seq<Match<T>>, x: T, previous: seq<Match<T>>)
  {
    exists k, i, j :: 0 <= k < |ms| && 0 <= i < |ms[k]| && 0 <= j < |ms[k]| &&
      ms[k][i] == x && ms[k][j] != x && PairedBefore(x, ms[k][j], previous)
  }

  /** With distinct participants and a maximal solver, every flagged
      participant meets someone it met before. */
  lemma GraphPairFlaggedSound<T(!new)>(vec: seq<T>, previous: seq<Match<T>>, seed: u64, shuffle: Shuffler<T>, solve: Solver)
    requires IsShuffler(shuffle) && IsSolver(solve) && IsMaximalSolver(solve) && NoDup(vec)
    requires GraphPair(vec, previous, seed, shuffle, solve).Ok?
    ensures var p := GraphPair(vec, previous, seed, shuffle, solve).value;
      forall x :: x in p.imperfect ==> MeetsSomeoneAgain(p.matches, x, previous)
  {
    GraphPairUnfold(vec, previous, seed, shuffle, solve);
    ShuffledNoDup(vec, seed, shuffle);
    var s := shuffle(vec, seed);
    var (g, c) := RoundGraph(vec, previous, seed, shuffle);
    var m := solve(g);
    var p := GraphPair(vec, previous, seed, shuffle, solve).value;
    var ip := IdPairing(g, c, m).value;
    FullGraphIsComplement(s, previous);
    assert IsMaximal(g, m);
    IdPairingFlaggedSound(g, c, m);
    forall x | x in p.imperfect
      ensures MeetsSomeoneAgain(p.matches, x, previous)
    {
      var t :| 0 <= t < |p.imperfect| && p.imperfect[t] == x;
      FlaggedIdMeetsAgain(s, previous, g, c, m, ip, p, ip.imperfect[t]);
    }
  }

  lemma FlaggedIdMeetsAgain<T>(s: seq<T>, previous: seq<Match<T>>, g: Graph, c: set<ConstraintEdge>,
                               m: seq<(NodeId, NodeId)>, ip: Pairing<NodeId>, p: Pairing<T>, a: NodeId)
    requires NoDup(s) && c == Constraints(s, previous)
    requires IdsBelow(ip.matches, |s|) && a < |s|
    requires p.matches == ElementMatches(ip.matches, s)
    requires HasConstrainedPartner(ip.matches, a, c)
    ensures MeetsSomeoneAgain(p.matches, s[a], previous)
  {
    var k, i, j :| 0 <= k < |ip.matches| && 0 <= i < |ip.matches[k]| && 0 <= j < |ip.matches[k]| &&
      ip.matches[k][i] == a && ip.matches[k][j] != a && NewEdge(a, ip.matches[k][j]) in c;
    var b := ip.matches[k][j];
    ConstraintsIff(s, previous, a, b);
    assert p.matches[k][i] == s[a] && p.matches[k][j] == s[b] != s[a];
  }

  /** With distinct participants, whenever two members of one match met
      before, at least one of them is flagged. */
  lemma GraphPairFlaggedComplete<T(!new)>(vec: seq<T>, previous: seq<Match<T>>, seed: u64, shuffle: Shuffler<T>, solve: Solver)
    requires IsShuffler(shuffle) && IsSolver(solve) && NoDup(vec)
    requires GraphPair(vec, previous, seed, shuffle, solve).Ok?
    ensures var p := GraphPair(vec, previous, seed, shuffle, solve).value;
      forall k, i, j ::
        && 0 <= k < |p.matches| && 0 <= i < |p.matches[k]| && 0 <= j < |p.matches[k]|
        && p.matches[k][i] != p.matches[k][j] && PairedBefore(p.matches[k][i], p.matches[k][j], previous)
        ==> p.matches[k][i] in p.imperfect || p.matches[k][j] in p.imperfect
  {
    GraphPairUnfold(vec, previous, seed, shuffle, solve);
    ShuffledNoDup(vec, seed, shuffle);
    var s := shuffle(vec, seed);
    var (g, c) := RoundGraph(vec, previous, seed, shuffle);
    var m := solve(g);
    var p := GraphPair(vec, previous, seed, shuffle, solve).value;
    var ip := IdPairing(g, c, m).value;
    FullGraphIsComplement(s, previous);
    IdPairingFlaggedComplete(g, c, m);
    forall k, i, j |
        && 0 <= k < |p.matches| && 0 <= i < |p.matches[k]| && 0 <= j < |p.matches[k]|
        && p.matches[k][i] != p.matches[k][j] && PairedBefore(p.matches[k][i], p.matches[k][j], previous)
      ensures p.matches[k][i] in p.imperfect || p.matches[k][j] in p.imperfect
    {
      var a, b := ip.matches[k][i], ip.matches[k][j];
      assert p.matches[k][i] == s[a] && p.matches[k][j] == s[b];
      ConstraintsIff(s, previous, a, b);
      ElementsMember(ip.imperfect, s, a);
      ElementsMember(ip.imperfect, s, b);
    }
  }

  /** With distinct participants, the members a solver match starts with are
      never flagged, even when the remainder who joined them met one of them
      before. */
  lemma GraphPairSolverMembersUnflagged<T(!new)>(vec: seq<T>, previous: seq<Match<T>>, seed: u64, shuffle: Shuffler<T>, solve: Solver)
    requires IsShuffler(shuffle) && IsSolver(solve) && NoDup(vec)
    requires GraphPair(vec, previous, seed, shuffle, solve).Ok?
    ensures var p := GraphPair(vec, previous, seed, shuffle, solve).value;
      forall k :: 0 <= k < |solve(RoundGraph(vec, previous, seed, shuffle).0)| ==>
        k < |p.matches| && |p.matches[k]| >= 2 && p.matches[k][0] !in p.imperfect && p.matches[k][1] !in p.imperfect
  {
    GraphPairUnfold(vec, previous, seed, shuffle, solve);
    ShuffledNoDup(vec, seed, shuffle);
    var s := shuffle(vec, seed);
    var (g, c) := RoundGraph(vec, previous, seed, shuffle);
    var m := solve(g);
    var p := GraphPair(vec, previous, seed, shuffle, solve).value;
    var ip := IdPairing(g, c, m).value;
    IdPairingLayout(g, c, m);
    IdPairingSolverMembersUnflagged(g, c, m);
    MatchingIdsBelow(g, m);
    forall k | 0 <= k < |m|
      ensures k < |p.matches| && |p.matches[k]| >= 2 && p.matches[k][0] !in p.imperfect && p.matches[k][1] !in p.imperfect
    {
      assert p.matches[k][0] == s[m[k].0] && p.matches[k][1] == s[m[k].1];
      ElementsMember(ip.imperfect, s, m[k].0);
      ElementsMember(ip.imperfect, s, m[k].1);
    }
  }

  /** With distinct participants, the third member of a match of three is
      flagged exactly when it met one of the other two before. */
  lemma GraphPairRemainderFlag<T(!new)>(vec: seq<T>, previous: seq<Match<T>>, seed: u64, shuffle: Shuffler<T>, solve: Solver,
                                           k: nat)
    requires IsShuffler(shuffle) && IsSolver(solve) && NoDup(vec)
    requires GraphPair(vec, previous, seed, shuffle, solve).Ok?
    requires k < |GraphPair(vec, previous, seed, shuffle, solve).value.matches|
    requires |GraphPair(vec, previous, seed, shuffle, solve).value.matches[k]| == 3
    ensures var p := GraphPair(vec, previous, seed, shuffle, solve).value;
      p.matches[k][2] in p.imperfect <==>
      PairedBefore(p.matches[k][0], p.matches[k][2], previous) || PairedBefore(p.matches[k][1], p.matches[k][2], previous)
  {
    GraphPairUnfold(vec, previous, seed, shuffle, solve);
    ShuffledNoDup(vec, seed, shuffle);
    var s := shuffle(vec, seed);
    var (g, c) := RoundGraph(vec, previous, seed, shuffle);
    var p := GraphPair(vec, previous, seed, shuffle, solve).value;
    RemainderFlagOnIds(s, previous, g, c, solve(g), k, p.matches, p.imperfect);
  }

  lemma RemainderFlagOnIds<T>(s: seq<T>, previous: seq<Match<T>>, g: Graph, c: set<ConstraintEdge>,
                              m: seq<(NodeId, NodeId)>, k: nat, pm: seq<Match<T>>, pf: seq<T>)
    requires NoDup(s) && c == Constraints(s, previous) && g.nodeCount == |s|
    requires WellFormed(g) && IsMatching(g, m) && IdPairing(g, c, m).Ok?
    requires pm == ElementMatches(IdPairing(g, c, m).value.matches, s)
    requires pf == Elements(IdPairing(g, c, m).value.imperfect, s)
    requires k < |pm| && |pm[k]| == 3
    ensures pm[k][2] in pf <==> PairedBefore(pm[k][0], pm[k][2], previous) || PairedBefore(pm[k][1], pm[k][2], previous)
  {
    var ip := IdPairing(g, c, m).value;
    IdPairingRemainderFlag(g, c, m, k);
    TripleDistinct(g, c, m, k);
    TripleFlagLifted(s, previous, c, ip.matches[k], ip.imperfect, pm[k], pf);
  }

  lemma TripleFlagLifted<T>(s: seq<T>, previous: seq<Match<T>>, c: set<ConstraintEdge>, t: seq<NodeId>,
                            flagged: seq<NodeId>, pm: seq<T>, pflagged: seq<T>)
    requires NoDup(s) && c == Constraints(s, previous)
    requires |t| == 3 && t[0] != t[2] && t[1] != t[2] && AllBelow(t, |s|) && AllBelow(flagged, |s|)
    requires t[2] in flagged <==> NewEdge(t[0], t[2]) in c || NewEdge(t[1], t[2]) in c
    requires pm == Elements(t, s) && pflagged == Elements(flagged, s)
    ensures pm[2] in pflagged <==> PairedBefore(pm[0], pm[2], previous) || PairedBefore(pm[1], pm[2], previous)
  {
    ConstraintsIff(s, previous, t[0], t[2]);
    ConstraintsIff(s, previous, t[1], t[2]);
    ElementsMember(flagged, s, t[2]);
  }

  /** With distinct participants and a maximal solver, the round fails for
      want of a matching exactly when every two participants met before. */
  lemma GraphPairEmptyMatching<T(!new)>(vec: seq<T>, previous: seq<Match<T>>, seed: u64, shuffle: Shuffler<T>, solve: Solver)
    requires IsShuffler(shuffle) && IsSolver(solve) && IsMaximalSolver(solve) && NoDup(vec)
    requires 2 <= |vec| <= GraphPairLimit
    ensures GraphPair(vec, previous, seed, shuffle, solve) == Err(EmptyMatching) <==>
      forall i, j :: 0 <= i < |vec| && 0 <= j < |vec| && i != j ==> PairedBefore(vec[i], vec[j], previous)
  {
    GraphPairErrors(vec, previous, seed, shuffle, solve);
    GraphPairUnfold(vec, previous, seed, shuffle, solve);
    ShuffledNoDup(vec, seed, shuffle);
    var s := shuffle(vec, seed);
    var g := RoundGraph(vec, previous, seed, shuffle).0;
    var m := solve(g);
    if m == [] {
      assert IsMaximal(g, m);
      NoEdgesWithoutMatching(g, m);
      EveryoneMetBefore(vec, previous, s);
    } else {
      assert NewEdge(m[0].0, m[0].1) in g.edges;
      SomeoneNew(vec, previous, s, m[0].0, m[0].1);
    }
  }

  lemma NoEdgesWithoutMatching(g: Graph, m: seq<(NodeId, NodeId)>)
    requires IsMaximal(g, m) && m == []
    ensures g.edges == {}
  {
    assert EdgeMatches(m) == [];
    assert Covered(m) == {};
  }

  /** A graph of distinct participants without edges: every two of them met before. */
  lemma EveryoneMetBefore<T>(vec: seq<T>, previous: seq<Match<T>>, s: seq<T>)
    requires NoDup(vec) && NoDup(s) && multiset(s) == multiset(vec)
    requires BuildFullMatchingGraph(s, previous).0.edges == {}
    ensures forall i, j :: 0 <= i < |vec| && 0 <= j < |vec| && i != j ==> PairedBefore(vec[i], vec[j], previous)
  {
    forall i, j | 0 <= i < |vec| && 0 <= j < |vec| && i != j
      ensures PairedBefore(vec[i], vec[j], previous)
    {
      assert vec[i] in multiset(s) && vec[j] in multiset(s);
      var a :| 0 <= a < |s| && s[a] == vec[i];
      var b :| 0 <= b < |s| && s[b] == vec[j];
      CandidateIff(s, previous, a, b);
    }
  }

  /** An edge of the round's graph joins two participants who never met. */
  lemma SomeoneNew<T>(vec: seq<T>, previous: seq<Match<T>>, s: seq<T>, a: NodeId, b: NodeId)
    requires NoDup(vec) && NoDup(s) && multiset(s) == multiset(vec)
    requires NewEdge(a, b) in BuildFullMatchingGraph(s, previous).0.edges
    ensures exists i, j :: 0 <= i < |vec| && 0 <= j < |vec| && i != j && !PairedBefore(vec[i], vec[j], previous)
  {
    assert WellFormed(BuildFullMatchingGraph(s, previous).0);
    var e := NewEdge(a, b);
    assert a < |s| && b < |s| && a != b by {
      assert e.lower in multiset{a, b} && e.upper in multiset{a, b};
    }
    CandidateIff(s, previous, a, b);
    assert s[a] in multiset(vec) && s[b] in multiset(vec);
    var i :| 0 <= i < |vec| && vec[i] == s[a];
    var j :| 0 <= j < |vec| && vec[j] == s[b];
  }
}
