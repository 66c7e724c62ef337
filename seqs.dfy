/** The behaviour of the Rust standard-library sequence and string operations
    the program relies on: `concat`/`flatten`, `chunks_exact(2)`, `join`,
    `split`, `rsplit_once`, `take`, the last-writer-wins lookup of a collected
    `HashMap`, and the lexicographic `Ord` of `Vec`. */
module Seqs {
  import opened Prelude

  /** `iter().flatten()`: all parts, in order. */
  function Flatten<T>(ss: seq<seq<T>>): seq<T>
  {
    if ss == [] then [] else ss[0] + Flatten(ss[1..])
  }

  lemma {:induction false} FlattenAppend<T>(a: seq<seq<T>>, b: seq<seq<T>>)
    ensures Flatten(a + b) == Flatten(a) + Flatten(b)
  {
    if a == [] {
      assert a + b == b;
    } else {
      assert (a + b)[1..] == a[1..] + b;
      FlattenAppend(a[1..], b);
    }
  }

  lemma FlattenSingle<T>(s: seq<T>)
    ensures Flatten([s]) == s
  {
    assert [s][1..] == [];
  }

  /** Membership in a flattened sequence is membership in one of its parts. */
  lemma {:induction false} InFlatten<T>(ss: seq<seq<T>>, x: T)
    ensures x in Flatten(ss) <==> exists k :: 0 <= k < |ss| && x in ss[k]
  {
    if ss != [] {
      InFlatten(ss[1..], x);
      if x in Flatten(ss[1..]) {
        var k :| 0 <= k < |ss[1..]| && x in ss[1..][k];
        assert x in ss[k + 1];
      }
      if exists k :: 0 <= k < |ss| && x in ss[k] {
        var k :| 0 <= k < |ss| && x in ss[k];
        if k > 0 { assert x in ss[1..][k - 1]; }
      }
    }
  }

  /** Replacing the last part by an extension of it extends the flattening. */
  lemma FlattenExtendLast<T>(ss: seq<seq<T>>, extra: seq<T>)
    requires |ss| > 0
    ensures Flatten(ss[|ss| - 1 := ss[|ss| - 1] + extra]) == Flatten(ss) + extra
  {
    var n := |ss| - 1;
    var updated := ss[n := ss[n] + extra];
    assert ss == ss[..n] + [ss[n]];
    assert updated == ss[..n] + [ss[n] + extra];
    FlattenAppend(ss[..n], [ss[n]]);
    FlattenAppend(ss[..n], [ss[n] + extra]);
    FlattenSingle(ss[n]);
    FlattenSingle(ss[n] + extra);
  }

  /** Replacing one part by an extension of it adds the extension to the multiset. */
  lemma FlattenExtendAt<T>(ss: seq<seq<T>>, k: nat, extra: seq<T>)
    requires k < |ss|
    ensures multiset(Flatten(ss[k := ss[k] + extra])) == multiset(Flatten(ss)) + multiset(extra)
  {
    var updated := ss[k := ss[k] + extra];
    assert ss == ss[..k] + [ss[k]] + ss[k + 1..];
    assert updated == ss[..k] + [ss[k] + extra] + ss[k + 1..];
    FlattenAppend(ss[..k] + [ss[k]], ss[k + 1..]);
    FlattenAppend(ss[..k], [ss[k]]);
    FlattenAppend(ss[..k] + [ss[k] + extra], ss[k + 1..]);
    FlattenAppend(ss[..k], [ss[k] + extra]);
    FlattenSingle(ss[k]);
    FlattenSingle(ss[k] + extra);
  }

  /** `iter().map(|p| p.len()).sum()`. */
  function SumLengths<T>(ss: seq<seq<T>>): nat
  {
    if ss == [] then 0 else |ss[0]| + SumLengths(ss[1..])
  }

  lemma {:induction false} FlattenLength<T>(ss: seq<seq<T>>)
    ensures |Flatten(ss)| == SumLengths(ss)
  {
    if ss != [] {
      FlattenLength(ss[1..]);
    }
  }

  predicate NoDup<T(==)>(s: seq<T>)
  {
    forall i, j :: 0 <= i < j < |s| ==> s[i] != s[j]
  }

  /** Concatenation regrouped to the right. */
  lemma Regroup<T>(a: seq<T>, b: seq<T>, c: seq<T>, d: seq<T>)
    ensures a + b + c + d == a + (b + (c + d))
  {
  }

  /** A non-empty sequence is its head followed by its tail. */
  lemma HeadTail<T>(s: seq<T>)
    requires s != []
    ensures [s[0]] + s[1..] == s
  {
  }

  /** A sequence without duplicates holds each of its elements exactly once. */
  lemma {:induction false} NoDupMultiplicity<T>(s: seq<T>, x: T)
    requires NoDup(s)
    ensures multiset(s)[x] == if x in s then 1 else 0
  {
    if s != [] {
      assert s == [s[0]] + s[1..];
      assert NoDup(s[1..]);
      NoDupMultiplicity(s[1..], x);
      assert s[0] !in s[1..];
    }
  }

  /** Conversely, a sequence that holds no element twice has no duplicates. */
  lemma MultiplicityNoDup<T>(s: seq<T>)
    requires forall x :: multiset(s)[x] <= 1
    ensures NoDup(s)
  {
    forall i, j | 0 <= i < j < |s|
      ensures s[i] != s[j]
    {
      assert s == s[..i] + [s[i]] + s[i + 1..j] + [s[j]] + s[j + 1..];
      assert multiset([s[i], s[j]]) <= multiset(s);
    }
  }

  /** Joining two duplicate-free sequences with no common element gives a duplicate-free sequence. */
  lemma NoDupAppend<T>(a: seq<T>, b: seq<T>)
    requires NoDup(a) && NoDup(b)
    requires forall i, j :: 0 <= i < |a| && 0 <= j < |b| ==> a[i] != b[j]
    ensures NoDup(a + b)
  {
    var c := a + b;
    forall i, j | 0 <= i < j < |c|
      ensures c[i] != c[j]
    {
      if j < |a| {
        assert c[i] == a[i] && c[j] == a[j];
      } else if i < |a| {
        assert c[i] == a[i] && c[j] == b[j - |a|];
      } else {
        assert c[i] == b[i - |a|] && c[j] == b[j - |a|];
      }
    }
  }

  /** Both halves of a duplicate-free sequence are duplicate-free. */
  lemma NoDupHalves<T>(a: seq<T>, b: seq<T>)
    requires NoDup(a + b)
    ensures NoDup(a) && NoDup(b)
  {
    var c := a + b;
    assert forall i :: 0 <= i < |a| ==> c[i] == a[i];
    assert forall i :: 0 <= i < |b| ==> c[|a| + i] == b[i];
  }

  /** Every part of a duplicate-free flattening is duplicate-free. */
  lemma {:induction false} FlattenPartNoDup<T>(ss: seq<seq<T>>, k: nat)
    requires k < |ss| && NoDup(Flatten(ss))
    ensures NoDup(ss[k])
  {
    NoDupHalves(ss[0], Flatten(ss[1..]));
    if k > 0 {
      FlattenPartNoDup(ss[1..], k - 1);
    }
  }

  /** Two duplicate-free sequences with the same elements are permutations of each other. */
  lemma NoDupSameSet<T>(a: seq<T>, b: seq<T>)
    requires NoDup(a) && NoDup(b)
    requires forall x :: x in a <==> x in b
    ensures multiset(a) == multiset(b)
  {
    forall x
      ensures multiset(a)[x] == multiset(b)[x]
    {
      NoDupMultiplicity(a, x);
      NoDupMultiplicity(b, x);
    }
  }

  /** Permuting a sequence keeps it duplicate-free. */
  lemma NoDupPermutation<T>(a: seq<T>, b: seq<T>)
    requires NoDup(a) && multiset(a) == multiset(b)
    ensures NoDup(b)
  {
    forall x
      ensures multiset(b)[x] <= 1
    {
      NoDupMultiplicity(a, x);
    }
    MultiplicityNoDup(b);
  }

  /** `chunks_exact(2)` collected into vectors: consecutive pairs. */
  function ChunksOfTwo<T>(s: seq<T>): (r: seq<seq<T>>)
    ensures |r| == |s| / 2
    ensures forall k :: 0 <= k < |r| ==> r[k] == s[2 * k..2 * k + 2]
  {
    if |s| < 2 then [] else [s[..2]] + ChunksOfTwo(s[2..])
  }

  /** `chunks_exact(2).remainder()`: the odd last element, if any. */
  function ChunkRemainder<T>(s: seq<T>): (r: seq<T>)
    ensures |r| == |s| % 2 && |r| <= 1
  {
    s[|s| - |s| % 2..]
  }

  /** The chunks followed by the remainder give back the whole sequence. */
  lemma {:induction false} ChunksOfTwoCover<T>(s: seq<T>)
    ensures Flatten(ChunksOfTwo(s)) + ChunkRemainder(s) == s
  {
    if |s| >= 2 {
      ChunksOfTwoCover(s[2..]);
      assert ChunkRemainder(s[2..]) == ChunkRemainder(s);
      assert ChunksOfTwo(s)[1..] == ChunksOfTwo(s[2..]);
      assert s == s[..2] + s[2..];
    }
  }

  /** `Itertools::join` and `[String]::join`: the parts separated by `sep`. */
  function Join<T>(parts: seq<seq<T>>, sep: seq<T>): seq<T>
  {
    if |parts| == 0 then []
    else if |parts| == 1 then parts[0]
    else parts[0] + sep + Join(parts[1..], sep)
  }

  /** `str::split` on a one-character separator: never empty, pieces free of the separator. */
  function Split<T(==)>(s: seq<T>, sep: T): (r: seq<seq<T>>)
    ensures |r| >= 1
    ensures forall k :: 0 <= k < |r| ==> sep !in r[k]
  {
    if s == [] then [[]]
    else
      var rest := Split(s[1..], sep);
      if s[0] == sep then [[]] + rest else [[s[0]] + rest[0]] + rest[1..]
  }

  /** Joining the pieces of a split with the separator restores the input. */
  lemma {:induction false} JoinSplit<T>(s: seq<T>, sep: T)
    ensures Join(Split(s, sep), [sep]) == s
  {
    if s != [] {
      var rest := Split(s[1..], sep);
      JoinSplit(s[1..], sep);
      if s[0] == sep {
        assert Split(s, sep) == [[]] + rest;
        assert ([[]] + rest)[1..] == rest;
      } else {
        var r := Split(s, sep);
        assert r == [[s[0]] + rest[0]] + rest[1..];
        if |rest| == 1 {
          assert Join(r, [sep]) == [s[0]] + rest[0];
        } else {
          assert r[1..] == rest[1..];
          assert Join(rest, [sep]) == rest[0] + [sep] + Join(rest[1..], [sep]);
          assert Join(r, [sep]) == [s[0]] + rest[0] + [sep] + Join(rest[1..], [sep]);
        }
      }
    }
  }

  /** A piece without separator stays whole, and the rest is split on its own. */
  lemma {:induction false} SplitPrefix<T>(a: seq<T>, sep: T, b: seq<T>)
    requires sep !in a
    ensures Split(a + [sep] + b, sep) == [a] + Split(b, sep)
  {
    if a == [] {
      assert a + [sep] + b == [sep] + b;
      assert ([sep] + b)[1..] == b;
    } else {
      assert (a + [sep] + b)[1..] == a[1..] + [sep] + b;
      SplitPrefix(a[1..], sep, b);
      assert [a[0]] + a[1..] == a;
    }
  }

  lemma {:induction false} SplitNoSeparator<T>(a: seq<T>, sep: T)
    requires sep !in a
    ensures Split(a, sep) == [a]
  {
    if a != [] {
      SplitNoSeparator(a[1..], sep);
      assert [a[0]] + a[1..] == a;
    }
  }

  /** Splitting at a separator splits the text on each side of it on its own. */
  lemma {:induction false} SplitAppend<T>(a: seq<T>, sep: T, b: seq<T>)
    ensures Split(a + [sep] + b, sep) == Split(a, sep) + Split(b, sep)
  {
    if a == [] {
      assert a + [sep] + b == [sep] + b;
      SplitCons(sep, b, sep);
    } else {
      assert a + [sep] + b == [a[0]] + (a[1..] + [sep] + b);
      assert a == [a[0]] + a[1..];
      SplitAppend(a[1..], sep, b);
      SplitCons(a[0], a[1..] + [sep] + b, sep);
      SplitCons(a[0], a[1..], sep);
      SplitConsAppend(a[0], Split(a[1..], sep), Split(b, sep), sep);
    }
  }

  lemma SplitCons<T>(c: T, t: seq<T>, sep: T)
    ensures Split([c] + t, sep) ==
      var rest := Split(t, sep);
      if c == sep then [[]] + rest else [[c] + rest[0]] + rest[1..]
  {
    assert ([c] + t)[0] == c && ([c] + t)[1..] == t;
  }

  lemma SplitConsAppend<T>(c: T, left: seq<seq<T>>, right: seq<seq<T>>, sep: T)
    requires |left| >= 1
    ensures (var rest := left + right; if c == sep then [[]] + rest else [[c] + rest[0]] + rest[1..])
      == (if c == sep then [[]] + left else [[c] + left[0]] + left[1..]) + right
  {
    assert (left + right)[0] == left[0];
    assert (left + right)[1..] == left[1..] + right;
  }

  /** Splitting a join of separator-free pieces gives back the pieces. */
  lemma {:induction false} SplitJoin<T>(parts: seq<seq<T>>, sep: T)
    requires |parts| >= 1
    requires forall k :: 0 <= k < |parts| ==> sep !in parts[k]
    ensures Split(Join(parts, [sep]), sep) == parts
  {
    if |parts| == 1 {
      SplitNoSeparator(parts[0], sep);
    } else {
      SplitJoin(parts[1..], sep);
      SplitPrefix(parts[0], sep, Join(parts[1..], [sep]));
      assert [parts[0]] + parts[1..] == parts;
    }
  }

  /** Splitting a join whose later pieces are separator-free splits the first
      piece on its own and keeps the later pieces whole. */
  lemma SplitJoinAfter<T>(first: seq<T>, rest: seq<seq<T>>, sep: T)
    requires |rest| >= 1
    requires forall k :: 0 <= k < |rest| ==> sep !in rest[k]
    ensures Split(Join([first] + rest, [sep]), sep) == Split(first, sep) + rest
  {
    assert ([first] + rest)[1..] == rest;
    assert Join([first] + rest, [sep]) == first + [sep] + Join(rest, [sep]);
    SplitAppend(first, sep, Join(rest, [sep]));
    SplitJoin(rest, sep);
  }

  /** The index of the last occurrence of `x`. Collecting `(x, i)` pairs into a
      `HashMap` keeps the index of the last occurrence of each key. */
  function LastIndexOf<T(==)>(s: seq<T>, x: T): (r: Option<nat>)
    ensures r.None? <==> x !in s
    ensures r.Some? ==> r.value < |s| && s[r.value] == x
    ensures r.Some? ==> forall j :: r.value < j < |s| ==> s[j] != x
  {
    if |s| == 0 then None
    else if s[|s| - 1] == x then Some(|s| - 1)
    else LastIndexOf(s[..|s| - 1], x)
  }

  /** In a duplicate-free sequence the last occurrence is the only one. */
  lemma LastIndexOfNoDup<T>(s: seq<T>, i: nat)
    requires NoDup(s) && i < |s|
    ensures LastIndexOf(s, s[i]) == Some(i)
  {
  }

  /** `str::rsplit_once`: the text before and after the last separator. */
  function RSplitOnce<T(==)>(s: seq<T>, sep: T): (r: Option<(seq<T>, seq<T>)>)
    ensures r.None? <==> sep !in s
    ensures r.Some? ==> s == r.value.0 + [sep] + r.value.1 && sep !in r.value.1
  {
    match LastIndexOf(s, sep)
    case None => None
    case Some(i) =>
      assert s == s[..i] + [sep] + s[i + 1..];
      Some((s[..i], s[i + 1..]))
  }

  /** Splitting at the last separator undoes gluing with a separator-free tail. */
  lemma RSplitOnceGlued<T>(a: seq<T>, sep: T, b: seq<T>)
    requires sep !in b
    ensures RSplitOnce(a + [sep] + b, sep) == Some((a, b))
  {
    var s := a + [sep] + b;
    assert s[|a|] == sep;
    assert forall j :: |a| < j < |s| ==> s[j] == b[j - |a| - 1];
    assert LastIndexOf(s, sep) == Some(|a|);
    assert s[..|a|] == a && s[|a| + 1..] == b;
  }

  /** `take(n)` on an iterator. */
  function Take<T>(s: seq<T>, n: nat): (r: seq<T>)
    ensures |r| <= n && |r| <= |s| && r == s[..|r|]
    ensures |s| <= n ==> r == s
    ensures |r| == if |s| <= n then |s| else n
  {
    if |s| <= n then s else s[..n]
  }

  /** The elements of `s` that `keep` accepts, in their original order (`iter().filter`). */
  function Filter<T>(s: seq<T>, keep: T -> bool): (r: seq<T>)
    ensures |r| <= |s|
    ensures forall k :: 0 <= k < |r| ==> r[k] in s && keep(r[k])
    ensures forall k :: 0 <= k < |s| && keep(s[k]) ==> s[k] in r
  {
    if s == [] then []
    else (if keep(s[0]) then [s[0]] else []) + Filter(s[1..], keep)
  }

  lemma {:induction false} FilterAppend<T>(a: seq<T>, b: seq<T>, keep: T -> bool)
    ensures Filter(a + b, keep) == Filter(a, keep) + Filter(b, keep)
  {
    if a == [] {
      assert a + b == b;
    } else {
      assert (a + b)[0] == a[0];
      assert (a + b)[1..] == a[1..] + b;
      FilterAppend(a[1..], b, keep);
    }
  }

  /** Filtering keeps a sequence whole when every element is accepted. */
  lemma {:induction false} FilterAll<T>(s: seq<T>, keep: T -> bool)
    requires forall k :: 0 <= k < |s| ==> keep(s[k])
    ensures Filter(s, keep) == s
  {
    if s != [] {
      FilterAll(s[1..], keep);
    }
  }

  /** Filtering out a single rejected element between accepted ones removes
      just that element. */
  lemma FilterDropOne<T>(a: seq<T>, x: T, b: seq<T>, keep: T -> bool)
    requires forall k :: 0 <= k < |a| ==> keep(a[k])
    requires forall k :: 0 <= k < |b| ==> keep(b[k])
    requires !keep(x)
    ensures Filter(a + [x] + b, keep) == a + b
  {
    FilterAppend(a + [x], b, keep);
    FilterAppend(a, [x], keep);
    FilterAll(a, keep);
    FilterAll(b, keep);
    assert Filter([x], keep) == [];
    assert a + [] == a;
  }

  /** Joining two non-empty lists of parts puts one separator between them. */
  lemma {:induction false} JoinAppend<T>(a: seq<seq<T>>, b: seq<seq<T>>, sep: seq<T>)
    requires |a| >= 1 && |b| >= 1
    ensures Join(a + b, sep) == Join(a, sep) + sep + Join(b, sep)
  {
    assert (a + b)[0] == a[0];
    if |a| > 1 {
      assert (a + b)[1..] == a[1..] + b;
      JoinAppend(a[1..], b, sep);
    } else {
      assert (a + b)[1..] == b;
    }
  }

  /** The lexicographic order `Ord` gives to `Vec<u16>`: a proper prefix comes first. */
  predicate LexLess(a: seq<nat>, b: seq<nat>)
  {
    if a == [] then b != []
    else if b == [] then false
    else a[0] < b[0] || (a[0] == b[0] && LexLess(a[1..], b[1..]))
  }

  lemma {:induction false} LexLessIrreflexive(a: seq<nat>)
    ensures !LexLess(a, a)
  {
    if a != [] {
      LexLessIrreflexive(a[1..]);
    }
  }

  lemma {:induction false} LexLessTransitive(a: seq<nat>, b: seq<nat>, c: seq<nat>)
    requires LexLess(a, b) && LexLess(b, c)
    ensures LexLess(a, c)
  {
    if a != [] && b != [] && c != [] && a[0] == b[0] == c[0] {
      LexLessTransitive(a[1..], b[1..], c[1..]);
    }
  }

  lemma {:induction false} LexLessAsymmetric(a: seq<nat>, b: seq<nat>)
    requires LexLess(a, b)
    ensures !LexLess(b, a)
  {
    if a != [] && b != [] && a[0] == b[0] {
      LexLessAsymmetric(a[1..], b[1..]);
    }
  }

  lemma {:induction false} LexLessTotal(a: seq<nat>, b: seq<nat>)
    requires a != b
    ensures LexLess(a, b) || LexLess(b, a)
  {
    if a != [] && b != [] && a[0] == b[0] {
      assert a == [a[0]] + a[1..] && b == [b[0]] + b[1..];
      LexLessTotal(a[1..], b[1..]);
    }
  }
}
