/** The seeded chunk-by-two pairing of `src/pair.rs` (not reachable from the
    bot's entry point, which declares no `pair` module). */
module Pair {
  import opened Prelude
  import opened Seqs

  /** The seeded shuffle: any function that returns a permutation of its input.
      ChaCha8 seeded from the seed alone is one such function; the result
      depends on nothing but the sequence and the seed. */
  type Shuffler<!T> = (seq<T>, u64) -> seq<T>

  ghost predicate IsShuffler<T(!new)>(shuffle: Shuffler<T>)
  {
    forall v: seq<T>, seed: u64 :: multiset(shuffle(v, seed)) == multiset(v)
  }

  /** The shape every chunk-by-two pairing of `n` elements has: `n / 2` chunks,
      each of two elements except that the last has three when `n` is odd. */
  predicate ChunkShape<T>(chunks: seq<seq<T>>, n: nat)
  {
    && |chunks| == n / 2
    && forall k :: 0 <= k < |chunks| ==>
         |chunks[k]| == if k == |chunks| - 1 && n % 2 == 1 then 3 else 2
  }

  /** Shuffles, cuts the result into consecutive pairs and appends a leftover
      element to the last pair. Called with at most one element the source
      panics, so that is excluded here. */
  method Pair<T(!new)>(vec: seq<T>, seed: u64, shuffle: Shuffler<T>) returns (x: seq<seq<T>>)
    requires IsShuffler(shuffle)
    requires |vec| > 1
    ensures Flatten(x) == shuffle(vec, seed)
    ensures multiset(Flatten(x)) == multiset(vec)
    ensures ChunkShape(x, |vec|)
  {
    var shuffled := shuffle(vec, seed);
    assert |shuffled| == |vec| by {
      assert multiset(shuffled) == multiset(vec);
      assert |multiset(shuffled)| == |shuffled| && |multiset(vec)| == |vec|;
    }
    var chunks := ChunksOfTwo(shuffled);
    var remainder := ChunkRemainder(shuffled);
    x := chunks;
    x := x[|x| - 1 := x[|x| - 1] + remainder];
    ChunksOfTwoCover(shuffled);
    FlattenExtendLast(chunks, remainder);
    ExtendedChunkShape(shuffled, x);
  }

  /** Chunks of two with the remainder appended to the last one have the
      chunk-by-two shape. */
  lemma ExtendedChunkShape<T>(s: seq<T>, x: seq<seq<T>>)
    requires |s| > 1
    requires x == ChunksOfTwo(s)[|s| / 2 - 1 := ChunksOfTwo(s)[|s| / 2 - 1] + ChunkRemainder(s)]
    ensures ChunkShape(x, |s|)
  {
    var chunks := ChunksOfTwo(s);
    forall k | 0 <= k < |x|
      ensures |x[k]| == if k == |x| - 1 && |s| % 2 == 1 then 3 else 2
    {
      assert |chunks[k]| == 2;
    }
  }
}
