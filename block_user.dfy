/**
 * `BlockUser::split_blocks`: cutting a slice into whole blocks of a fixed
 * size and a shorter tail, by one division and one remainder. Blocks are
 * modelled as sequences of length `blockSize`; the raw pointers of the
 * source only express this slicing.
 */
module BlockUser {

  import opened DivMod

  /** The elements of every part, in order. */
  function Flatten<T>(parts: seq<seq<T>>): seq<T>
  {
    if parts == [] then [] else Flatten(parts[..|parts| - 1]) + parts[|parts| - 1]
  }

  lemma {:induction false} FlattenAppend<T>(a: seq<seq<T>>, b: seq<seq<T>>)
    ensures Flatten(a + b) == Flatten(a) + Flatten(b)
  {
    if b != [] {
      assert (a + b)[..|a + b| - 1] == a + b[..|b| - 1];
      FlattenAppend(a, b[..|b| - 1]);
    } else {
      assert a + b == a;
    }
  }

  ghost predicate AllSized<T>(parts: seq<seq<T>>, n: nat)
  {
    forall i :: 0 <= i < |parts| ==> |parts[i]| == n
  }

  /** `data`, whose length is a multiple of `n`, cut into consecutive pieces of length `n`. */
  function Chunk<T>(data: seq<T>, n: nat): (r: seq<seq<T>>)
    requires n > 0 && |data| % n == 0
    ensures AllSized(r, n) && Flatten(r) == data
    decreases |data|
  {
    if |data| == 0 then [] else
      AtLeastDivisor(|data|, n);
      DivStep(|data|, n);
      var r := Chunk(data[..|data| - n], n) + [data[|data| - n..]];
      assert r[..|r| - 1] == Chunk(data[..|data| - n], n);
      r
  }

  lemma AppendMod<T>(a: seq<T>, b: seq<T>, n: nat)
    requires n > 0 && |a| % n == 0 && |b| % n == 0
    ensures |a + b| % n == 0
  {
    assert |a + b| == (|a| / n) * n + |b|;
    ModAddMultiple(|a| / n, |b|, n);
  }

  /** There are `|data| / n` pieces. */
  lemma ChunkCount<T>(data: seq<T>, n: nat)
    requires n > 0 && |data| % n == 0
    ensures |Chunk(data, n)| == |data| / n
  {
    FlattenSized(Chunk(data, n), n);
    MulDiv(|Chunk(data, n)|, n);
  }

  /** Blocks of length `n` flatten to a multiple of `n`. */
  lemma {:induction false} FlattenSized<T>(parts: seq<seq<T>>, n: nat)
    requires n > 0 && AllSized(parts, n)
    ensures |Flatten(parts)| == |parts| * n && |Flatten(parts)| % n == 0
  {
    if parts != [] {
      FlattenSized(parts[..|parts| - 1], n);
      assert (|parts| - 1) * n + n == |parts| * n;
    }
    MulDiv(|parts|, n);
  }

  /** Chunking undoes flattening. */
  lemma {:induction false} ChunkFlatten<T>(parts: seq<seq<T>>, n: nat)
    requires n > 0 && AllSized(parts, n) && |Flatten(parts)| % n == 0
    ensures Chunk(Flatten(parts), n) == parts
  {
    if parts != [] {
      var init := parts[..|parts| - 1];
      var f := Flatten(parts);
      FlattenSized(init, n);
      ChunkFlatten(init, n);
      assert f[..|f| - n] == Flatten(init);
      assert f[|f| - n..] == parts[|parts| - 1];
    }
  }

  /** Chunking respects concatenation at a block boundary. */
  lemma ChunkAppend<T>(a: seq<T>, b: seq<T>, n: nat)
    requires n > 0 && |a| % n == 0 && |b| % n == 0
    ensures |a + b| % n == 0 && Chunk(a + b, n) == Chunk(a, n) + Chunk(b, n)
  {
    AppendMod(a, b, n);
    var parts := Chunk(a, n) + Chunk(b, n);
    FlattenAppend(Chunk(a, n), Chunk(b, n));
    ChunkFlatten(parts, n);
  }

  datatype Split<T> = Split(blocks: seq<seq<T>>, tail: seq<T>)

  /**
   * `split_blocks`: `|data| / blockSize` whole blocks, then the remaining
   * `|data| % blockSize` elements; together they are `data` again.
   */
  function SplitBlocks<T>(data: seq<T>, blockSize: nat): (r: Split<T>)
    requires blockSize > 0
    ensures AllSized(r.blocks, blockSize) && |r.tail| < blockSize
    ensures Flatten(r.blocks) + r.tail == data
  {
    var count := |data| / blockSize;
    DivBounds(|data|, blockSize);
    MulDiv(count, blockSize);
    var cut := count * blockSize;
    assert data[..cut] + data[cut..] == data;
    Split(Chunk(data[..cut], blockSize), data[cut..])
  }

  /** The counts of `split_blocks`: `|data| / blockSize` blocks and a tail of `|data| % blockSize`. */
  lemma SplitBlocksCounts<T>(data: seq<T>, blockSize: nat)
    requires blockSize > 0
    ensures |SplitBlocks(data, blockSize).blocks| == |data| / blockSize
    ensures |SplitBlocks(data, blockSize).tail| == |data| % blockSize
  {
    var count := |data| / blockSize;
    DivBounds(|data|, blockSize);
    MulDiv(count, blockSize);
    ChunkCount(data[..count * blockSize], blockSize);
  }

  /** Data that fills whole blocks leaves no tail; one element less leaves one block fewer and a tail of `blockSize - 1`. */
  lemma SplitBoundaries<T>(data: seq<T>, blockSize: nat, count: nat)
    requires blockSize > 0 && count > 0 && |data| == count * blockSize
    ensures |SplitBlocks(data, blockSize).blocks| == count && SplitBlocks(data, blockSize).tail == []
    ensures |SplitBlocks(data[..|data| - 1], blockSize).blocks| == count - 1
    ensures |SplitBlocks(data[..|data| - 1], blockSize).tail| == blockSize - 1
  {
    MulDiv(count, blockSize);
    SplitBlocksCounts(data, blockSize);
    SplitOneShort(data, blockSize, count);
  }

  lemma SplitOneShort<T>(data: seq<T>, blockSize: nat, count: nat)
    requires blockSize > 0 && count > 0 && |data| == count * blockSize
    ensures |SplitBlocks(data[..|data| - 1], blockSize).blocks| == count - 1
    ensures |SplitBlocks(data[..|data| - 1], blockSize).tail| == blockSize - 1
  {
    assert |data| - 1 == (count - 1) * blockSize + (blockSize - 1);
    ModUnique(|data| - 1, blockSize, count - 1, blockSize - 1);
    SplitBlocksCounts(data[..|data| - 1], blockSize);
  }
}
