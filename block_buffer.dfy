/**
 * `BlockBuffer`: a fixed-size byte buffer that holds the incomplete block
 * of a stream. `process_data` hands every complete block to a processor
 * and keeps the rest. The processor closure is defunctionalised: the method
 * returns the arguments of its calls, in call order, each a non-empty
 * sequence of blocks; the caller then runs its own processing over them.
 */
module Buffering {

  import opened BlockUser
  import opened DivMod

  class BlockBuffer {
    /** `BLOCK_SIZE`. */
    const size: nat
    /** `buf`: the bytes held, of which the first `pos` are data. */
    const buf: array<bv8>
    var pos: nat

    /** Data occupy `buf[..pos]`, never a whole block, and the bytes after them are zero. */
    ghost predicate Valid()
      reads this, buf
    {
      0 < size && buf.Length == size && pos < size &&
      forall i :: pos <= i < size ==> buf[i] == 0
    }

    /** `new` and `default`: a block of zeros with nothing in it. */
    constructor (blockSize: nat)
      requires blockSize > 0
      ensures Valid() && size == blockSize && pos == 0 && fresh(buf)
    {
      size := blockSize;
      buf := new bv8[blockSize](_ => 0);
      pos := 0;
    }

    /** `get_remain`: the room left in the block. */
    function GetRemain(): (r: nat)
      reads this
      requires pos <= size
      ensures pos + r == size
    {
      size - pos
    }

    /** `get_pos`. */
    function GetPos(): nat
      reads this
    {
      pos
    }

    /**
     * `process_data`: the processor calls and the bytes left in the buffer
     * are those `ProcessOutcome` gives for the buffered bytes and `data`.
     */
    method ProcessData(data: seq<bv8>) returns (calls: seq<seq<seq<bv8>>>)
      requires Valid()
      modifies this, buf
      ensures Valid()
      ensures Processed(calls, buf[..pos]) == ProcessOutcome(old(buf[..pos]), data, size)
    {
      var len := |data|;
      var p := GetPos();
      var rem := GetRemain();
      ghost var held := buf[..p];
      if len < rem {
        CopyIn(data);
        calls := [];
        assert buf[..pos] == held + data;
        return;
      }
      calls := [];
      var rest := data;
      if p != 0 {
        FillBlock(data[..rem]);
        calls := [[buf[..]]];
        rest := data[rem..];
      }
      var split := SplitBlocks(rest, size);
      if split.blocks != [] {
        calls := calls + [split.blocks];
      }
      Refill(split.tail);
    }

    /** `buf[pos..][..len].copy_from_slice(data)` and moving `pos` past it. */
    method CopyIn(data: seq<bv8>)
      requires Valid() && |data| < size - pos
      modifies this, buf
      ensures Valid() && pos == old(pos) + |data|
      ensures buf[..] == old(buf[..pos]) + data + old(buf[pos + |data|..])
    {
      var p := pos;
      forall i | 0 <= i < |data| {
        buf[p + i] := data[i];
      }
      pos := p + |data|;
    }

    /** `buf[pos..].copy_from_slice(left)`: completing the buffered block. */
    method FillBlock(left: seq<bv8>)
      requires Valid() && |left| == size - pos
      modifies buf
      ensures buf[..] == old(buf[..pos]) + left
    {
      var p := pos;
      forall i | 0 <= i < |left| {
        buf[p + i] := left[i];
      }
    }

    /** Copying the tail to the front, zeroing the rest, and setting `pos` to the tail's length. */
    method Refill(tail: seq<bv8>)
      requires 0 < size && buf.Length == size && |tail| < size
      modifies this, buf
      ensures Valid() && buf[..pos] == tail
    {
      forall i | 0 <= i < |tail| {
        buf[i] := tail[i];
      }
      forall i | |tail| <= i < size {
        buf[i] := 0;
      }
      pos := |tail|;
    }
  }

  /** The processor calls of one `process_data`, in order, and the bytes it leaves buffered. */
  datatype Processed = Processed(calls: seq<seq<seq<bv8>>>, rest: seq<bv8>)

  /**
   * What `process_data` does with the buffered bytes `held` and new `data`:
   * data shorter than the room left is only buffered; otherwise a non-empty
   * buffer is completed and processed on its own, then the whole blocks of
   * the remaining data are processed in one call, and their tail is buffered.
   */
  function ProcessOutcome(held: seq<bv8>, data: seq<bv8>, size: nat): Processed
    requires |held| < size
  {
    var rem := size - |held|;
    if |data| < rem then Processed([], held + data)
    else
      var first := if |held| != 0 then [[held + data[..rem]]] else [];
      var rest := if |held| != 0 then data[rem..] else data;
      var split := SplitBlocks(rest, size);
      Processed(first + (if split.blocks != [] then [split.blocks] else []), split.tail)
  }

  /**
   * Nothing is lost, duplicated or reordered: the buffered bytes followed by
   * the data are the processed blocks followed by the new buffer contents,
   * every call hands over at least one block, and every block is whole.
   */
  lemma ProcessOutcomeJoin(held: seq<bv8>, data: seq<bv8>, size: nat)
    requires |held| < size
    ensures var r := ProcessOutcome(held, data, size);
      held + data == Flatten(Flatten(r.calls)) + r.rest && |r.rest| < size &&
      forall c :: 0 <= c < |r.calls| ==> r.calls[c] != [] && AllSized(r.calls[c], size)
  {
    if |data| >= size - |held| {
      if |held| != 0 {
        JoinBuffered(held, data, size);
      } else {
        JoinDirect(data, size);
      }
    }
  }

  lemma JoinBuffered(held: seq<bv8>, data: seq<bv8>, size: nat)
    requires 0 < |held| < size && size - |held| <= |data|
    ensures var r := ProcessOutcome(held, data, size);
      held + data == Flatten(Flatten(r.calls)) + r.rest && |r.rest| < size &&
      forall c :: 0 <= c < |r.calls| ==> r.calls[c] != [] && AllSized(r.calls[c], size)
  {
    var rem := size - |held|;
    var split := SplitBlocks(data[rem..], size);
    var calls := [[held + data[..rem]]] + (if split.blocks != [] then [split.blocks] else []);
    assert ProcessOutcome(held, data, size) == Processed(calls, split.tail);
    JoinFirstSized(held + data[..rem], size, split, calls);
    JoinFirst(held, data[..rem], data[rem..], split, calls);
    assert data == data[..rem] + data[rem..];
  }

  /** The bytes of the completed block, then of the whole blocks, then the tail, are the held bytes and the input. */
  lemma JoinFirst(held: seq<bv8>, left: seq<bv8>, right: seq<bv8>, split: Split<bv8>,
                  calls: seq<seq<seq<bv8>>>)
    requires Flatten(split.blocks) + split.tail == right
    requires calls == [[held + left]] + (if split.blocks != [] then [split.blocks] else [])
    ensures held + (left + right) == Flatten(Flatten(calls)) + split.tail
  {
    var first := held + left;
    assert Flatten(Flatten(calls)) == first + Flatten(split.blocks) by {
      FlattenFirst(first, split.blocks, calls);
    }
    assert held + (left + right) == first + right;
    assert first + right == first + Flatten(split.blocks) + split.tail;
  }

  /** Every call receives at least one block, and every block is whole. */
  lemma JoinFirstSized(first: seq<bv8>, size: nat, split: Split<bv8>, calls: seq<seq<seq<bv8>>>)
    requires |first| == size && AllSized(split.blocks, size)
    requires calls == [[first]] + (if split.blocks != [] then [split.blocks] else [])
    ensures forall c :: 0 <= c < |calls| ==> calls[c] != [] && AllSized(calls[c], size)
  {
    forall c | 0 <= c < |calls|
      ensures calls[c] != [] && AllSized(calls[c], size)
    {
      if c == 0 {
        assert calls[c] == [first];
      } else {
        assert calls[c] == split.blocks;
      }
    }
  }

  lemma JoinDirect(data: seq<bv8>, size: nat)
    requires 0 < size <= |data|
    ensures var r := ProcessOutcome([], data, size);
      data == Flatten(Flatten(r.calls)) + r.rest && |r.rest| < size &&
      forall c :: 0 <= c < |r.calls| ==> r.calls[c] != [] && AllSized(r.calls[c], size)
  {
    var split := SplitBlocks(data, size);
    var calls := if split.blocks != [] then [split.blocks] else [];
    assert ProcessOutcome([], data, size) == Processed(calls, split.tail);
    ProcessedDirect(split.blocks, calls);
  }

  /**
   * The counts: `(pos + len) / size` blocks are processed and
   * `(pos + len) % size` bytes stay buffered.
   */
  lemma ProcessOutcomeCounts(held: seq<bv8>, data: seq<bv8>, size: nat)
    requires |held| < size
    ensures var r := ProcessOutcome(held, data, size);
      |Flatten(r.calls)| == (|held| + |data|) / size && |r.rest| == (|held| + |data|) % size
  {
    if |data| < size - |held| {
      DivSmall(|held| + |data|, size);
    } else if |held| != 0 {
      CountsBuffered(held, data, size);
    } else {
      CountsDirect(data, size);
    }
  }

  lemma CountsBuffered(held: seq<bv8>, data: seq<bv8>, size: nat)
    requires 0 < |held| < size && size - |held| <= |data|
    ensures var r := ProcessOutcome(held, data, size);
      |Flatten(r.calls)| == (|held| + |data|) / size && |r.rest| == (|held| + |data|) % size
  {
    var rem := size - |held|;
    var n := |held| + |data|;
    var first := held + data[..rem];
    var split := SplitBlocks(data[rem..], size);
    var calls := [[first]] + (if split.blocks != [] then [split.blocks] else []);
    assert ProcessOutcome(held, data, size) == Processed(calls, split.tail);
    FlattenFirst(first, split.blocks, calls);
    assert |data[rem..]| == n - size;
    SplitBlocksCounts(data[rem..], size);
    DivStep(n, size);
  }

  lemma CountsDirect(data: seq<bv8>, size: nat)
    requires 0 < size <= |data|
    ensures var r := ProcessOutcome([], data, size);
      |Flatten(r.calls)| == |data| / size && |r.rest| == |data| % size
  {
    var split := SplitBlocks(data, size);
    var calls := if split.blocks != [] then [split.blocks] else [];
    assert ProcessOutcome([], data, size) == Processed(calls, split.tail);
    ProcessedDirect(split.blocks, calls);
    SplitBlocksCounts(data, size);
  }

  /** An empty buffer is never processed on its own: only whole blocks of the data are, in a single call. */
  lemma ProcessOutcomeDirect(data: seq<bv8>, size: nat)
    requires 0 < size
    ensures ProcessOutcome([], data, size).calls ==
      if |data| < size then [] else [SplitBlocks(data, size).blocks]
  {
    if |data| >= size {
      var split := SplitBlocks(data, size);
      assert split.blocks != [] by {
        SplitBlocksCounts(data, size);
        DivStep(|data|, size);
      }
    }
  }

  lemma FlattenFirst(first: seq<bv8>, blocks: seq<seq<bv8>>, calls: seq<seq<seq<bv8>>>)
    requires calls == [[first]] + (if blocks != [] then [blocks] else [])
    ensures Flatten(calls) == [first] + blocks
    ensures Flatten(Flatten(calls)) == first + Flatten(blocks)
  {
    assert Flatten([[first]]) == [first] by {
      assert [[first]][..0] == [];
    }
    assert Flatten([first]) == first by {
      assert [first][..0] == [];
    }
    if blocks != [] {
      FlattenAppend([[first]], [blocks]);
      assert Flatten([blocks]) == blocks by {
        assert [blocks][..0] == [];
      }
    } else {
      assert calls == [[first]];
    }
    FlattenAppend([first], blocks);
  }

  lemma ProcessedDirect(blocks: seq<seq<bv8>>, calls: seq<seq<seq<bv8>>>)
    requires calls == if blocks != [] then [blocks] else []
    ensures Flatten(calls) == blocks
  {
    if blocks != [] {
      assert Flatten([blocks]) == blocks by {
        assert [blocks][..0] == [];
      }
    }
  }
}
