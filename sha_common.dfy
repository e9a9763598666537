/**
 * What the three hash cores share: 64-byte blocks, the iteration of a
 * compression function over the complete blocks of a message, the padding
 * of section 5.1 of FIPS 180-4, and the two facts that make the streaming
 * cores agree with the one-shot definition: `compress` keeps the state
 * equal to the fold over the complete blocks seen so far, and the block or
 * two that `finalize` compresses are exactly what padding appends to them.
 */
module ShaCommon {

  import opened BigEndian
  import opened BlockUser
  import opened DivMod

  /** Every core of this repository works on blocks of 64 bytes. */
  const BlockSize: nat := 64

  type Block = b: seq<bv8> | |b| == 64 witness seq(64, _ => 0)

  /** The sixteen big-endian 32-bit words `M_0` to `M_15` of a block, section 5.2.1 of FIPS 180-4. */
  function MessageWords32(block: Block): (m: seq<bv32>)
    ensures |m| == 16
  {
    seq(16, i requires 0 <= i < 16 => Word32(block[4 * i..4 * i + 4]))
  }

  /** The eight big-endian 64-bit words of a block. */
  function MessageWords64(block: Block): (m: seq<bv64>)
    ensures |m| == 8
  {
    seq(8, i requires 0 <= i < 8 => Word64(block[8 * i..8 * i + 8]))
  }

  /** The compression function applied to consecutive 64-byte blocks of `data`, first block first. */
  function FoldBlocks<S>(f: (S, Block) -> S, s: S, data: seq<bv8>): S
    requires |data| % BlockSize == 0
  {
    if data == [] then s else f(FoldBlocks(f, s, data[..|data| - 64]), data[|data| - 64..])
  }

  /** Folding over two block-aligned pieces is folding over the first and continuing with the second. */
  lemma {:induction false} FoldBlocksAppend<S>(f: (S, Block) -> S, s: S, a: seq<bv8>, b: seq<bv8>)
    requires |a| % BlockSize == 0 && |b| % BlockSize == 0
    ensures FoldBlocks(f, s, a + b) == FoldBlocks(f, FoldBlocks(f, s, a), b)
    decreases |b|
  {
    if b == [] {
      assert a + b == a;
    } else {
      var ab := a + b;
      assert ab[..|ab| - 64] == a + b[..|b| - 64];
      assert ab[|ab| - 64..] == b[|b| - 64..];
      FoldBlocksAppend(f, s, a, b[..|b| - 64]);
    }
  }

  /** Folding over one more block. */
  lemma FoldBlocksStep<S>(f: (S, Block) -> S, s: S, a: seq<bv8>, block: Block)
    requires |a| % BlockSize == 0
    ensures FoldBlocks(f, s, a + block) == f(FoldBlocks(f, s, a), block)
  {
    var ab := a + block;
    assert ab[..|ab| - 64] == a;
    assert ab[|ab| - 64..] == block;
  }

  /** The processor's loop: folding over the first `i + 1` blocks is one more compression after the first `i`. */
  lemma FoldNextBlock<S>(f: (S, Block) -> S, s: S, blocks: seq<seq<bv8>>, i: nat)
    requires AllSized(blocks, BlockSize) && i < |blocks|
    ensures |Flatten(blocks[..i])| % BlockSize == 0 && |Flatten(blocks[..i + 1])| % BlockSize == 0
    ensures FoldBlocks(f, s, Flatten(blocks[..i + 1])) == f(FoldBlocks(f, s, Flatten(blocks[..i])), blocks[i])
  {
    var done := Flatten(blocks[..i]);
    assert AllSized(blocks[..i], BlockSize);
    FlattenSized(blocks[..i], BlockSize);
    assert blocks[..i + 1][..i] == blocks[..i];
    assert Flatten(blocks[..i + 1]) == done + blocks[i];
    AppendMod(done, blocks[i], BlockSize);
    FoldBlocksStep(f, s, done, blocks[i]);
  }

  /** Over the processor calls: folding over the blocks of the first `c + 1` calls continues the fold over the first `c`. */
  lemma FoldNextCall<S>(f: (S, Block) -> S, s: S, calls: seq<seq<seq<bv8>>>, c: nat)
    requires c < |calls| && AllSized(calls[c], BlockSize) && |Flatten(Flatten(calls[..c]))| % BlockSize == 0
    ensures |Flatten(calls[c])| % BlockSize == 0 && |Flatten(Flatten(calls[..c + 1]))| % BlockSize == 0
    ensures FoldBlocks(f, s, Flatten(Flatten(calls[..c + 1]))) ==
      FoldBlocks(f, FoldBlocks(f, s, Flatten(Flatten(calls[..c]))), Flatten(calls[c]))
  {
    var done := Flatten(Flatten(calls[..c]));
    FlattenSized(calls[c], BlockSize);
    assert calls[..c + 1][..c] == calls[..c];
    assert calls[..c + 1] == calls[..c] + [calls[c]];
    FlattenAppend(Flatten(calls[..c]), calls[c]);
    AppendMod(done, Flatten(calls[c]), BlockSize);
    FoldBlocksAppend(f, s, done, Flatten(calls[c]));
  }

  function Zeros(n: nat): (r: seq<bv8>)
    ensures |r| == n && forall i :: 0 <= i < n ==> r[i] == 0
  {
    seq(n, _ => 0)
  }

  /**
   * Padding, section 5.1 of FIPS 180-4, for 64-byte blocks and a length field
   * of `fieldSize` bytes: the message, the byte 0x80, the fewest zero bytes
   * that end the length field on a block boundary, then the message length in
   * bits, big-endian and reduced modulo `2^(8 * fieldSize)`.
   */
  function Pad(msg: seq<bv8>, fieldSize: nat): (r: seq<bv8>)
    requires fieldSize < BlockSize
    ensures |r| % BlockSize == 0
    ensures |msg| + 1 + fieldSize <= |r| < |msg| + 1 + fieldSize + BlockSize
    ensures r[..|msg|] == msg && r[|msg|] == 0x80
    ensures forall i :: |msg| < i < |r| - fieldSize ==> r[i] == 0
    ensures r[|r| - fieldSize..] == NatBytes(8 * |msg|, fieldSize)
  {
    var k := (BlockSize - (|msg| + 1 + fieldSize) % BlockSize) % BlockSize;
    var r := msg + [0x80] + Zeros(k) + NatBytes(8 * |msg|, fieldSize);
    assert r[..|msg|] == msg;
    r
  }

  /** The complete blocks of a message: all of it but its last `|msg| % 64` bytes. */
  function Whole(msg: seq<bv8>): (r: seq<bv8>)
    ensures |r| % BlockSize == 0 && |msg| - |r| == |msg| % BlockSize
  {
    msg[..|msg| - |msg| % BlockSize]
  }

  /**
   * What a streaming core knows after absorbing `msg`: its state is the fold
   * over the complete blocks, and the bytes after them are pending in the buffer.
   */
  ghost predicate Absorbed<S>(f: (S, Block) -> S, iv: S, msg: seq<bv8>, state: S, pending: seq<bv8>)
  {
    msg == Whole(msg) + pending && state == FoldBlocks(f, iv, Whole(msg))
  }

  lemma WholeAppend(w: seq<bv8>, processed: seq<bv8>, pending: seq<bv8>)
    requires |w| % BlockSize == 0 && |processed| % BlockSize == 0 && |pending| < BlockSize
    ensures Whole(w + processed + pending) == w + processed
  {
    var full := w + processed;
    var q := |w| / 64 + |processed| / 64;
    assert |w| == (|w| / 64) * 64 && |processed| == (|processed| / 64) * 64;
    ModUnique(|full + pending|, 64, q, |pending|);
    assert (full + pending)[..|full|] == full;
  }

  /** Absorbing more data: the blocks handed to the compression function extend the complete part. */
  lemma AbsorbStep<S>(f: (S, Block) -> S, iv: S, msg: seq<bv8>, state: S, pending: seq<bv8>,
                      data: seq<bv8>, processed: seq<bv8>, pending': seq<bv8>)
    requires Absorbed(f, iv, msg, state, pending)
    requires pending + data == processed + pending' && |processed| % BlockSize == 0 && |pending'| < BlockSize
    ensures Absorbed(f, iv, msg + data, FoldBlocks(f, state, processed), pending')
  {
    var w := Whole(msg);
    Regroup(msg, w, pending, data, processed, pending');
    WholeAppend(w, processed, pending');
    FoldBlocksAppend(f, iv, w, processed);
  }

  lemma Regroup(msg: seq<bv8>, w: seq<bv8>, pending: seq<bv8>, data: seq<bv8>, processed: seq<bv8>, pending': seq<bv8>)
    requires msg == w + pending && pending + data == processed + pending'
    ensures msg + data == w + processed + pending'
  {
    assert msg + data == w + (pending + data);
  }

  /**
   * The bytes `finalize` compresses after the complete blocks: the pending
   * bytes, 0x80 and zeros; the length field at the end of that block, or,
   * when it does not fit after the 0x80 byte, at the end of one more block
   * of zeros.
   */
  function Trailer(pending: seq<bv8>, lengthField: seq<bv8>): (r: seq<bv8>)
    requires |pending| < BlockSize && |lengthField| < BlockSize
  {
    var suffixPos := BlockSize - |lengthField|;
    var first := pending + [0x80] + Zeros(BlockSize - 1 - |pending|);
    if |pending| + 1 > suffixPos then first + (Zeros(suffixPos) + lengthField)
    else first[..suffixPos] + lengthField
  }

  /** The trailer completes the padding: complete blocks followed by the trailer are the padded message. */
  lemma TrailerPads(msg: seq<bv8>, fieldSize: nat)
    requires fieldSize < BlockSize
    ensures var w := Whole(msg); w + Trailer(msg[|w|..], NatBytes(8 * |msg|, fieldSize)) == Pad(msg, fieldSize)
  {
    var w := Whole(msg);
    var pending := msg[|w|..];
    var field := NatBytes(8 * |msg|, fieldSize);
    PadTail(msg, fieldSize);
    TrailerZeros(pending, field);
  }

  /** The number of zero bytes padding puts after 0x80, given the bytes after the last block boundary. */
  function PadZeros(pending: nat, fieldSize: nat): nat
    requires pending < BlockSize && fieldSize < BlockSize
  {
    var used := pending + 1 + fieldSize;
    if used <= BlockSize then BlockSize - used else 2 * BlockSize - used
  }

  /** Padding is the complete blocks, then the pending bytes, 0x80, the zeros and the length field. */
  lemma PadTail(msg: seq<bv8>, fieldSize: nat)
    requires fieldSize < BlockSize
    ensures var w := Whole(msg); var pending := msg[|w|..];
      Pad(msg, fieldSize) == w + (pending + [0x80] + Zeros(PadZeros(|pending|, fieldSize)) + NatBytes(8 * |msg|, fieldSize))
  {
    var w := Whole(msg);
    var pending := msg[|w|..];
    PadZerosMod(|msg|, |pending|, fieldSize);
    assert msg == w + pending;
  }

  /** The count of zeros in `Pad`, computed from the whole length, depends only on the length modulo 64. */
  lemma PadZerosMod(n: nat, pending: nat, fieldSize: nat)
    requires fieldSize < BlockSize && pending == n % BlockSize
    ensures (BlockSize - (n + 1 + fieldSize) % BlockSize) % BlockSize == PadZeros(pending, fieldSize)
  {
    var used := pending + 1 + fieldSize;
    DivBounds(n, 64);
    assert n + 1 + fieldSize == (n / 64) * 64 + used;
    ModAddMultiple(n / 64, used, 64);
    if used < 64 {
      DivSmall(used, 64);
      DivSmall(64 - used, 64);
    } else if used == 64 {
      DivStep(used, 64);
      DivSmall(0, 64);
    } else {
      DivStep(used, 64);
      DivSmall(used - 64, 64);
      DivSmall(128 - used, 64);
    }
  }

  /** The trailer is the pending bytes, 0x80, the zeros padding asks for and the length field. */
  lemma TrailerZeros(pending: seq<bv8>, field: seq<bv8>)
    requires |pending| < BlockSize && |field| < BlockSize
    ensures Trailer(pending, field) == pending + [0x80] + Zeros(PadZeros(|pending|, |field|)) + field
  {
    var suffixPos := BlockSize - |field|;
    var first := pending + [0x80] + Zeros(BlockSize - 1 - |pending|);
    if |pending| + 1 > suffixPos {
      assert Zeros(BlockSize - 1 - |pending|) + Zeros(suffixPos) == Zeros(PadZeros(|pending|, |field|));
    } else {
      assert first[..suffixPos] == pending + [0x80] + Zeros(PadZeros(|pending|, |field|));
    }
  }

  /** The state after `finalize`'s last compression is the fold over the whole padded message. */
  lemma FinalFold<S>(f: (S, Block) -> S, iv: S, msg: seq<bv8>, state: S, fieldSize: nat)
    requires fieldSize < BlockSize && Absorbed(f, iv, msg, state, msg[|Whole(msg)|..])
    ensures var t := Trailer(msg[|Whole(msg)|..], NatBytes(8 * |msg|, fieldSize));
      |t| % BlockSize == 0 && FoldBlocks(f, state, t) == FoldBlocks(f, iv, Pad(msg, fieldSize))
  {
    var w := Whole(msg);
    var t := Trailer(msg[|w|..], NatBytes(8 * |msg|, fieldSize));
    TrailerPads(msg, fieldSize);
    FoldBlocksAppend(f, iv, w, t);
  }

  /** The length field as the cores compute it, the byte count shifted left by three in a `k`-byte integer, is the one padding asks for. */
  lemma LengthField(msg: seq<bv8>, counter: nat, k: nat)
    requires counter == |msg|
    ensures NatBytes((counter * 8) % Pow256(k), k) == NatBytes(8 * |msg|, k)
  {
    NatBytesMod(8 * |msg|, k);
  }

  /** Folding over a single block applies the compression function once. */
  lemma FoldOne<S>(f: (S, Block) -> S, s: S, block: Block)
    ensures FoldBlocks(f, s, block) == f(s, block)
  {
    FoldBlocksStep(f, s, [], block);
    assert [] + block == block;
  }

  /** Folding over two blocks applies the compression function to each in turn. */
  lemma FoldTwo<S>(f: (S, Block) -> S, s: S, b1: Block, b2: Block)
    ensures FoldBlocks(f, s, b1 + b2) == f(f(s, b1), b2)
  {
    FoldBlocksStep(f, s, b1, b2);
    FoldOne(f, s, b1);
  }

  /** When the length field does not fit after the 0x80 byte, the two blocks `finalize` compresses make up the trailer. */
  lemma TwoBlocks(pending: seq<bv8>, field: seq<bv8>, b1: Block, b2: Block)
    requires |pending| < BlockSize && |field| < BlockSize && |pending| + 1 > BlockSize - |field|
    requires b1 == pending + [0x80] + Zeros(BlockSize - 1 - |pending|)
    requires b2 == Zeros(BlockSize)[..BlockSize - |field|] + field
    ensures b1 + b2 == Trailer(pending, field)
  {
    assert Zeros(BlockSize)[..BlockSize - |field|] == Zeros(BlockSize - |field|);
  }

  /** `slice[from..].fill(0)`. */
  method FillZeros(buf: array<bv8>, from: nat)
    requires from <= buf.Length
    modifies buf
    ensures buf[..] == old(buf[..from]) + Zeros(buf.Length - from)
  {
    for i := from to buf.Length
      invariant buf[..from] == old(buf[..from])
      invariant forall j :: from <= j < i ==> buf[j] == 0
    {
      buf[i] := 0;
    }
  }

  /** `buffer[pos] = 0x80` and `buffer[pos + 1..].fill(0)`: the padding byte after the pending bytes, then zeros. */
  method PadBuffer(buf: array<bv8>, pos: nat)
    requires pos < buf.Length
    modifies buf
    ensures buf[..] == old(buf[..pos]) + [0x80] + Zeros(buf.Length - 1 - pos)
  {
    ghost var pending := buf[..pos];
    buf[pos] := 0x80;
    assert buf[..pos + 1] == pending + [0x80];
    FillZeros(buf, pos + 1);
  }

  /** `buffer[SUFFIX_POS..].copy_from_slice(..)`: the length field at the end of the block. */
  method PlaceLength(buf: array<bv8>, suffixPos: nat, field: seq<bv8>)
    requires suffixPos + |field| == buf.Length
    modifies buf
    ensures buf[..] == old(buf[..suffixPos]) + field
  {
    CopyChunk(buf, suffixPos, field);
    assert buf[..] == buf[..suffixPos + |field|];
  }
}
