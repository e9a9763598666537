/**
 * The SHA-1 core: the compression function of section 6.1.2 of FIPS 180-4
 * as specification functions, `sha1_core_digest_block` as a method over the
 * state array, and `Sha1Core`, the streaming object behind `Sha1`.
 */
module Sha1 {

  import opened BitFunctions
  import opened BigEndian
  import opened ShaCommon
  import opened BlockUser
  import opened Buffering

  type State = s: seq<bv32> | |s| == 5 witness [0, 0, 0, 0, 0]

  /** `DIGEST_SIZE_BYTE`. */
  const DigestSize: nat := 20
  /** `SUFFIX_POS`: where the 8-byte length field starts in the last block. */
  const SuffixPos: nat := 56

  /** `K_CONSTANTS`, indexed by `t / 20`. */
  const K: seq<bv32> := [0x5a827999, 0x6ed9eba1, 0x8f1bbcdc, 0xca62c1d6]

  /** The initial hash value of section 5.3.1 of FIPS 180-4. */
  const IV: State := [0x67452301, 0xefcdab89, 0x98badcfe, 0x10325476, 0xc3d2e1f0]

  /** `K_t` as section 4.2.1 of FIPS 180-4 lists it: one constant per twenty rounds. */
  function Kt(t: nat): (r: bv32)
    requires t < 80
    ensures r == K[t / 20]
  {
    if t <= 19 then 0x5a827999 else if t <= 39 then 0x6ed9eba1 else if t <= 59 then 0x8f1bbcdc else 0xca62c1d6
  }

  /**
   * `sha1_functions!`: `f_t` of section 4.1.1 of FIPS 180-4, Ch for the
   * first twenty rounds, Parity for the second and fourth twenty and Maj
   * for the third; 0 past the eighty rounds, where it is never used.
   */
  function F(x: bv32, y: bv32, z: bv32, t: nat): bv32
  {
    if t <= 19 then Choose32(x, y, z)
    else if t <= 39 then Parity(x, y, z)
    else if t <= 59 then Majority32(x, y, z)
    else if t <= 79 then Parity(x, y, z)
    else 0
  }

  /** Parity of section 4.1.1 of FIPS 180-4: each bit is set where an odd number of the arguments have a one. */
  function Parity(x: bv32, y: bv32, z: bv32): bv32
  {
    x ^ y ^ z
  }

  /** The exclusive or of the four earlier schedule words that `W_t` rotates. */
  function Expand(w3: bv32, w8: bv32, w14: bv32, w16: bv32): bv32
  {
    w3 ^ w8 ^ w14 ^ w16
  }

  /** The message schedule `W_t`, section 6.1.2 step 1 of FIPS 180-4. */
  function Schedule(m: seq<bv32>, t: nat): bv32
    requires |m| == 16 && t < 80
  {
    if t < 16 then m[t]
    else RotateLeft32(Expand(Schedule(m, t - 3), Schedule(m, t - 8), Schedule(m, t - 14), Schedule(m, t - 16)), 1)
  }

  /** The working variables `a` to `e`. */
  datatype Vars = Vars(a: bv32, b: bv32, c: bv32, d: bv32, e: bv32)

  /** One round `t` on the working variables, with schedule word `w`. */
  function Step(v: Vars, t: nat, w: bv32): Vars
    requires t < 80
  {
    var tmp := WrappingAdd32(WrappingAdd32(WrappingAdd32(WrappingAdd32(
      RotateLeft32(v.a, 5), F(v.b, v.c, v.d, t)), v.e), Kt(t)), w);
    Vars(tmp, v.a, RotateLeft32(v.b, 30), v.c, v.d)
  }

  /** The working variables after the first `t` rounds, section 6.1.2 steps 2 and 3 of FIPS 180-4. */
  function Rounds(h: State, m: seq<bv32>, t: nat): Vars
    requires |m| == 16 && t <= 80
  {
    if t == 0 then Vars(h[0], h[1], h[2], h[3], h[4])
    else Step(Rounds(h, m, t - 1), t - 1, Schedule(m, t - 1))
  }

  /** Section 6.1.2 step 4 of FIPS 180-4: each working variable added to its word of the hash value. */
  function AddState(h: State, v: Vars): State
  {
    [WrappingAdd32(h[0], v.a), WrappingAdd32(h[1], v.b), WrappingAdd32(h[2], v.c),
     WrappingAdd32(h[3], v.d), WrappingAdd32(h[4], v.e)]
  }

  /** The intermediate hash value after one block. */
  function CompressBlock(h: State, block: Block): State
  {
    AddState(h, Rounds(h, MessageWords32(block), 80))
  }

  /** SHA-1 of a message, section 6.1 of FIPS 180-4: the padded message folded from `IV`, as 20 big-endian bytes. */
  function Hash(msg: seq<bv8>): (r: seq<bv8>)
    ensures |r| == DigestSize
    ensures Words32(r) == FoldBlocks(CompressBlock, IV, Pad(msg, 8))
  {
    var h := FoldBlocks(CompressBlock, IV, Pad(msg, 8));
    WordsBytes32Words(h);
    WordsBytes32(h)
  }

  /** The first loop of `sha1_core_digest_block`: 80 words, the first 16 the message words of the block. */
  method LoadWords(block: Block) returns (words: array<bv32>)
    ensures fresh(words) && words.Length == 80
    ensures forall j :: 0 <= j < 16 ==> words[j] == MessageWords32(block)[j]
  {
    words := new bv32[80](_ => 0);
    for i := 0 to 16
      invariant forall j :: 0 <= j < i ==> words[j] == MessageWords32(block)[j]
    {
      words[i] := Word32(block[4 * i..4 * i + 4]);
    }
  }

  /** The schedule step of the rounds loop: `words[t]` becomes `W_t`, from the earlier sixteen words. */
  method ExtendSchedule(words: array<bv32>, m: seq<bv32>, t: nat)
    requires words.Length == 80 && |m| == 16 && t < 80
    requires forall j :: 0 <= j < 80 && (j < 16 || j < t) ==> words[j] == Schedule(m, j)
    modifies words
    ensures forall j :: 0 <= j < 80 && (j < 16 || j < t + 1) ==> words[j] == Schedule(m, j)
  {
    if t >= 16 {
      assert words[t - 3] == Schedule(m, t - 3) && words[t - 8] == Schedule(m, t - 8);
      assert words[t - 14] == Schedule(m, t - 14) && words[t - 16] == Schedule(m, t - 16);
      words[t] := RotateLeft32(Expand(words[t - 3], words[t - 8], words[t - 14], words[t - 16]), 1);
    }
  }

  /**
   * The rounds loop of `sha1_core_digest_block`, which also extends the
   * schedule in `words` as it goes: the working variables after the eighty
   * rounds on `h`.
   */
  method RunRounds(words: array<bv32>, h: State, m: seq<bv32>) returns (v: Vars)
    requires words.Length == 80 && |m| == 16
    requires forall j :: 0 <= j < 16 ==> words[j] == m[j]
    modifies words
    ensures v == Rounds(h, m, 80)
  {
    var a, b, c, d, e := h[0], h[1], h[2], h[3], h[4];
    for t := 0 to 80
      invariant forall j :: 0 <= j < 80 && (j < 16 || j < t) ==> words[j] == Schedule(m, j)
      invariant Vars(a, b, c, d, e) == Rounds(h, m, t)
    {
      ExtendSchedule(words, m, t);
      var tmp := WrappingAdd32(WrappingAdd32(WrappingAdd32(WrappingAdd32(
        RotateLeft32(a, 5), F(b, c, d, t)), e), K[t / 20]), words[t]);
      ghost var next := Step(Vars(a, b, c, d, e), t, words[t]);
      e := d;
      d := c;
      c := RotateLeft32(b, 30);
      b := a;
      a := tmp;
      assert Vars(a, b, c, d, e) == next;
    }
    v := Vars(a, b, c, d, e);
  }

  /** The last lines of `sha1_core_digest_block`: the working variables added into the state. */
  method AddVars(state: array<bv32>, v: Vars)
    requires state.Length == 5
    modifies state
    ensures state[..] == AddState(old(state[..]), v)
  {
    var sum := AddState(state[..], v);
    forall i | 0 <= i < 5 {
      state[i] := sum[i];
    }
  }

  /** `sha1_core_digest_block`: `state` becomes the compression of `block` into it. */
  method DigestBlock(state: array<bv32>, block: Block)
    requires state.Length == 5
    modifies state
    ensures state[..] == CompressBlock(old(state[..]), block)
  {
    var words := LoadWords(block);
    var v := RunRounds(words, state[..], MessageWords32(block));
    AddVars(state, v);
  }

  /**
   * The padding `finalize` compresses: 0x80 after the `pos` pending bytes of
   * `buf`, zeros, and `field` at `SUFFIX_POS`, in a second block of zeros
   * when it does not fit after the 0x80 byte.
   */
  method DigestTrailer(state: array<bv32>, buf: array<bv8>, pos: nat, field: seq<bv8>)
    requires state.Length == 5 && buf.Length == BlockSize && pos < BlockSize && |field| == BlockSize - SuffixPos
    modifies state, buf
    ensures state[..] == FoldBlocks<State>(CompressBlock, old(state[..]), Trailer(old(buf[..pos]), field))
  {
    ghost var pending := buf[..pos];
    PadBuffer(buf, pos);
    if pos + 1 > SuffixPos {
      DigestTwo(state, buf, pending, field);
    } else {
      DigestOne(state, buf, pending, field);
    }
  }

  /** The padded block has room for the length field: one compression. */
  method DigestOne(state: array<bv32>, buf: array<bv8>, ghost pending: seq<bv8>, field: seq<bv8>)
    requires state.Length == 5 && buf.Length == BlockSize && |field| == BlockSize - SuffixPos
    requires |pending| + 1 <= SuffixPos && buf[..] == pending + [0x80] + Zeros(BlockSize - 1 - |pending|)
    modifies state, buf
    ensures state[..] == FoldBlocks<State>(CompressBlock, old(state[..]), Trailer(pending, field))
  {
    ghost var s0: State := state[..];
    ghost var last: Block := buf[..SuffixPos] + field;
    FoldOne<State>(CompressBlock, s0, last);
    DigestLength(state, buf, field);
  }

  /** The length field does not fit after the 0x80 byte: the padded block, then a block of zeros ending in the field. */
  method DigestTwo(state: array<bv32>, buf: array<bv8>, ghost pending: seq<bv8>, field: seq<bv8>)
    requires state.Length == 5 && buf.Length == BlockSize && |field| == BlockSize - SuffixPos
    requires |pending| < BlockSize && |pending| + 1 > SuffixPos
    requires buf[..] == pending + [0x80] + Zeros(BlockSize - 1 - |pending|)
    modifies state, buf
    ensures state[..] == FoldBlocks<State>(CompressBlock, old(state[..]), Trailer(pending, field))
  {
    ghost var s0: State := state[..];
    ghost var first: Block := buf[..];
    ghost var last: Block := Zeros(BlockSize)[..SuffixPos] + field;
    TwoBlocks(pending, field, first, last);
    FoldTwo<State>(CompressBlock, s0, first, last);
    DigestBlock(state, buf[..]);
    DigestZeroLength(state, buf, field);
  }

  /** A block of zeros ending in the length field, compressed. */
  method DigestZeroLength(state: array<bv32>, buf: array<bv8>, field: seq<bv8>)
    requires state.Length == 5 && buf.Length == BlockSize && |field| == BlockSize - SuffixPos
    modifies state, buf
    ensures state[..] == CompressBlock(old(state[..]), Zeros(BlockSize)[..SuffixPos] + field)
  {
    FillZeros(buf, 0);
    assert buf[..SuffixPos] == Zeros(BlockSize)[..SuffixPos];
    DigestLength(state, buf, field);
  }

  /** The length field at `SUFFIX_POS`, then the block compressed. */
  method DigestLength(state: array<bv32>, buf: array<bv8>, field: seq<bv8>)
    requires state.Length == 5 && buf.Length == BlockSize && |field| == BlockSize - SuffixPos
    modifies state, buf
    ensures state[..] == CompressBlock(old(state[..]), old(buf[..SuffixPos]) + field)
  {
    PlaceLength(buf, SuffixPos, field);
    DigestBlock(state, buf[..]);
  }

  /** `Sha1Core`: the hash state, the buffer holding an incomplete block, and the count of bytes compressed. */
  class Sha1Core {
    const state: array<bv32>
    const buffer: BlockBuffer
    /** `msg_len`: the number of bytes compressed, a `u64`. */
    var msgLen: nat
    /** The bytes compressed so far. */
    ghost var msg: seq<bv8>

    /**
     * The state is the compression of every complete block of `msg`, in
     * order, into the initial hash value, and the buffer holds the rest.
     */
    ghost predicate Valid()
      reads this, state, buffer, buffer.buf
    {
      state.Length == 5 && buffer.Valid() && buffer.size == BlockSize &&
      msgLen == |msg| && msgLen < 0x1_0000_0000_0000_0000 &&
      Absorbed<State>(CompressBlock, IV, msg, state[..], buffer.buf[..buffer.pos])
    }

    /** `new`: the initial hash value and an empty buffer; the requested digest size is ignored. */
    constructor (truncatedDigestLenBit: nat)
      ensures Valid() && msg == [] && fresh(state) && fresh(buffer) && fresh(buffer.buf)
    {
      state := new bv32[5](i requires 0 <= i < 5 => IV[i]);
      buffer := new BlockBuffer(BlockSize);
      msgLen := 0;
      msg := [];
      new;
      assert state[..] == IV;
      assert buffer.buf[..buffer.pos] == [];
    }

    /** The processor `compress` hands to `process_data`: every block, in order, through `sha1_core_digest_block`. */
    method ProcessBlocks(blocks: seq<seq<bv8>>)
      requires state.Length == 5 && AllSized(blocks, BlockSize)
      modifies state
      ensures |Flatten(blocks)| % BlockSize == 0
      ensures state[..] == FoldBlocks<State>(CompressBlock, old(state[..]), Flatten(blocks))
    {
      ghost var s0: State := state[..];
      for i := 0 to |blocks|
        invariant |Flatten(blocks[..i])| % BlockSize == 0
        invariant state[..] == FoldBlocks<State>(CompressBlock, s0, Flatten(blocks[..i]))
      {
        DigestNext(state, s0, blocks, i);
      }
      assert blocks[..|blocks|] == blocks;
    }

    /** One iteration of the processor: the fold extends by block `i`. */
    method DigestNext(state: array<bv32>, ghost s0: State, blocks: seq<seq<bv8>>, i: nat)
      requires state.Length == 5 && AllSized(blocks, BlockSize) && i < |blocks|
      requires |Flatten(blocks[..i])| % BlockSize == 0
      requires state[..] == FoldBlocks<State>(CompressBlock, s0, Flatten(blocks[..i]))
      modifies state
      ensures |Flatten(blocks[..i + 1])| % BlockSize == 0
      ensures state[..] == FoldBlocks<State>(CompressBlock, s0, Flatten(blocks[..i + 1]))
    {
      FoldNextBlock<State>(CompressBlock, s0, blocks, i);
      DigestBlock(state, blocks[i]);
    }

    /** The processor calls of one `process_data`, in order. */
    method ProcessCalls(calls: seq<seq<seq<bv8>>>)
      requires state.Length == 5 && forall c :: 0 <= c < |calls| ==> AllSized(calls[c], BlockSize)
      modifies state
      ensures |Flatten(Flatten(calls))| % BlockSize == 0
      ensures state[..] == FoldBlocks<State>(CompressBlock, old(state[..]), Flatten(Flatten(calls)))
    {
      ghost var s0: State := state[..];
      for c := 0 to |calls|
        invariant |Flatten(Flatten(calls[..c]))| % BlockSize == 0
        invariant state[..] == FoldBlocks<State>(CompressBlock, s0, Flatten(Flatten(calls[..c])))
      {
        FoldNextCall<State>(CompressBlock, s0, calls, c);
        ProcessBlocks(calls[c]);
      }
      assert calls[..|calls|] == calls;
    }

    /** `process_data` with the block processor: the buffer keeps what does not fill a block. */
    method Absorb(data: seq<bv8>) returns (ghost processed: seq<bv8>)
      requires state.Length == 5 && buffer.Valid() && buffer.size == BlockSize
      modifies state, buffer, buffer.buf
      ensures buffer.Valid() && |processed| % BlockSize == 0
      ensures old(buffer.buf[..buffer.pos]) + data == processed + buffer.buf[..buffer.pos]
      ensures state[..] == FoldBlocks<State>(CompressBlock, old(state[..]), processed)
    {
      ghost var held := buffer.buf[..buffer.pos];
      var calls := buffer.ProcessData(data);
      ProcessOutcomeJoin(held, data, BlockSize);
      ProcessCalls(calls);
      processed := Flatten(Flatten(calls));
    }

    /** `compress`: `data` is appended to the message. */
    method Compress(data: seq<bv8>)
      requires Valid() && msgLen + |data| < 0x1_0000_0000_0000_0000
      modifies this, state, buffer, buffer.buf
      ensures Valid() && msg == old(msg) + data
    {
      msgLen := msgLen + |data|;
      ghost var s0: State := state[..];
      ghost var held := buffer.buf[..buffer.pos];
      ghost var processed := Absorb(data);
      AbsorbStep<State>(CompressBlock, IV, msg, s0, held, data, processed, buffer.buf[..buffer.pos]);
      msg := msg + data;
    }

    /**
     * `finalize`: the 0x80 byte after the buffered bytes, zeros, the bit
     * length in the last eight bytes of a block (one more block when they do
     * not fit), and the state words as the digest. It is the SHA-1 hash of
     * the message compressed so far.
     */
    method Finalize() returns (digest: seq<bv8>)
      requires Valid()
      modifies state, buffer.buf
      ensures digest == Hash(msg)
    {
      var bitLen := (msgLen * 8) % 0x1_0000_0000_0000_0000;
      var field := NatBytes(bitLen, 8);
      Pow256Moduli();
      LengthField(msg, msgLen, 8);
      ghost var s0: State := state[..];
      assert msg[|Whole(msg)|..] == buffer.buf[..buffer.pos];
      DigestTrailer(state, buffer.buf, buffer.GetPos(), field);
      FinalFold<State>(CompressBlock, IV, msg, s0, 8);
      var out := StoreWords32(state);
      digest := out[..];
    }
  }
}
