/**
 * The SHA-256 core behind `Sha224` and `Sha256`: the compression function of
 * section 6.2.2 of FIPS 180-4 as specification functions,
 * `sha256_core_digest_block` as a method over the state array, and
 * `Sha256Core`, the streaming object, whose initial hash value is chosen by
 * the digest size it is created for.
 */
module Sha256 {

  import opened BitFunctions
  import opened BigEndian
  import opened ShaCommon
  import opened BlockUser
  import opened Buffering

  type State = s: seq<bv32> | |s| == 8 witness [0, 0, 0, 0, 0, 0, 0, 0]

  /** `DIGEST_SIZE_BYTE`: the core always produces the 32 bytes of SHA-256; `Sha224` truncates them. */
  const DigestSize: nat := 32
  /** `SUFFIX_POS`: where the 8-byte length field starts in the last block. */
  const SuffixPos: nat := 56

  /** `SHA224_DIGEST_SIZE_BIT` and `SHA256_DIGEST_SIZE_BIT`. */
  const Sha224Bits: nat := 224
  const Sha256Bits: nat := 256

  /** `K_CONSTANTS`, section 4.2.2 of FIPS 180-4. */
  const K: seq<bv32> := [
    0x428a2f98, 0x71374491, 0xb5c0fbcf, 0xe9b5dba5, 0x3956c25b, 0x59f111f1, 0x923f82a4, 0xab1c5ed5,
    0xd807aa98, 0x12835b01, 0x243185be, 0x550c7dc3, 0x72be5d74, 0x80deb1fe, 0x9bdc06a7, 0xc19bf174,
    0xe49b69c1, 0xefbe4786, 0x0fc19dc6, 0x240ca1cc, 0x2de92c6f, 0x4a7484aa, 0x5cb0a9dc, 0x76f988da,
    0x983e5152, 0xa831c66d, 0xb00327c8, 0xbf597fc7, 0xc6e00bf3, 0xd5a79147, 0x06ca6351, 0x14292967,
    0x27b70a85, 0x2e1b2138, 0x4d2c6dfc, 0x53380d13, 0x650a7354, 0x766a0abb, 0x81c2c92e, 0x92722c85,
    0xa2bfe8a1, 0xa81a664b, 0xc24b8b70, 0xc76c51a3, 0xd192e819, 0xd6990624, 0xf40e3585, 0x106aa070,
    0x19a4c116, 0x1e376c08, 0x2748774c, 0x34b0bcb5, 0x391c0cb3, 0x4ed8aa4a, 0x5b9cca4f, 0x682e6ff3,
    0x748f82ee, 0x78a5636f, 0x84c87814, 0x8cc70208, 0x90befffa, 0xa4506ceb, 0xbef9a3f7, 0xc67178f2
  ]

  /** `K_CONSTANTS[t]`. */
  function RoundConstant(t: nat): bv32
    requires t < 64
  {
    K[t]
  }

  /** The initial hash value of SHA-224, section 5.3.2 of FIPS 180-4. */
  const IV224: State := [0xc1059ed8, 0x367cd507, 0x3070dd17, 0xf70e5939, 0xffc00b31, 0x68581511, 0x64f98fa7, 0xbefa4fa4]
  /** The initial hash value of SHA-256, section 5.3.3 of FIPS 180-4. */
  const IV256: State := [0x6a09e667, 0xbb67ae85, 0x3c6ef372, 0xa54ff53a, 0x510e527f, 0x9b05688c, 0x1f83d9ab, 0x5be0cd19]
  /** `Default::default()`: the state `new` starts from for any other digest size. */
  const IVZero: State := [0, 0, 0, 0, 0, 0, 0, 0]

  /** The match of `new`: the initial hash value for a requested digest size in bits. */
  function InitialState(truncatedDigestLenBit: nat): (r: State)
    ensures truncatedDigestLenBit == Sha224Bits ==> r == IV224
    ensures truncatedDigestLenBit == Sha256Bits ==> r == IV256
    ensures truncatedDigestLenBit != Sha224Bits && truncatedDigestLenBit != Sha256Bits ==> r == IVZero
  {
    match truncatedDigestLenBit
    case 224 => IV224
    case 256 => IV256
    case _ => IVZero
  }

  /** `big_sig_0`: Σ0 of section 4.1.2 of FIPS 180-4. */
  function BigSigma0(x: bv32): bv32
  {
    RotateRight32(x, 2) ^ RotateRight32(x, 13) ^ RotateRight32(x, 22)
  }

  /** `big_sig_1`: Σ1. */
  function BigSigma1(x: bv32): bv32
  {
    RotateRight32(x, 6) ^ RotateRight32(x, 11) ^ RotateRight32(x, 25)
  }

  /** `small_sig_0`: σ0. */
  function SmallSigma0(x: bv32): bv32
  {
    RotateRight32(x, 7) ^ RotateRight32(x, 18) ^ (x >> 3)
  }

  /** `small_sig_1`: σ1. */
  function SmallSigma1(x: bv32): bv32
  {
    RotateRight32(x, 17) ^ RotateRight32(x, 19) ^ (x >> 10)
  }

  /** The message schedule `W_t`, section 6.2.2 step 1 of FIPS 180-4, with the sums in the order the code adds them. */
  function Schedule(m: seq<bv32>, t: nat): bv32
    requires |m| == 16 && t < 64
  {
    if t < 16 then m[t]
    else WrappingAdd32(WrappingAdd32(WrappingAdd32(Schedule(m, t - 7), Schedule(m, t - 16)),
      SmallSigma1(Schedule(m, t - 2))), SmallSigma0(Schedule(m, t - 15)))
  }

  /** The working variables `a` to `h`. */
  datatype Vars = Vars(a: bv32, b: bv32, c: bv32, d: bv32, e: bv32, f: bv32, g: bv32, h: bv32)

  /** `tmp1` of round `t`. */
  function Temp1(e: bv32, f: bv32, g: bv32, h: bv32, k: bv32, w: bv32): bv32
  {
    WrappingAdd32(WrappingAdd32(WrappingAdd32(WrappingAdd32(h, BigSigma1(e)), Choose32(e, f, g)), k), w)
  }

  /** `tmp2` of a round. */
  function Temp2(a: bv32, b: bv32, c: bv32): bv32
  {
    WrappingAdd32(BigSigma0(a), Majority32(a, b, c))
  }

  /** One round on the working variables, with round constant `k` and schedule word `w`. */
  function Step(v: Vars, k: bv32, w: bv32): Vars
  {
    var tmp1 := Temp1(v.e, v.f, v.g, v.h, k, w);
    var tmp2 := Temp2(v.a, v.b, v.c);
    Vars(WrappingAdd32(tmp1, tmp2), v.a, v.b, v.c, WrappingAdd32(v.d, tmp1), v.e, v.f, v.g)
  }

  /** The working variables after the first `t` rounds, section 6.2.2 steps 2 and 3 of FIPS 180-4. */
  function Rounds(h: State, m: seq<bv32>, t: nat): Vars
    requires |m| == 16 && t <= 64
  {
    if t == 0 then Vars(h[0], h[1], h[2], h[3], h[4], h[5], h[6], h[7])
    else Step(Rounds(h, m, t - 1), RoundConstant(t - 1), Schedule(m, t - 1))
  }

  /** Section 6.2.2 step 4 of FIPS 180-4: each working variable added to its word of the hash value. */
  function AddState(h: State, v: Vars): State
  {
    [WrappingAdd32(h[0], v.a), WrappingAdd32(h[1], v.b), WrappingAdd32(h[2], v.c), WrappingAdd32(h[3], v.d),
     WrappingAdd32(h[4], v.e), WrappingAdd32(h[5], v.f), WrappingAdd32(h[6], v.g), WrappingAdd32(h[7], v.h)]
  }

  /** The intermediate hash value after one block. */
  function CompressBlock(h: State, block: Block): State
  {
    AddState(h, Rounds(h, MessageWords32(block), 64))
  }

  /**
   * The hash of a message from initial hash value `iv`, section 6.2 of
   * FIPS 180-4: the padded message folded from `iv`, as 32 big-endian bytes.
   */
  function Hash(iv: State, msg: seq<bv8>): (r: seq<bv8>)
    ensures |r| == DigestSize
    ensures Words32(r) == FoldBlocks(CompressBlock, iv, Pad(msg, 8))
  {
    var h := FoldBlocks(CompressBlock, iv, Pad(msg, 8));
    WordsBytes32Words(h);
    WordsBytes32(h)
  }

  /** The first loop of `sha256_core_digest_block`: 64 words, the first 16 the message words of the block. */
  method LoadWords(block: Block) returns (words: array<bv32>)
    ensures fresh(words) && words.Length == 64
    ensures forall j :: 0 <= j < 16 ==> words[j] == MessageWords32(block)[j]
  {
    words := new bv32[64](_ => 0);
    for i := 0 to 16
      invariant forall j :: 0 <= j < i ==> words[j] == MessageWords32(block)[j]
    {
      words[i] := Word32(block[4 * i..4 * i + 4]);
    }
  }

  /** The schedule step of the rounds loop: `words[t]` becomes `W_t`, from the earlier sixteen words. */
  method ExtendSchedule(words: array<bv32>, m: seq<bv32>, t: nat)
    requires words.Length == 64 && |m| == 16 && t < 64
    requires forall j :: 0 <= j < 64 && (j < 16 || j < t) ==> words[j] == Schedule(m, j)
    modifies words
    ensures forall j :: 0 <= j < 64 && (j < 16 || j < t + 1) ==> words[j] == Schedule(m, j)
  {
    if t >= 16 {
      assert words[t - 7] == Schedule(m, t - 7) && words[t - 16] == Schedule(m, t - 16);
      assert words[t - 2] == Schedule(m, t - 2) && words[t - 15] == Schedule(m, t - 15);
      words[t] := WrappingAdd32(WrappingAdd32(WrappingAdd32(words[t - 7], words[t - 16]),
        SmallSigma1(words[t - 2])), SmallSigma0(words[t - 15]));
    }
  }

  /**
   * The rounds loop of `sha256_core_digest_block`, which also extends the
   * schedule in `words` as it goes: the working variables after the 64
   * rounds on `h`.
   */
  method RunRounds(words: array<bv32>, h: State, m: seq<bv32>) returns (v: Vars)
    requires words.Length == 64 && |m| == 16
    requires forall j :: 0 <= j < 16 ==> words[j] == m[j]
    modifies words
    ensures v == Rounds(h, m, 64)
  {
    v := Vars(h[0], h[1], h[2], h[3], h[4], h[5], h[6], h[7]);
    for t := 0 to 64
      invariant forall j :: 0 <= j < 64 && (j < 16 || j < t) ==> words[j] == Schedule(m, j)
      invariant v == Rounds(h, m, t)
    {
      ExtendSchedule(words, m, t);
      RoundsNext(h, m, t, words[t]);
      v := Round(v, K[t], words[t]);
    }
  }

  /** Round `t` continues the rounds before it with its constant and schedule word. */
  lemma RoundsNext(h: State, m: seq<bv32>, t: nat, w: bv32)
    requires |m| == 16 && t < 64 && w == Schedule(m, t)
    ensures Rounds(h, m, t + 1) == Step(Rounds(h, m, t), K[t], w)
  {
  }

  /** One pass of the rounds loop: the working variables shift down, with `e` and `a` taking the new sums. */
  method Round(v: Vars, k: bv32, w: bv32) returns (r: Vars)
    ensures r == Step(v, k, w)
  {
    var a, b, c, d, e, f, g, hh := v.a, v.b, v.c, v.d, v.e, v.f, v.g, v.h;
    var tmp1 := Temp1(e, f, g, hh, k, w);
    var tmp2 := Temp2(a, b, c);
    hh := g;
    g := f;
    f := e;
    e := WrappingAdd32(d, tmp1);
    d := c;
    c := b;
    b := a;
    a := WrappingAdd32(tmp1, tmp2);
    r := Vars(a, b, c, d, e, f, g, hh);
  }

  /** The last lines of `sha256_core_digest_block`: the working variables added into the state. */
  method AddVars(state: array<bv32>, v: Vars)
    requires state.Length == 8
    modifies state
    ensures state[..] == AddState(old(state[..]), v)
  {
    var sum := AddState(state[..], v);
    forall i | 0 <= i < 8 {
      state[i] := sum[i];
    }
  }

  /** `sha256_core_digest_block`: `state` becomes the compression of `block` into it. */
  method DigestBlock(state: array<bv32>, block: Block)
    requires state.Length == 8
    modifies state
    ensures state[..] == CompressBlock(old(state[..]), block)
  {
    var words := LoadWords(block);
    var v := RunRounds(words, state[..], MessageWords32(block));
    AddVars(state, v);
  }

  /**
   * The padding `finalize` compresses: 0x80 after the `pos` pending bytes of
   * `buf`, zeros, and `field` at `SUFFIX_POS`, in a second block of zeros
   * when it does not fit after the 0x80 byte.
   */
  method DigestTrailer(state: array<bv32>, buf: array<bv8>, pos: nat, field: seq<bv8>)
    requires state.Length == 8 && buf.Length == BlockSize && pos < BlockSize && |field| == BlockSize - SuffixPos
    modifies state, buf
    ensures state[..] == FoldBlocks<State>(CompressBlock, old(state[..]), Trailer(old(buf[..pos]), field))
  {
    ghost var pending := buf[..pos];
    PadBuffer(buf, pos);
    if pos + 1 > SuffixPos {
      DigestTwo(state, buf, pending, field);
    } else {
      DigestOne(state, buf, pending, field);
    }
  }

  /** The padded block has room for the length field: one compression. */
  method DigestOne(state: array<bv32>, buf: array<bv8>, ghost pending: seq<bv8>, field: seq<bv8>)
    requires state.Length == 8 && buf.Length == BlockSize && |field| == BlockSize - SuffixPos
    requires |pending| + 1 <= SuffixPos && buf[..] == pending + [0x80] + Zeros(BlockSize - 1 - |pending|)
    modifies state, buf
    ensures state[..] == FoldBlocks<State>(CompressBlock, old(state[..]), Trailer(pending, field))
  {
    ghost var s0: State := state[..];
    ghost var last: Block := buf[..SuffixPos] + field;
    FoldOne<State>(CompressBlock, s0, last);
    DigestLength(state, buf, field);
  }

  /** The length field does not fit after the 0x80 byte: the padded block, then a block of zeros ending in the field. */
  method DigestTwo(state: array<bv32>, buf: array<bv8>, ghost pending: seq<bv8>, field: seq<bv8>)
    requires state.Length == 8 && buf.Length == BlockSize && |field| == BlockSize - SuffixPos
    requires |pending| < BlockSize && |pending| + 1 > SuffixPos
    requires buf[..] == pending + [0x80] + Zeros(BlockSize - 1 - |pending|)
    modifies state, buf
    ensures state[..] == FoldBlocks<State>(CompressBlock, old(state[..]), Trailer(pending, field))
  {
    ghost var s0: State := state[..];
    ghost var first: Block := buf[..];
    ghost var last: Block := Zeros(BlockSize)[..SuffixPos] + field;
    TwoBlocks(pending, field, first, last);
    FoldTwo<State>(CompressBlock, s0, first, last);
    DigestBlock(state, buf[..]);
    DigestZeroLength(state, buf, field);
  }

  /** A block of zeros ending in the length field, compressed. */
  method DigestZeroLength(state: array<bv32>, buf: array<bv8>, field: seq<bv8>)
    requires state.Length == 8 && buf.Length == BlockSize && |field| == BlockSize - SuffixPos
    modifies state, buf
    ensures state[..] == CompressBlock(old(state[..]), Zeros(BlockSize)[..SuffixPos] + field)
  {
    FillZeros(buf, 0);
    assert buf[..SuffixPos] == Zeros(BlockSize)[..SuffixPos];
    DigestLength(state, buf, field);
  }

  /** The length field at `SUFFIX_POS`, then the block compressed. */
  method DigestLength(state: array<bv32>, buf: array<bv8>, field: seq<bv8>)
    requires state.Length == 8 && buf.Length == BlockSize && |field| == BlockSize - SuffixPos
    modifies state, buf
    ensures state[..] == CompressBlock(old(state[..]), old(buf[..SuffixPos]) + field)
  {
    PlaceLength(buf, SuffixPos, field);
    DigestBlock(state, buf[..]);
  }

  /** `Sha256Core`: the hash state, the buffer holding an incomplete block, and the count of bytes compressed. */
  class Sha256Core {
    const state: array<bv32>
    const buffer: BlockBuffer
    /** `msg_len`: the number of bytes compressed, a `u64`. */
    var msgLen: nat
    /** The initial hash value `new` chose. */
    ghost const iv: State
    /** The bytes compressed so far. */
    ghost var msg: seq<bv8>

    /**
     * The state is the compression of every complete block of `msg`, in
     * order, into the initial hash value, and the buffer holds the rest.
     */
    ghost predicate Valid()
      reads this, state, buffer, buffer.buf
    {
      state.Length == 8 && buffer.Valid() && buffer.size == BlockSize &&
      msgLen == |msg| && msgLen < 0x1_0000_0000_0000_0000 &&
      Absorbed<State>(CompressBlock, iv, msg, state[..], buffer.buf[..buffer.pos])
    }

    /** `new`: the initial hash value of the requested digest size and an empty buffer. */
    constructor (truncatedDigestLenBit: nat)
      ensures Valid() && msg == [] && iv == InitialState(truncatedDigestLenBit)
      ensures fresh(state) && fresh(buffer) && fresh(buffer.buf)
    {
      var h := InitialState(truncatedDigestLenBit);
      state := new bv32[8](i requires 0 <= i < 8 => h[i]);
      iv := h;
      buffer := new BlockBuffer(BlockSize);
      msgLen := 0;
      msg := [];
      new;
      assert state[..] == h;
      assert buffer.buf[..buffer.pos] == [];
    }

    /** The processor `compress` hands to `process_data`: every block, in order, through `sha256_core_digest_block`. */
    method ProcessBlocks(blocks: seq<seq<bv8>>)
      requires state.Length == 8 && AllSized(blocks, BlockSize)
      modifies state
      ensures |Flatten(blocks)| % BlockSize == 0
      ensures state[..] == FoldBlocks<State>(CompressBlock, old(state[..]), Flatten(blocks))
    {
      ghost var s0: State := state[..];
      for i := 0 to |blocks|
        invariant |Flatten(blocks[..i])| % BlockSize == 0
        invariant state[..] == FoldBlocks<State>(CompressBlock, s0, Flatten(blocks[..i]))
      {
        DigestNext(state, s0, blocks, i);
      }
      assert blocks[..|blocks|] == blocks;
    }

    /** One iteration of the processor: the fold extends by block `i`. */
    method DigestNext(state: array<bv32>, ghost s0: State, blocks: seq<seq<bv8>>, i: nat)
      requires state.Length == 8 && AllSized(blocks, BlockSize) && i < |blocks|
      requires |Flatten(blocks[..i])| % BlockSize == 0
      requires state[..] == FoldBlocks<State>(CompressBlock, s0, Flatten(blocks[..i]))
      modifies state
      ensures |Flatten(blocks[..i + 1])| % BlockSize == 0
      ensures state[..] == FoldBlocks<State>(CompressBlock, s0, Flatten(blocks[..i + 1]))
    {
      FoldNextBlock<State>(CompressBlock, s0, blocks, i);
      DigestBlock(state, blocks[i]);
    }

    /** The processor calls of one `process_data`, in order. */
    method ProcessCalls(calls: seq<seq<seq<bv8>>>)
      requires state.Length == 8 && forall c :: 0 <= c < |calls| ==> AllSized(calls[c], BlockSize)
      modifies state
      ensures |Flatten(Flatten(calls))| % BlockSize == 0
      ensures state[..] == FoldBlocks<State>(CompressBlock, old(state[..]), Flatten(Flatten(calls)))
    {
      ghost var s0: State := state[..];
      for c := 0 to |calls|
        invariant |Flatten(Flatten(calls[..c]))| % BlockSize == 0
        invariant state[..] == FoldBlocks<State>(CompressBlock, s0, Flatten(Flatten(calls[..c])))
      {
        FoldNextCall<State>(CompressBlock, s0, calls, c);
        ProcessBlocks(calls[c]);
      }
      assert calls[..|calls|] == calls;
    }

    /** `process_data` with the block processor: the buffer keeps what does not fill a block. */
    method Absorb(data: seq<bv8>) returns (ghost processed: seq<bv8>)
      requires state.Length == 8 && buffer.Valid() && buffer.size == BlockSize
      modifies state, buffer, buffer.buf
      ensures buffer.Valid() && |processed| % BlockSize == 0
      ensures old(buffer.buf[..buffer.pos]) + data == processed + buffer.buf[..buffer.pos]
      ensures state[..] == FoldBlocks<State>(CompressBlock, old(state[..]), processed)
    {
      ghost var held := buffer.buf[..buffer.pos];
      var calls := buffer.ProcessData(data);
      ProcessOutcomeJoin(held, data, BlockSize);
      ProcessCalls(calls);
      processed := Flatten(Flatten(calls));
    }

    /** `compress`: `data` is appended to the message. */
    method Compress(data: seq<bv8>)
      requires Valid() && msgLen + |data| < 0x1_0000_0000_0000_0000
      modifies this, state, buffer, buffer.buf
      ensures Valid() && msg == old(msg) + data
    {
      msgLen := msgLen + |data|;
      ghost var s0: State := state[..];
      ghost var held := buffer.buf[..buffer.pos];
      ghost var processed := Absorb(data);
      AbsorbStep<State>(CompressBlock, iv, msg, s0, held, data, processed, buffer.buf[..buffer.pos]);
      msg := msg + data;
    }

    /**
     * `finalize`: the 0x80 byte after the buffered bytes, zeros, the bit
     * length in the last eight bytes of a block (one more block when they do
     * not fit), and the eight state words as the digest. It is the hash, from
     * the initial hash value, of the message compressed so far.
     */
    method Finalize() returns (digest: seq<bv8>)
      requires Valid()
      modifies state, buffer.buf
      ensures digest == Hash(iv, msg)
    {
      var bitLen := (msgLen * 8) % 0x1_0000_0000_0000_0000;
      var field := NatBytes(bitLen, 8);
      Pow256Moduli();
      LengthField(msg, msgLen, 8);
      ghost var s0: State := state[..];
      assert msg[|Whole(msg)|..] == buffer.buf[..buffer.pos];
      DigestTrailer(state, buffer.buf, buffer.GetPos(), field);
      FinalFold<State>(CompressBlock, iv, msg, s0, 8);
      var out := StoreWords32(state);
      digest := out[..];
    }
  }
}
