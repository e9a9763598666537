/**
 * The core in `sha2/core512.rs`, modelled as written: the SHA-512 round
 * function of section 6.4.2 of FIPS 180-4 on 64-bit words with the 80
 * constants of section 4.2.3, but over the 64-byte blocks the file uses
 * (`BLOCK_SIZE_BIT` is 512), so a block supplies only the first eight
 * schedule words and the next eight are zero; the length field is a
 * 16-byte `u128` at offset 48. The initial hash values are chosen among
 * those of SHA-512/224, SHA-512/256, SHA-384 and SHA-512. Nothing in the
 * library builds this core: `sha2.rs` declares only `core256`.
 */
module Sha512 {

  import opened BitFunctions
  import opened BigEndian
  import opened ShaCommon
  import opened BlockUser
  import opened Buffering

  type State = s: seq<bv64> | |s| == 8 witness [0, 0, 0, 0, 0, 0, 0, 0]

  /** `DIGEST_SIZE_BYTE`: the eight state words, 64 bytes. */
  const DigestSize: nat := 64
  /** `SUFFIX_POS`: where the 16-byte length field starts in the last block. */
  const SuffixPos: nat := 48

  /** The digest sizes `new` recognises, as `SHA224_DIGEST_SIZE_BIT` to `SHA512_DIGEST_SIZE_BIT`. */
  const Sha224Bits: nat := 224
  const Sha256Bits: nat := 256
  const Sha384Bits: nat := 384
  const Sha512Bits: nat := 512

  /** `K_CONSTANTS`, section 4.2.3 of FIPS 180-4. */
  const K: seq<bv64> := [
    0x428a2f98d728ae22, 0x7137449123ef65cd, 0xb5c0fbcfec4d3b2f, 0xe9b5dba58189dbbc,
    0x3956c25bf348b538, 0x59f111f1b605d019, 0x923f82a4af194f9b, 0xab1c5ed5da6d8118,
    0xd807aa98a3030242, 0x12835b0145706fbe, 0x243185be4ee4b28c, 0x550c7dc3d5ffb4e2,
    0x72be5d74f27b896f, 0x80deb1fe3b1696b1, 0x9bdc06a725c71235, 0xc19bf174cf692694,
    0xe49b69c19ef14ad2, 0xefbe4786384f25e3, 0x0fc19dc68b8cd5b5, 0x240ca1cc77ac9c65,
    0x2de92c6f592b0275, 0x4a7484aa6ea6e483, 0x5cb0a9dcbd41fbd4, 0x76f988da831153b5,
    0x983e5152ee66dfab, 0xa831c66d2db43210, 0xb00327c898fb213f, 0xbf597fc7beef0ee4,
    0xc6e00bf33da88fc2, 0xd5a79147930aa725, 0x06ca6351e003826f, 0x142929670a0e6e70,
    0x27b70a8546d22ffc, 0x2e1b21385c26c926, 0x4d2c6dfc5ac42aed, 0x53380d139d95b3df,
    0x650a73548baf63de, 0x766a0abb3c77b2a8, 0x81c2c92e47edaee6, 0x92722c851482353b,
    0xa2bfe8a14cf10364, 0xa81a664bbc423001, 0xc24b8b70d0f89791, 0xc76c51a30654be30,
    0xd192e819d6ef5218, 0xd69906245565a910, 0xf40e35855771202a, 0x106aa07032bbd1b8,
    0x19a4c116b8d2d0c8, 0x1e376c085141ab53, 0x2748774cdf8eeb99, 0x34b0bcb5e19b48a8,
    0x391c0cb3c5c95a63, 0x4ed8aa4ae3418acb, 0x5b9cca4f7763e373, 0x682e6ff3d6b2b8a3,
    0x748f82ee5defb2fc, 0x78a5636f43172f60, 0x84c87814a1f0ab72, 0x8cc702081a6439ec,
    0x90befffa23631e28, 0xa4506cebde82bde9, 0xbef9a3f7b2c67915, 0xc67178f2e372532b,
    0xca273eceea26619c, 0xd186b8c721c0c207, 0xeada7dd6cde0eb1e, 0xf57d4f7fee6ed178,
    0x06f067aa72176fba, 0x0a637dc5a2c898a6, 0x113f9804bef90dae, 0x1b710b35131c471b,
    0x28db77f523047d84, 0x32caab7b40c72493, 0x3c9ebe0a15c9bebc, 0x431d67c49c100d4c,
    0x4cc5d4becb3e42b6, 0x597f299cfc657e2a, 0x5fcb6fab3ad6faec, 0x6c44198c4a475817
  ]

  /** `K_CONSTANTS[t]`. */
  function RoundConstant(t: nat): bv64
    requires t < 80
  {
    K[t]
  }

  /** The initial hash value of SHA-512/224, section 5.3.6.1 of FIPS 180-4. */
  const IV224: State := [0x8c3d37c819544da2, 0x73e1996689dcd4d6, 0x1dfab7ae32ff9c82, 0x679dd514582f9fcf,
     0x0f6d2b697bd44da8, 0x77e36f7304c48942, 0x3f9d85a86a1d36c8, 0x1112e6ad91d692a1]
  /** The initial hash value of SHA-512/256, section 5.3.6.2 of FIPS 180-4. */
  const IV256: State := [0x22312194fc2bf72c, 0x9f555fa3c84c64c2, 0x2393b86b6f53b151, 0x963877195940eabd,
     0x96283ee2a88effe3, 0xbe5e1e2553863992, 0x2b0199fc2c85b8aa, 0x0eb72ddc81c52ca2]
  /** The initial hash value of SHA-384, section 5.3.4 of FIPS 180-4. */
  const IV384: State := [0xcbbb9d5dc1059ed8, 0x629a292a367cd507, 0x9159015a3070dd17, 0x152fecd8f70e5939,
     0x67332667ffc00b31, 0x8eb44a8768581511, 0xdb0c2e0d64f98fa7, 0x47b5481dbefa4fa4]
  /** The initial hash value of SHA-512, section 5.3.5 of FIPS 180-4. */
  const IV512: State := [0x6a09e667f3bcc908, 0xbb67ae8584caa73b, 0x3c6ef372fe94f82b, 0xa54ff53a5f1d36f1,
     0x510e527fade682d1, 0x9b05688c2b3e6c1f, 0x1f83d9abfb41bd6b, 0x5be0cd19137e2179]
  /** `Default::default()`: the state `new` starts from for any other digest size. */
  const IVZero: State := [0, 0, 0, 0, 0, 0, 0, 0]

  /** The match of `new`: the initial hash value for a requested digest size in bits. */
  function InitialState(truncatedDigestLenBit: nat): (r: State)
    ensures truncatedDigestLenBit == Sha224Bits ==> r == IV224
    ensures truncatedDigestLenBit == Sha256Bits ==> r == IV256
    ensures truncatedDigestLenBit == Sha384Bits ==> r == IV384
    ensures truncatedDigestLenBit == Sha512Bits ==> r == IV512
    ensures truncatedDigestLenBit !in {Sha224Bits, Sha256Bits, Sha384Bits, Sha512Bits} ==> r == IVZero
  {
    match truncatedDigestLenBit
    case 224 => IV224
    case 256 => IV256
    case 384 => IV384
    case 512 => IV512
    case _ => IVZero
  }

  /** `big_sig_0`: Σ0 of section 4.1.3 of FIPS 180-4. */
  function BigSigma0(x: bv64): bv64
  {
    RotateRight64(x, 28) ^ RotateRight64(x, 34) ^ RotateRight64(x, 39)
  }

  /** `big_sig_1`: Σ1. */
  function BigSigma1(x: bv64): bv64
  {
    RotateRight64(x, 14) ^ RotateRight64(x, 18) ^ RotateRight64(x, 41)
  }

  /** `small_sig_0`: σ0. */
  function SmallSigma0(x: bv64): bv64
  {
    RotateRight64(x, 1) ^ RotateRight64(x, 8) ^ (x >> 7)
  }

  /** `small_sig_1`: σ1. */
  function SmallSigma1(x: bv64): bv64
  {
    RotateRight64(x, 19) ^ RotateRight64(x, 61) ^ (x >> 6)
  }

  /**
   * The sixteen words the schedule starts from: the eight big-endian words
   * of the 64-byte block, then the eight zeros the `words` array keeps.
   */
  function ScheduleWords(block: Block): (m: seq<bv64>)
    ensures |m| == 16
    ensures forall j :: 0 <= j < 8 ==> m[j] == MessageWords64(block)[j]
    ensures forall j :: 8 <= j < 16 ==> m[j] == 0
  {
    MessageWords64(block) + [0, 0, 0, 0, 0, 0, 0, 0]
  }

  /** The message schedule `W_t`, section 6.4.2 step 1 of FIPS 180-4, with the sums in the order the code adds them. */
  function Schedule(m: seq<bv64>, t: nat): bv64
    requires |m| == 16 && t < 80
  {
    if t < 16 then m[t]
    else WrappingAdd64(WrappingAdd64(WrappingAdd64(Schedule(m, t - 7), Schedule(m, t - 16)),
      SmallSigma1(Schedule(m, t - 2))), SmallSigma0(Schedule(m, t - 15)))
  }

  /** The working variables `a` to `h`. */
  datatype Vars = Vars(a: bv64, b: bv64, c: bv64, d: bv64, e: bv64, f: bv64, g: bv64, h: bv64)

  /** `tmp1` of round `t`. */
  function Temp1(e: bv64, f: bv64, g: bv64, h: bv64, k: bv64, w: bv64): bv64
  {
    WrappingAdd64(WrappingAdd64(WrappingAdd64(WrappingAdd64(h, BigSigma1(e)), Choose64(e, f, g)), k), w)
  }

  /** `tmp2` of a round. */
  function Temp2(a: bv64, b: bv64, c: bv64): bv64
  {
    WrappingAdd64(BigSigma0(a), Majority64(a, b, c))
  }

  /** One round on the working variables, with round constant `k` and schedule word `w`. */
  function Step(v: Vars, k: bv64, w: bv64): Vars
  {
    var tmp1 := Temp1(v.e, v.f, v.g, v.h, k, w);
    var tmp2 := Temp2(v.a, v.b, v.c);
    Vars(WrappingAdd64(tmp1, tmp2), v.a, v.b, v.c, WrappingAdd64(v.d, tmp1), v.e, v.f, v.g)
  }

  /** The working variables after the first `t` rounds, section 6.4.2 steps 2 and 3 of FIPS 180-4. */
  function Rounds(h: State, m: seq<bv64>, t: nat): Vars
    requires |m| == 16 && t <= 80
  {
    if t == 0 then Vars(h[0], h[1], h[2], h[3], h[4], h[5], h[6], h[7])
    else Step(Rounds(h, m, t - 1), RoundConstant(t - 1), Schedule(m, t - 1))
  }

  /** Section 6.4.2 step 4 of FIPS 180-4: each working variable added to its word of the hash value. */
  function AddState(h: State, v: Vars): State
  {
    [WrappingAdd64(h[0], v.a), WrappingAdd64(h[1], v.b), WrappingAdd64(h[2], v.c), WrappingAdd64(h[3], v.d),
     WrappingAdd64(h[4], v.e), WrappingAdd64(h[5], v.f), WrappingAdd64(h[6], v.g), WrappingAdd64(h[7], v.h)]
  }

  /** The intermediate hash value after one 64-byte block. */
  function CompressBlock(h: State, block: Block): State
  {
    AddState(h, Rounds(h, ScheduleWords(block), 80))
  }

  /**
   * The hash this core computes from initial hash value `iv`: the message
   * padded with a 16-byte length field into 64-byte blocks, folded from
   * `iv`, as 64 big-endian bytes.
   */
  function Hash(iv: State, msg: seq<bv8>): (r: seq<bv8>)
    ensures |r| == DigestSize
    ensures Words64(r) == FoldBlocks(CompressBlock, iv, Pad(msg, 16))
  {
    var h := FoldBlocks(CompressBlock, iv, Pad(msg, 16));
    WordsBytes64Words(h);
    WordsBytes64(h)
  }

  /** The first loop of `sha512_core_digest_block`: 80 words, the eight words of the block, then zeros. */
  method LoadWords(block: Block) returns (words: array<bv64>)
    ensures fresh(words) && words.Length == 80
    ensures forall j :: 0 <= j < 16 ==> words[j] == ScheduleWords(block)[j]
  {
    words := new bv64[80](_ => 0);
    for i := 0 to 8
      invariant forall j :: 0 <= j < i ==> words[j] == MessageWords64(block)[j]
      invariant forall j :: 8 <= j < 80 ==> words[j] == 0
    {
      words[i] := Word64(block[8 * i..8 * i + 8]);
    }
  }

  /** The schedule step of the rounds loop: `words[t]` becomes `W_t`, from the earlier sixteen words. */
  method ExtendSchedule(words: array<bv64>, m: seq<bv64>, t: nat)
    requires words.Length == 80 && |m| == 16 && t < 80
    requires forall j :: 0 <= j < 80 && (j < 16 || j < t) ==> words[j] == Schedule(m, j)
    modifies words
    ensures forall j :: 0 <= j < 80 && (j < 16 || j < t + 1) ==> words[j] == Schedule(m, j)
  {
    if t >= 16 {
      var w := WrappingAdd64(WrappingAdd64(WrappingAdd64(words[t - 7], words[t - 16]),
        SmallSigma1(words[t - 2])), SmallSigma0(words[t - 15]));
      ScheduleNext(m, t, words[t - 7], words[t - 16], words[t - 2], words[t - 15], w);
      words[t] := w;
    }
  }

  /** A word of the schedule from the four earlier words the code reads. */
  lemma ScheduleNext(m: seq<bv64>, t: nat, w7: bv64, w16: bv64, w2: bv64, w15: bv64, w: bv64)
    requires |m| == 16 && 16 <= t < 80
    requires w7 == Schedule(m, t - 7) && w16 == Schedule(m, t - 16)
    requires w2 == Schedule(m, t - 2) && w15 == Schedule(m, t - 15)
    requires w == WrappingAdd64(WrappingAdd64(WrappingAdd64(w7, w16), SmallSigma1(w2)), SmallSigma0(w15))
    ensures Schedule(m, t) == w
  {
  }

  /**
   * The rounds loop of `sha512_core_digest_block`, which also extends the
   * schedule in `words` as it goes: the working variables after the 80
   * rounds on `h`.
   */
  method RunRounds(words: array<bv64>, h: State, m: seq<bv64>) returns (v: Vars)
    requires words.Length == 80 && |m| == 16
    requires forall j :: 0 <= j < 16 ==> words[j] == m[j]
    modifies words
    ensures v == Rounds(h, m, 80)
  {
    v := Vars(h[0], h[1], h[2], h[3], h[4], h[5], h[6], h[7]);
    for t := 0 to 80
      invariant forall j :: 0 <= j < 80 && (j < 16 || j < t) ==> words[j] == Schedule(m, j)
      invariant v == Rounds(h, m, t)
    {
      ExtendSchedule(words, m, t);
      RoundsNext(h, m, t, words[t]);
      v := Round(v, K[t], words[t]);
    }
  }

  /** Round `t` continues the rounds before it with its constant and schedule word. */
  lemma RoundsNext(h: State, m: seq<bv64>, t: nat, w: bv64)
    requires |m| == 16 && t < 80 && w == Schedule(m, t)
    ensures Rounds(h, m, t + 1) == Step(Rounds(h, m, t), K[t], w)
  {
  }

  /** One pass of the rounds loop: the working variables shift down, with `e` and `a` taking the new sums. */
  method Round(v: Vars, k: bv64, w: bv64) returns (r: Vars)
    ensures r == Step(v, k, w)
  {
    var a, b, c, d, e, f, g, hh := v.a, v.b, v.c, v.d, v.e, v.f, v.g, v.h;
    var tmp1 := Temp1(e, f, g, hh, k, w);
    var tmp2 := Temp2(a, b, c);
    hh := g;
    g := f;
    f := e;
    e := WrappingAdd64(d, tmp1);
    d := c;
    c := b;
    b := a;
    a := WrappingAdd64(tmp1, tmp2);
    r := Vars(a, b, c, d, e, f, g, hh);
  }

  /** The last lines of `sha512_core_digest_block`: the working variables added into the state. */
  method AddVars(state: array<bv64>, v: Vars)
    requires state.Length == 8
    modifies state
    ensures state[..] == AddState(old(state[..]), v)
  {
    var sum := AddState(state[..], v);
    forall i | 0 <= i < 8 {
      state[i] := sum[i];
    }
  }

  /** `sha512_core_digest_block`: `state` becomes the compression of `block` into it. */
  method DigestBlock(state: array<bv64>, block: Block)
    requires state.Length == 8
    modifies state
    ensures state[..] == CompressBlock(old(state[..]), block)
  {
    var words := LoadWords(block);
    var v := RunRounds(words, state[..], ScheduleWords(block));
    AddVars(state, v);
  }

  /**
   * The padding `finalize` compresses: 0x80 after the `pos` pending bytes of
   * `buf`, zeros, and `field` at `SUFFIX_POS`, in a second block of zeros
   * when it does not fit after the 0x80 byte.
   */
  method DigestTrailer(state: array<bv64>, buf: array<bv8>, pos: nat, field: seq<bv8>)
    requires state.Length == 8 && buf.Length == BlockSize && pos < BlockSize && |field| == BlockSize - SuffixPos
    modifies state, buf
    ensures state[..] == FoldBlocks<State>(CompressBlock, old(state[..]), Trailer(old(buf[..pos]), field))
  {
    ghost var pending := buf[..pos];
    PadBuffer(buf, pos);
    if pos + 1 > SuffixPos {
      DigestTwo(state, buf, pending, field);
    } else {
      DigestOne(state, buf, pending, field);
    }
  }

  /** The padded block has room for the length field: one compression. */
  method DigestOne(state: array<bv64>, buf: array<bv8>, ghost pending: seq<bv8>, field: seq<bv8>)
    requires state.Length == 8 && buf.Length == BlockSize && |field| == BlockSize - SuffixPos
    requires |pending| + 1 <= SuffixPos && buf[..] == pending + [0x80] + Zeros(BlockSize - 1 - |pending|)
    modifies state, buf
    ensures state[..] == FoldBlocks<State>(CompressBlock, old(state[..]), Trailer(pending, field))
  {
    ghost var s0: State := state[..];
    ghost var last: Block := buf[..SuffixPos] + field;
    FoldOne<State>(CompressBlock, s0, last);
    DigestLength(state, buf, field);
  }

  /** The length field does not fit after the 0x80 byte: the padded block, then a block of zeros ending in the field. */
  method DigestTwo(state: array<bv64>, buf: array<bv8>, ghost pending: seq<bv8>, field: seq<bv8>)
    requires state.Length == 8 && buf.Length == BlockSize && |field| == BlockSize - SuffixPos
    requires |pending| < BlockSize && |pending| + 1 > SuffixPos
    requires buf[..] == pending + [0x80] + Zeros(BlockSize - 1 - |pending|)
    modifies state, buf
    ensures state[..] == FoldBlocks<State>(CompressBlock, old(state[..]), Trailer(pending, field))
  {
    ghost var s0: State := state[..];
    ghost var first: Block := buf[..];
    ghost var last: Block := Zeros(BlockSize)[..SuffixPos] + field;
    TwoBlocks(pending, field, first, last);
    FoldTwo<State>(CompressBlock, s0, first, last);
    DigestBlock(state, buf[..]);
    DigestZeroLength(state, buf, field);
  }

  /** A block of zeros ending in the length field, compressed. */
  method DigestZeroLength(state: array<bv64>, buf: array<bv8>, field: seq<bv8>)
    requires state.Length == 8 && buf.Length == BlockSize && |field| == BlockSize - SuffixPos
    modifies state, buf
    ensures state[..] == CompressBlock(old(state[..]), Zeros(BlockSize)[..SuffixPos] + field)
  {
    FillZeros(buf, 0);
    assert buf[..SuffixPos] == Zeros(BlockSize)[..SuffixPos];
    DigestLength(state, buf, field);
  }

  /** The length field at `SUFFIX_POS`, then the block compressed. */
  method DigestLength(state: array<bv64>, buf: array<bv8>, field: seq<bv8>)
    requires state.Length == 8 && buf.Length == BlockSize && |field| == BlockSize - SuffixPos
    modifies state, buf
    ensures state[..] == CompressBlock(old(state[..]), old(buf[..SuffixPos]) + field)
  {
    PlaceLength(buf, SuffixPos, field);
    DigestBlock(state, buf[..]);
  }

  /** `Sha512Core`: the hash state, the buffer holding an incomplete block, and the count of bytes compressed. */
  class Sha512Core {
    const state: array<bv64>
    const buffer: BlockBuffer
    /** `msg_len`: the number of bytes compressed, a `u128`. */
    var msgLen: nat
    /** The initial hash value `new` chose. */
    ghost const iv: State
    /** The bytes compressed so far. */
    ghost var msg: seq<bv8>

    /**
     * The state is the compression of every complete block of `msg`, in
     * order, into the initial hash value, and the buffer holds the rest.
     */
    ghost predicate Valid()
      reads this, state, buffer, buffer.buf
    {
      state.Length == 8 && buffer.Valid() && buffer.size == BlockSize &&
      msgLen == |msg| && msgLen < 0x1_0000_0000_0000_0000_0000_0000_0000_0000 &&
      Absorbed<State>(CompressBlock, iv, msg, state[..], buffer.buf[..buffer.pos])
    }

    /** `new`: the initial hash value of the requested digest size and an empty buffer. */
    constructor (truncatedDigestLenBit: nat)
      ensures Valid() && msg == [] && iv == InitialState(truncatedDigestLenBit)
      ensures fresh(state) && fresh(buffer) && fresh(buffer.buf)
    {
      var h := InitialState(truncatedDigestLenBit);
      state := new bv64[8](i requires 0 <= i < 8 => h[i]);
      iv := h;
      buffer := new BlockBuffer(BlockSize);
      msgLen := 0;
      msg := [];
      new;
      assert state[..] == h;
      assert buffer.buf[..buffer.pos] == [];
    }

    /** The processor `compress` hands to `process_data`: every block, in order, through `sha512_core_digest_block`. */
    method ProcessBlocks(blocks: seq<seq<bv8>>)
      requires state.Length == 8 && AllSized(blocks, BlockSize)
      modifies state
      ensures |Flatten(blocks)| % BlockSize == 0
      ensures state[..] == FoldBlocks<State>(CompressBlock, old(state[..]), Flatten(blocks))
    {
      ghost var s0: State := state[..];
      for i := 0 to |blocks|
        invariant |Flatten(blocks[..i])| % BlockSize == 0
        invariant state[..] == FoldBlocks<State>(CompressBlock, s0, Flatten(blocks[..i]))
      {
        DigestNext(state, s0, blocks, i);
      }
      assert blocks[..|blocks|] == blocks;
    }

    /** One iteration of the processor: the fold extends by block `i`. */
    method DigestNext(state: array<bv64>, ghost s0: State, blocks: seq<seq<bv8>>, i: nat)
      requires state.Length == 8 && AllSized(blocks, BlockSize) && i < |blocks|
      requires |Flatten(blocks[..i])| % BlockSize == 0
      requires state[..] == FoldBlocks<State>(CompressBlock, s0, Flatten(blocks[..i]))
      modifies state
      ensures |Flatten(blocks[..i + 1])| % BlockSize == 0
      ensures state[..] == FoldBlocks<State>(CompressBlock, s0, Flatten(blocks[..i + 1]))
    {
      FoldNextBlock<State>(CompressBlock, s0, blocks, i);
      DigestBlock(state, blocks[i]);
    }

    /** The processor calls of one `process_data`, in order. */
    method ProcessCalls(calls: seq<seq<seq<bv8>>>)
      requires state.Length == 8 && forall c :: 0 <= c < |calls| ==> AllSized(calls[c], BlockSize)
      modifies state
      ensures |Flatten(Flatten(calls))| % BlockSize == 0
      ensures state[..] == FoldBlocks<State>(CompressBlock, old(state[..]), Flatten(Flatten(calls)))
    {
      ghost var s0: State := state[..];
      for c := 0 to |calls|
        invariant |Flatten(Flatten(calls[..c]))| % BlockSize == 0
        invariant state[..] == FoldBlocks<State>(CompressBlock, s0, Flatten(Flatten(calls[..c])))
      {
        FoldNextCall<State>(CompressBlock, s0, calls, c);
        ProcessBlocks(calls[c]);
      }
      assert calls[..|calls|] == calls;
    }

    /** `process_data` with the block processor: the buffer keeps what does not fill a block. */
    method Absorb(data: seq<bv8>) returns (ghost processed: seq<bv8>)
      requires state.Length == 8 && buffer.Valid() && buffer.size == BlockSize
      modifies state, buffer, buffer.buf
      ensures buffer.Valid() && |processed| % BlockSize == 0
      ensures old(buffer.buf[..buffer.pos]) + data == processed + buffer.buf[..buffer.pos]
      ensures state[..] == FoldBlocks<State>(CompressBlock, old(state[..]), processed)
    {
      ghost var held := buffer.buf[..buffer.pos];
      var calls := buffer.ProcessData(data);
      ProcessOutcomeJoin(held, data, BlockSize);
      ProcessCalls(calls);
      processed := Flatten(Flatten(calls));
    }

    /** `compress`: `data` is appended to the message. */
    method Compress(data: seq<bv8>)
      requires Valid() && msgLen + |data| < 0x1_0000_0000_0000_0000_0000_0000_0000_0000
      modifies this, state, buffer, buffer.buf
      ensures Valid() && msg == old(msg) + data
    {
      msgLen := msgLen + |data|;
      ghost var s0: State := state[..];
      ghost var held := buffer.buf[..buffer.pos];
      ghost var processed := Absorb(data);
      AbsorbStep<State>(CompressBlock, iv, msg, s0, held, data, processed, buffer.buf[..buffer.pos]);
      msg := msg + data;
    }

    /**
     * `finalize`: the 0x80 byte after the buffered bytes, zeros, the bit
     * length as a `u128` in the last sixteen bytes of a block (one more block
     * when they do not fit), and the eight state words as the digest. It is the hash, from
     * the initial hash value, of the message compressed so far.
     */
    method Finalize() returns (digest: seq<bv8>)
      requires Valid()
      modifies state, buffer.buf
      ensures digest == Hash(iv, msg)
    {
      var bitLen := (msgLen * 8) % 0x1_0000_0000_0000_0000_0000_0000_0000_0000;
      var field := NatBytes(bitLen, 16);
      Pow256Moduli();
      LengthField(msg, msgLen, 16);
      ghost var s0: State := state[..];
      assert msg[|Whole(msg)|..] == buffer.buf[..buffer.pos];
      DigestTrailer(state, buffer.buf, buffer.GetPos(), field);
      FinalFold<State>(CompressBlock, iv, msg, s0, 16);
      var out := StoreWords64(state);
      digest := out[..];
    }
  }
}
