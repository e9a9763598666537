/**
 * Big-endian conversions between words and bytes: `u32::from_be_bytes`,
 * `u32::to_be_bytes` and their 64-bit twins, the big-endian encoding of the
 * message length, and the serialisation of a hash state into its digest.
 */
/** Casting a number below 256 to `u8` keeps its value. */
module ByteCast {

  import opened DivMod

  /** The cast, stated modulo 256 as the solver's bit-vector theory has it. */
  lemma ByteMod(x: nat)
    requires x < 256
    ensures (x as bv8) as int == x % 256
  {
  }

  /** A byte below 256 converts to `u8` and back unchanged. */
  lemma ByteValue(x: nat)
    requires x < 256
    ensures (x as bv8) as nat == x
  {
    ByteMod(x);
    DivSmall(x, 256);
  }
}

module BigEndian {

  import opened DivMod
  import opened ByteCast

  type Bytes = seq<bv8>

  /** `u32::from_be_bytes`: the first byte is the most significant. */
  function Word32(b: Bytes): bv32
    requires |b| == 4
  {
    (b[0] as bv32 << 24) | (b[1] as bv32 << 16) | (b[2] as bv32 << 8) | b[3] as bv32
  }

  /** `u32::to_be_bytes`, the inverse of `Word32`. */
  function Bytes32(w: bv32): (b: Bytes)
    ensures |b| == 4 && Word32(b) == w
  {
    [(w >> 24) as bv8, ((w >> 16) & 0xff) as bv8, ((w >> 8) & 0xff) as bv8, (w & 0xff) as bv8]
  }

  lemma Bytes32Word32(b: Bytes)
    requires |b| == 4
    ensures Bytes32(Word32(b)) == b
  {
  }

  /** `u64::from_be_bytes`. */
  function Word64(b: Bytes): bv64
    requires |b| == 8
  {
    (b[0] as bv64 << 56) | (b[1] as bv64 << 48) | (b[2] as bv64 << 40) | (b[3] as bv64 << 32) |
    (b[4] as bv64 << 24) | (b[5] as bv64 << 16) | (b[6] as bv64 << 8) | b[7] as bv64
  }

  /** `u64::to_be_bytes`, the inverse of `Word64`. */
  function Bytes64(w: bv64): (b: Bytes)
    ensures |b| == 8 && Word64(b) == w
  {
    [(w >> 56) as bv8, ((w >> 48) & 0xff) as bv8, ((w >> 40) & 0xff) as bv8, ((w >> 32) & 0xff) as bv8,
     ((w >> 24) & 0xff) as bv8, ((w >> 16) & 0xff) as bv8, ((w >> 8) & 0xff) as bv8, (w & 0xff) as bv8]
  }

  lemma Bytes64Word64(b: Bytes)
    requires |b| == 8
    ensures Bytes64(Word64(b)) == b
  {
  }

  function Pow256(k: nat): (r: nat)
    ensures r >= 1
  {
    if k == 0 then 1 else 256 * Pow256(k - 1)
  }

  /** `256^8` and `256^16`, the number of values of `u64` and of `u128`: their arithmetic wraps modulo these. */
  lemma Pow256Moduli()
    ensures Pow256(8) == 0x1_0000_0000_0000_0000
    ensures Pow256(16) == 0x1_0000_0000_0000_0000_0000_0000_0000_0000
  {
  }

  /** The value of bytes read most significant first. */
  function Value(b: Bytes): nat
  {
    if b == [] then 0 else Value(b[..|b| - 1]) * 256 + b[|b| - 1] as nat
  }

  /**
   * `to_be_bytes` of an unsigned integer of `k` bytes, for the value `n`
   * reduced modulo `256^k` as the integer type does.
   */
  function NatBytes(n: nat, k: nat): (r: Bytes)
    ensures |r| == k
  {
    if k == 0 then [] else NatBytes(n / 256, k - 1) + [(n % 256) as bv8]
  }

  /** Reading the bytes back gives the number modulo `256^k`. */
  lemma {:induction false} NatBytesValue(n: nat, k: nat)
    ensures Value(NatBytes(n, k)) == n % Pow256(k)
  {
    if k > 0 {
      var r := NatBytes(n, k);
      assert r[..k - 1] == NatBytes(n / 256, k - 1);
      NatBytesValue(n / 256, k - 1);
      DivMod256(n, Pow256(k - 1));
      ByteValue(n % 256);
    }
  }

  /** The encoding depends only on the number modulo `256^k`: an integer type's wrap-around is invisible in its bytes. */
  lemma {:induction false} NatBytesMod(n: nat, k: nat)
    ensures NatBytes(n % Pow256(k), k) == NatBytes(n, k)
  {
    if k > 0 {
      var m := Pow256(k - 1);
      var r := n % (256 * m);
      DivMod256(n, m);
      assert r == (n / 256 % m) * 256 + n % 256;
      ModUnique(r, 256, n / 256 % m, n % 256);
      NatBytesMod(n / 256, k - 1);
    }
  }

  lemma DivMod256(n: nat, m: nat)
    requires m >= 1
    ensures (n / 256 % m) * 256 + n % 256 == n % (256 * m)
  {
    var q := n / 256;
    var q2 := q / m;
    var r2 := q % m;
    var low := r2 * 256 + n % 256;
    assert q == q2 * m + r2;
    assert n == q * 256 + n % 256;
    MulAssoc(q2, m);
    assert n == q2 * (256 * m) + low;
    assert low < 256 * m by { MulLe(r2, m - 1); }
    ModUnique(n, 256 * m, q2, low);
  }

  lemma MulAssoc(a: int, m: int)
    ensures (a * m) * 256 == a * (256 * m)
  {
  }

  lemma MulLe(a: nat, b: nat)
    requires a <= b
    ensures a * 256 <= b * 256
  {
  }

  /** The digest: each state word big-endian, in order, as `finalize` writes them with `chunks_exact_mut`. */
  function WordsBytes32(ws: seq<bv32>): (r: Bytes)
    ensures |r| == 4 * |ws|
  {
    if ws == [] then [] else WordsBytes32(ws[..|ws| - 1]) + Bytes32(ws[|ws| - 1])
  }

  /** Reading 4-byte groups back as words. */
  function Words32(b: Bytes): (ws: seq<bv32>)
    requires |b| % 4 == 0
    ensures |ws| == |b| / 4
  {
    if b == [] then [] else Words32(b[..|b| - 4]) + [Word32(b[|b| - 4..])]
  }

  lemma {:induction false} WordsBytes32Words(ws: seq<bv32>)
    ensures Words32(WordsBytes32(ws)) == ws
  {
    if ws != [] {
      var init := ws[..|ws| - 1];
      WordsBytes32Words(init);
      Words32Append(WordsBytes32(init), ws[|ws| - 1]);
      LastSplit(ws);
    }
  }

  lemma LastSplit<T>(s: seq<T>)
    requires s != []
    ensures s[..|s| - 1] + [s[|s| - 1]] == s
  {
  }

  /** One more word's bytes read back as one more word. */
  lemma Words32Append(b: Bytes, w: bv32)
    requires |b| % 4 == 0
    ensures |b + Bytes32(w)| % 4 == 0 && Words32(b + Bytes32(w)) == Words32(b) + [w]
  {
    var c := b + Bytes32(w);
    assert |c| == |b| + 4;
    assert c[..|c| - 4] == b;
    assert c[|c| - 4..] == Bytes32(w);
  }

  function WordsBytes64(ws: seq<bv64>): (r: Bytes)
    ensures |r| == 8 * |ws|
  {
    if ws == [] then [] else WordsBytes64(ws[..|ws| - 1]) + Bytes64(ws[|ws| - 1])
  }

  function Words64(b: Bytes): (ws: seq<bv64>)
    requires |b| % 8 == 0
    ensures |ws| == |b| / 8
  {
    if b == [] then [] else Words64(b[..|b| - 8]) + [Word64(b[|b| - 8..])]
  }

  lemma {:induction false} WordsBytes64Words(ws: seq<bv64>)
    ensures Words64(WordsBytes64(ws)) == ws
  {
    if ws != [] {
      var init := ws[..|ws| - 1];
      WordsBytes64Words(init);
      Words64Append(WordsBytes64(init), ws[|ws| - 1]);
      LastSplit(ws);
    }
  }

  /** One more word's bytes read back as one more word. */
  lemma Words64Append(b: Bytes, w: bv64)
    requires |b| % 8 == 0
    ensures |b + Bytes64(w)| % 8 == 0 && Words64(b + Bytes64(w)) == Words64(b) + [w]
  {
    var c := b + Bytes64(w);
    assert |c| == |b| + 8;
    assert c[..|c| - 8] == b;
    assert c[|c| - 8..] == Bytes64(w);
  }

  /**
   * The digest loop of `finalize`: each word of `words` written big-endian
   * into its own 4-byte chunk of a fresh array.
   */
  method StoreWords32(words: array<bv32>) returns (digest: array<bv8>)
    ensures fresh(digest) && digest[..] == WordsBytes32(words[..])
  {
    digest := new bv8[4 * words.Length];
    for i := 0 to words.Length
      invariant digest[..4 * i] == WordsBytes32(words[..i])
    {
      var bytes := Bytes32(words[i]);
      CopyChunk(digest, 4 * i, bytes);
      assert words[..i + 1][..i] == words[..i];
    }
    assert words[..words.Length] == words[..];
    assert digest[..4 * words.Length] == digest[..];
  }

  method StoreWords64(words: array<bv64>) returns (digest: array<bv8>)
    ensures fresh(digest) && digest[..] == WordsBytes64(words[..])
  {
    digest := new bv8[8 * words.Length];
    for i := 0 to words.Length
      invariant digest[..8 * i] == WordsBytes64(words[..i])
    {
      var bytes := Bytes64(words[i]);
      CopyChunk(digest, 8 * i, bytes);
      assert words[..i + 1][..i] == words[..i];
    }
    assert words[..words.Length] == words[..];
    assert digest[..8 * words.Length] == digest[..];
  }

  /** `chunk.copy_from_slice(bytes)` on the chunk of `out` starting at `at`. */
  method CopyChunk(out: array<bv8>, at: nat, bytes: Bytes)
    requires at + |bytes| <= out.Length
    modifies out
    ensures out[..at + |bytes|] == old(out[..at]) + bytes
    ensures out[at + |bytes|..] == old(out[at + |bytes|..])
  {
    for k := 0 to |bytes|
      invariant out[..at + k] == old(out[..at]) + bytes[..k]
      invariant out[at + k..] == old(out[at + k..])
    {
      out[at + k] := bytes[k];
      assert bytes[..k + 1] == bytes[..k] + [bytes[k]];
    }
  }
}
