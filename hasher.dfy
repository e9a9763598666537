/**
 * `Hasher<Core, DIGEST_SIZE_BIT>`: a hashing core whose digest is cut to
 * `DIGEST_SIZE_BIT >> 3` bytes, and whose `digest_into` variants report an
 * output slice that is too short. The core type parameter becomes `Kind`, and
 * the core value an `Engine` holding one of the three core objects.
 */
module Hashing {

  import Sha1
  import Sha256
  import Sha512
  import opened ShaCommon
  import opened Buffering
  import opened Wrappers

  /** `InsufficientMemoryError`: the output slice cannot hold the digest. */
  datatype InsufficientMemoryError = InsufficientMemoryError

  /** The `Core` type parameter of `Hasher`. */
  datatype Kind = Sha1Kind | Sha256Kind | Sha512Kind

  /** The `core` field of `Hasher`. */
  datatype Engine =
    | Sha1Engine(sha1: Sha1.Sha1Core)
    | Sha256Engine(sha256: Sha256.Sha256Core)
    | Sha512Engine(sha512: Sha512.Sha512Core)

  /** `Core::DIGEST_SIZE`. */
  function CoreDigestSize(kind: Kind): nat
  {
    match kind
    case Sha1Kind => Sha1.DigestSize
    case Sha256Kind => Sha256.DigestSize
    case Sha512Kind => Sha512.DigestSize
  }

  /** One more than the largest byte count the core's `msg_len` counter holds. */
  function MessageLimit(kind: Kind): nat
  {
    match kind
    case Sha1Kind => 0x1_0000_0000_0000_0000
    case Sha256Kind => 0x1_0000_0000_0000_0000
    case Sha512Kind => 0x1_0000_0000_0000_0000_0000_0000_0000_0000
  }

  /** `DIGEST_SIZE`, that is `DIGEST_SIZE_BIT >> 3`: the whole bytes in the requested bit length. */
  function DigestSize(digestSizeBit: nat): (r: nat)
    ensures r * 8 <= digestSizeBit < r * 8 + 8
  {
    digestSizeBit / 8
  }

  /** What `Core::finalize` returns for `msg`: the core's hash from the initial value `new` chose. */
  function FullDigest(kind: Kind, digestSizeBit: nat, msg: seq<bv8>): (r: seq<bv8>)
    ensures |r| == CoreDigestSize(kind)
  {
    match kind
    case Sha1Kind => Sha1.Hash(msg)
    case Sha256Kind => Sha256.Hash(Sha256.InitialState(digestSizeBit), msg)
    case Sha512Kind => Sha512.Hash(Sha512.InitialState(digestSizeBit), msg)
  }

  /** The digest `Hasher` hands out: the first `DIGEST_SIZE` bytes of the full digest. */
  function Truncated(kind: Kind, digestSizeBit: nat, msg: seq<bv8>): (r: seq<bv8>)
    requires DigestSize(digestSizeBit) <= CoreDigestSize(kind)
    ensures |r| == DigestSize(digestSizeBit) && r <= FullDigest(kind, digestSizeBit, msg)
  {
    FullDigest(kind, digestSizeBit, msg)[..DigestSize(digestSizeBit)]
  }

  /** `after` is `before` with its front overwritten by `src`. */
  ghost predicate CopiedPrefix(after: seq<bv8>, before: seq<bv8>, src: seq<bv8>)
  {
    |after| == |before| && |src| <= |after| && after[..|src|] == src && after[|src|..] == before[|src|..]
  }

  /** The objects of a core: itself, its state array, its buffer and the buffer's bytes. */
  ghost function EngineRepr(e: Engine): set<object>
  {
    match e
    case Sha1Engine(c) => {c, c.state, c.buffer, c.buffer.buf}
    case Sha256Engine(c) => {c, c.state, c.buffer, c.buffer.buf}
    case Sha512Engine(c) => {c, c.state, c.buffer, c.buffer.buf}
  }

  /** The core is of `kind`, keeps its own invariant, and started from the initial value for `digestSizeBit`. */
  ghost predicate EngineValid(e: Engine, kind: Kind, digestSizeBit: nat)
    reads EngineRepr(e)
  {
    match e
    case Sha1Engine(c) => kind == Sha1Kind && c.Valid()
    case Sha256Engine(c) => kind == Sha256Kind && c.Valid() && c.iv == Sha256.InitialState(digestSizeBit)
    case Sha512Engine(c) => kind == Sha512Kind && c.Valid() && c.iv == Sha512.InitialState(digestSizeBit)
  }

  /** The bytes the core has compressed. */
  ghost function EngineMsg(e: Engine): seq<bv8>
    reads EngineRepr(e)
  {
    match e
    case Sha1Engine(c) => c.msg
    case Sha256Engine(c) => c.msg
    case Sha512Engine(c) => c.msg
  }

  /** `Core::new(DIGEST_SIZE_BIT)`. */
  method NewEngine(kind: Kind, digestSizeBit: nat) returns (e: Engine)
    ensures EngineValid(e, kind, digestSizeBit) && EngineMsg(e) == [] && fresh(EngineRepr(e))
  {
    match kind
    case Sha1Kind =>
      var c := new Sha1.Sha1Core(digestSizeBit);
      e := Sha1Engine(c);
    case Sha256Kind =>
      var c := new Sha256.Sha256Core(digestSizeBit);
      e := Sha256Engine(c);
    case Sha512Kind =>
      var c := new Sha512.Sha512Core(digestSizeBit);
      e := Sha512Engine(c);
  }

  /** `Core::compress`: the data are appended to the message. */
  method EngineCompress(e: Engine, kind: Kind, digestSizeBit: nat, data: seq<bv8>)
    requires EngineValid(e, kind, digestSizeBit) && |EngineMsg(e)| + |data| < MessageLimit(kind)
    modifies EngineRepr(e)
    ensures EngineValid(e, kind, digestSizeBit) && EngineMsg(e) == old(EngineMsg(e)) + data
  {
    match e
    case Sha1Engine(c) => c.Compress(data);
    case Sha256Engine(c) => c.Compress(data);
    case Sha512Engine(c) => c.Compress(data);
  }

  /** `Core::finalize`: the full digest of the message. */
  method EngineFinalize(e: Engine, kind: Kind, digestSizeBit: nat) returns (full: seq<bv8>)
    requires EngineValid(e, kind, digestSizeBit)
    modifies EngineRepr(e)
    ensures full == FullDigest(kind, digestSizeBit, old(EngineMsg(e)))
  {
    match e
    case Sha1Engine(c) => full := Sha1Finalize(c, digestSizeBit);
    case Sha256Engine(c) => full := Sha256Finalize(c, digestSizeBit);
    case Sha512Engine(c) => full := Sha512Finalize(c, digestSizeBit);
  }

  method Sha1Finalize(c: Sha1.Sha1Core, digestSizeBit: nat) returns (full: seq<bv8>)
    requires c.Valid()
    modifies c.state, c.buffer.buf
    ensures full == FullDigest(Sha1Kind, digestSizeBit, old(c.msg))
  {
    full := c.Finalize();
  }

  method Sha256Finalize(c: Sha256.Sha256Core, digestSizeBit: nat) returns (full: seq<bv8>)
    requires c.Valid() && c.iv == Sha256.InitialState(digestSizeBit)
    modifies c.state, c.buffer.buf
    ensures full == FullDigest(Sha256Kind, digestSizeBit, old(c.msg))
  {
    full := c.Finalize();
  }

  method Sha512Finalize(c: Sha512.Sha512Core, digestSizeBit: nat) returns (full: seq<bv8>)
    requires c.Valid() && c.iv == Sha512.InitialState(digestSizeBit)
    modifies c.state, c.buffer.buf
    ensures full == FullDigest(Sha512Kind, digestSizeBit, old(c.msg))
  {
    full := c.Finalize();
  }

  /** Everything a core holds: the state words, the buffer's bytes and position, and the byte count. */
  datatype Snapshot =
    | Snapshot32(words: seq<bv32>, block: seq<bv8>, pos: nat, msgLen: nat)
    | Snapshot64(words64: seq<bv64>, block: seq<bv8>, pos: nat, msgLen: nat)

  /** The core's contents, read off its objects. */
  ghost function EngineSnapshot(e: Engine): Snapshot
    reads EngineRepr(e)
  {
    match e
    case Sha1Engine(c) => Snapshot32(c.state[..], c.buffer.buf[..], c.buffer.pos, c.msgLen)
    case Sha256Engine(c) => Snapshot32(c.state[..], c.buffer.buf[..], c.buffer.pos, c.msgLen)
    case Sha512Engine(c) => Snapshot64(c.state[..], c.buffer.buf[..], c.buffer.pos, c.msgLen)
  }

  /** The bytes after the last whole block of `msg`. */
  function Pending(msg: seq<bv8>): (r: seq<bv8>)
    ensures Whole(msg) + r == msg && |r| < BlockSize
  {
    msg[|Whole(msg)|..]
  }

  /**
   * The contents a core of `kind` has after compressing `msg`: every whole
   * block folded into the initial value, the rest buffered and followed by
   * zeros, and the byte count.
   */
  function ExpectedSnapshot(kind: Kind, digestSizeBit: nat, msg: seq<bv8>): Snapshot
  {
    match kind
    case Sha1Kind =>
      Snapshot32(FoldBlocks(Sha1.CompressBlock, Sha1.IV, Whole(msg)), Buffered(msg), |Pending(msg)|, |msg|)
    case Sha256Kind =>
      Snapshot32(FoldBlocks(Sha256.CompressBlock, Sha256.InitialState(digestSizeBit), Whole(msg)),
        Buffered(msg), |Pending(msg)|, |msg|)
    case Sha512Kind =>
      Snapshot64(FoldBlocks(Sha512.CompressBlock, Sha512.InitialState(digestSizeBit), Whole(msg)),
        Buffered(msg), |Pending(msg)|, |msg|)
  }

  /** The buffer's bytes after `msg`: the bytes after its last whole block, then zeros. */
  function Buffered(msg: seq<bv8>): seq<bv8>
  {
    Pending(msg) + Zeros(BlockSize - |Pending(msg)|)
  }

  /** What `new` builds: the initial hash value, a zeroed buffer with nothing in it, and a zero count. */
  function InitialSnapshot(kind: Kind, digestSizeBit: nat): Snapshot
  {
    match kind
    case Sha1Kind => Snapshot32(Sha1.IV, Zeros(BlockSize), 0, 0)
    case Sha256Kind => Snapshot32(Sha256.InitialState(digestSizeBit), Zeros(BlockSize), 0, 0)
    case Sha512Kind => Snapshot64(Sha512.InitialState(digestSizeBit), Zeros(BlockSize), 0, 0)
  }

  /** A buffer holding the bytes after the last whole block of `msg`, with zeros behind them. */
  lemma BufferHolds(b: BlockBuffer, msg: seq<bv8>)
    requires b.Valid() && b.size == BlockSize && msg == Whole(msg) + b.buf[..b.pos]
    ensures b.pos == |Pending(msg)| && b.buf[..] == Buffered(msg)
  {
    var p := b.buf[..b.pos];
    assert p == msg[|Whole(msg)|..];
    var expected := p + Zeros(BlockSize - b.pos);
    forall i | 0 <= i < BlockSize
      ensures b.buf[..][i] == expected[i]
    {
      if i < b.pos {
        assert expected[i] == p[i];
      }
    }
  }

  /** A valid core's contents are determined by its kind, its digest size and the message it has compressed. */
  lemma EngineSnapshotOfMessage(e: Engine, kind: Kind, digestSizeBit: nat)
    requires EngineValid(e, kind, digestSizeBit)
    ensures EngineSnapshot(e) == ExpectedSnapshot(kind, digestSizeBit, EngineMsg(e))
  {
    match e
    case Sha1Engine(c) => Sha1Snapshot(c, digestSizeBit);
    case Sha256Engine(c) => Sha256Snapshot(c, digestSizeBit);
    case Sha512Engine(c) => Sha512Snapshot(c, digestSizeBit);
  }

  lemma Sha1Snapshot(c: Sha1.Sha1Core, digestSizeBit: nat)
    requires c.Valid()
    ensures EngineSnapshot(Sha1Engine(c)) == ExpectedSnapshot(Sha1Kind, digestSizeBit, c.msg)
  {
    BufferHolds(c.buffer, c.msg);
  }

  lemma Sha256Snapshot(c: Sha256.Sha256Core, digestSizeBit: nat)
    requires c.Valid() && c.iv == Sha256.InitialState(digestSizeBit)
    ensures EngineSnapshot(Sha256Engine(c)) == ExpectedSnapshot(Sha256Kind, digestSizeBit, c.msg)
  {
    BufferHolds(c.buffer, c.msg);
  }

  lemma Sha512Snapshot(c: Sha512.Sha512Core, digestSizeBit: nat)
    requires c.Valid() && c.iv == Sha512.InitialState(digestSizeBit)
    ensures EngineSnapshot(Sha512Engine(c)) == ExpectedSnapshot(Sha512Kind, digestSizeBit, c.msg)
  {
    BufferHolds(c.buffer, c.msg);
  }

  /** The contents after an empty message are those `new` builds. */
  lemma ExpectedEmpty(kind: Kind, digestSizeBit: nat)
    ensures ExpectedSnapshot(kind, digestSizeBit, []) == InitialSnapshot(kind, digestSizeBit)
  {
    assert Whole([]) == [];
    assert Pending([]) == [];
  }

  /** A valid core that has compressed nothing holds what `new` builds. */
  lemma EmptyEngine(e: Engine, kind: Kind, digestSizeBit: nat)
    requires EngineValid(e, kind, digestSizeBit) && EngineMsg(e) == []
    ensures EngineSnapshot(e) == InitialSnapshot(kind, digestSizeBit)
  {
    EngineSnapshotOfMessage(e, kind, digestSizeBit);
    ExpectedEmpty(kind, digestSizeBit);
  }

  class Hasher {
    /** `Core`. */
    const kind: Kind
    /** `DIGEST_SIZE_BIT`. */
    const digestSizeBit: nat
    /** `core`. */
    var engine: Engine

    ghost predicate Valid()
      reads this, EngineRepr(engine)
    {
      this !in EngineRepr(engine) && EngineValid(engine, kind, digestSizeBit)
    }

    /** The bytes given to `update` since `new` or the last reset. */
    ghost function Msg(): seq<bv8>
      reads this, EngineRepr(engine)
    {
      EngineMsg(engine)
    }

    ghost function Snapshot(): Snapshot
      reads this, EngineRepr(engine)
    {
      EngineSnapshot(engine)
    }

    /** `new`: a core built for `DIGEST_SIZE_BIT`, holding what a fresh one holds. */
    constructor (kind: Kind, digestSizeBit: nat)
      ensures Valid() && Msg() == [] && fresh(EngineRepr(engine))
      ensures this.kind == kind && this.digestSizeBit == digestSizeBit
      ensures Snapshot() == InitialSnapshot(kind, digestSizeBit)
    {
      this.kind := kind;
      this.digestSizeBit := digestSizeBit;
      var e := NewEngine(kind, digestSizeBit);
      engine := e;
      new;
      Separate(this, engine);
      EmptyEngine(engine, kind, digestSizeBit);
    }

    /** `reset`: `*self = Self::new()`. */
    method Reset()
      modifies this
      ensures Valid() && Msg() == [] && fresh(EngineRepr(engine))
      ensures Snapshot() == InitialSnapshot(kind, digestSizeBit)
    {
      engine := NewEngine(kind, digestSizeBit);
      EmptyEngine(engine, kind, digestSizeBit);
    }

    /** `update`: one `compress` of `data`, then the hasher itself is returned. */
    method Update(data: seq<bv8>) returns (h: Hasher)
      requires Valid() && |Msg()| + |data| < MessageLimit(kind)
      modifies EngineRepr(engine)
      ensures h == this && Valid() && Msg() == old(Msg()) + data
    {
      EngineCompress(engine, kind, digestSizeBit, data);
      h := this;
    }

    /** `update_in_place`: one `compress` of `data`. */
    method UpdateInPlace(data: seq<bv8>)
      requires Valid() && |Msg()| + |data| < MessageLimit(kind)
      modifies EngineRepr(engine)
      ensures Valid() && Msg() == old(Msg()) + data
    {
      EngineCompress(engine, kind, digestSizeBit, data);
    }

    /** `digest`: the first `DIGEST_SIZE` bytes of the full digest. */
    method Digest() returns (d: seq<bv8>)
      requires Valid() && DigestSize(digestSizeBit) <= CoreDigestSize(kind)
      modifies EngineRepr(engine)
      ensures d == Truncated(kind, digestSizeBit, old(Msg()))
    {
      var full := EngineFinalize(engine, kind, digestSizeBit);
      d := full[..DigestSize(digestSizeBit)];
    }

    /**
     * `digest_into`: an output shorter than `DIGEST_SIZE` is an error, and
     * then nothing is finalized or written; otherwise the truncated digest
     * goes to the front of `out` and the bytes after it are left alone.
     */
    method DigestInto(out: array<bv8>) returns (r: Result<(), InsufficientMemoryError>)
      requires Valid() && DigestSize(digestSizeBit) <= CoreDigestSize(kind) && out !in EngineRepr(engine)
      modifies EngineRepr(engine), out
      ensures out.Length < DigestSize(digestSizeBit) ==>
        r == Err(InsufficientMemoryError) && unchanged(out) &&
        Valid() && Msg() == old(Msg()) && Snapshot() == old(Snapshot())
      ensures out.Length >= DigestSize(digestSizeBit) ==>
        r == Ok(()) && CopiedPrefix(out[..], old(out[..]), Truncated(kind, digestSizeBit, old(Msg())))
    {
      var n := DigestSize(digestSizeBit);
      if out.Length < n {
        return Err(InsufficientMemoryError);
      }
      var d := Digest();
      CopyPrefix(out, d);
      r := Ok(());
    }

    /** `digest_reset`: the truncated digest, after which the hasher holds what `new` builds. */
    method DigestReset() returns (d: seq<bv8>)
      requires Valid() && DigestSize(digestSizeBit) <= CoreDigestSize(kind)
      modifies this, EngineRepr(engine)
      ensures d == Truncated(kind, digestSizeBit, old(Msg()))
      ensures Valid() && Msg() == [] && fresh(EngineRepr(engine))
      ensures Snapshot() == InitialSnapshot(kind, digestSizeBit)
    {
      var full := EngineFinalize(engine, kind, digestSizeBit);
      Reset();
      d := full[..DigestSize(digestSizeBit)];
    }

    /**
     * `digest_into_reset`: as `digest_into`, and on success the hasher then
     * holds what `new` builds; on the error nothing at all changes.
     */
    method DigestIntoReset(out: array<bv8>) returns (r: Result<(), InsufficientMemoryError>)
      requires Valid() && DigestSize(digestSizeBit) <= CoreDigestSize(kind) && out !in EngineRepr(engine)
      modifies this, EngineRepr(engine), out
      ensures out.Length < DigestSize(digestSizeBit) ==>
        r == Err(InsufficientMemoryError) && engine == old(engine) && unchanged(out) &&
        Valid() && Msg() == old(Msg()) && Snapshot() == old(Snapshot())
      ensures out.Length >= DigestSize(digestSizeBit) ==>
        r == Ok(()) && CopiedPrefix(out[..], old(out[..]), Truncated(kind, digestSizeBit, old(Msg()))) &&
        Valid() && Msg() == [] && fresh(EngineRepr(engine)) && Snapshot() == InitialSnapshot(kind, digestSizeBit)
    {
      var n := DigestSize(digestSizeBit);
      if out.Length < n {
        return Err(InsufficientMemoryError);
      }
      var full := EngineFinalize(engine, kind, digestSizeBit);
      CopyPrefix(out, full[..n]);
      Reset();
      r := Ok(());
    }
  }

  /** A hasher is none of the objects of a core. */
  lemma Separate(h: Hasher, e: Engine)
    ensures h !in EngineRepr(e)
  {
  }

  /** `out[..len].copy_from_slice(src)`: the front of `out` becomes `src`, the rest stays. */
  method CopyPrefix(out: array<bv8>, src: seq<bv8>)
    requires |src| <= out.Length
    modifies out
    ensures CopiedPrefix(out[..], old(out[..]), src)
  {
    forall i | 0 <= i < |src| {
      out[i] := src[i];
    }
  }

  /**
   * `update` and `update_in_place` leave the same contents: two valid
   * hashers of one kind and digest size that have seen the same bytes hold
   * the same state words, buffer and count.
   */
  lemma SameMessageSameState(h1: Hasher, h2: Hasher)
    requires h1.Valid() && h2.Valid() && h1.kind == h2.kind && h1.digestSizeBit == h2.digestSizeBit
    requires h1.Msg() == h2.Msg()
    ensures h1.Snapshot() == h2.Snapshot()
  {
    EngineSnapshotOfMessage(h1.engine, h1.kind, h1.digestSizeBit);
    EngineSnapshotOfMessage(h2.engine, h2.kind, h2.digestSizeBit);
  }
}
