/**
 * `add_memory`'s carving of a memory region into free blocks: the region is
 * trimmed to multiples of `MIN_BLOCK_SIZE`, then blocks are taken greedily
 * from its start, each as large as its start address's alignment, the
 * remaining length and `MAX_BLOCK_SIZE` allow.
 */
module Tiling {
  import opened Bits
  import opened BuddySpec

  /** Alignment to `MIN_BLOCK_SIZE` is divisibility by 16. */
  lemma MinBlockSize(x: nat)
    ensures Pow2(BASE_ORDER) == MIN_BLOCK_SIZE
    ensures Aligned(x, BASE_ORDER) <==> x % MIN_BLOCK_SIZE == 0
  {
    var a, b, c := x / 2, x / 2 / 2, x / 2 / 2 / 2;
    assert Aligned(x, 4) <==> x % 2 == 0 && Aligned(a, 3);
    assert Aligned(a, 3) <==> a % 2 == 0 && Aligned(b, 2);
    assert Aligned(b, 2) <==> b % 2 == 0 && Aligned(c, 1);
    assert Aligned(c, 1) <==> c % 2 == 0;
    assert x == 16 * (c / 2) + 8 * (c % 2) + 4 * (b % 2) + 2 * (a % 2) + x % 2;
  }

  /** `(x + MIN_BLOCK_SIZE - 1) & (!MIN_BLOCK_SIZE + 1)`: `x` rounded up to a multiple of 16. */
  function AlignUp(x: nat): (r: nat)
    ensures Aligned(r, BASE_ORDER) && x <= r < x + MIN_BLOCK_SIZE
  {
    MinBlockSize(((x + MIN_BLOCK_SIZE - 1) / MIN_BLOCK_SIZE) * MIN_BLOCK_SIZE);
    ((x + MIN_BLOCK_SIZE - 1) / MIN_BLOCK_SIZE) * MIN_BLOCK_SIZE
  }

  /** `x & (!MIN_BLOCK_SIZE + 1)`: `x` rounded down to a multiple of 16. */
  function AlignDown(x: nat): (r: nat)
    ensures Aligned(r, BASE_ORDER) && r <= x < r + MIN_BLOCK_SIZE
  {
    MinBlockSize((x / MIN_BLOCK_SIZE) * MIN_BLOCK_SIZE);
    (x / MIN_BLOCK_SIZE) * MIN_BLOCK_SIZE
  }

  /** A multiple of 16 whose lowest set bit is bit `e` has `e >= 4`. */
  lemma LowBitAtLeastBase(x: nat, e: nat)
    requires Aligned(x, BASE_ORDER) && !Aligned(x, e + 1)
    ensures e >= BASE_ORDER
  {
    if e < BASE_ORDER {
      AlignedWeaken(x, e + 1, BASE_ORDER);
    }
  }

  /** A power of two above 8 is at least 16. */
  lemma Pow2AboveEight(e: nat)
    requires Pow2(e) > 8
    ensures e >= BASE_ORDER
  {
    if e < BASE_ORDER {
      Pow2Monotone(e, BASE_ORDER - 1);
    }
  }

  lemma MinPow2(a: nat, b: nat)
    ensures Min(Pow2(a), Pow2(b)) == Pow2(Min(a, b))
  {
    if a <= b {
      Pow2Monotone(a, b);
    } else {
      Pow2Monotone(b, a);
    }
  }

  /** The smallest of the three powers of two `2^a`, `2^b`, `2^c` is `2^min(a, b, c)`. */
  lemma MinPow2Three(a: nat, b: nat, c: nat)
    ensures Min(Min(Pow2(a), Pow2(b)), Pow2(c)) == Pow2(Min(Min(a, b), c))
  {
    MinPow2(a, b);
    MinPow2(Min(a, b), c);
  }

  /**
   * The largest order `r <= k` whose block, placed at `start`, is aligned to
   * its own size and fits before `end`; order 0 when no larger one does.
   */
  function FitOrder(start: nat, end: nat, k: nat): (r: nat)
    ensures r <= k
    decreases k
  {
    if k == 0 || (Aligned(start, k + BASE_ORDER) && start + BlockSize(k) <= end) then k
    else FitOrder(start, end, k - 1)
  }

  /** From a multiple of 16 with room for a minimal block, the order found is aligned and fits. */
  lemma {:induction false} FitOrderFits(start: nat, end: nat, k: nat)
    requires Aligned(start, BASE_ORDER) && start + MIN_BLOCK_SIZE <= end
    ensures var r := FitOrder(start, end, k);
            Aligned(start, r + BASE_ORDER) && start + BlockSize(r) <= end
    decreases k
  {
    if k > 0 && !(Aligned(start, k + BASE_ORDER) && start + BlockSize(k) <= end) {
      FitOrderFits(start, end, k - 1);
    }
  }

  /**
   * `FitOrder` is `t` when order `t` is aligned and fits while `t + 1` is
   * above `k`, misaligned or too large: a block that fits makes every
   * smaller one fit.
   */
  lemma {:induction false} FitOrderIs(start: nat, end: nat, k: nat, t: nat)
    requires t <= k && Aligned(start, t + BASE_ORDER) && start + BlockSize(t) <= end
    requires t == k || !Aligned(start, t + 1 + BASE_ORDER) || start + BlockSize(t + 1) > end
    ensures FitOrder(start, end, k) == t
    decreases k
  {
    if k > t {
      if Aligned(start, k + BASE_ORDER) && start + BlockSize(k) <= end {
        AlignedWeaken(start, t + 1 + BASE_ORDER, k + BASE_ORDER);
        Pow2Monotone(t + 1 + BASE_ORDER, k + BASE_ORDER);
        assert false;
      }
      FitOrderIs(start, end, k - 1, t);
    }
  }

  /**
   * The order of the block `add_memory` places at `start` when the trimmed
   * region ends at `end`: the largest existing order whose block is aligned
   * at `start` and fits before `end`.
   */
  function TileOrder(start: nat, end: nat, orders: nat): (k: nat)
    requires orders >= 1
    ensures k < orders
  {
    FitOrder(start, end, orders - 1)
  }

  /** The size of the block `add_memory` places at `start`. */
  function TileSize(start: nat, end: nat, orders: nat): nat
    requires orders >= 1
  {
    BlockSize(TileOrder(start, end, orders))
  }

  /**
   * From a non-null multiple of 16 with room for a minimal block, the block
   * placed is well placed, between the minimal and the maximal size, fits
   * before `end` and ends on a multiple of 16.
   */
  lemma TileFits(start: nat, end: nat, orders: nat)
    requires orders >= 1 && start > 0 && Aligned(start, BASE_ORDER) && start + MIN_BLOCK_SIZE <= end
    ensures var k := TileOrder(start, end, orders);
            && WellPlaced(Block(start, k)) && start + BlockSize(k) <= end
            && MIN_BLOCK_SIZE <= BlockSize(k) <= MaxBlockSize(orders)
            && Aligned(start + BlockSize(k), BASE_ORDER)
  {
    var k := TileOrder(start, end, orders);
    FitOrderFits(start, end, orders - 1);
    Pow2Monotone(k + BASE_ORDER, orders - 1 + BASE_ORDER);
    Pow2Aligned(BASE_ORDER, k + BASE_ORDER);
    AlignedAdd(start, BlockSize(k), BASE_ORDER);
  }

  /** The three bounds of `add_memory`'s size formula are powers of two, each at least `MIN_BLOCK_SIZE`. */
  lemma TileSizeBounds(start: nat, end: nat, orders: nat)
    requires orders >= 1 && start > 0 && Aligned(start, BASE_ORDER) && start + MIN_BLOCK_SIZE <= end
    ensures var l, f := LowestSetBit(start), NextPowerOfTwo(end - start + 1) / 2;
            && MaxBlockSize(orders) == Pow2(orders + BASE_ORDER - 1)
            && l == Pow2(TrailingZeros(l)) && f == Pow2(TrailingZeros(f))
            && TrailingZeros(l) >= BASE_ORDER && TrailingZeros(f) >= BASE_ORDER
            && f <= end - start < 2 * f
  {
    var l, f := LowestSetBit(start), NextPowerOfTwo(end - start + 1) / 2;
    FloorPow2(end - start);
    LowBitAtLeastBase(start, TrailingZeros(l));
    Pow2AboveEight(TrailingZeros(f));
  }

  /** The least of three powers of two, by their exponents. */
  lemma MinOfPow2(em: nat, el: nat, ef: nat, m: nat, l: nat, f: nat)
    requires m == Pow2(em) && l == Pow2(el) && f == Pow2(ef)
    ensures var t := Min(Min(em, el), ef);
            && Min(Min(m, l), f) == Pow2(t) && IsPow2(Pow2(t)) && TrailingZeros(Pow2(t)) == t
            && t <= em && t <= el && t <= ef
  {
    MinPow2Three(em, el, ef);
    Pow2IsPow2(Min(Min(em, el), ef));
  }

  /** The size formula gives `2^t` for the least of the three exponents `t`. */
  lemma TileSizeExponent(start: nat, end: nat, orders: nat)
    requires orders >= 1 && start > 0 && Aligned(start, BASE_ORDER) && start + MIN_BLOCK_SIZE <= end
    ensures var l, f := LowestSetBit(start), NextPowerOfTwo(end - start + 1) / 2;
            var size := Min(Min(MaxBlockSize(orders), l), f);
            var t := Min(Min(orders + BASE_ORDER - 1, TrailingZeros(l)), TrailingZeros(f));
            && size == Pow2(t) && IsPow2(size) && TrailingZeros(size) == t
            && BASE_ORDER <= t < orders + BASE_ORDER
            && MIN_BLOCK_SIZE <= size <= MaxBlockSize(orders)
            && Aligned(start, t) && start + size <= end
  {
    var l, f := LowestSetBit(start), NextPowerOfTwo(end - start + 1) / 2;
    TileSizeBounds(start, end, orders);
    var em, el, ef := orders + BASE_ORDER - 1, TrailingZeros(l), TrailingZeros(f);
    MinOfPow2(em, el, ef, MaxBlockSize(orders), l, f);
    var t := Min(Min(em, el), ef);
    Pow2Monotone(BASE_ORDER, t);
    AlignedWeaken(start, t, el);
  }

  /**
   * The three bounds are met with `2^t`, and doubling it would exceed
   * `MAX_BLOCK_SIZE`, break the alignment of `start` or run past the end;
   * so the formula gives the block `TileOrder` places, and its number of
   * trailing zeros is that block's order plus `BASE_ORDER`.
   */
  lemma CarveSizeFits(start: nat, end: nat, orders: nat)
    requires orders >= 1 && start > 0 && Aligned(start, BASE_ORDER) && start + MIN_BLOCK_SIZE <= end
    ensures var size := Min(Min(MaxBlockSize(orders), LowestSetBit(start)), NextPowerOfTwo(end - start + 1) / 2);
            && size == TileSize(start, end, orders)
            && TrailingZeros(size) == TileOrder(start, end, orders) + BASE_ORDER
  {
    var l, f := LowestSetBit(start), NextPowerOfTwo(end - start + 1) / 2;
    TileSizeBounds(start, end, orders);
    TileSizeExponent(start, end, orders);
    var em, el, ef := orders + BASE_ORDER - 1, TrailingZeros(l), TrailingZeros(f);
    var t := Min(Min(em, el), ef);
    assert Pow2(ef + 1) == 2 * f;
    assert t == em || t == el || t == ef;
    assert BlockSize(t - BASE_ORDER + 1) == Pow2(t + 1);
    FitOrderIs(start, end, orders - 1, t - BASE_ORDER);
  }

  /** The blocks `add_memory` pushes, in order, for the aligned region `start..end`. */
  function Tiles(start: nat, end: nat, orders: nat): seq<Block>
    requires orders >= 1
    decreases end - start
  {
    if start + MIN_BLOCK_SIZE <= end then
      var k := TileOrder(start, end, orders);
      [Block(start, k)] + Tiles(start + BlockSize(k), end, orders)
    else []
  }

  /** `tiles` lie back to back, the first at `start` and the last ending at `end`. */
  predicate Contiguous(tiles: seq<Block>, start: nat, end: nat)
  {
    if tiles == [] then start == end
    else tiles[0].addr == start && Contiguous(tiles[1..], End(tiles[0]), end)
  }

  function TotalSize(tiles: seq<Block>): nat
  {
    if tiles == [] then 0 else BlockSize(tiles[0].order) + TotalSize(tiles[1..])
  }

  /** Two multiples of 16 that differ are at least 16 apart. */
  lemma AlignedGap(start: nat, end: nat)
    requires Aligned(start, BASE_ORDER) && Aligned(end, BASE_ORDER) && start < end
    ensures start + MIN_BLOCK_SIZE <= end
  {
    MinBlockSize(start);
    MinBlockSize(end);
  }

  /**
   * The tiles cover the aligned region exactly, with no gap or overlap; when
   * the region is empty or inverted there are none.
   */
  lemma {:induction false} TilesCover(start: nat, end: nat, orders: nat)
    requires orders >= 1 && start > 0 && Aligned(start, BASE_ORDER) && Aligned(end, BASE_ORDER)
    ensures var tiles := Tiles(start, end, orders);
            && (start <= end ==> Contiguous(tiles, start, end) && TotalSize(tiles) == end - start)
            && (start >= end ==> tiles == [])
    decreases end - start
  {
    if start < end {
      AlignedGap(start, end);
      var k := TileOrder(start, end, orders);
      TileFits(start, end, orders);
      var rest := Tiles(start + BlockSize(k), end, orders);
      TilesCover(start + BlockSize(k), end, orders);
      CoverCons(Block(start, k), rest, end);
      assert Tiles(start, end, orders) == [Block(start, k)] + rest;
    } else {
      assert Tiles(start, end, orders) == [];
    }
  }

  lemma CoverCons(b: Block, rest: seq<Block>, end: nat)
    requires End(b) <= end && Contiguous(rest, End(b), end) && TotalSize(rest) == end - End(b)
    ensures Contiguous([b] + rest, b.addr, end) && TotalSize([b] + rest) == end - b.addr
  {
    assert ([b] + rest)[1..] == rest;
  }

  /** Each of `tiles` is a well-placed block of an order below `orders` inside `start..end`. */
  predicate Placed(tiles: seq<Block>, orders: nat, start: nat, end: nat)
  {
    forall i :: 0 <= i < |tiles| ==>
      && WellPlaced(tiles[i]) && tiles[i].order < orders
      && start <= tiles[i].addr && End(tiles[i]) <= end
  }

  lemma PlacedPrepend(b: Block, rest: seq<Block>, orders: nat, start: nat, mid: nat, end: nat)
    requires WellPlaced(b) && b.order < orders && start <= b.addr && End(b) <= end
    requires start <= mid && Placed(rest, orders, mid, end)
    ensures Placed([b] + rest, orders, start, end)
  {
    var tiles := [b] + rest;
    forall i | 0 < i < |tiles|
      ensures WellPlaced(tiles[i]) && tiles[i].order < orders && start <= tiles[i].addr && End(tiles[i]) <= end
    {
      assert tiles[i] == rest[i - 1];
    }
  }

  /** Each tile is a well-placed block of an existing order inside the region. */
  lemma {:induction false} TilesPlaced(start: nat, end: nat, orders: nat)
    requires orders >= 1 && start > 0 && Aligned(start, BASE_ORDER) && Aligned(end, BASE_ORDER)
    ensures Placed(Tiles(start, end, orders), orders, start, end)
    decreases end - start
  {
    if start + MIN_BLOCK_SIZE <= end {
      var k := TileOrder(start, end, orders);
      TileFits(start, end, orders);
      TilesPlaced(start + BlockSize(k), end, orders);
      PlacedPrepend(Block(start, k), Tiles(start + BlockSize(k), end, orders), orders, start, start + BlockSize(k), end);
    }
  }

  /** Pushing the blocks of `tiles` in order. */
  function AddBlocks(lists: FreeLists, tiles: seq<Block>): (r: FreeLists)
    requires forall i :: 0 <= i < |tiles| ==> tiles[i].order < |lists|
    ensures |r| == |lists|
    decreases |tiles|
  {
    if tiles == [] then lists else AddBlocks(Push(lists, tiles[0].order, tiles[0].addr), tiles[1..])
  }

  /** The free lists after `add_memory`'s loop has pushed each block it carves from `start..end`. */
  function AddTiles(lists: FreeLists, start: nat, end: nat): (r: FreeLists)
    requires |lists| >= 1
    ensures |r| == |lists|
    decreases end - start
  {
    if start + MIN_BLOCK_SIZE <= end then
      var k := TileOrder(start, end, |lists|);
      AddTiles(Push(lists, k, start), start + BlockSize(k), end)
    else lists
  }

  /** One turn of `add_memory`'s loop: push the block placed at `start`, then carry on after it. */
  lemma AddTilesStep(lists: FreeLists, start: nat, end: nat)
    requires |lists| >= 1
    requires start + MIN_BLOCK_SIZE <= end
    ensures var k := TileOrder(start, end, |lists|);
            AddTiles(lists, start, end) == AddTiles(Push(lists, k, start), start + BlockSize(k), end)
  {
  }

  lemma AddBlocksCons(lists: FreeLists, b: Block, rest: seq<Block>)
    requires b.order < |lists| && forall i :: 0 <= i < |rest| ==> rest[i].order < |lists|
    ensures var tiles := [b] + rest;
            && (forall i :: 0 <= i < |tiles| ==> tiles[i].order < |lists|)
            && AddBlocks(lists, tiles) == AddBlocks(Push(lists, b.order, b.addr), rest)
  {
    var tiles := [b] + rest;
    assert tiles[1..] == rest;
    assert forall i :: 0 < i < |tiles| ==> tiles[i] == rest[i - 1];
  }

  /** Where `add_memory`'s loop stands: the free lists so far and the next address to carve. */
  datatype Progress = Progress(lists: FreeLists, start: nat)

  /**
   * Where `add_memory`'s loop stands after `n` turns, having set out from
   * `lists` and `start`; once no minimal block fits it stays put.
   */
  function Walk(lists: FreeLists, start: nat, end: nat, n: nat): (p: Progress)
    requires |lists| >= 1
    ensures |p.lists| == |lists|
    decreases n
  {
    if n == 0 || start + MIN_BLOCK_SIZE > end then Progress(lists, start)
    else
      var k := TileOrder(start, end, |lists|);
      Walk(Push(lists, k, start), start + BlockSize(k), end, n - 1)
  }

  /** Once no minimal block fits where the `n`-th turn left off, the walk stays put. */
  lemma {:induction false} WalkStays(lists: FreeLists, start: nat, end: nat, n: nat)
    requires |lists| >= 1
    requires Walk(lists, start, end, n).start + MIN_BLOCK_SIZE > end
    ensures Walk(lists, start, end, n + 1) == Walk(lists, start, end, n)
    decreases n
  {
    if n > 0 && start + MIN_BLOCK_SIZE <= end {
      var k := TileOrder(start, end, |lists|);
      WalkStays(Push(lists, k, start), start + BlockSize(k), end, n - 1);
    }
  }

  /** A turn from where the walk sets out pushes the block placed there and carries on after it. */
  lemma WalkNext(lists: FreeLists, start: nat, end: nat, n: nat)
    requires |lists| >= 1
    requires n > 0 && start + MIN_BLOCK_SIZE <= end
    ensures var k := TileOrder(start, end, |lists|);
            Walk(lists, start, end, n) == Walk(Push(lists, k, start), start + BlockSize(k), end, n - 1)
  {
  }

  /** The `n+1`-th turn pushes the block placed where the `n`-th left off. */
  lemma {:induction false} WalkStep(lists: FreeLists, start: nat, end: nat, n: nat)
    requires |lists| >= 1
    requires Walk(lists, start, end, n).start + MIN_BLOCK_SIZE <= end
    ensures var p := Walk(lists, start, end, n);
            var k := TileOrder(p.start, end, |p.lists|);
            Walk(lists, start, end, n + 1) == Progress(Push(p.lists, k, p.start), p.start + BlockSize(k))
    decreases n
  {
    assert start + MIN_BLOCK_SIZE <= end;
    if n > 0 {
      var k := TileOrder(start, end, |lists|);
      WalkStep(Push(lists, k, start), start + BlockSize(k), end, n - 1);
    }
  }

  /** The loop pushes exactly the tiles of the region, in order. */
  lemma {:induction false} AddTilesPushesTiles(lists: FreeLists, start: nat, end: nat)
    requires |lists| >= 1
    ensures var tiles := Tiles(start, end, |lists|);
            && (forall i :: 0 <= i < |tiles| ==> tiles[i].order < |lists|)
            && AddTiles(lists, start, end) == AddBlocks(lists, tiles)
    decreases end - start
  {
    if start + MIN_BLOCK_SIZE <= end {
      var k := TileOrder(start, end, |lists|);
      var l := Push(lists, k, start);
      var rest := Tiles(start + BlockSize(k), end, |lists|);
      assert Tiles(start, end, |lists|) == [Block(start, k)] + rest;
      AddTilesStep(lists, start, end);
      AddTilesPushesTiles(l, start + BlockSize(k), end);
      AddBlocksCons(lists, Block(start, k), rest);
      assert AddTiles(lists, start, end) == AddBlocks(l, rest);
    } else {
      assert Tiles(start, end, |lists|) == [];
      assert AddTiles(lists, start, end) == lists;
    }
  }

  /**
   * The free lists after `add_memory` of the pool of `len` bytes at `addr`:
   * the tiles of the pool trimmed to multiples of `MIN_BLOCK_SIZE` are pushed
   * in order; a pool too small for one minimal block adds nothing.
   */
  function AddMemorySpec(lists: FreeLists, addr: nat, len: nat): (r: FreeLists)
    requires addr > 0 && (|lists| >= 1 || AlignUp(addr) + MIN_BLOCK_SIZE > AlignDown(addr + len))
    ensures |r| == |lists|
  {
    var start, end := AlignUp(addr), AlignDown(addr + len);
    if start + MIN_BLOCK_SIZE <= end then AddTiles(lists, start, end) else lists
  }
}
