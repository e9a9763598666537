/**
 * The buddy allocator itself: one sentinel list of free blocks per order,
 * kept in the header arena, and the running total of memory it was given.
 * Each method changes the lists exactly as the matching function of
 * `BuddySpec` or `Tiling` says, and keeps the allocator's invariant.
 */
module BuddyAllocator {
  import opened Wrappers
  import opened Bits
  import opened Header
  import opened BuddySpec
  import opened Tiling
  import opened FreeListArena

  /** A request's size and alignment; a `Layout`'s alignment is always a power of two. */
  datatype Layout = Layout(size: nat, align: nat)

  /**
   * `MIN_BLOCK_SIZE.max(size.next_power_of_two()).max(align)`: the least
   * power of two that is at least `MIN_BLOCK_SIZE`, the size and the
   * alignment.
   */
  function BlockSizeFor(layout: Layout): (r: nat)
    requires IsPow2(layout.align)
    ensures IsPow2(r) && r >= MIN_BLOCK_SIZE && r >= layout.size && r >= layout.align
    ensures forall p: nat :: IsPow2(p) && p >= MIN_BLOCK_SIZE && p >= layout.size && p >= layout.align ==> r <= p
  {
    var n := NextPowerOfTwo(layout.size);
    Pow2IsPow2(BASE_ORDER);
    forall p: nat | IsPow2(p) && p >= layout.size && p < n
      ensures false
    {
      Pow2Gap(p, n);
    }
    Max(Max(MIN_BLOCK_SIZE, n), layout.align)
  }

  /** `size.trailing_zeros() - BASE_ORDER`: the order whose blocks have that size. */
  function OrderFor(layout: Layout): (r: nat)
    requires IsPow2(layout.align)
    ensures BlockSize(r) == BlockSizeFor(layout)
  {
    var size := BlockSizeFor(layout);
    Pow2AboveEight(TrailingZeros(size));
    TrailingZeros(size) - BASE_ORDER
  }

  class Allocator {
    /** `ORDERS`: the number of block sizes, `MIN_BLOCK_SIZE << i` for `i < orders`. */
    const orders: nat
    /** The headers: the `free_list` sentinels and the headers written into free blocks. */
    const arena: Arena
    var totalSize: nat
    /** The address sequence of each free list, sentinel excluded. */
    ghost var lists: FreeLists
    /** The blocks handed out by `Allocate` and not yet returned. */
    ghost var held: seq<Block>

    /**
     * The arena holds exactly `lists`; no two owned blocks overlap and each is
     * aligned to its own size; and the free and handed-out bytes add up to
     * `totalSize`.
     */
    ghost predicate Valid()
      reads this, arena
    {
      && |lists| == orders
      && AllLists(arena.nodes, lists)
      && Inv(lists, held)
      && FreeBytes(lists) + HeldBytes(held) == totalSize
    }

    /** `Allocator::new`: every free list is empty and no memory has been added. */
    constructor(orders: nat)
      ensures Valid() && fresh(arena)
      ensures this.orders == orders && lists == seq(orders, _ => []) && held == [] && totalSize == 0
    {
      this.orders := orders;
      arena := new Arena(orders);
      totalSize := 0;
      lists := seq(orders, _ => []);
      held := [];
      new;
      forall i | 0 <= i < orders
        ensures IsList(arena.nodes, Head(i), [])
      {
        assert [Head(i)] + Blks([]) == [Head(i)];
      }
      FreeBytesEmpty(orders);
    }

    /**
     * `add_memory` of the pool of `len` bytes at `addr`: the pool is trimmed
     * to multiples of `MIN_BLOCK_SIZE` and the trimmed span is pushed onto the
     * free lists as the greedy tiling `Tiles` describes. The result is the
     * length of that span, or 0 when it holds no minimal block, and
     * `totalSize` grows by the same amount.
     */
    method AddMemory(addr: nat, len: nat) returns (added: nat)
      requires Valid() && addr > 0
      requires orders >= 1 || AlignUp(addr) + MIN_BLOCK_SIZE > AlignDown(addr + len)
      requires Outside(lists, held, addr, addr + len)
      modifies this, arena
      ensures Valid() && held == old(held)
      ensures var start, end := AlignUp(addr), AlignDown(addr + len);
              added == (if start + MIN_BLOCK_SIZE <= end then end - start else 0)
      ensures lists == AddMemorySpec(old(lists), addr, len)
      ensures totalSize == old(totalSize) + added
    {
      var start := AlignUp(addr);
      var end := AlignDown(addr + len);
      ghost var start0, lists0, held0, total0 := start, lists, held, totalSize;
      assert orders >= 1 ==> Loadable(lists0, held0, start0, end);
      assert FreeBytes(lists0) + HeldBytes(held0) == total0;
      ghost var n := 0;
      added := 0;
      while start + MIN_BLOCK_SIZE <= end
        invariant orders >= 1 || (lists == lists0 && start == start0)
        invariant orders >= 1 ==> Walk(lists0, start0, end, n) == Progress(lists, start)
        invariant |lists| == orders && AllLists(arena.nodes, lists)
        invariant held == held0 && totalSize == total0 && added == start - start0
        decreases end - start
      {
        LoadStep(lists0, held0, start0, end, n, lists, start);
        var size := CarveSize(start, end);
        var order := TrailingZeros(size) - BASE_ORDER;
        PushFree(order, start);
        added := added + size;
        start := start + size;
        n := n + 1;
      }
      totalSize := totalSize + added;
      if orders >= 1 {
        LoadDone(lists0, held0, start0, end, n, lists, start);
      }
    }

    /**
     * `MAX_BLOCK_SIZE.min(start & (!start + 1)).min((end - start + 1).next_power_of_two() >> 1)`,
     * the size `add_memory` gives the block at `start`: it is the largest
     * block of an existing order that `start` is aligned to and that fits
     * before `end`.
     */
    method CarveSize(start: nat, end: nat) returns (size: nat)
      requires orders >= 1 && start > 0 && Aligned(start, BASE_ORDER) && start + MIN_BLOCK_SIZE <= end
      ensures size == TileSize(start, end, orders)
      ensures TrailingZeros(size) == TileOrder(start, end, orders) + BASE_ORDER
    {
      size := Min(Min(MaxBlockSize(orders), LowestSetBit(start)), NextPowerOfTwo(end - start + 1) / 2);
      CarveSizeFits(start, end, orders);
    }

    /** `free_list[i].push(a)`: the block at `a` becomes the first of free list `i`. */
    method PushFree(i: nat, a: nat)
      requires i < |lists| && AllLists(arena.nodes, lists) && Distinct(lists) && Unlisted(lists, a)
      modifies this, arena
      ensures lists == Push(old(lists), i, a) && AllLists(arena.nodes, lists)
      ensures held == old(held) && totalSize == old(totalSize)
    {
      PushAll(arena.nodes, lists, i, a);
      arena.Push(Head(i), Blk(a));
      lists := Push(lists, i, a);
    }

    /** `get_max_block_size`: `MAX_BLOCK_SIZE`, the size of a block of the top order. */
    method GetMaxBlockSize() returns (r: nat)
      ensures r == MaxBlockSize(orders)
      ensures orders >= 1 ==> r == BlockSize(orders - 1)
    {
      r := MaxBlockSize(orders);
    }

    /** `free_list[i].pop_next()`: take the first block of free list `i`, if any. */
    method PopNextFree(i: nat) returns (popped: Option<nat>)
      requires i < |lists| && AllLists(arena.nodes, lists) && Distinct(lists)
      modifies this, arena
      ensures popped == if old(lists)[i] == [] then None else Some(old(lists)[i][0])
      ensures lists == if old(lists)[i] == [] then old(lists) else old(lists)[i := old(lists)[i][1..]]
      ensures AllLists(arena.nodes, lists) && Distinct(lists)
      ensures held == old(held) && totalSize == old(totalSize)
    {
      IsTailAll(arena.nodes, lists, i);
      if lists[i] != [] {
        PopNextAll(arena.nodes, lists, i);
        DistinctRemove(lists, i, 0);
        assert RemoveAt(lists[i], 0) == lists[i][1..];
      }
      var p := arena.PopNext(Head(i));
      if p.None? {
        popped := None;
      } else {
        popped := Some(p.value.addr);
        lists := lists[i := lists[i][1..]];
      }
    }

    /** `node.pop()` of `node`, the `k`-th block of free list `i`. */
    method PopFree(i: nat, node: Ref, ghost k: nat)
      requires i < |lists| && k < |lists[i]| && node == Blk(lists[i][k])
      requires AllLists(arena.nodes, lists) && Distinct(lists)
      modifies this, arena
      ensures lists == old(lists)[i := RemoveAt(old(lists)[i], k)]
      ensures AllLists(arena.nodes, lists) && Distinct(lists)
      ensures held == old(held) && totalSize == old(totalSize)
    {
      PopAll(arena.nodes, lists, i, k);
      DistinctRemove(lists, i, k);
      var p := arena.Pop(node);
      lists := lists[i := RemoveAt(lists[i], k)];
    }

    /**
     * `split_block(index)`: the first block of order `index`, if there is one,
     * becomes two free blocks of order `index - 1`, its lower half first.
     */
    method SplitBlock(index: nat)
      requires Valid() && 1 <= index < orders
      modifies this, arena
      ensures lists == Split(old(lists), index)
      ensures Valid() && held == old(held) && totalSize == old(totalSize)
    {
      ghost var lists0 := lists;
      InvDistinct(lists, held);
      SplitInv(lists, held, index);
      var popped := PopNextFree(index);
      if popped.Some? {
        var block := popped.value;
        var blockSize := BlockSize(index - 1);
        var buddy := block + blockSize;
        ghost var t1 := Push(lists, index - 1, buddy);
        assert Split(lists0, index) == Push(t1, index - 1, block);
        InvDistinct(Split(lists0, index), held);
        DistinctPush(t1, index - 1, block);
        DistinctPush(lists, index - 1, buddy);
        PushFree(index - 1, buddy);
        PushFree(index - 1, block);
      }
    }

    /**
     * The search of `allocate`: find the first non-empty free list at or
     * above order `index` and split its first block down to that order.
     */
    method SplitForOrder(index: nat)
      requires Valid() && index < orders
      modifies this, arena
      ensures lists == SplitFor(old(lists), index)
      ensures Valid() && held == old(held) && totalSize == old(totalSize)
    {
      ghost var lists0 := lists;
      var i := index;
      while i < orders
        invariant index <= i <= orders && forall m :: index <= m < i ==> lists0[m] == []
        invariant lists == lists0 && arena.nodes == old(arena.nodes)
        invariant held == old(held) && totalSize == old(totalSize)
        decreases orders - i
      {
        IsTailAll(arena.nodes, lists, i);
        if arena.IsTail(Head(i)) {
          i := i + 1;
          continue;
        }
        var j := i;
        while j > index
          invariant Valid() && held == old(held) && totalSize == old(totalSize)
          invariant index <= j <= i && SplitDown(lists, j, index) == SplitDown(lists0, i, index)
          decreases j
        {
          SplitBlock(j);
          j := j - 1;
        }
        break;
      }
    }

    /**
     * `allocate`: split down to the order the layout needs, then take the
     * first block of that order. The result and the new lists are those of
     * `AllocateSpec`; a block handed out is recorded in `held`.
     */
    method Allocate(layout: Layout) returns (ptr: Option<nat>)
      requires Valid() && IsPow2(layout.align) && OrderFor(layout) < orders
      modifies this, arena
      ensures var r := AllocateSpec(old(lists), OrderFor(layout));
              ptr == r.ptr && lists == r.lists
      ensures held == if ptr.Some? then old(held) + [Block(ptr.value, OrderFor(layout))] else old(held)
      ensures Valid() && totalSize == old(totalSize)
    {
      var index := OrderFor(layout);
      ghost var lists0, held0 := lists, held;
      SplitForOrder(index);
      InvDistinct(lists, held);
      var popped := PopNextFree(index);
      ptr := if popped.Some? && popped.value != 0 then popped else None;
      held := if ptr.Some? then held + [Block(ptr.value, index)] else held;
      AllocateKeeps(lists0, held0, totalSize, index);
    }

    /**
     * The inner loop of `deallocate`: walk free list `i` from its first
     * block and unlink the first block at `buddy`, reporting whether there
     * was one.
     */
    method RemoveBuddy(i: nat, buddy: nat) returns (hasBuddy: bool)
      requires i < |lists| && AllLists(arena.nodes, lists) && Distinct(lists)
      modifies this, arena
      ensures hasBuddy == (buddy in old(lists)[i])
      ensures lists == if hasBuddy then old(lists)[i := RemoveAt(old(lists)[i], IndexOf(old(lists)[i], buddy))]
                       else old(lists)
      ensures AllLists(arena.nodes, lists) && Distinct(lists)
      ensures held == old(held) && totalSize == old(totalSize)
    {
      IsTailAll(arena.nodes, lists, i);
      ListPopNext(arena.nodes, Head(i), lists[i]);
      var it := arena.IterMut(Head(i));
      var sentinel := it.Next();
      ghost var m := 0;
      hasBuddy := false;
      while true
        invariant lists == old(lists) && arena.nodes == old(arena.nodes) && !hasBuddy
        invariant held == old(held) && totalSize == old(totalSize)
        invariant m <= |lists[i]| && forall k :: 0 <= k < m ==> lists[i][k] != buddy
        invariant it.arena == arena && it.node == if m < |lists[i]| then Some(Blk(lists[i][m])) else None
        decreases |lists[i]| - m
      {
        if m < |lists[i]| {
          NextAll(arena.nodes, lists, i, m);
        }
        var node := it.Next();
        if node.None? {
          break;
        }
        if node.value != Blk(buddy) {
          m := m + 1;
          continue;
        }
        assert IndexOf(lists[i], buddy) == m;
        PopFree(i, node.value, m);
        hasBuddy := true;
        break;
      }
    }

    /**
     * The coalescing loop of `deallocate`, from the block at `ptr` of order
     * `order`: while the buddy of the block is free at the current order,
     * unlink the buddy and carry on one order up with the lower address.
     * The lists, block and order it stops at are those of `Coalesce`.
     */
    method CoalesceFree(ptr: nat, order: nat) returns (block: nat, index: nat)
      requires |lists| == orders && AllLists(arena.nodes, lists) && Distinct(lists)
      modifies this, arena
      ensures Coalesce(old(lists), ptr, order) == Merged(lists, block, index)
      ensures |lists| == orders && AllLists(arena.nodes, lists) && Distinct(lists)
      ensures held == old(held) && totalSize == old(totalSize)
    {
      index := order;
      block := ptr;
      while index < orders
        invariant Coalesce(lists, block, index) == Coalesce(old(lists), ptr, order)
        invariant |lists| == orders && AllLists(arena.nodes, lists) && Distinct(lists)
        invariant held == old(held) && totalSize == old(totalSize)
        decreases orders - index
      {
        var buddy := Buddy(block, index);
        var hasBuddy := RemoveBuddy(index, buddy);
        if hasBuddy {
          block := Min(block, buddy);
          index := index + 1;
        } else {
          break;
        }
      }
    }

    /**
     * `deallocate` of a block handed out for `layout`: coalesce it with its
     * free buddies, then push the merged block onto the list of its order.
     * The new lists are those of `DeallocateSpec`, and the block leaves
     * `held`.
     */
    method Deallocate(ptr: nat, layout: Layout)
      requires Valid() && IsPow2(layout.align) && Block(ptr, OrderFor(layout)) in held
      requires Coalesce(lists, ptr, OrderFor(layout)).order < orders
      modifies this, arena
      ensures lists == DeallocateSpec(old(lists), ptr, OrderFor(layout))
      ensures held == RemoveAt(old(held), IndexOf(old(held), Block(ptr, OrderFor(layout))))
      ensures Valid() && totalSize == old(totalSize)
    {
      var index := OrderFor(layout);
      ghost var p := IndexOf(held, Block(ptr, index));
      DeallocateKeeps(lists, held, totalSize, p);
      InvDistinct(lists, held);
      var block, order := CoalesceFree(ptr, index);
      PushFree(order, block);
      held := RemoveAt(held, p);
    }
  }

  /**
   * `deallocate` of the `p`-th held block keeps the invariant without it and
   * moves exactly its bytes from held to free; the merged block may be
   * pushed, being on no free list.
   */
  lemma DeallocateKeeps(lists: FreeLists, held: seq<Block>, total: nat, p: nat)
    requires Inv(lists, held) && p < |held| && FreeBytes(lists) + HeldBytes(held) == total
    requires Coalesce(lists, held[p].addr, held[p].order).order < |lists|
    ensures var m := Coalesce(lists, held[p].addr, held[p].order);
            var r := DeallocateSpec(lists, held[p].addr, held[p].order);
            && Distinct(m.lists) && Unlisted(m.lists, m.addr)
            && Inv(r, RemoveAt(held, p)) && FreeBytes(r) + HeldBytes(RemoveAt(held, p)) == total
  {
    var m := Coalesce(lists, held[p].addr, held[p].order);
    DeallocateInv(lists, held, p);
    InvDistinct(DeallocateSpec(lists, held[p].addr, held[p].order), RemoveAt(held, p));
    DistinctPush(m.lists, m.order, m.addr);
    HeldBytesRemove(held, p);
  }

  /**
   * `allocate` keeps the invariant, with a block it hands out recorded as
   * held, and moves exactly that block's bytes from free to held.
   */
  lemma AllocateKeeps(lists: FreeLists, held: seq<Block>, total: nat, index: nat)
    requires Inv(lists, held) && index < |lists| && FreeBytes(lists) + HeldBytes(held) == total
    ensures var r := AllocateSpec(lists, index);
            var held' := if r.ptr.Some? then held + [Block(r.ptr.value, index)] else held;
            Inv(r.lists, held') && FreeBytes(r.lists) + HeldBytes(held') == total
  {
    var r := AllocateSpec(lists, index);
    AllocateResult(lists, held, index);
    AllocateInv(lists, held, index);
    if r.ptr.Some? {
      HeldBytesAppend(held, Block(r.ptr.value, index));
    }
  }

  /** Nothing owned overlaps the bytes `start..end`. */
  ghost predicate Outside(lists: FreeLists, held: seq<Block>, start: nat, end: nat)
  {
    forall y :: Owned(lists, held, y) ==> End(y) <= start || end <= y.addr
  }

  /**
   * One step of `add_memory`'s loop: pushing the block placed at `start`
   * keeps the invariant and leaves everything owned outside the rest of the
   * span, so the loop may carry on from the block's end.
   */
  lemma AddTileStep(lists: FreeLists, held: seq<Block>, start: nat, end: nat)
    requires Loadable(lists, held, start, end) && start + MIN_BLOCK_SIZE <= end
    ensures var k := TileOrder(start, end, |lists|);
            var l := Push(lists, k, start);
            && Distinct(l) && Loadable(l, held, start + BlockSize(k), end)
  {
    var k := TileOrder(start, end, |lists|);
    var b := Block(start, k);
    TileFits(start, end, |lists|);
    InvAdd(lists, held, b);
    InvDistinct(Push(lists, k, start), held);
    assert forall y :: Owned(Push(lists, k, start), held, y) ==> Owned(lists, held, y) || y == b;
  }

  /** `add_memory` may set out to carve `start0..end` onto `lists0`. */
  ghost predicate Loadable(lists0: FreeLists, held: seq<Block>, start0: nat, end: nat)
  {
    && |lists0| >= 1 && start0 > 0 && Aligned(start0, BASE_ORDER) && Aligned(end, BASE_ORDER)
    && Inv(lists0, held) && Outside(lists0, held, start0, end)
  }

  /**
   * Every state `add_memory`'s loop reaches from a valid one keeps the
   * invariant and leaves the rest of the span unowned.
   */
  lemma {:induction false} WalkInv(lists0: FreeLists, held: seq<Block>, start0: nat, end: nat, n: nat)
    requires Loadable(lists0, held, start0, end)
    ensures var p := Walk(lists0, start0, end, n);
            Loadable(p.lists, held, p.start, end)
    decreases n
  {
    if n > 0 {
      WalkInv(lists0, held, start0, end, n - 1);
      var p := Walk(lists0, start0, end, n - 1);
      if p.start + MIN_BLOCK_SIZE <= end {
        AddTileStep(p.lists, held, p.start, end);
        WalkStep(lists0, start0, end, n - 1);
      } else {
        WalkStays(lists0, start0, end, n - 1);
      }
    } else {
      assert Walk(lists0, start0, end, 0) == Progress(lists0, start0);
    }
  }

  /**
   * Every state `add_memory`'s loop reaches has gained the bytes from
   * `start0` to where it stands and has the same pushes left to do.
   */
  lemma {:induction false} WalkBytes(lists0: FreeLists, start0: nat, end: nat, n: nat)
    requires |lists0| >= 1 && start0 > 0 && Aligned(start0, BASE_ORDER) && Aligned(end, BASE_ORDER)
    ensures var p := Walk(lists0, start0, end, n);
            && start0 <= p.start && (p.start == start0 || p.start <= end)
            && FreeBytes(p.lists) == FreeBytes(lists0) + (p.start - start0)
            && AddTiles(lists0, start0, end) == AddTiles(p.lists, p.start, end)
    decreases n
  {
    if n > 0 && start0 + MIN_BLOCK_SIZE <= end {
      var k := TileOrder(start0, end, |lists0|);
      var l, s := Push(lists0, k, start0), start0 + BlockSize(k);
      TileFits(start0, end, |lists0|);
      WalkNext(lists0, start0, end, n);
      FreeBytesPush(lists0, k, start0);
      AddTilesStep(lists0, start0, end);
      WalkBytes(l, s, end, n - 1);
    } else {
      assert Walk(lists0, start0, end, n) == Progress(lists0, start0);
    }
  }

  /** A turn of `add_memory`'s loop from where it stands may push its block, and reaches the next state. */
  lemma LoadStep(lists0: FreeLists, held: seq<Block>, start0: nat, end: nat, n: nat, lists: FreeLists, start: nat)
    requires Loadable(lists0, held, start0, end)
    requires Walk(lists0, start0, end, n) == Progress(lists, start) && start + MIN_BLOCK_SIZE <= end
    ensures |lists| == |lists0| && start > 0 && Aligned(start, BASE_ORDER)
    ensures var k := TileOrder(start, end, |lists|);
            && Distinct(lists) && Unlisted(lists, start)
            && Walk(lists0, start0, end, n + 1) == Progress(Push(lists, k, start), start + TileSize(start, end, |lists|))
  {
    var k := TileOrder(start, end, |lists|);
    WalkInv(lists0, held, start0, end, n);
    AddTileStep(lists, held, start, end);
    DistinctPush(lists, k, start);
    WalkStep(lists0, start0, end, n);
    assert Walk(lists0, start0, end, n + 1) == Progress(Push(lists, k, start), start + BlockSize(k));
  }

  /**
   * Where `add_memory`'s loop stops: the invariant holds, the whole trimmed
   * span has been pushed as `AddTiles` says, and its bytes are free.
   */
  lemma LoadDone(lists0: FreeLists, held: seq<Block>, start0: nat, end: nat, n: nat, lists: FreeLists, start: nat)
    requires Loadable(lists0, held, start0, end)
    requires Walk(lists0, start0, end, n) == Progress(lists, start) && start + MIN_BLOCK_SIZE > end
    ensures Inv(lists, held) && lists == AddTiles(lists0, start0, end)
    ensures start - start0 == if start0 + MIN_BLOCK_SIZE <= end then end - start0 else 0
    ensures FreeBytes(lists) == FreeBytes(lists0) + (start - start0)
  {
    WalkInv(lists0, held, start0, end, n);
    WalkBytes(lists0, start0, end, n);
    if start < end {
      AlignedGap(start, end);
    }
  }

  lemma {:induction false} FreeBytesBelowEmpty(orders: nat, n: nat)
    requires n <= orders
    ensures FreeBytesBelow(seq(orders, _ => []), n) == 0
  {
    if n > 0 {
      FreeBytesBelowEmpty(orders, n - 1);
    }
  }

  lemma FreeBytesEmpty(orders: nat)
    ensures FreeBytes(seq(orders, _ => [])) == 0
  {
    FreeBytesBelowEmpty(orders, orders);
  }

  /** The order of a one-byte request is 0, and that of a request of the largest size the top order. */
  lemma OrdersOfTest(orders: nat)
    requires orders >= 1
    ensures OrderFor(Layout(1, 1)) == 0
    ensures OrderFor(Layout(MaxBlockSize(orders), 1)) == orders - 1
  {
    Pow2IsPow2(0);
    Pow2IsPow2(BASE_ORDER);
    Pow2IsPow2(orders - 1 + BASE_ORDER);
    var small := OrderFor(Layout(1, 1));
    assert BlockSize(small) == BlockSize(0);
    Pow2Injective(small + BASE_ORDER, BASE_ORDER);
    var large := OrderFor(Layout(MaxBlockSize(orders), 1));
    assert BlockSize(large) == BlockSize(orders - 1);
    Pow2Injective(large + BASE_ORDER, orders - 1 + BASE_ORDER);
    Pow2Injective(orders - 1 + BASE_ORDER, large + BASE_ORDER);
  }

  /** `add_memory` of a pool of the largest size, aligned to that size, adds it as one block of the top order. */
  lemma AddMaxBlock(orders: nat, pool: nat)
    requires orders >= 1 && pool > 0 && Aligned(pool, orders - 1 + BASE_ORDER)
    ensures var empty: FreeLists := seq(orders, _ => []);
            AddMemorySpec(empty, pool, MaxBlockSize(orders)) == empty[orders - 1 := [pool]]
  {
    var empty: FreeLists := seq(orders, _ => []);
    var top := orders - 1;
    var size := MaxBlockSize(orders);
    AlignedWeaken(pool, BASE_ORDER, top + BASE_ORDER);
    Pow2Aligned(BASE_ORDER, top + BASE_ORDER);
    AlignedAdd(pool, size, BASE_ORDER);
    MinBlockSize(pool);
    MinBlockSize(pool + size);
    MinBlockSize(AlignUp(pool));
    MinBlockSize(AlignDown(pool + size));
    assert AlignUp(pool) == pool;
    assert AlignDown(pool + size) == pool + size;
    assert TileOrder(pool, pool + size, orders) == top;
    assert AddTiles(empty, pool, pool + size) == AddTiles(Push(empty, top, pool), pool + size, pool + size);
    assert [pool] + empty[top] == [pool];
    assert AddTiles(Push(empty, top, pool), pool + size, pool + size) == Push(empty, top, pool);
  }

  /**
   * The test of a single block of the largest size, as its sequence of
   * calls on an empty allocator: the block added at `pool` is handed out by
   * one-byte requests as its 16-byte pieces in ascending order, after which
   * nothing is left; returning the pieces in the same order merges them back
   * into the block, which a request of the largest size then gets.
   */
  lemma MaxBlockRoundTrip(orders: nat, pool: nat)
    requires orders >= 1 && pool > 0 && Aligned(pool, orders - 1 + BASE_ORDER)
    ensures var empty: FreeLists := seq(orders, _ => []);
            var top := orders - 1;
            var added := AddMemorySpec(empty, pool, MaxBlockSize(orders));
            var small, large := OrderFor(Layout(1, 1)), OrderFor(Layout(MaxBlockSize(orders), 1));
            var run := AllocateRun(added, small, Pow2(top));
            && added == empty[top := [pool]]
            && small == 0 && large == top
            && (forall j :: 0 <= j < Pow2(top) ==> run.ptrs[j] == Some(pool + MIN_BLOCK_SIZE * j))
            && run.lists == empty
            && AllocateSpec(run.lists, small).ptr.None?
            && DeallocateRun(run.lists, Pieces(pool, Pow2(top)), small) == Some(added)
            && AllocateSpec(added, large).ptr == Some(pool)
  {
    var empty: FreeLists := seq(orders, _ => []);
    var top := orders - 1;
    var added := empty[top := [pool]];
    AddMaxBlock(orders, pool);
    OrdersOfTest(orders);
    assert added[top] == [pool] + [];
    AllocateBlockRun(added, top, pool, []);
    assert added[top := []] == empty;
    assert FirstNonEmpty(empty, 0).None?;
    assert Coalesce(empty, pool, top) == Merged(empty, pool, top);
    FreePieces(empty, pool, top);
    assert FirstNonEmpty(added, top) == Some(top);
  }
}
