/**
 * The buddy allocator at the level of its free lists: list `i` is the
 * sequence of start addresses of the free blocks of order `i`, first
 * element first. Each allocator operation is specified here as a function
 * on these sequences, and the invariant the allocator keeps is proved
 * preserved by each of the elementary moves the operations are made of.
 */
module BuddySpec {
  import opened Wrappers
  import opened Bits

  /** Size of the smallest block: one header, two pointers of 8 bytes. */
  const MIN_BLOCK_SIZE: nat := 16
  /** `MIN_BLOCK_SIZE == 2^BASE_ORDER`. */
  const BASE_ORDER: nat := 4

  /** `MIN_BLOCK_SIZE << order`. */
  function BlockSize(order: nat): (r: nat)
    ensures r >= MIN_BLOCK_SIZE && r == Pow2(order + BASE_ORDER)
  {
    Pow2Monotone(BASE_ORDER, order + BASE_ORDER);
    Pow2(order + BASE_ORDER)
  }

  /** `MAX_BLOCK_SIZE = 1 << (ORDERS + BASE_ORDER - 1)`. */
  function MaxBlockSize(orders: nat): (r: nat)
    ensures orders >= 1 ==> r == BlockSize(orders - 1)
  {
    Pow2(orders + BASE_ORDER - 1)
  }

  datatype Block = Block(addr: nat, order: nat)

  function End(b: Block): nat
  {
    b.addr + BlockSize(b.order)
  }

  predicate Disjoint(x: Block, y: Block)
  {
    End(x) <= y.addr || End(y) <= x.addr
  }

  /** A block is placed at a non-null address that is a multiple of its size. */
  predicate WellPlaced(b: Block)
  {
    b.addr > 0 && Aligned(b.addr, b.order + BASE_ORDER)
  }

  predicate NoDup<T(==)>(s: seq<T>)
  {
    forall i, j :: 0 <= i < j < |s| ==> s[i] != s[j]
  }

  type FreeLists = seq<seq<nat>>

  predicate InFree(lists: FreeLists, b: Block)
  {
    b.order < |lists| && b.addr in lists[b.order]
  }

  /** A block the allocator is responsible for: free, or handed out and not yet returned. */
  predicate Owned(lists: FreeLists, held: seq<Block>, b: Block)
  {
    InFree(lists, b) || b in held
  }

  /**
   * The allocator's invariant over its free lists and the blocks it has handed
   * out (`held`): no block is recorded twice, every block is aligned to its own
   * size, and no two blocks overlap.
   */
  ghost predicate Inv(lists: FreeLists, held: seq<Block>)
  {
    && (forall i :: 0 <= i < |lists| ==> NoDup(lists[i]))
    && NoDup(held)
    && (forall b :: Owned(lists, held, b) ==> WellPlaced(b))
    && (forall b :: b in held ==> !InFree(lists, b))
    && (forall x, y :: Owned(lists, held, x) && Owned(lists, held, y) && x != y ==> Disjoint(x, y))
  }

  /** Bytes in the free blocks of orders `0..n`. */
  function FreeBytesBelow(lists: FreeLists, n: nat): nat
    requires n <= |lists|
  {
    if n == 0 then 0 else FreeBytesBelow(lists, n - 1) + ListBytes(|lists[n - 1]|, n - 1)
  }

  /** Bytes in `count` blocks of order `order`. */
  function ListBytes(count: nat, order: nat): nat
  {
    if count == 0 then 0 else ListBytes(count - 1, order) + BlockSize(order)
  }

  function FreeBytes(lists: FreeLists): nat
  {
    FreeBytesBelow(lists, |lists|)
  }

  function HeldBytes(held: seq<Block>): nat
  {
    if held == [] then 0 else HeldBytes(held[..|held| - 1]) + BlockSize(held[|held| - 1].order)
  }

  /** Replacing one list changes the free bytes by the difference in that list's bytes. */
  lemma {:induction false} FreeBytesUpdate(lists: FreeLists, i: nat, l: seq<nat>, n: nat)
    requires i < |lists| && n <= |lists|
    ensures FreeBytesBelow(lists[i := l], n) + (if i < n then ListBytes(|lists[i]|, i) else 0)
            == FreeBytesBelow(lists, n) + (if i < n then ListBytes(|l|, i) else 0)
  {
    if n > 0 {
      FreeBytesUpdate(lists, i, l, n - 1);
    }
  }

  /** Pushing onto list `i` adds the size of one block of order `i`. */
  lemma FreeBytesPush(lists: FreeLists, i: nat, a: nat)
    requires i < |lists|
    ensures FreeBytes(lists[i := [a] + lists[i]]) == FreeBytes(lists) + BlockSize(i)
  {
    FreeBytesUpdate(lists, i, [a] + lists[i], |lists|);
  }

  /** Removing one element of list `i` takes away the size of one block of order `i`. */
  lemma FreeBytesRemove(lists: FreeLists, i: nat, l: seq<nat>)
    requires i < |lists| && |l| + 1 == |lists[i]|
    ensures FreeBytes(lists[i := l]) + BlockSize(i) == FreeBytes(lists)
  {
    FreeBytesUpdate(lists, i, l, |lists|);
  }

  lemma {:induction false} HeldBytesAppend(held: seq<Block>, b: Block)
    ensures HeldBytes(held + [b]) == HeldBytes(held) + BlockSize(b.order)
  {
    assert (held + [b])[..|held|] == held;
  }

  lemma {:induction false} HeldBytesRemove(held: seq<Block>, p: nat)
    requires p < |held|
    ensures HeldBytes(held[..p] + held[p + 1..]) + BlockSize(held[p].order) == HeldBytes(held)
    decreases |held|
  {
    var last := held[|held| - 1];
    if p == |held| - 1 {
      assert held[..p] + held[p + 1..] == held[..|held| - 1];
    } else {
      var front := held[..|held| - 1];
      HeldBytesRemove(front, p);
      assert held[..p] + held[p + 1..] == (front[..p] + front[p + 1..]) + [last];
      HeldBytesAppend(front[..p] + front[p + 1..], last);
    }
  }

  function Push(lists: FreeLists, i: nat, a: nat): (r: FreeLists)
    requires i < |lists|
    ensures |r| == |lists| && r[i] == [a] + lists[i]
    ensures forall j :: 0 <= j < |lists| && j != i ==> r[j] == lists[j]
  {
    lists[i := [a] + lists[i]]
  }

  function RemoveAt<T>(s: seq<T>, k: nat): (r: seq<T>)
    requires k < |s|
    ensures |r| + 1 == |s|
    ensures forall x :: x in s ==> x == s[k] || x in r
  {
    s[..k] + s[k + 1..]
  }

  lemma RemoveAtNoDup<T>(s: seq<T>, k: nat)
    requires k < |s| && NoDup(s)
    ensures NoDup(RemoveAt(s, k))
    ensures forall x :: x in RemoveAt(s, k) <==> x in s && x != s[k]
  {
    var r := RemoveAt(s, k);
    assert forall i :: 0 <= i < k ==> r[i] == s[i];
    assert forall i :: k <= i < |r| ==> r[i] == s[i + 1];
  }

  /** A block that overlaps nothing the allocator owns can be added to a free list. */
  lemma InvAdd(lists: FreeLists, held: seq<Block>, b: Block)
    requires Inv(lists, held) && b.order < |lists| && WellPlaced(b)
    requires forall y :: Owned(lists, held, y) ==> Disjoint(y, b)
    ensures Inv(Push(lists, b.order, b.addr), held)
  {
    var l' := Push(lists, b.order, b.addr);
    assert !Owned(lists, held, b);
    assert forall x :: Owned(l', held, x) <==> Owned(lists, held, x) || x == b;
    var s := l'[b.order];
    assert forall j :: 0 < j < |s| ==> s[j] == lists[b.order][j - 1];
  }

  /** ... and to the blocks that are handed out. */
  lemma InvHold(lists: FreeLists, held: seq<Block>, b: Block)
    requires Inv(lists, held) && WellPlaced(b)
    requires forall y :: Owned(lists, held, y) ==> Disjoint(y, b)
    ensures Inv(lists, held + [b])
  {
    assert !Owned(lists, held, b);
    assert forall x :: Owned(lists, held + [b], x) <==> Owned(lists, held, x) || x == b;
  }

  /** Forgetting the last handed-out block leaves it disjoint from everything still owned. */
  lemma InvDrop(lists: FreeLists, rest: seq<Block>, p: Block)
    requires Inv(lists, rest + [p])
    ensures Inv(lists, rest) && WellPlaced(p) && !Owned(lists, rest, p)
    ensures forall y :: Owned(lists, rest, y) ==> Disjoint(y, p)
  {
    assert forall x :: x in rest ==> x in rest + [p];
    assert p in rest + [p];
    assert (rest + [p])[|rest|] == p;
    assert forall i :: 0 <= i < |rest| ==> (rest + [p])[i] == rest[i];
  }

  /** Moving the `k`-th free block of order `i` to the handed-out blocks keeps the invariant. */
  lemma InvTake(lists: FreeLists, held: seq<Block>, i: nat, k: nat)
    requires Inv(lists, held) && i < |lists| && k < |lists[i]|
    ensures Inv(lists[i := RemoveAt(lists[i], k)], held + [Block(lists[i][k], i)])
  {
    var b := Block(lists[i][k], i);
    var l' := lists[i := RemoveAt(lists[i], k)];
    RemoveAtNoDup(lists[i], k);
    assert b !in held;
    assert forall x :: Owned(l', held + [b], x) <==> Owned(lists, held, x);
    assert forall x :: x in held + [b] ==> !InFree(l', x);
  }

  /** `held` with its `p`-th block moved to the end. */
  lemma InvReorder(lists: FreeLists, held: seq<Block>, p: nat)
    requires Inv(lists, held) && p < |held|
    ensures Inv(lists, RemoveAt(held, p) + [held[p]])
  {
    RemoveAtNoDup(held, p);
    var t := RemoveAt(held, p) + [held[p]];
    assert forall x :: x in t <==> x in held;
    assert forall i :: 0 <= i < |t| - 1 ==> t[i] == RemoveAt(held, p)[i];
  }

  /** The two halves of a block that are disjoint from everything owned are too. */
  lemma HalvesDisjoint(y: Block, b: Block)
    requires b.order >= 1 && Disjoint(y, b)
    ensures Disjoint(y, Block(b.addr, b.order - 1))
    ensures Disjoint(y, Block(b.addr + BlockSize(b.order - 1), b.order - 1))
  {
    assert BlockSize(b.order) == 2 * BlockSize(b.order - 1);
  }

  /**
   * `split_block(j)`: take the first free block of order `j` off its list and
   * push its upper half, then its lower half, onto list `j-1`; nothing
   * happens when list `j` is empty.
   */
  function Split(lists: FreeLists, j: nat): (r: FreeLists)
    requires 1 <= j < |lists|
    ensures |r| == |lists|
  {
    if lists[j] == [] then lists
    else
      var block := lists[j][0];
      var t := lists[j := lists[j][1..]];
      Push(Push(t, j - 1, block + BlockSize(j - 1)), j - 1, block)
  }

  /** What a split does to the lists, and that its halves are buddies. */
  lemma SplitEffect(lists: FreeLists, held: seq<Block>, j: nat)
    requires Inv(lists, held) && 1 <= j < |lists| && lists[j] != []
    ensures var b := lists[j][0];
            var r := Split(lists, j);
            && r[j] == lists[j][1..]
            && r[j - 1] == [b, b + BlockSize(j - 1)] + lists[j - 1]
            && (forall m :: 0 <= m < |lists| && m != j && m != j - 1 ==> r[m] == lists[m])
            && FlipBit(b, j - 1 + BASE_ORDER) == b + BlockSize(j - 1)
            && FlipBit(b + BlockSize(j - 1), j - 1 + BASE_ORDER) == b
  {
    var b := lists[j][0];
    assert Owned(lists, held, Block(b, j));
    SplitBuddy(b, j - 1 + BASE_ORDER);
  }

  /** A split keeps the invariant and the number of free bytes. */
  lemma SplitInv(lists: FreeLists, held: seq<Block>, j: nat)
    requires Inv(lists, held) && 1 <= j < |lists|
    ensures Inv(Split(lists, j), held)
    ensures FreeBytes(Split(lists, j)) == FreeBytes(lists)
  {
    if lists[j] != [] {
      var b := lists[j][0];
      var hi := Block(b + BlockSize(j - 1), j - 1);
      var lo := Block(b, j - 1);
      var t := lists[j := lists[j][1..]];
      var t1 := Push(t, j - 1, hi.addr);
      assert Split(lists, j) == Push(t1, j - 1, lo.addr);
      SplitRemoved(lists, held, j);
      InvAdd(t, held, hi);
      assert forall y :: Owned(t1, held, y) ==> Owned(t, held, y) || y == hi;
      InvAdd(t1, held, lo);
      SplitBytes(lists, j);
    }
  }

  /** Once the block to split is off its list, both its halves are disjoint from everything owned. */
  lemma SplitRemoved(lists: FreeLists, held: seq<Block>, j: nat)
    requires Inv(lists, held) && 1 <= j < |lists| && lists[j] != []
    ensures var b := lists[j][0];
            var t := lists[j := lists[j][1..]];
            var hi := Block(b + BlockSize(j - 1), j - 1);
            var lo := Block(b, j - 1);
            && Inv(t, held) && WellPlaced(hi) && WellPlaced(lo) && Disjoint(hi, lo)
            && (forall y :: Owned(t, held, y) ==> Disjoint(y, hi) && Disjoint(y, lo))
  {
    var b := lists[j][0];
    var big := Block(b, j);
    var t := lists[j := lists[j][1..]];
    assert lists[j][1..] == RemoveAt(lists[j], 0);
    InvTake(lists, held, j, 0);
    InvDrop(t, held, big);
    SplitBuddy(b, j - 1 + BASE_ORDER);
    forall y | Owned(t, held, y)
      ensures Disjoint(y, Block(b + BlockSize(j - 1), j - 1)) && Disjoint(y, Block(b, j - 1))
    {
      HalvesDisjoint(y, big);
    }
  }

  lemma SplitBytes(lists: FreeLists, j: nat)
    requires 1 <= j < |lists| && lists[j] != []
    ensures FreeBytes(Split(lists, j)) == FreeBytes(lists)
  {
    var b := lists[j][0];
    var t := lists[j := lists[j][1..]];
    var t1 := Push(t, j - 1, b + BlockSize(j - 1));
    FreeBytesRemove(lists, j, lists[j][1..]);
    FreeBytesPush(t, j - 1, b + BlockSize(j - 1));
    FreeBytesPush(t1, j - 1, b);
    assert BlockSize(j) == 2 * BlockSize(j - 1);
  }

  /**
   * The splits `allocate` performs once list `i` is found non-empty:
   * `split_block(j)` for `j` from `i` down to `index + 1`.
   */
  function SplitDown(lists: FreeLists, i: nat, index: nat): (r: FreeLists)
    requires index <= i < |lists|
    ensures |r| == |lists|
    decreases i - index
  {
    if i == index then lists else SplitDown(Split(lists, i), i - 1, index)
  }

  lemma {:induction false} SplitDownInv(lists: FreeLists, held: seq<Block>, i: nat, index: nat)
    requires Inv(lists, held) && index <= i < |lists|
    ensures Inv(SplitDown(lists, i, index), held)
    ensures FreeBytes(SplitDown(lists, i, index)) == FreeBytes(lists)
    decreases i - index
  {
    if i > index {
      SplitInv(lists, held, i);
      SplitDownInv(Split(lists, i), held, i - 1, index);
    }
  }

  /** The first order at or above `from` whose free list is not empty. */
  function FirstNonEmpty(lists: FreeLists, from: nat): (r: Option<nat>)
    ensures r.Some? ==> from <= r.value < |lists| && lists[r.value] != []
    ensures forall m :: from <= m < |lists| && (r.None? || m < r.value) ==> lists[m] == []
    decreases |lists| - from
  {
    if from >= |lists| then None
    else if lists[from] != [] then Some(from)
    else FirstNonEmpty(lists, from + 1)
  }

  /**
   * The lists after taking the block at `b`, the head of list `k`, and
   * carving from it a block of order `index`: for each order `m` in
   * `index..k` the upper half `b + BlockSize(m)` left over by the splits is
   * first on list `m`.
   */
  function Carved(lists: FreeLists, b: nat, index: nat, k: nat): (r: FreeLists)
    requires index <= k < |lists| && lists[k] != []
    ensures |r| == |lists|
  {
    seq(|lists|, m requires 0 <= m < |lists| =>
      if m == k then lists[k][1..]
      else if index <= m < k then [b + BlockSize(m)] + lists[m]
      else lists[m])
  }

  lemma {:induction false} SplitDownCarves(lists: FreeLists, k: nat, i: nat, index: nat)
    requires index <= i <= k < |lists| && lists[k] != []
    ensures var b := lists[k][0];
            SplitDown(Push(Carved(lists, b, i, k), i, b), i, index) == Push(Carved(lists, b, index, k), index, b)
    decreases i - index
  {
    var b := lists[k][0];
    if i > index {
      var x := Push(Carved(lists, b, i, k), i, b);
      var t := x[i := x[i][1..]];
      assert t == Carved(lists, b, i, k);
      assert Split(x, i) == Push(Carved(lists, b, i - 1, k), i - 1, b);
      SplitDownCarves(lists, k, i - 1, index);
    }
  }

  lemma CarvedStart(lists: FreeLists, k: nat)
    requires k < |lists| && lists[k] != []
    ensures Push(Carved(lists, lists[k][0], k, k), k, lists[k][0]) == lists
  {
    var r := Push(Carved(lists, lists[k][0], k, k), k, lists[k][0]);
    assert r[k] == [lists[k][0]] + lists[k][1..] == lists[k];
    assert forall m :: 0 <= m < |lists| ==> r[m] == lists[m];
  }

  /**
   * The lists once `allocate`'s search has split the first block of the
   * first non-empty list at or above order `index` down to that order.
   */
  function SplitFor(lists: FreeLists, index: nat): (r: FreeLists)
    requires index < |lists|
    ensures |r| == |lists|
  {
    match FirstNonEmpty(lists, index)
    case None => lists
    case Some(i) => SplitDown(lists, i, index)
  }

  datatype Allocation = Allocation(ptr: Option<nat>, lists: FreeLists)

  /**
   * `allocate` for a block of order `index`: split down from the first
   * non-empty order at or above `index`, then pop the first block of order
   * `index`; a null address is reported as `None`.
   */
  function AllocateSpec(lists: FreeLists, index: nat): (r: Allocation)
    requires index < |lists|
    ensures |r.lists| == |lists|
  {
    var split := SplitFor(lists, index);
    if split[index] == [] then Allocation(None, split)
    else Allocation(if split[index][0] == 0 then None else Some(split[index][0]),
                    split[index := split[index][1..]])
  }

  /**
   * `allocate` fails, changing nothing, exactly when every list from `index`
   * up is empty; otherwise it returns the first block of the first non-empty
   * list at or above `index`, leaving the higher halves of the splits on the
   * lists in between.
   */
  lemma AllocateResult(lists: FreeLists, held: seq<Block>, index: nat)
    requires Inv(lists, held) && index < |lists|
    ensures var r := AllocateSpec(lists, index);
            && (r.ptr.None? <==> forall m :: index <= m < |lists| ==> lists[m] == [])
            && (r.ptr.None? ==> r.lists == lists)
            && (r.ptr.Some? ==> var k := FirstNonEmpty(lists, index).value;
                                r.ptr.value == lists[k][0] && r.lists == Carved(lists, r.ptr.value, index, k))
  {
    match FirstNonEmpty(lists, index)
    case None =>
    case Some(k) =>
      var b := lists[k][0];
      CarvedStart(lists, k);
      SplitDownCarves(lists, k, k, index);
      assert Owned(lists, held, Block(b, k));
  }

  /** A successful `allocate` hands out an aligned block of order `index` taken from the free bytes. */
  lemma AllocateInv(lists: FreeLists, held: seq<Block>, index: nat)
    requires Inv(lists, held) && index < |lists|
    ensures var r := AllocateSpec(lists, index);
            r.ptr.Some? ==>
              && Aligned(r.ptr.value, index + BASE_ORDER)
              && Inv(r.lists, held + [Block(r.ptr.value, index)])
              && FreeBytes(r.lists) + BlockSize(index) == FreeBytes(lists)
  {
    var r := AllocateSpec(lists, index);
    if r.ptr.Some? {
      var k := FirstNonEmpty(lists, index).value;
      var split := SplitDown(lists, k, index);
      SplitDownInv(lists, held, k, index);
      assert split[index][1..] == RemoveAt(split[index], 0);
      InvTake(split, held, index, 0);
      assert Owned(r.lists, held + [Block(r.ptr.value, index)], Block(r.ptr.value, index));
      FreeBytesRemove(split, index, split[index][1..]);
    }
  }

  /** The position of the first occurrence of `a`: where a scan from the front stops. */
  function IndexOf<T(==)>(s: seq<T>, a: T): (k: nat)
    requires a in s
    ensures k < |s| && s[k] == a && a !in s[..k]
  {
    if s[0] == a then 0
    else
      var k := IndexOf(s[1..], a);
      assert s[..k + 1] == [s[0]] + s[1..][..k];
      k + 1
  }

  /** The buddy of the block of order `index` at `block`: `block ^ (1 << (index + BASE_ORDER))`. */
  function Buddy(block: nat, index: nat): nat
  {
    FlipBit(block, index + BASE_ORDER)
  }

  datatype Merged = Merged(lists: FreeLists, addr: nat, order: nat)

  /**
   * The coalescing loop of `deallocate`, as written: while the buddy of the
   * current block is on the free list of the current order, take it off
   * (its first occurrence) and continue one order up with the lower of the
   * two addresses. The loop also ends when the orders run out, leaving
   * `order == |lists|`.
   */
  function Coalesce(lists: FreeLists, block: nat, index: nat): (r: Merged)
    ensures |r.lists| == |lists| && index <= r.order <= Bits.Max(index, |lists|)
    decreases |lists| - index
  {
    if index < |lists| && Buddy(block, index) in lists[index] then
      var buddy := Buddy(block, index);
      Coalesce(lists[index := RemoveAt(lists[index], IndexOf(lists[index], buddy))], Min(block, buddy), index + 1)
    else Merged(lists, block, index)
  }

  /** `deallocate` of the block of order `order` at `ptr`: coalesce, then push the result. */
  function DeallocateSpec(lists: FreeLists, ptr: nat, order: nat): (r: FreeLists)
    requires Coalesce(lists, ptr, order).order < |lists|
  {
    var m := Coalesce(lists, ptr, order);
    Push(m.lists, m.order, m.addr)
  }

  /** Everything owned that is disjoint from two buddies is disjoint from their union. */
  lemma UnionDisjoint(y: Block, a: Block, b: Block, m: Block)
    requires a.order == b.order && m.order == a.order + 1
    requires (a.addr == m.addr && b.addr == a.addr + BlockSize(a.order)) ||
             (b.addr == m.addr && a.addr == b.addr + BlockSize(a.order))
    requires Disjoint(y, a) && Disjoint(y, b)
    ensures Disjoint(y, m)
  {
    assert BlockSize(m.order) == 2 * BlockSize(a.order);
  }

  /**
   * One merge: the floating block (the last of `rest + [p]`) and its free
   * buddy become one floating block of the next order, covering both.
   */
  lemma MergeInv(lists: FreeLists, rest: seq<Block>, block: nat, index: nat)
    requires index < |lists| && Inv(lists, rest + [Block(block, index)])
    requires Buddy(block, index) in lists[index]
    ensures var buddy := Buddy(block, index);
            var l' := lists[index := RemoveAt(lists[index], IndexOf(lists[index], buddy))];
            && Inv(l', rest + [Block(Min(block, buddy), index + 1)])
            && FreeBytes(l') + BlockSize(index + 1) == FreeBytes(lists) + BlockSize(index)
            && Min(block, buddy) <= block && block + BlockSize(index) <= Min(block, buddy) + BlockSize(index + 1)
  {
    var p := Block(block, index);
    var buddy := Buddy(block, index);
    var k := IndexOf(lists[index], buddy);
    var q := Block(buddy, index);
    var l' := lists[index := RemoveAt(lists[index], k)];
    var m := Block(Min(block, buddy), index + 1);
    InvTake(lists, rest + [p], index, k);
    InvDrop(l', rest + [p], q);
    InvDrop(l', rest, p);
    MergeBuddy(block, index + BASE_ORDER);
    assert Disjoint(p, q);
    forall y | Owned(l', rest, y)
      ensures Disjoint(y, m)
    {
      UnionDisjoint(y, p, q, m);
    }
    assert WellPlaced(q);
    InvHold(l', rest, m);
    FreeBytesRemove(lists, index, RemoveAt(lists[index], k));
    assert BlockSize(index + 1) == 2 * BlockSize(index);
  }

  /**
   * Coalescing keeps the invariant with the floating block, ends with a block
   * of at least the starting order that contains the starting block, and
   * turns each removed buddy's bytes into the floating block's.
   */
  lemma {:induction false} CoalesceInv(lists: FreeLists, rest: seq<Block>, block: nat, index: nat)
    requires Inv(lists, rest + [Block(block, index)])
    ensures var m := Coalesce(lists, block, index);
            && |m.lists| == |lists| && index <= m.order
            && Inv(m.lists, rest + [Block(m.addr, m.order)])
            && FreeBytes(m.lists) + BlockSize(m.order) == FreeBytes(lists) + BlockSize(index)
            && m.addr <= block && block + BlockSize(index) <= m.addr + BlockSize(m.order)
            && (m.order < |lists| ==> Buddy(m.addr, m.order) !in m.lists[m.order])
    decreases |lists| - index
  {
    if index < |lists| && Buddy(block, index) in lists[index] {
      var buddy := Buddy(block, index);
      var l' := lists[index := RemoveAt(lists[index], IndexOf(lists[index], buddy))];
      MergeInv(lists, rest, block, index);
      CoalesceInv(l', rest, Min(block, buddy), index + 1);
    }
  }

  /**
   * `deallocate` returns the `p`-th handed-out block: the invariant holds
   * without it, and the free bytes grow by exactly its size.
   */
  lemma DeallocateInv(lists: FreeLists, held: seq<Block>, p: nat)
    requires Inv(lists, held) && p < |held|
    requires Coalesce(lists, held[p].addr, held[p].order).order < |lists|
    ensures Inv(DeallocateSpec(lists, held[p].addr, held[p].order), RemoveAt(held, p))
    ensures FreeBytes(DeallocateSpec(lists, held[p].addr, held[p].order)) == FreeBytes(lists) + BlockSize(held[p].order)
  {
    var b := held[p];
    var rest := RemoveAt(held, p);
    InvReorder(lists, held, p);
    CoalesceInv(lists, rest, b.addr, b.order);
    var m := Coalesce(lists, b.addr, b.order);
    InvDrop(m.lists, rest, Block(m.addr, m.order));
    InvAdd(m.lists, rest, Block(m.addr, m.order));
    FreeBytesPush(m.lists, m.order, m.addr);
  }

  lemma CarvedNext(lists: FreeLists, b: nat, m: nat, k: nat)
    requires m < k < |lists| && lists[k] != []
    ensures var c := Carved(lists, b, m, k);
            c[m] == [b + BlockSize(m)] + lists[m] && c[m := RemoveAt(c[m], 0)] == Carved(lists, b, m + 1, k)
  {
    var c := Carved(lists, b, m, k);
    var d := c[m := RemoveAt(c[m], 0)];
    assert forall j :: 0 <= j < |lists| ==> d[j] == Carved(lists, b, m + 1, k)[j];
  }

  /** A merge with a buddy at the head of the list. */
  lemma CoalesceHead(lists: FreeLists, block: nat, index: nat)
    requires index < |lists| && lists[index] != [] && lists[index][0] == Buddy(block, index)
    ensures Coalesce(lists, block, index)
            == Coalesce(lists[index := RemoveAt(lists[index], 0)], Min(block, Buddy(block, index)), index + 1)
  {
    assert IndexOf(lists[index], Buddy(block, index)) == 0;
  }

  lemma {:induction false} CoalesceCarved(lists: FreeLists, k: nat, m: nat)
    requires m <= k < |lists| && lists[k] != [] && Aligned(lists[k][0], k + BASE_ORDER)
    requires Buddy(lists[k][0], k) !in lists[k][1..]
    ensures var b := lists[k][0];
            Coalesce(Carved(lists, b, m, k), b, m) == Merged(Carved(lists, b, k, k), b, k)
    decreases k - m
  {
    var b := lists[k][0];
    var c := Carved(lists, b, m, k);
    if m < k {
      AlignedWeaken(b, m + BASE_ORDER + 1, k + BASE_ORDER);
      SplitBuddy(b, m + BASE_ORDER);
      CarvedNext(lists, b, m, k);
      CoalesceHead(c, b, m);
      CoalesceCarved(lists, k, m + 1);
    } else {
      assert c[k] == lists[k][1..];
    }
  }

  /**
   * Round trip: returning a block right after allocating it restores the free
   * lists, provided the buddy of the block it was carved from was not free
   * (otherwise coalescing goes one order further than the split started).
   */
  lemma AllocateDeallocate(lists: FreeLists, held: seq<Block>, index: nat)
    requires Inv(lists, held) && index < |lists|
    requires var r := FirstNonEmpty(lists, index);
             r.Some? ==> Buddy(lists[r.value][0], r.value) !in lists[r.value][1..]
    ensures var a := AllocateSpec(lists, index);
            a.ptr.Some? ==> Coalesce(a.lists, a.ptr.value, index).order < |lists| &&
                            DeallocateSpec(a.lists, a.ptr.value, index) == lists
  {
    var a := AllocateSpec(lists, index);
    AllocateResult(lists, held, index);
    if a.ptr.Some? {
      var k := FirstNonEmpty(lists, index).value;
      var b := lists[k][0];
      assert Owned(lists, held, Block(b, k));
      CoalesceCarved(lists, k, index);
      CarvedStart(lists, k);
    }
  }

  /** The smallest block tiles every block: a block of order `k` is `2^k` blocks of order 0. */
  lemma {:induction false} BlockSizeTiles(k: nat)
    ensures BlockSize(k) == MIN_BLOCK_SIZE * Pow2(k)
  {
    if k > 0 {
      BlockSizeTiles(k - 1);
      assert BlockSize(k) == 2 * BlockSize(k - 1);
    }
  }

  /** The addresses handed out by successive allocations, and the lists they leave. */
  datatype Run = Run(ptrs: seq<Option<nat>>, lists: FreeLists)

  /** `n` successive applications of `step`, of which `ptrs` collects the results in order. */
  function Repeat(step: FreeLists -> Allocation, lists: FreeLists, n: nat): (r: Run)
    ensures |r.ptrs| == n
    decreases n
  {
    if n == 0 then Run([], lists)
    else
      var a := step(lists);
      var rest := Repeat(step, a.lists, n - 1);
      Run([a.ptr] + rest.ptrs, rest.lists)
  }

  /** `n + m` steps are `n` steps followed by `m` more. */
  lemma {:induction false} RepeatAppend(step: FreeLists -> Allocation, lists: FreeLists, n: nat, m: nat)
    ensures var r1 := Repeat(step, lists, n);
            var r2 := Repeat(step, r1.lists, m);
            var r := Repeat(step, lists, n + m);
            r.ptrs == r1.ptrs + r2.ptrs && r.lists == r2.lists
    decreases n
  {
    if n > 0 {
      var a := step(lists);
      RepeatAppend(step, a.lists, n - 1, m);
      var t1 := Repeat(step, a.lists, n - 1);
      var r2 := Repeat(step, t1.lists, m);
      assert n + m - 1 == n - 1 + m;
      assert [a.ptr] + (t1.ptrs + r2.ptrs) == ([a.ptr] + t1.ptrs) + r2.ptrs;
    } else {
      assert [] + Repeat(step, lists, m).ptrs == Repeat(step, lists, m).ptrs;
    }
  }

  /**
   * The two facts about one allocation of order 0 that a run from a single
   * block depends on: a non-null head of list 0 is popped ...
   */
  ghost predicate PopsHead(step: FreeLists -> Allocation)
  {
    forall lists: FreeLists {:trigger PopHead(lists)} :: 0 < |lists| && lists[0] != [] && lists[0][0] > 0 ==>
      step(lists) == Allocation(Some(lists[0][0]), PopHead(lists))
  }

  /** ... and otherwise the first non-empty list is split first. */
  ghost predicate SplitsFirst(step: FreeLists -> Allocation)
  {
    forall lists: FreeLists, k: nat {:trigger Split(lists, k)} ::
      1 <= k < |lists| && lists[k] != [] && (forall m :: 0 <= m < k ==> lists[m] == []) ==>
      step(lists) == step(Split(lists, k))
  }

  /** The lists with the head of list 0 taken off. */
  function PopHead(lists: FreeLists): FreeLists
    requires 0 < |lists| && lists[0] != []
  {
    lists[0 := lists[0][1..]]
  }

  /** `allocate` of a block of order `index`, as a step of a run; a run never reaches an order beyond the lists. */
  function AllocateStep(index: nat): FreeLists -> Allocation
  {
    lists => if index < |lists| then AllocateSpec(lists, index) else Allocation(None, lists)
  }

  /** `n` successive `allocate`s of order `index`. */
  function AllocateRun(lists: FreeLists, index: nat, n: nat): Run
  {
    Repeat(AllocateStep(index), lists, n)
  }

  lemma AllocateStepPopsHead()
    ensures PopsHead(AllocateStep(0))
  {
    forall lists: FreeLists | 0 < |lists| && lists[0] != [] && lists[0][0] > 0
      ensures AllocateStep(0)(lists) == Allocation(Some(lists[0][0]), PopHead(lists))
    {
      assert FirstNonEmpty(lists, 0) == Some(0);
    }
  }

  lemma AllocateStepSplitsFirst()
    ensures SplitsFirst(AllocateStep(0))
  {
    forall lists: FreeLists, k: nat | 1 <= k < |lists| && lists[k] != [] && (forall m :: 0 <= m < k ==> lists[m] == [])
      ensures AllocateStep(0)(lists) == AllocateStep(0)(Split(lists, k))
    {
      AllocateAfterSplit(lists, k);
    }
  }

  /**
   * When list `k` is the first non-empty one, allocating a block of
   * order 0 gives what it gives after the first of its splits.
   */
  lemma AllocateAfterSplit(lists: FreeLists, k: nat)
    requires 1 <= k < |lists| && lists[k] != []
    requires forall m :: 0 <= m < k ==> lists[m] == []
    ensures AllocateSpec(lists, 0) == AllocateSpec(Split(lists, k), 0)
  {
    var l1 := Split(lists, k);
    assert FirstNonEmpty(lists, 0) == Some(k);
    assert l1[k - 1] != [];
    assert forall m :: 0 <= m < k - 1 ==> l1[m] == [];
    assert FirstNonEmpty(l1, 0) == Some(k - 1);
  }

  /**
   * Allocations of the smallest blocks from one free block of order `k`,
   * all lower lists being empty: the `j`-th of `2^k` successive allocations
   * of order 0 returns `b + 16 * j`, so that together they are the block cut
   * into ascending 16-byte pieces, and the block is gone from its list.
   */
  lemma AllocateBlockRun(lists: FreeLists, k: nat, b: nat, rest: seq<nat>)
    requires k < |lists| && b > 0 && lists[k] == [b] + rest
    requires forall m :: 0 <= m < k ==> lists[m] == []
    ensures var r := AllocateRun(lists, 0, Pow2(k));
            && r.lists == lists[k := rest]
            && forall j :: 0 <= j < Pow2(k) ==> r.ptrs[j] == Some(b + MIN_BLOCK_SIZE * j)
  {
    AllocateStepPopsHead();
    AllocateStepSplitsFirst();
    BlockRun(AllocateStep(0), lists, k, b, rest);
  }

  /** The same, for any step with the two properties. */
  lemma {:induction false} BlockRun(step: FreeLists -> Allocation, lists: FreeLists, k: nat, b: nat, rest: seq<nat>)
    requires PopsHead(step) && SplitsFirst(step)
    requires k < |lists| && b > 0 && lists[k] == [b] + rest
    requires forall m :: 0 <= m < k ==> lists[m] == []
    ensures var r := Repeat(step, lists, Pow2(k));
            && r.lists == lists[k := rest]
            && forall j :: 0 <= j < Pow2(k) ==> r.ptrs[j] == Some(b + MIN_BLOCK_SIZE * j)
    decreases k, 1
  {
    if k == 0 {
      assert lists[0 := rest] == PopHead(lists);
    } else {
      var l1 := Split(lists, k);
      assert l1[k - 1] == [b] + [b + BlockSize(k - 1)];
      assert step(lists) == step(l1);
      assert Repeat(step, lists, Pow2(k)) == Repeat(step, l1, Pow2(k));
      BlockRunHalves(step, l1, k, b);
      assert l1[k - 1 := []] == lists[k := rest];
    }
  }

  /** The two halves of a split block of order `k` go out one after the other. */
  lemma {:induction false} BlockRunHalves(step: FreeLists -> Allocation, l1: FreeLists, k: nat, b: nat)
    requires PopsHead(step) && SplitsFirst(step)
    requires 1 <= k <= |l1| && b > 0 && l1[k - 1] == [b] + [b + BlockSize(k - 1)]
    requires forall m :: 0 <= m < k - 1 ==> l1[m] == []
    ensures var r := Repeat(step, l1, Pow2(k));
            && r.lists == l1[k - 1 := []]
            && forall j :: 0 <= j < Pow2(k) ==> r.ptrs[j] == Some(b + MIN_BLOCK_SIZE * j)
    decreases k, 0
  {
    var half := Pow2(k - 1);
    var h := BlockSize(k - 1);
    BlockSizeTiles(k - 1);
    assert Pow2(k) == half + half;
    RepeatAppend(step, l1, half, half);
    BlockRun(step, l1, k - 1, b, [b + h]);
    var r1 := Repeat(step, l1, half);
    var l2 := l1[k - 1 := [b + h]];
    assert l2[k - 1] == [b + h] + [];
    BlockRun(step, l2, k - 1, b + h, []);
    var r2 := Repeat(step, l2, half);
    var r := Repeat(step, l1, Pow2(k));
    assert l2[k - 1 := []] == l1[k - 1 := []];
    assert r.ptrs == r1.ptrs + r2.ptrs;
    forall j | half <= j < Pow2(k)
      ensures r.ptrs[j] == Some(b + MIN_BLOCK_SIZE * j)
    {
      assert r.ptrs[j] == r2.ptrs[j - half];
    }
  }

  /** `n` ascending 16-byte pieces from `b`: what `chunks_exact(MIN_BLOCK_SIZE)` yields. */
  function Pieces(b: nat, n: nat): (r: seq<nat>)
    ensures |r| == n && forall j :: 0 <= j < n ==> r[j] == b + MIN_BLOCK_SIZE * j
  {
    seq(n, j requires 0 <= j < n => b + MIN_BLOCK_SIZE * j)
  }

  /**
   * Successive applications of `step` to the addresses `addrs`, first to
   * last; `None` once one of them fails.
   */
  function RepeatFree(step: (FreeLists, nat) -> Option<FreeLists>, lists: FreeLists, addrs: seq<nat>): Option<FreeLists>
    decreases |addrs|
  {
    if addrs == [] then Some(lists)
    else
      match step(lists, addrs[0])
      case None => None
      case Some(next) => RepeatFree(step, next, addrs[1..])
  }

  lemma {:induction false} RepeatFreeAppend(step: (FreeLists, nat) -> Option<FreeLists>, lists: FreeLists, xs: seq<nat>, ys: seq<nat>)
    ensures var r := RepeatFree(step, lists, xs);
            RepeatFree(step, lists, xs + ys) == if r.None? then None else RepeatFree(step, r.value, ys)
    decreases |xs|
  {
    if xs != [] {
      assert (xs + ys)[0] == xs[0] && (xs + ys)[1..] == xs[1..] + ys;
      var next := step(lists, xs[0]);
      if next.Some? {
        RepeatFreeAppend(step, next.value, xs[1..], ys);
      }
    } else {
      assert xs + ys == ys;
    }
  }

  lemma RepeatFreeChain(step: (FreeLists, nat) -> Option<FreeLists>, lists: FreeLists, xs: seq<nat>, ys: seq<nat>,
                        mid: FreeLists, last: FreeLists)
    requires RepeatFree(step, lists, xs) == Some(mid) && RepeatFree(step, mid, ys) == Some(last)
    ensures RepeatFree(step, lists, xs + ys) == Some(last)
  {
    RepeatFreeAppend(step, lists, xs, ys);
  }

  /**
   * `deallocate` of a block of order `index`, as a step of a run: `None`
   * when coalescing runs past the last order, where `free_list[index]`
   * would be out of bounds.
   */
  function FreeStep(index: nat): (FreeLists, nat) -> Option<FreeLists>
  {
    (lists: FreeLists, ptr: nat) => if Coalesce(lists, ptr, index).order < |lists| then Some(DeallocateSpec(lists, ptr, index)) else None
  }

  /** The pieces of a block of order `k` are those of its lower half, then those of its upper half. */
  lemma PiecesSplit(b: nat, k: nat)
    requires k >= 1
    ensures Pieces(b, Pow2(k)) == Pieces(b, Pow2(k - 1)) + Pieces(b + BlockSize(k - 1), Pow2(k - 1))
  {
    BlockSizeTiles(k - 1);
  }

  /** Successive `deallocate`s of order `index`, in the order of `addrs`. */
  function DeallocateRun(lists: FreeLists, addrs: seq<nat>, index: nat): Option<FreeLists>
  {
    RepeatFree(FreeStep(index), lists, addrs)
  }

  /** What a run of frees of order 0 depends on: each frees as `deallocate` does. */
  ghost predicate FreesAtZero(step: (FreeLists, nat) -> Option<FreeLists>)
  {
    forall lists: FreeLists, ptr: nat {:trigger DeallocateSpec(lists, ptr, 0)} ::
      Coalesce(lists, ptr, 0).order < |lists| ==> step(lists, ptr) == Some(DeallocateSpec(lists, ptr, 0))
  }

  lemma FreeStepFreesAtZero()
    ensures FreesAtZero(FreeStep(0))
  {
  }

  /**
   * Freeing the 16-byte pieces of an aligned block of order `k` in ascending
   * order, all lower lists being empty, coalesces them back into the block:
   * the lists end as after a single `deallocate` of the whole block.
   */
  lemma FreePieces(lists: FreeLists, b: nat, k: nat)
    requires Aligned(b, k + BASE_ORDER) && Coalesce(lists, b, k).order < |lists|
    requires forall m :: 0 <= m < k && m < |lists| ==> lists[m] == []
    ensures DeallocateRun(lists, Pieces(b, Pow2(k)), 0) == Some(DeallocateSpec(lists, b, k))
  {
    FreeStepFreesAtZero();
    PiecesFree(FreeStep(0), lists, b, k);
  }

  /** The same, for any step that frees as `deallocate` does. */
  lemma {:induction false} PiecesFree(step: (FreeLists, nat) -> Option<FreeLists>, lists: FreeLists, b: nat, k: nat)
    requires FreesAtZero(step)
    requires Aligned(b, k + BASE_ORDER) && Coalesce(lists, b, k).order < |lists|
    requires forall m :: 0 <= m < k && m < |lists| ==> lists[m] == []
    ensures RepeatFree(step, lists, Pieces(b, Pow2(k))) == Some(DeallocateSpec(lists, b, k))
    decreases k, 1
  {
    if k == 0 {
      assert Pieces(b, 1) == [b];
      assert step(lists, b) == Some(DeallocateSpec(lists, b, 0));
    } else {
      LowerPiecesFree(step, lists, b, k);
      UpperPiecesFree(step, lists, b, k);
      PiecesSplit(b, k);
      RepeatFreeChain(step, lists, Pieces(b, Pow2(k - 1)), Pieces(b + BlockSize(k - 1), Pow2(k - 1)),
                      Push(lists, k - 1, b), DeallocateSpec(lists, b, k));
    }
  }

  /** Freeing the pieces of the lower half of the block pushes that half. */
  lemma {:induction false} LowerPiecesFree(step: (FreeLists, nat) -> Option<FreeLists>, lists: FreeLists, b: nat, k: nat)
    requires FreesAtZero(step)
    requires 1 <= k && Aligned(b, k + BASE_ORDER) && Coalesce(lists, b, k).order < |lists|
    requires forall m :: 0 <= m < k && m < |lists| ==> lists[m] == []
    ensures RepeatFree(step, lists, Pieces(b, Pow2(k - 1))) == Some(Push(lists, k - 1, b))
    decreases k, 0
  {
    CoalesceHalves(lists, b, k);
    AlignedWeaken(b, k - 1 + BASE_ORDER, k + BASE_ORDER);
    PiecesFree(step, lists, b, k - 1);
  }

  /** Freeing the pieces of the upper half next frees the whole block. */
  lemma {:induction false} UpperPiecesFree(step: (FreeLists, nat) -> Option<FreeLists>, lists: FreeLists, b: nat, k: nat)
    requires FreesAtZero(step)
    requires 1 <= k && Aligned(b, k + BASE_ORDER) && Coalesce(lists, b, k).order < |lists|
    requires forall m :: 0 <= m < k && m < |lists| ==> lists[m] == []
    ensures RepeatFree(step, Push(lists, k - 1, b), Pieces(b + BlockSize(k - 1), Pow2(k - 1))) == Some(DeallocateSpec(lists, b, k))
    decreases k, 0
  {
    CoalesceHalves(lists, b, k);
    SplitBuddy(b, k - 1 + BASE_ORDER);
    PiecesFree(step, Push(lists, k - 1, b), b + BlockSize(k - 1), k - 1);
  }

  /**
   * Freeing the lower half of a block whose lower lists are empty only
   * pushes it; freeing the upper half next merges the two and goes on as
   * freeing the whole block would.
   */
  lemma CoalesceHalves(lists: FreeLists, b: nat, k: nat)
    requires 1 <= k && Aligned(b, k + BASE_ORDER) && Coalesce(lists, b, k).order < |lists|
    requires forall m :: 0 <= m < k && m < |lists| ==> lists[m] == []
    ensures var h := BlockSize(k - 1);
            var d1 := Push(lists, k - 1, b);
            && Coalesce(lists, b, k - 1) == Merged(lists, b, k - 1)
            && DeallocateSpec(lists, b, k - 1) == d1
            && Coalesce(d1, b + h, k - 1) == Coalesce(lists, b, k)
            && DeallocateSpec(d1, b + h, k - 1) == DeallocateSpec(lists, b, k)
  {
    var h := BlockSize(k - 1);
    var d1 := Push(lists, k - 1, b);
    assert Coalesce(lists, b, k - 1) == Merged(lists, b, k - 1);
    SplitBuddy(b, k - 1 + BASE_ORDER);
    assert Buddy(b + h, k - 1) == b;
    assert d1[k - 1] == [b];
    assert d1[k - 1 := RemoveAt(d1[k - 1], IndexOf(d1[k - 1], b))] == lists;
  }

  /** No address is on two free lists, or twice on one. */
  predicate Distinct(lists: FreeLists)
  {
    && (forall i :: 0 <= i < |lists| ==> NoDup(lists[i]))
    && (forall i, j, a :: 0 <= i < |lists| && 0 <= j < |lists| && a in lists[i] && a in lists[j] ==> i == j)
  }

  lemma InvDistinct(lists: FreeLists, held: seq<Block>)
    requires Inv(lists, held)
    ensures Distinct(lists)
  {
    forall i, j, a | 0 <= i < |lists| && 0 <= j < |lists| && a in lists[i] && a in lists[j]
      ensures i == j
    {
      assert Owned(lists, held, Block(a, i)) && Owned(lists, held, Block(a, j));
    }
  }

  /** An owned block that starts inside another owned block is that block. */
  lemma OwnedInside(lists: FreeLists, held: seq<Block>, x: Block, y: Block)
    requires Inv(lists, held) && Owned(lists, held, x) && Owned(lists, held, y)
    requires x.addr <= y.addr < End(x)
    ensures x == y
  {
  }
}
