/**
 * The intrusive doubly linked list of free block headers.
 *
 * Memory holding headers is an arena: a map from a pointer (`Ref`) to the
 * header stored there. A sentinel list head is `Head(order)`, the header
 * written at the start of a free block is `Blk(addr)`, and the null pointer
 * is `None`. The pointer-rewriting operations are methods on the arena that
 * follow the source statement by statement; each is specified by a function
 * on maps, and lemmas give those functions their meaning on the list seen
 * as a sequence of pointers (a chain).
 */
module Header {
  import opened Wrappers

  datatype Ref = Head(order: nat) | Blk(addr: nat)

  datatype BlockHeader = BlockHeader(prev: Option<Ref>, next: Option<Ref>)

  type Nodes = map<Ref, BlockHeader>

  /** `BlockHeader::new`: a detached header. */
  function New(): (h: BlockHeader)
    ensures h.prev.None? && h.next.None?
  {
    BlockHeader(None, None)
  }

  /** Dereferencing `p`, when it is not null, reaches a header. */
  predicate Valid(nodes: Nodes, p: Option<Ref>)
  {
    p.Some? ==> p.value in nodes
  }

  /** The headers after `push(self, node)`. */
  function PushNodes(nodes: Nodes, self: Ref, node: Ref): (r: Nodes)
    requires self in nodes && Valid(nodes, nodes[self].next)
    ensures node in r && self in r && r[self].next == Some(node)
    ensures Some(node) != nodes[self].next ==> r[node].prev == Some(self)
    ensures forall q :: q in nodes && q != self && q != node && Some(q) != nodes[self].next ==> q in r && r[q] == nodes[q]
  {
    var n1 := nodes[node := BlockHeader(Some(self), nodes[self].next)];
    var n2 := if n1[self].next.Some?
              then n1[n1[self].next.value := n1[n1[self].next.value].(prev := Some(node))]
              else n1;
    n2[self := n2[self].(next := Some(node))]
  }

  /** The headers after `pop_next(self)`. */
  function PopNextNodes(nodes: Nodes, self: Ref): (r: Nodes)
    requires self in nodes && Valid(nodes, nodes[self].next)
    requires nodes[self].next.Some? ==> Valid(nodes, nodes[nodes[self].next.value].next)
    ensures nodes[self].next.None? ==> r == nodes
    ensures nodes[self].next.Some? ==> nodes[self].next.value in r && r[nodes[self].next.value] == New()
    ensures forall q :: q in nodes && q != self && Some(q) != nodes[self].next &&
                        (nodes[self].next.None? || Some(q) != nodes[nodes[self].next.value].next) ==>
                        q in r && r[q] == nodes[q]
  {
    if nodes[self].next.None? then nodes
    else
      var node := nodes[self].next.value;
      var n1 := nodes[self := nodes[self].(next := nodes[node].next)];
      var n2 := if n1[self].next.Some?
                then n1[n1[self].next.value := n1[n1[self].next.value].(prev := Some(self))]
                else n1;
      n2[node := New()]
  }

  /** The headers after `pop(self)`. */
  function PopNodes(nodes: Nodes, self: Ref): (r: Nodes)
    requires self in nodes && Valid(nodes, nodes[self].prev) && Valid(nodes, nodes[self].next)
    ensures self in r && r[self] == New()
    ensures forall q :: q in nodes && q != self && Some(q) != nodes[self].prev && Some(q) != nodes[self].next ==>
                        q in r && r[q] == nodes[q]
  {
    var n1 := if nodes[self].prev.Some?
              then nodes[nodes[self].prev.value := nodes[nodes[self].prev.value].(next := nodes[self].next)]
              else nodes;
    var n2 := if n1[self].next.Some?
              then n1[n1[self].next.value := n1[n1[self].next.value].(prev := n1[self].prev)]
              else n1;
    n2[self := New()]
  }

  /**
   * `c` is a well-formed list in `nodes`: distinct headers, `c[0]` has no
   * predecessor, each header points forward to the next and back to the
   * previous one, and the last header is the tail.
   */
  ghost predicate IsChain(nodes: Nodes, c: seq<Ref>)
  {
    && |c| >= 1
    && (forall i :: 0 <= i < |c| ==> c[i] in nodes)
    && (forall i, j :: 0 <= i < j < |c| ==> c[i] != c[j])
    && nodes[c[0]].prev == None
    && (forall i :: 0 <= i < |c| - 1 ==> nodes[c[i]].next == Some(c[i + 1]))
    && (forall i :: 0 < i < |c| ==> nodes[c[i]].prev == Some(c[i - 1]))
    && nodes[c[|c| - 1]].next == None
  }

  /** It is enough that the headers of the chain are unchanged. */
  lemma ChainFrame(nodes: Nodes, nodes': Nodes, c: seq<Ref>)
    requires IsChain(nodes, c)
    requires forall i :: 0 <= i < |c| ==> c[i] in nodes' && nodes'[c[i]] == nodes[c[i]]
    ensures IsChain(nodes', c)
  {
  }

  /** `is_tail` holds of the last header of a chain and of no other. */
  lemma ChainIsTail(nodes: Nodes, c: seq<Ref>, k: nat)
    requires IsChain(nodes, c) && k < |c|
    ensures nodes[c[k]].next.None? <==> k == |c| - 1
  {
    if k < |c| - 1 {
      assert nodes[c[k]].next == Some(c[k + 1]);
    }
  }

  /** Where the headers of `c` sit in `c` with its `m`-th header removed. */
  lemma RemoveIndex(c: seq<Ref>, m: nat)
    requires m < |c|
    ensures var c' := c[..m] + c[m + 1..];
            |c'| == |c| - 1 &&
            (forall i :: 0 <= i < m ==> c'[i] == c[i]) &&
            (forall i :: m <= i < |c'| ==> c'[i] == c[i + 1])
  {
  }

  /** Where the headers of `c` sit in `c` with `x` inserted after its `k`-th header. */
  lemma InsertIndex(c: seq<Ref>, k: nat, x: Ref)
    requires k < |c|
    ensures var c' := c[..k + 1] + [x] + c[k + 1..];
            |c'| == |c| + 1 && c'[k + 1] == x &&
            (forall i :: 0 <= i <= k ==> c'[i] == c[i]) &&
            (forall i :: k + 1 < i < |c'| ==> c'[i] == c[i - 1])
  {
  }

  /**
   * Unlinking the `m`-th header of a chain: its predecessor now points
   * forward to its successor, the successor back to the predecessor, and
   * no other header of the chain changes.
   */
  lemma ChainRemove(nodes: Nodes, r: Nodes, c: seq<Ref>, m: nat)
    requires IsChain(nodes, c) && 0 < m < |c|
    requires forall i :: 0 <= i < |c| && i != m ==> c[i] in r
    requires forall i :: 0 <= i < |c| && i != m - 1 && i != m && i != m + 1 ==> r[c[i]] == nodes[c[i]]
    requires c[m - 1] in r && r[c[m - 1]] == nodes[c[m - 1]].(next := nodes[c[m]].next)
    requires m + 1 < |c| ==> c[m + 1] in r && r[c[m + 1]] == nodes[c[m + 1]].(prev := Some(c[m - 1]))
    ensures IsChain(r, c[..m] + c[m + 1..])
  {
    var c' := c[..m] + c[m + 1..];
    RemoveIndex(c, m);
    ChainNext(nodes, c, m);
    forall i | 0 <= i < |c'| - 1
      ensures r[c'[i]].next == Some(c'[i + 1])
    {
      if i >= m {
        ChainNext(nodes, c, i + 1);
      } else if i < m - 1 {
        ChainNext(nodes, c, i);
      }
    }
    forall i | 0 < i < |c'|
      ensures r[c'[i]].prev == Some(c'[i - 1])
    {
      if i > m {
        assert c'[i] == c[i + 1] && c'[i - 1] == c[i];
      } else if i < m {
        assert c'[i] == c[i] && c'[i - 1] == c[i - 1];
      }
    }
    forall i, j | 0 <= i < j < |c'|
      ensures c'[i] != c'[j]
    {
      var i0 := if i < m then i else i + 1;
      var j0 := if j < m then j else j + 1;
      assert c'[i] == c[i0] && c'[j] == c[j0];
    }
    if m + 1 < |c| {
      ChainNext(nodes, c, |c| - 1);
    }
  }

  /**
   * Linking `x` in after the `k`-th header of a chain: the `k`-th header
   * points forward to `x`, `x` points back to it and forward to the old
   * successor, which points back to `x`, and no other header of the chain
   * changes.
   */
  lemma ChainInsert(nodes: Nodes, r: Nodes, c: seq<Ref>, k: nat, x: Ref)
    requires IsChain(nodes, c) && k < |c| && x !in c
    requires forall i :: 0 <= i < |c| ==> c[i] in r
    requires forall i :: 0 <= i < |c| && i != k && i != k + 1 ==> r[c[i]] == nodes[c[i]]
    requires r[c[k]] == nodes[c[k]].(next := Some(x))
    requires x in r && r[x] == BlockHeader(Some(c[k]), nodes[c[k]].next)
    requires k + 1 < |c| ==> r[c[k + 1]] == nodes[c[k + 1]].(prev := Some(x))
    ensures IsChain(r, c[..k + 1] + [x] + c[k + 1..])
  {
    var c' := c[..k + 1] + [x] + c[k + 1..];
    InsertIndex(c, k, x);
    ChainNext(nodes, c, k);
    forall i | 0 <= i < |c'| - 1
      ensures r[c'[i]].next == Some(c'[i + 1])
    {
      if i > k + 1 {
        ChainNext(nodes, c, i - 1);
      } else if i < k {
        ChainNext(nodes, c, i);
      }
    }
    forall i | 0 < i < |c'|
      ensures r[c'[i]].prev == Some(c'[i - 1])
    {
      if i > k + 2 {
        assert c'[i] == c[i - 1] && c'[i - 1] == c[i - 2];
      } else if i <= k {
        assert c'[i] == c[i] && c'[i - 1] == c[i - 1];
      }
    }
    forall i, j | 0 <= i < j < |c'|
      ensures c'[i] != c'[j]
    {
      if i != k + 1 && j != k + 1 {
        var i0 := if i <= k then i else i - 1;
        var j0 := if j <= k then j else j - 1;
        assert c'[i] == c[i0] && c'[j] == c[j0];
      }
    }
    if k + 1 < |c| {
      ChainNext(nodes, c, |c| - 1);
    }
  }

  /** `push` on the `k`-th header inserts `x` directly after it. */
  lemma ChainPush(nodes: Nodes, c: seq<Ref>, k: nat, x: Ref)
    requires IsChain(nodes, c) && k < |c| && x !in c
    ensures Valid(nodes, nodes[c[k]].next)
    ensures IsChain(PushNodes(nodes, c[k], x), c[..k + 1] + [x] + c[k + 1..])
  {
    ChainNext(nodes, c, k);
    var r := PushNodes(nodes, c[k], x);
    if k + 1 < |c| {
      assert r[c[k + 1]] == nodes[c[k + 1]].(prev := Some(x));
    }
    ChainInsert(nodes, r, c, k, x);
  }

  /** `pop_next` on the `k`-th header removes the header after it and detaches it. */
  lemma ChainPopNext(nodes: Nodes, c: seq<Ref>, k: nat)
    requires IsChain(nodes, c) && k + 1 < |c|
    ensures nodes[c[k]].next == Some(c[k + 1]) && Valid(nodes, nodes[c[k + 1]].next)
    ensures var r := PopNextNodes(nodes, c[k]);
            IsChain(r, c[..k + 1] + c[k + 2..]) && c[k + 1] in r && r[c[k + 1]] == New()
  {
    ChainNext(nodes, c, k);
    ChainNext(nodes, c, k + 1);
    var r := PopNextNodes(nodes, c[k]);
    if k + 2 < |c| {
      assert r[c[k + 2]] == nodes[c[k + 2]].(prev := Some(c[k]));
    }
    ChainRemove(nodes, r, c, k + 1);
  }

  /** `pop` on the `k`-th header, other than the first, unlinks it and detaches it. */
  lemma ChainPop(nodes: Nodes, c: seq<Ref>, k: nat)
    requires IsChain(nodes, c) && 0 < k < |c|
    ensures nodes[c[k]].prev == Some(c[k - 1]) && Valid(nodes, nodes[c[k]].next)
    ensures var r := PopNodes(nodes, c[k]);
            IsChain(r, c[..k] + c[k + 1..]) && r[c[k]] == New()
  {
    ChainNext(nodes, c, k);
    ChainNext(nodes, c, k - 1);
    var r := PopNodes(nodes, c[k]);
    if k + 1 < |c| {
      assert r[c[k + 1]] == nodes[c[k + 1]].(prev := Some(c[k - 1]));
    }
    ChainRemove(nodes, r, c, k);
  }

  /** Following `next` from the `k`-th header of a chain reaches the `k+1`-th, or null after the last. */
  lemma ChainNext(nodes: Nodes, c: seq<Ref>, k: nat)
    requires IsChain(nodes, c) && k < |c|
    ensures nodes[c[k]].next == if k + 1 < |c| then Some(c[k + 1]) else None
  {
    if k + 1 < |c| {
      assert nodes[c[k]].next == Some(c[k + 1]);
    }
  }

  /** The headers of the blocks at `addrs`. */
  function Blks(addrs: seq<nat>): (r: seq<Ref>)
    ensures |r| == |addrs| && forall i :: 0 <= i < |addrs| ==> r[i] == Blk(addrs[i])
  {
    seq(|addrs|, i requires 0 <= i < |addrs| => Blk(addrs[i]))
  }

  /** A list with sentinel `h` holding the blocks at `elems`, in order. */
  ghost predicate IsList(nodes: Nodes, h: Ref, elems: seq<nat>)
  {
    h.Head? && IsChain(nodes, [h] + Blks(elems))
  }

  lemma BlksPrepend(h: Ref, elems: seq<nat>, a: nat)
    ensures var c := [h] + Blks(elems);
            c[..1] + [Blk(a)] + c[1..] == [h] + Blks([a] + elems)
  {
  }

  lemma BlksDropFirst(h: Ref, elems: seq<nat>)
    requires elems != []
    ensures var c := [h] + Blks(elems);
            c[..1] + c[2..] == [h] + Blks(elems[1..])
  {
    var c := [h] + Blks(elems);
    assert c[2..] == Blks(elems)[1..];
  }

  lemma BlksNotIn(h: Ref, elems: seq<nat>, a: nat)
    requires h.Head? && a !in elems
    ensures Blk(a) !in [h] + Blks(elems)
  {
  }

  /** `push` on a sentinel prepends the block. */
  lemma ListPush(nodes: Nodes, h: Ref, elems: seq<nat>, a: nat)
    requires IsList(nodes, h, elems) && a !in elems
    ensures h in nodes && Valid(nodes, nodes[h].next)
    ensures IsList(PushNodes(nodes, h, Blk(a)), h, [a] + elems)
  {
    var c := [h] + Blks(elems);
    BlksNotIn(h, elems, a);
    ChainPush(nodes, c, 0, Blk(a));
    BlksPrepend(h, elems, a);
  }

  /** `pop_next` on a sentinel returns the first block and removes it, or `None` on an empty list. */
  lemma ListPopNext(nodes: Nodes, h: Ref, elems: seq<nat>)
    requires IsList(nodes, h, elems)
    ensures h in nodes && Valid(nodes, nodes[h].next)
    ensures nodes[h].next.Some? ==> Valid(nodes, nodes[nodes[h].next.value].next)
    ensures nodes[h].next == if elems == [] then None else Some(Blk(elems[0]))
    ensures elems != [] ==> IsList(PopNextNodes(nodes, h), h, elems[1..])
  {
    var c := [h] + Blks(elems);
    ChainNext(nodes, c, 0);
    if elems != [] {
      ChainPopNext(nodes, c, 0);
      BlksDropFirst(h, elems);
    }
  }

  /** `pop` on the `k`-th block of a list removes just that block. */
  lemma ListPop(nodes: Nodes, h: Ref, elems: seq<nat>, k: nat)
    requires IsList(nodes, h, elems) && k < |elems|
    ensures Blk(elems[k]) in nodes
    ensures Valid(nodes, nodes[Blk(elems[k])].prev) && Valid(nodes, nodes[Blk(elems[k])].next)
    ensures IsList(PopNodes(nodes, Blk(elems[k])), h, elems[..k] + elems[k + 1..])
  {
    var c := [h] + Blks(elems);
    assert c[k + 1] == Blk(elems[k]);
    ChainPop(nodes, c, k + 1);
    assert c[..k + 1] + c[k + 2..] == [h] + Blks(elems[..k] + elems[k + 1..]);
  }

  /** Following `next` from the `k`-th block of a list reaches the next block, or null after the last. */
  lemma ListNext(nodes: Nodes, h: Ref, elems: seq<nat>, k: nat)
    requires IsList(nodes, h, elems) && k < |elems|
    ensures Blk(elems[k]) in nodes
    ensures nodes[Blk(elems[k])].next == if k + 1 < |elems| then Some(Blk(elems[k + 1])) else None
  {
    var c := [h] + Blks(elems);
    assert c[k + 1] == Blk(elems[k]);
    ChainNext(nodes, c, k + 1);
    if k + 1 < |elems| {
      assert c[k + 2] == Blk(elems[k + 1]);
    }
  }

  /** The memory holding every header, sentinels included. */
  class Arena {
    var nodes: Nodes

    constructor(heads: nat)
      ensures forall i: nat :: i < heads ==> Head(i) in nodes && nodes[Head(i)] == New()
      ensures forall r :: r in nodes ==> r.Head? && r.order < heads
    {
      nodes := map i: nat | i < heads :: Head(i) := New();
    }

    /** `BlockHeader::push`: link `node` in directly after `self`. */
    method Push(self: Ref, node: Ref)
      requires self in nodes && Valid(nodes, nodes[self].next)
      modifies this
      ensures nodes == PushNodes(old(nodes), self, node)
    {
      // Both fields of `node` are overwritten, so its old contents do not matter.
      nodes := nodes[node := BlockHeader(Some(self), nodes[self].next)];
      if nodes[self].next.Some? {
        var next := nodes[self].next.value;
        nodes := nodes[next := nodes[next].(prev := Some(node))];
      }
      nodes := nodes[self := nodes[self].(next := Some(node))];
    }

    /** `BlockHeader::pop_next`: unlink and return the header after `self`, if any. */
    method PopNext(self: Ref) returns (popped: Option<Ref>)
      requires self in nodes && Valid(nodes, nodes[self].next)
      requires nodes[self].next.Some? ==> Valid(nodes, nodes[nodes[self].next.value].next)
      modifies this
      ensures popped == old(nodes)[self].next
      ensures nodes == PopNextNodes(old(nodes), self)
    {
      if IsTail(self) {
        return None;
      }
      var node := nodes[self].next.value;
      nodes := nodes[self := nodes[self].(next := nodes[node].next)];
      if nodes[self].next.Some? {
        var next := nodes[self].next.value;
        nodes := nodes[next := nodes[next].(prev := Some(self))];
      }
      nodes := nodes[node := New()];
      popped := Some(node);
    }

    /** `BlockHeader::pop`: unlink `self` from wherever it is and detach it. */
    method Pop(self: Ref) returns (popped: Ref)
      requires self in nodes && Valid(nodes, nodes[self].prev) && Valid(nodes, nodes[self].next)
      modifies this
      ensures popped == self
      ensures nodes == PopNodes(old(nodes), self)
    {
      if nodes[self].prev.Some? {
        var prev := nodes[self].prev.value;
        nodes := nodes[prev := nodes[prev].(next := nodes[self].next)];
      }
      if nodes[self].next.Some? {
        var next := nodes[self].next.value;
        nodes := nodes[next := nodes[next].(prev := nodes[self].prev)];
      }
      nodes := nodes[self := New()];
      popped := self;
    }

    /** `BlockHeader::is_tail`. */
    function IsTail(self: Ref): bool
      reads this
      requires self in nodes
    {
      nodes[self].next.None?
    }

    /** `BlockHeader::iter_mut`: an iterator that starts at `self`. */
    method IterMut(self: Ref) returns (it: Iter)
      ensures fresh(it) && it.arena == this && it.node == Some(self)
    {
      it := new Iter(this, Some(self));
    }
  }

  /** `Iter`: walks a list by following `next` pointers. */
  class Iter {
    const arena: Arena
    var node: Option<Ref>

    constructor(arena: Arena, node: Option<Ref>)
      ensures this.arena == arena && this.node == node
    {
      this.arena := arena;
      this.node := node;
    }

    /** `Iter::next`: yield the current header and step to its successor. */
    method Next() returns (item: Option<Ref>)
      requires Valid(arena.nodes, node)
      modifies this
      ensures item == old(node)
      ensures node == if item.None? then None else arena.nodes[item.value].next
    {
      if node.None? {
        return None;
      }
      item := node;
      node := arena.nodes[node.value].next;
    }
  }
}
