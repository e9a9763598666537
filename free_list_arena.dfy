/**
 * The array of sentinel lists kept in the header arena, one per order, and
 * how each pointer operation on one list changes the sequence of addresses
 * it holds while leaving every other list as it was.
 */
module FreeListArena {
  import opened Wrappers
  import opened Header
  import opened BuddySpec

  /** List `i` of the arena, headed by sentinel `Head(i)`, holds exactly `lists[i]`. */
  ghost predicate AllLists(nodes: Nodes, lists: FreeLists)
  {
    forall i {:trigger IsList(nodes, Head(i), lists[i])} :: 0 <= i < |lists| ==> IsList(nodes, Head(i), lists[i])
  }

  /** No free list holds `a`. */
  predicate Unlisted(lists: FreeLists, a: nat)
  {
    forall j :: 0 <= j < |lists| ==> a !in lists[j]
  }

  lemma DistinctPush(lists: FreeLists, i: nat, a: nat)
    requires i < |lists| && Distinct(Push(lists, i, a))
    ensures Distinct(lists) && Unlisted(lists, a)
  {
    var r := Push(lists, i, a);
    assert forall k :: 0 <= k < |lists[i]| ==> lists[i][k] == r[i][k + 1];
    assert a in r[i];
    forall k | 0 <= k < |lists[i]|
      ensures a != lists[i][k]
    {
      assert r[i][0] != r[i][k + 1];
    }
  }

  /** A block listed in one list is not on the chain of another. */
  lemma NotInOther(lists: FreeLists, i: nat, j: nat, a: nat)
    requires Distinct(lists) && i < |lists| && j < |lists| && i != j && a in lists[i]
    ensures Blk(a) !in [Head(j)] + Blks(lists[j])
  {
    BlksNotIn(Head(j), lists[j], a);
  }

  /** A list keeps its contents when only nodes off its chain change. */
  lemma ListFrame(nodes: Nodes, r: Nodes, h: Ref, elems: seq<nat>, xs: seq<Ref>)
    requires IsList(nodes, h, elems)
    requires forall q :: q in nodes && q !in xs ==> q in r && r[q] == nodes[q]
    requires forall x :: x in xs ==> x !in [h] + Blks(elems)
    ensures IsList(r, h, elems)
  {
    var c := [h] + Blks(elems);
    forall m | 0 <= m < |c|
      ensures c[m] in r && r[c[m]] == nodes[c[m]]
    {
      assert c[m] in nodes && c[m] !in xs;
    }
    ChainFrame(nodes, r, c);
  }

  /** `push` of the block at `a` onto sentinel `i`. */
  lemma PushAll(nodes: Nodes, lists: FreeLists, i: nat, a: nat)
    requires AllLists(nodes, lists) && i < |lists| && Distinct(lists) && Unlisted(lists, a)
    ensures Head(i) in nodes && Valid(nodes, nodes[Head(i)].next)
    ensures AllLists(PushNodes(nodes, Head(i), Blk(a)), Push(lists, i, a))
  {
    assert IsList(nodes, Head(i), lists[i]);
    ListPopNext(nodes, Head(i), lists[i]);
    ListPush(nodes, Head(i), lists[i], a);
    var r := PushNodes(nodes, Head(i), Blk(a));
    var xs := [Head(i), Blk(a)] + if lists[i] == [] then [] else [Blk(lists[i][0])];
    forall j | 0 <= j < |lists| && j != i
      ensures IsList(r, Head(j), lists[j])
    {
      assert IsList(nodes, Head(j), lists[j]);
      BlksNotIn(Head(j), lists[j], a);
      if lists[i] != [] {
        NotInOther(lists, i, j, lists[i][0]);
      }
      ListFrame(nodes, r, Head(j), lists[j], xs);
    }
  }

  /** `pop_next` on sentinel `i` of a non-empty list. */
  lemma PopNextAll(nodes: Nodes, lists: FreeLists, i: nat)
    requires AllLists(nodes, lists) && Distinct(lists) && i < |lists| && lists[i] != []
    ensures Head(i) in nodes && Valid(nodes, nodes[Head(i)].next)
    ensures nodes[Head(i)].next == Some(Blk(lists[i][0]))
    ensures Valid(nodes, nodes[Blk(lists[i][0])].next)
    ensures AllLists(PopNextNodes(nodes, Head(i)), lists[i := lists[i][1..]])
  {
    assert IsList(nodes, Head(i), lists[i]);
    ListPopNext(nodes, Head(i), lists[i]);
    var r := PopNextNodes(nodes, Head(i));
    var ci := [Head(i)] + Blks(lists[i]);
    ChainNext(nodes, ci, 1);
    var xs := [Head(i), Blk(lists[i][0])] + if |lists[i]| > 1 then [Blk(lists[i][1])] else [];
    forall j | 0 <= j < |lists| && j != i
      ensures IsList(r, Head(j), lists[j])
    {
      assert IsList(nodes, Head(j), lists[j]);
      NotInOther(lists, i, j, lists[i][0]);
      if |lists[i]| > 1 {
        NotInOther(lists, i, j, lists[i][1]);
      }
      ListFrame(nodes, r, Head(j), lists[j], xs);
    }
  }

  /** The sentinel of list `i` is the tail exactly when the list is empty. */
  lemma IsTailAll(nodes: Nodes, lists: FreeLists, i: nat)
    requires AllLists(nodes, lists) && i < |lists|
    ensures Head(i) in nodes && (nodes[Head(i)].next.None? <==> lists[i] == [])
  {
    assert IsList(nodes, Head(i), lists[i]);
    ListPopNext(nodes, Head(i), lists[i]);
  }

  /** `pop` of the `k`-th block of list `i`. */
  lemma PopAll(nodes: Nodes, lists: FreeLists, i: nat, k: nat)
    requires AllLists(nodes, lists) && Distinct(lists) && i < |lists| && k < |lists[i]|
    ensures Blk(lists[i][k]) in nodes
    ensures Valid(nodes, nodes[Blk(lists[i][k])].prev) && Valid(nodes, nodes[Blk(lists[i][k])].next)
    ensures AllLists(PopNodes(nodes, Blk(lists[i][k])), lists[i := RemoveAt(lists[i], k)])
  {
    var x := Blk(lists[i][k]);
    assert IsList(nodes, Head(i), lists[i]);
    ListPop(nodes, Head(i), lists[i], k);
    var r := PopNodes(nodes, x);
    var ci := [Head(i)] + Blks(lists[i]);
    assert ci[k + 1] == x;
    ChainNext(nodes, ci, k + 1);
    ChainNext(nodes, ci, k);
    assert nodes[x].prev == Some(ci[k]);
    var xs := [ci[k], x] + if k + 2 < |ci| then [ci[k + 2]] else [];
    forall j | 0 <= j < |lists| && j != i
      ensures IsList(r, Head(j), lists[j])
    {
      assert IsList(nodes, Head(j), lists[j]);
      NotInOther(lists, i, j, lists[i][k]);
      if k > 0 {
        NotInOther(lists, i, j, lists[i][k - 1]);
      }
      if k + 1 < |lists[i]| {
        NotInOther(lists, i, j, lists[i][k + 1]);
      }
      ListFrame(nodes, r, Head(j), lists[j], xs);
    }
    assert RemoveAt(lists[i], k) == lists[i][..k] + lists[i][k + 1..];
  }

  /** Following `next` from the `k`-th block of list `i`. */
  lemma NextAll(nodes: Nodes, lists: FreeLists, i: nat, k: nat)
    requires AllLists(nodes, lists) && i < |lists| && k < |lists[i]|
    ensures Blk(lists[i][k]) in nodes
    ensures nodes[Blk(lists[i][k])].next == if k + 1 < |lists[i]| then Some(Blk(lists[i][k + 1])) else None
  {
    assert IsList(nodes, Head(i), lists[i]);
    ListNext(nodes, Head(i), lists[i], k);
  }

  /** Removing one address keeps the lists distinct. */
  lemma DistinctRemove(lists: FreeLists, i: nat, k: nat)
    requires Distinct(lists) && i < |lists| && k < |lists[i]|
    ensures Distinct(lists[i := RemoveAt(lists[i], k)])
  {
    RemoveAtNoDup(lists[i], k);
  }
}
