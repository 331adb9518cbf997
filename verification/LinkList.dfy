/**
  The circular doubly linked list of lib/source/link_list.c, with a head that is not an item.
 */
module LinkLists {
  import opened Basics

  ghost predicate Adjacent(x: Ptr, y: Ptr, next: map<Ptr, Ptr>, prev: map<Ptr, Ptr>) {
    x in next && y in prev && next[x] == y && prev[y] == x
  }

  /** `next` and `prev` link the nodes of `c` forwards and backwards, in this order. */
  ghost predicate Chained(c: seq<Ptr>, next: map<Ptr, Ptr>, prev: map<Ptr, Ptr>) {
    forall i, j :: 0 <= i && j == i + 1 && j < |c| ==> Adjacent(c[i], c[j], next, prev)
  }

  /** No node but the last, which may repeat the first, occurs twice. */
  ghost predicate RingOf(c: seq<Ptr>) {
    && (forall i, j :: 0 <= i < j < |c| - 1 ==> c[i] != c[j])
    && (forall i, j :: 1 <= i < j < |c| ==> c[i] != c[j])
  }

  lemma RingInsert(c: seq<Ptr>, k: nat, node: Ptr)
    requires RingOf(c) && k + 1 < |c| && node !in c
    ensures RingOf(c[..k + 1] + [node] + c[k + 1..])
  {
    var c' := c[..k + 1] + [node] + c[k + 1..];
    forall i, j | 0 <= i < j < |c'| && (j < |c'| - 1 || 1 <= i) ensures c'[i] != c'[j] {
      assert i <= k ==> c[i] in c;
      assert i > k + 1 ==> c[i - 1] in c;
      assert j <= k ==> c[j] in c;
      assert j > k + 1 ==> c[j - 1] in c;
    }
  }

  lemma ChainInsert(c: seq<Ptr>, k: nat, node: Ptr, next: map<Ptr, Ptr>, prev: map<Ptr, Ptr>)
    requires Chained(c, next, prev) && RingOf(c) && k + 1 < |c| && node !in c
    ensures var c' := c[..k + 1] + [node] + c[k + 1..];
      RingOf(c') && Chained(c', next[node := c[k + 1]][c[k] := node], prev[node := c[k]][c[k + 1] := node])
  {
    var c' := c[..k + 1] + [node] + c[k + 1..];
    var next', prev' := next[node := c[k + 1]][c[k] := node], prev[node := c[k]][c[k + 1] := node];
    assert forall i :: 0 <= i < |c'| ==> c'[i] == if i <= k then c[i] else if i == k + 1 then node else c[i - 1];
    RingInsert(c, k, node);
    forall i, j | 0 <= i && j == i + 1 && j < |c'|
      ensures Adjacent(c'[i], c'[j], next', prev')
    {
      var h := if i <= k then i else i - 1;
      assert h + 1 < |c| ==> Adjacent(c[h], c[h + 1], next, prev);
    }
  }

  lemma ChainRemove(c: seq<Ptr>, k: nat, next: map<Ptr, Ptr>, prev: map<Ptr, Ptr>)
    requires Chained(c, next, prev) && RingOf(c) && 0 < k && k + 1 < |c|
    ensures var c' := c[..k] + c[k + 1..];
      RingOf(c') && Chained(c', next[c[k - 1] := c[k + 1]], prev[c[k + 1] := c[k - 1]])
  {
    var c' := c[..k] + c[k + 1..];
    var next', prev' := next[c[k - 1] := c[k + 1]], prev[c[k + 1] := c[k - 1]];
    assert forall i :: 0 <= i < |c'| ==> c'[i] == if i < k then c[i] else c[i + 1];
    assert RingOf(c') by {
      forall i, j | 0 <= i < j < |c'| && (j < |c'| - 1 || 1 <= i) ensures c'[i] != c'[j] {
        var i', j' := if i < k then i else i + 1, if j < k then j else j + 1;
        assert i' < j' && (j' < |c| - 1 || 1 <= i') && c'[i] == c[i'] && c'[j] == c[j'];
      }
    }
    forall i, j | 0 <= i && j == i + 1 && j < |c'|
      ensures Adjacent(c'[i], c'[j], next', prev')
    {
      var h := if i < k then i else i + 1;
      assert Adjacent(c[h], c[h + 1], next, prev);
    }
  }

  class LinkList {
    const head: Ptr
    var next: map<Ptr, Ptr>
    var prev: map<Ptr, Ptr>

    /** The items from first to last. */
    ghost var items: seq<Ptr>

    /** Once around the ring. */
    ghost function Ring(): seq<Ptr>
      reads this
    {
      [head] + items + [head]
    }

    ghost predicate Valid()
      reads this
    {
      RingOf(Ring()) && Chained(Ring(), next, prev)
    }

    /** A head in zeroed storage. */
    constructor (head: Ptr)
      ensures this.head == head && head in next && head in prev && prev[head] == NULL
    {
      this.head := head;
      next, prev := map[head := NULL], map[head := NULL];
    }

    /** `list_node_init` on the head. */
    method Init()
      modifies this
      ensures Valid() && items == []
    {
      next, prev := next[head := head], prev[head := head];
      items := [];
    }

    /** `list_add_next`: puts `node` after `at`, the node that ends `[head] + a`. */
    method AddNext(at: Ptr, node: Ptr, ghost a: seq<Ptr>, ghost b: seq<Ptr>)
      requires Valid() && items == a + b && at == ([head] + a)[|a|]
      requires node != head && node !in items
      modifies this
      ensures Valid() && items == a + [node] + b
    {
      ghost var c := Ring();
      assert c[|a|] == at;
      ChainInsert(c, |a|, node, next, prev);
      prev := prev[node := at];
      next := next[node := next[at]];
      prev := prev[next[at] := node];
      next := next[at := node];
      items := a + [node] + b;
      assert Ring() == c[..|a| + 1] + [node] + c[|a| + 1..];
    }

    /** `list_add_prev` on the head: puts `node` last. */
    method AddLast(node: Ptr)
      requires Valid() && node != head && node !in items
      modifies this
      ensures Valid() && items == old(items) + [node]
    {
      ghost var c := Ring();
      assert items + [] == items;
      ChainInsert(c, |items|, node, next, prev);
      prev := prev[node := prev[head]];
      next := next[node := head];
      next := next[prev[head] := node];
      prev := prev[head := node];
      items := items + [node];
      assert items == old(items) + [node] + [];
      assert Ring() == c[..|old(items)| + 1] + [node] + c[|old(items)| + 1..];
    }

    /** `list_remove`. */
    method Remove(node: Ptr, ghost a: seq<Ptr>, ghost b: seq<Ptr>)
      requires Valid() && items == a + [node] + b
      modifies this
      ensures Valid() && items == a + b
    {
      ghost var c := Ring();
      assert c == ([head] + a) + [node] + (b + [head]);
      assert c[|a| + 1] == node;
      ChainRemove(c, |a| + 1, next, prev);
      next := next[prev[node] := next[node]];
      prev := prev[next[node] := prev[node]];
      items := a + b;
      assert Ring() == c[..|a| + 1] + c[|a| + 2..];
    }

    lemma ItemsDistinct()
      requires Valid()
      ensures head !in items && Distinct(items)
    {
      var c := Ring();
      assert c[0] == head;
      forall i | 0 <= i < |items| ensures items[i] == c[i + 1] && items[i] != head {
      }
    }

    /** The links of the head. */
    lemma Ends()
      requires Valid()
      ensures head in next && next[head] == (items + [head])[0]
      ensures head in prev && prev[head] == ([head] + items)[|items|]
    {
      var c := Ring();
      assert Adjacent(c[0], c[1], next, prev);
      assert Adjacent(c[|items|], c[|items| + 1], next, prev);
    }

    /** What the links of an item are. */
    lemma Neighbours(node: Ptr, a: seq<Ptr>, b: seq<Ptr>)
      requires Valid() && items == a + [node] + b
      ensures node in next && node in prev
      ensures next[node] == (b + [head])[0] && prev[node] == ([head] + a)[|a|]
    {
      var c := Ring();
      assert c == ([head] + a) + [node] + (b + [head]);
      assert c[|a|] == ([head] + a)[|a|] && c[|a| + 1] == node && c[|a| + 2] == (b + [head])[0];
      assert Adjacent(c[|a|], node, next, prev) && Adjacent(node, c[|a| + 2], next, prev);
    }
  }
}
