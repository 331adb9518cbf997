/**
  The allocator of mg/source/memalloc.c: every block in an address-ordered list, every free
  block in the red-black tree, keyed by size.
 */
module MemAllocs {
  import opened Basics
  import opened RbShape
  import opened RbTrees
  import opened LinkLists
  import opened MemView

  /** The heap after `mem_init`: one free block from the first aligned address to the end. */
  ghost function InitialView(base: nat): View {
    var lo, hi := AlignUp(base), base + CONFIG_HEAP;
    View(lo, hi, [lo], map[lo := hi - lo], map[lo := false], {lo}, hi - lo, map[])
  }

  lemma {:induction false} InitialGood(base: nat)
    requires base > 0
    ensures Good(InitialView(base))
  {
    var v := InitialView(base);
    Single(v.lo, v.size, v.used);
    assert Elems([v.lo]) == {v.lo};
  }

  lemma {:induction false} InitialBlock(base: nat, start: Ptr, total: nat)
    requires base > 0 && start == AlignUp(base) && start + total == base + CONFIG_HEAP
    ensures var v := View(start, base + CONFIG_HEAP, [] + [start] + [], map[][start := total],
                          map[][start := false], Elems([]) + {start}, total, map[]);
      v == InitialView(base) && Kept(v)
  {
    InitialGood(base);
    assert [] + [start] + [] == [start];
    assert Elems([]) + {start} == {start};
    assert map[][start := total] == map[start := total];
    var used: map<Ptr, bool> := map[];
    assert used[start := false] == map[start := false];
  }

  /** `v'` is `v` after the free block `x`, between `a` and `b`, served a request. */
  ghost predicate ServedFrom(v: View, v': View, a: seq<Ptr>, x: Ptr, b: seq<Ptr>, want: nat) {
    && x in v.free && x in v.size && AlignUp(want + HEADER) < v.size[x] <= v.total
    && v.blocks == a + [x] + b
    && v' == Served(v, a, x, b, AlignUp(want + HEADER), want)
  }

  /** No free block is strictly larger than `n`. */
  ghost predicate NoneLarger(v: View, n: nat) {
    forall x :: x in v.free ==> Size(v.size, x) <= n
  }

  /** Of the free blocks larger than `n`, `x` is the smallest, and the oldest of that size. */
  ghost predicate BestFit(v: View, stamp: map<Ptr, nat>, x: Ptr, n: nat) {
    && x in v.free && Size(v.size, x) > n
    && (forall y :: y in v.free && y != x && Size(v.size, y) > n ==> Precedes(v.size, stamp, x, y))
  }

  lemma ServedByRequest(v: View, a: seq<Ptr>, x: Ptr, b: seq<Ptr>, n: nat, want: nat)
    requires Kept(v) && v.blocks == a + [x] + b && x in v.free && 0 < n < Size(v.size, x) <= v.total
    ensures TakenFrom(v, Served(v, a, x, b, n, want), x, n, want)
  {
    assert GoodUnder(v, 0);
    ServedIsTaken(v, a, x, b, n, want);
  }

  lemma DistinctParts(a: seq<Ptr>, x: Ptr, b: seq<Ptr>)
    requires Distinct(a + [x] + b)
    ensures x !in a && x !in b && forall y :: y in b ==> y !in a
  {
    var s := a + [x] + b;
    assert s[|a|] == x;
    assert forall i :: 0 <= i < |a| ==> s[i] == a[i];
    assert forall i :: 0 <= i < |b| ==> s[|a| + 1 + i] == b[i];
  }

  lemma SameMembers(s: seq<Ptr>, s': seq<Ptr>, x: Ptr)
    requires Elems(s) == Elems(s') - {x}
    ensures forall y :: y in s <==> y in s' && y != x
  {
    forall y ensures y in s <==> y in s' && y != x {
      assert y in Elems(s) <==> y in Elems(s') - {x};
    }
  }

  lemma Position(v: View, x: Ptr) returns (a: seq<Ptr>, b: seq<Ptr>)
    requires Kept(v) && (x in v.free || x in v.asked)
    ensures v.blocks == a + [x] + b
  {
    assert GoodUnder(v, 0);
    assert x in Elems(v.blocks);
    var i := IndexOf(v.blocks, x);
    a, b := v.blocks[..i], v.blocks[i + 1..];
  }

  class MemAlloc {
    const base: nat                 // address of all_heap
    const list: LinkList            // cache_node and every block's link_node
    const tree: RbTree              // mem_tree and every block's iter_node
    var used: map<Ptr, bool>
    var allSize: nat

    ghost var asked: map<Ptr, nat>
    ghost var lo: nat
    ghost var hi: nat

    ghost function Here(): View
      reads this, list, tree
    {
      View(lo, hi, list.items, tree.value, used, Elems(tree.Order()), allSize, asked)
    }

    /** `cache_node.prev` is NULL until `mem_init` has run. */
    predicate Ready()
      reads this, list
    {
      list.head in list.prev && list.prev[list.head] != NULL
    }

    /** The heap a caller sees: before `mem_init`, the one it will set up. */
    ghost function Heap(): View
      reads this, list, tree
    {
      if Ready() then Here() else InitialView(base)
    }

    ghost predicate Valid()
      reads this, list, tree
    {
      && base > 0 && list.head != NULL && (list.head + LINK <= base || base + CONFIG_HEAP <= list.head)
      && list.head in list.prev
      && tree.Sound()
      && if Ready() then list.Valid() && Kept(Here()) && lo == AlignUp(base) && hi == base + CONFIG_HEAP
         else tree.Order() == [] && tree.value == map[] && used == map[] && asked == map[] && allSize == CONFIG_HEAP
    }

    constructor (base: nat, head: Ptr)
      requires base > 0 && head != NULL && (head + LINK <= base || base + CONFIG_HEAP <= head)
      ensures Valid() && Heap() == InitialView(base) && this.base == base
      ensures fresh(list) && fresh(tree)
    {
      this.base := base;
      this.list := new LinkList(head);
      this.tree := new RbTree();
      used, allSize, asked, lo, hi := map[], CONFIG_HEAP, map[], 0, 0;
    }

    /** Live payloads are aligned, lie in the array, and do not overlap. */
    lemma PayloadsApart()
      requires Valid()
      ensures forall x :: x in asked ==>
        base < x + HEADER && x + HEADER + asked[x] <= base + CONFIG_HEAP && (x + HEADER) % 8 == 0
      ensures forall x, y :: x in asked && y in asked && x < y ==> x + HEADER + asked[x] <= y
    {
      if Ready() {
        assert GoodUnder(Here(), 0);
        forall x | x in asked
          ensures base < x + HEADER && x + HEADER + asked[x] <= base + CONFIG_HEAP && (x + HEADER) % 8 == 0
        {
          LivePayload(Here(), x);
        }
        forall x, y | x in asked && y in asked && x < y ensures x + HEADER + asked[x] <= y {
          LivePayloads(Here(), x, y);
        }
      }
    }

    /** A pool without live blocks is as it was set up. */
    lemma AllReleased()
      requires Valid() && Ready() && asked == map[]
      ensures SameHeap(Here(), InitialView(base))
    {
      assert GoodUnder(Here(), 0);
      InitialGood(base);
      HeapFromLive(Here(), InitialView(base));
    }

    method Init()
      requires Valid() && !Ready()
      modifies this, list, tree
      ensures Valid() && Ready() && Heap() == InitialView(base)
    {
      var start := AlignStart();
      FirstBlock(start);
      lo, hi := start, base + CONFIG_HEAP;
      InitialBlock(base, start, allSize);
    }

    /** Links the first block and puts it into the tree. */
    method FirstBlock(start: Ptr)
      requires tree.Sound() && tree.Order() == [] && list.head != NULL && start != NULL && start != list.head
      requires list.head in list.prev
      modifies `used, list, tree
      ensures list.Valid() && list.items == [] + [start] + [] && Ready()
      ensures tree.Sound() && tree.value == old(tree.value)[start := allSize]
      ensures Elems(tree.Order()) == Elems([]) + {start} && used == old(used)[start := false]
    {
      list.Init();
      AddBlock(list.head, start, [], []);
      used := used[start := false];
      SetSize(start, allSize);
      InsertFree(start);
    }

    method AlignStart() returns (start: Ptr)
      requires allSize == CONFIG_HEAP
      modifies `allSize
      ensures start == AlignUp(base) && start + allSize == base + CONFIG_HEAP
    {
      start := base;
      if start % 8 != 0 {
        start := start + 7;
        start := start - start % 8;
        allSize := allSize - (start - base);
      }
    }

    /** Links a block after the blocks `a`. */
    method AddBlock(at: Ptr, node: Ptr, ghost a: seq<Ptr>, ghost b: seq<Ptr>)
      requires list.Valid() && list.items == a + b && at == ([list.head] + a)[|a|]
      requires node != list.head && node !in list.items
      requires list.head != NULL && node != NULL && NULL !in list.items
      modifies list
      ensures list.Valid() && list.items == a + [node] + b && Ready()
    {
      list.AddNext(at, node, a, b);
      list.Ends();
    }

    /** Puts a block into the tree of free blocks. */
    method InsertFree(node: Ptr)
      requires tree.Sound()
      requires node != NULL && node !in tree.Order() && node in tree.value
      modifies tree
      ensures tree.Sound() && tree.value == old(tree.value)
      ensures Elems(tree.Order()) == old(Elems(tree.Order())) + {node}
    {
      assert tree.Sealed(0);
      ghost var a, b := tree.InsertNode(node);
    }

    method SetSize(node: Ptr, size: nat)
      requires tree.Sound() && node !in tree.Order()
      modifies tree
      ensures tree.Sound() && tree.value == old(tree.value)[node := size]
      ensures tree.Order() == old(tree.Order())
    {
      assert tree.Sealed(0);
      tree.SetValue(node, size);
    }

    method RemoveFree(node: Ptr)
      requires tree.Sound() && node in tree.Order()
      modifies tree`mem, tree`rbNode, tree`tree, tree`firstNode, tree`lastNode, tree`count
      ensures tree.Sound()
      ensures Elems(tree.Order()) == old(Elems(tree.Order())) - {node} && node !in tree.Order()
    {
      assert tree.Sealed(0);
      tree.RemoveNode(node);
    }

    /** The smallest free block larger than `n`, the earliest inserted of several, or NULL. */
    method FindFree(n: nat) returns (find: Ptr)
      requires tree.Sound()
      ensures find == NULL ==> forall x :: x in tree.Order() ==> Size(tree.value, x) <= n
      ensures find != NULL ==> find in tree.Order() && find in tree.value && tree.value[find] > n
      ensures find != NULL ==> forall x :: x in tree.Order() && x != find && Size(tree.value, x) > n ==>
        Precedes(tree.value, tree.stamp, find, x)
    {
      assert tree.Sealed(0);
      find := tree.lastNode;
      if find == NULL || tree.value[find] < n {
        LargestIsLast();
        return NULL;
      }
      find := tree.FirstGreater(n);
    }

    /** No key is greater than that of the cached last node. */
    lemma LargestIsLast()
      requires tree.Sound()
      ensures tree.lastNode == NULL ==> tree.Order() == []
      ensures forall x :: x in tree.Order() ==>
        tree.lastNode in tree.value && Size(tree.value, x) <= tree.value[tree.lastNode]
    {
      assert tree.Sealed(0);
      var s := tree.Order();
      forall x | x in s ensures tree.lastNode in tree.value && Size(tree.value, x) <= tree.value[tree.lastNode] {
        var i := IndexOf(s, x);
        assert s[|s| - 1] in s;
        if i < |s| - 1 { assert Precedes(tree.value, tree.stamp, s[i], s[|s| - 1]); }
      }
      if s != [] {
        InorderIds(tree.tree);
        LinkedNotNull(tree.tree, NULL, tree.mem);
      }
    }

    /** Makes the bytes of `node` from offset `n` on a free block of their own. */
    method SplitOff(node: Ptr, n: nat, blockSize: nat, ghost a: seq<Ptr>, ghost b: seq<Ptr>)
      requires tree.Sound() && list.Valid() && list.items == a + [node] + b && Ready()
      requires n <= blockSize && node != NULL && node !in tree.Order()
      requires node + n !in list.items && node + n != list.head && node + n !in tree.Order()
      requires list.head != NULL && NULL !in list.items
      modifies `used, list, tree
      ensures tree.Sound() && list.Valid() && list.items == a + [node, node + n] + b && Ready()
      ensures used == old(used)[node + n := false]
      ensures tree.value == old(tree.value)[node := n][node + n := blockSize - n]
      ensures Elems(tree.Order()) == old(Elems(tree.Order())) + {node + n}
    {
      var newNode := node + n;
      used := used[newNode := false];
      SetSize(node, n);
      assert (a + [node]) + [newNode] + b == a + [node, newNode] + b;
      AddBlock(node, newNode, a + [node], b);
      SetSize(newNode, blockSize - n);
      InsertFree(newNode);
    }

    /** The block at `find` serves a request for `want` bytes that rounds to `n`. */
    method Serve(find: Ptr, n: nat, ghost want: nat, ghost a: seq<Ptr>, ghost b: seq<Ptr>)
      requires Valid() && Ready() && want > 0 && n == AlignUp(want + HEADER)
      requires list.items == a + [find] + b && find in tree.Order() && find in tree.value && tree.value[find] > n
      modifies this, list, tree
      ensures Valid() && Ready()
      ensures var v := old(Here());
        v.size[find] <= v.total && Here() == Served(v, a, find, b, n, want)
    {
      ghost var v := Here();
      var blockSize := tree.value[find];
      ServedKept(v, a, find, b, want);
      Inside(v, a, find, b);
      RemoveFree(find);
      used := used[find := true];
      if blockSize - n > MIN_SIZE {
        SplitOff(find, n, blockSize, a, b);
      }
      allSize := allSize - tree.value[find];
      asked := asked[find := want];
      assert Here() == Served(v, a, find, b, n, want);
    }

    /**
      Serves a request from the smallest free block that is strictly larger than the rounded
      request, the earliest inserted of several; NULL exactly when there is none (or nothing is
      asked for).  The blocks before and after the one taken are `a` and `b`.
     */
    method Malloc(want: nat) returns (ret: Ptr, ghost a: seq<Ptr>, ghost b: seq<Ptr>)
      requires Valid()
      requires want + HEADER + 7 < 0x1_0000_0000_0000_0000  // size_t does not wrap
      modifies this, list, tree
      ensures Valid()
      ensures ret == NULL ==> Heap() == old(Heap())
      ensures ret == NULL <==> want == 0 || NoneLarger(old(Heap()), AlignUp(want + HEADER))
      ensures ret != NULL ==> ret > HEADER && ServedFrom(old(Heap()), Heap(), a, ret - HEADER, b, want)
      ensures ret != NULL ==> BestFit(old(Heap()), old(tree.stamp), ret - HEADER, AlignUp(want + HEADER))
      ensures ret != NULL ==> TakenFrom(old(Heap()), Heap(), ret - HEADER, AlignUp(want + HEADER), want)
    {
      ret, a, b := NULL, [], [];
      if want == 0 {
        return;
      }
      var n := RoundUp(want + HEADER);
      if list.prev[list.head] == NULL {
        Init();
      }
      ret, a, b := Allocate(n, want);
    }

    method Allocate(n: nat, ghost want: nat) returns (ret: Ptr, ghost a: seq<Ptr>, ghost b: seq<Ptr>)
      requires Valid() && Ready() && want > 0 && n == AlignUp(want + HEADER)
      modifies this, list, tree
      ensures Valid() && Ready()
      ensures ret == NULL ==> Here() == old(Here())
      ensures ret == NULL <==> NoneLarger(old(Here()), n)
      ensures ret != NULL ==> ret > HEADER && ServedFrom(old(Here()), Here(), a, ret - HEADER, b, want)
      ensures ret != NULL ==> BestFit(old(Here()), old(tree.stamp), ret - HEADER, n)
      ensures ret != NULL ==> TakenFrom(old(Here()), Here(), ret - HEADER, n, want)
    {
      ghost var v := Here();
      var find := FindFree(n);
      if find == NULL {
        return NULL, [], [];
      }
      ret := find + HEADER;
      a, b := Position(v, find);
      ServedKept(v, a, find, b, want);
      Serve(find, n, want, a, b);
      ServedByRequest(v, a, find, b, n, want);
    }

    /** Takes a block out of the list. */
    method RemoveBlock(node: Ptr, ghost a: seq<Ptr>, ghost b: seq<Ptr>)
      requires list.Valid() && list.items == a + [node] + b
      requires list.head != NULL && NULL !in list.items
      modifies list
      ensures list.Valid() && list.items == a + b && Ready()
    {
      list.Remove(node, a, b);
      list.Ends();
    }

    /** Joins `node` with the block after it, if that one is free. */
    method JoinNext(node: Ptr, ghost a: seq<Ptr>, ghost b: seq<Ptr>) returns (ghost post: seq<Ptr>, ghost b': seq<Ptr>)
      requires tree.Sound() && list.Valid() && list.items == a + [node] + b && Ready()
      requires list.head != NULL && NULL !in list.items && node !in tree.Order() && node in tree.value
      requires forall x :: x in b ==> x in used && x in tree.value && (x in tree.Order() <==> !used[x])
      modifies list, tree
      ensures b == post + b' && |post| <= 1 && AllFree(post, used) && (b' == [] || post != [] || InUse(used, b'[0]))
      ensures tree.Sound() && list.Valid() && list.items == a + [node] + b' && Ready()
      ensures tree.value == old(tree.value)[node := Grown([], node, post, old(tree.value))]
      ensures Elems(tree.Order()) == old(Elems(tree.Order())) - Elems(post)
      ensures node !in tree.Order() && forall x :: x in a ==> (x in tree.Order() <==> x in old(tree.Order()))
    {
      list.Neighbours(node, a, b);
      var iter := list.next[node];
      list.ItemsDistinct();
      DistinctParts(a, node, b);
      post, b' := [], b;
      if iter != list.head {
        var adj := iter;
        assert b != [] && adj == b[0] && adj in b;
        if !used[adj] {
          post, b' := [adj], b[1..];
          assert list.items == (a + [node]) + [adj] + b';
          RemoveBlock(adj, a + [node], b');
          SetSize(node, tree.value[node] + tree.value[adj]);
          RemoveFree(adj);
          SameMembers(tree.Order(), old(tree.Order()), adj);
        }
      }
    }

    /**
      Enlarges the key of a node that is still in the tree and then removes the node.  The order
      is broken in between, and whole again afterwards: removal follows links only.
     */
    method GrowAndRemove(node: Ptr, size: nat)
      requires tree.Sound() && node in tree.Order()
      modifies tree
      ensures tree.Sound() && tree.value == old(tree.value)[node := size]
      ensures Elems(tree.Order()) == old(Elems(tree.Order())) - {node} && node !in tree.Order()
    {
      assert tree.Sealed(0);
      tree.SetValue(node, size);
      tree.RemoveNode(node);
    }

    /** Joins `node` with the block before it, if that one is free; returns the joined block. */
    method JoinPrev(node: Ptr, ghost a: seq<Ptr>, ghost b: seq<Ptr>)
      returns (insert: Ptr, ghost pre: seq<Ptr>, ghost a': seq<Ptr>)
      requires tree.Sound() && list.Valid() && list.items == a + [node] + b && Ready()
      requires list.head != NULL && NULL !in list.items && node !in tree.Order() && node in tree.value && node !in a
      requires forall x :: x in a ==> x in used && x in tree.value && (x in tree.Order() <==> !used[x])
      modifies list, tree
      ensures a == a' + pre && |pre| <= 1 && AllFree(pre, used) && (a' == [] || pre != [] || InUse(used, a'[|a'| - 1]))
      ensures insert == (if pre == [] then node else pre[0]) && insert != NULL
      ensures insert in tree.value && insert !in tree.Order()
      ensures tree.Sound() && list.Valid() && list.items == a' + [insert] + b && Ready()
      ensures tree.value == if pre == [] then old(tree.value)
              else old(tree.value)[insert := Size(old(tree.value), insert) + Size(old(tree.value), node)]
      ensures Elems(tree.Order()) == old(Elems(tree.Order())) - {insert}
    {
      list.Neighbours(node, a, b);
      var iter := list.prev[node];
      list.ItemsDistinct();
      assert node in list.items;
      insert, pre, a' := node, [], a;
      if iter != list.head {
        var adj := iter;
        assert a != [] && adj == a[|a| - 1] && adj in a && adj in list.items;
        if !used[adj] {
          pre, a' := [adj], a[..|a| - 1];
          RemoveBlock(node, a, b);
          GrowAndRemove(adj, tree.value[adj] + tree.value[node]);
          insert := adj;
        }
      }
    }

    /** Releases a live block and joins it with its free neighbours. */
    method Free(ptr: Ptr) returns (ghost a: seq<Ptr>, ghost pre: seq<Ptr>, ghost post: seq<Ptr>, ghost b: seq<Ptr>)
      requires Valid()
      requires ptr == NULL || (ptr >= HEADER && Ready() && ptr - HEADER in asked)
      modifies this, list, tree
      ensures Valid()
      ensures ptr == NULL ==> Heap() == old(Heap())
      ensures ptr != NULL ==> FreedFrom(old(Heap()), Heap(), a, pre, ptr - HEADER, post, b)
      ensures ptr != NULL ==> ReleasedFrom(old(Heap()), Heap(), ptr - HEADER)
    {
      a, pre, post, b := [], [], [], [];
      if ptr == NULL {
        return;
      }
      ghost var v := Here();
      a, pre, post, b := Release(ptr - HEADER);
      assert GoodUnder(v, 0);
      FreedIsReleased(v, Here(), a, pre, ptr - HEADER, post, b);
    }

    method Release(node: Ptr) returns (ghost a: seq<Ptr>, ghost pre: seq<Ptr>, ghost post: seq<Ptr>, ghost b: seq<Ptr>)
      requires Valid() && Ready() && node in asked
      modifies this, list, tree
      ensures Valid() && Ready() && FreedFrom(old(Here()), Here(), a, pre, node, post, b)
    {
      ghost var v := Here();
      a, b := Position(v, node);
      LiveBlock(v, a, node, b);
      Inside(v, a, node, b);
      used := used[node := false];
      allSize := allSize + tree.value[node];
      asked := asked - {node};
      ghost var insert;
      a, pre, post, b, insert := Coalesce(node, a, b);
      FreedFields(v, Here(), a, pre, node, post, b, insert);
      Regrouped(a, pre, node, post, b);
      FreedKept(v, Here(), a, pre, node, post, b);
    }

    /** Joins `node` with its free neighbours and puts the joined block into the tree. */
    method Coalesce(node: Ptr, ghost a0: seq<Ptr>, ghost b0: seq<Ptr>)
      returns (ghost a: seq<Ptr>, ghost pre: seq<Ptr>, ghost post: seq<Ptr>, ghost b: seq<Ptr>, ghost insert: Ptr)
      requires tree.Sound() && list.Valid() && list.items == a0 + [node] + b0 && Ready()
      requires list.head != NULL && NULL !in list.items && node !in a0 && node !in tree.Order() && node in tree.value
      requires forall x :: x in a0 || x in b0 ==>
        x in used && x in tree.value && (x in tree.Order() <==> !used[x])
      modifies list, tree
      ensures tree.Sound() && list.Valid() && Ready()
      ensures a0 == a + pre && |pre| <= 1 && AllFree(pre, used) && (a == [] || pre != [] || InUse(used, a[|a| - 1]))
      ensures b0 == post + b && |post| <= 1 && AllFree(post, used) && (b == [] || post != [] || InUse(used, b[0]))
      ensures insert == (if pre == [] then node else pre[0]) && list.items == a + [insert] + b
      ensures var size := old(tree.value)[node := Grown([], node, post, old(tree.value))];
        tree.value == if pre == [] then size else size[insert := Size(size, insert) + Size(size, node)]
      ensures Elems(tree.Order()) == old(Elems(tree.Order())) - Elems(post) - {insert} + {insert}
    {
      post, b := JoinNext(node, a0, b0);
      var joined;
      joined, pre, a := JoinPrev(node, a0, b);
      InsertFree(joined);
      insert := joined;
    }
  }
}
