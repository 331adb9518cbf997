/**
  The allocator of mg/source/heap.c, from which the rest of the runtime allocates: first fit,
  splitting, and coalescing on both sides.
 */
module Heaps {
  import opened Basics
  import opened HeapView
  import opened HeapList

  /** Where `heap_init` puts the first block and the tail sentinel: start, end and tail. */
  function Layout(base: nat): (r: (nat, nat, Ptr))
    ensures base > 0 ==> 0 < r.0 && r.0 + HEADER <= r.2 <= r.1 <= r.2 + HEADER
    ensures base <= r.0 && r.1 <= base + CONFIG_HEAP && r.2 + HEADER <= base + CONFIG_HEAP
    ensures r.0 % 8 == 0 && r.2 % 8 == 0
  {
    var start := if base % 8 != 0 then (base + 7) - (base + 7) % 8 else base;
    var end := base + CONFIG_HEAP - HEADER;
    if end % 8 != 0 then (start, end - end % 8, end - end % 8) else (start, base + CONFIG_HEAP, end)
  }

  /**
    The first block starts at the first aligned address, and the sentinel stands at the last one
    that leaves room for it.  In an aligned array the block extends to the end, otherwise to the
    sentinel.
   */
  lemma LayoutTight(base: nat)
    ensures var (lo, hi, tail) := Layout(base);
      && lo == AlignUp(base) && tail % 8 == 0
      && tail + HEADER <= base + CONFIG_HEAP < tail + HEADER + 8
      && hi == if base % 8 == 0 then base + CONFIG_HEAP else tail
  {
  }

  ghost function InitialView(base: nat): View {
    var (lo, hi, tail) := Layout(base);
    Initial(lo, hi, tail)
  }

  lemma InitialKept(base: nat)
    requires base > 0
    ensures Kept(InitialView(base)) && InitialView(base).tail != NULL
  {
    var (lo, hi, tail) := Layout(base);
    InitialGood(lo, hi, tail);
  }

  /** A heap over the range that `heap_init` lays out in the array. */
  ghost predicate Laid(base: nat, v: View) {
    Good(v) && (v.lo, v.hi, v.tail) == Layout(base)
  }

  /** No live block reaches into the tail sentinel. */
  ghost predicate ClearOfTail(v: View) {
    forall x :: x in v.live ==> x + v.live[x] <= v.tail
  }

  /** A byte of a live block lies in the range. */
  lemma LiveInside(v: View, x: Ptr, p: nat)
    requires Good(v) && x in v.live && Holds(Block(x, v.live[x]), p)
    ensures v.lo <= p < v.hi && !FreeAt(v.free, p)
  {
    assert LiveAt(v.live, p);
  }

  /** The heap with one live block that takes up an aligned array. */
  lemma WholeArray(base: nat)
    requires base > 0 && base % 8 == 0
    ensures var v := InitialView(base);
      && FirstFit(v.free, CONFIG_HEAP) == 0 && v.free == [Block(base, CONFIG_HEAP)]
      && Laid(base, Served(v, 0, CONFIG_HEAP)) && Served(v, 0, CONFIG_HEAP).live == map[base := CONFIG_HEAP]
  {
    var (lo, hi, tail) := Layout(base);
    InitialGood(lo, hi, tail);
    ServedGood(InitialView(base), 0, CONFIG_HEAP);
  }

  /**
    The live blocks of every heap over the array stay clear of the tail sentinel exactly when
    the array is misaligned.
   */
  lemma SentinelOutside(base: nat)
    requires base > 0
    ensures (forall v :: Laid(base, v) ==> ClearOfTail(v)) <==> base % 8 != 0
  {
    if base % 8 == 0 {
      WholeArray(base);
      var v := Served(InitialView(base), 0, CONFIG_HEAP);
      assert base in v.live && base + v.live[base] > v.tail;
      assert Laid(base, v) && !ClearOfTail(v);
    } else {
      forall v, x | Laid(base, v) && x in v.live ensures x + v.live[x] <= v.tail {
        LiveInside(v, x, x + v.live[x] - 1);
      }
    }
  }

  /**
    `w` is `v` after block number `k` served a request that rounds to `n`.  The block is split
    exactly when more than two headers remain: then the request gets `n` bytes and the bytes
    behind them are a free block in its place.  Otherwise the request gets the whole block.
   */
  ghost predicate TakenFrom(v: View, w: View, k: nat, n: nat) {
    && k < |v.free| && n <= v.free[k].size
    && (w.lo, w.hi, w.tail) == (v.lo, v.hi, v.tail)
    && var (x, z) := (v.free[k].at, v.free[k].size);
      if z > n + 2 * HEADER then w.live == v.live[x := n] && w.free == v.free[k := Block(x + n, z - n)]
      else w.live == v.live[x := z] && w.free == v.free[..k] + v.free[k + 1..]
  }

  /** The lowest block that fits serves the request; without one nothing changes. */
  ghost predicate FirstFitTaken(v: View, w: View, ret: Ptr, n: nat) {
    if forall i :: 0 <= i < |v.free| ==> v.free[i].size < n then ret == NULL && w == v
    else exists k: nat :: TakenAt(v, w, k, ret, n)
  }

  ghost predicate TakenAt(v: View, w: View, k: nat, ret: Ptr, n: nat) {
    TakenFrom(v, w, k, n) && ret == v.free[k].at + HEADER && forall i :: 0 <= i < k ==> v.free[i].size < n
  }

  lemma ServedIsTaken(v: View, k: nat, n: nat)
    requires k < |v.free| && n <= v.free[k].size
    ensures TakenFrom(v, Served(v, k, n), k, n)
  {
    var f, b := v.free, v.free[k];
    if b.size > n + 2 * HEADER {
      assert f[..k] + [Block(b.at + n, b.size - n)] + f[k + 1..] == f[k := Block(b.at + n, b.size - n)];
    } else {
      assert f[..k] + [] + f[k + 1..] == f[..k] + f[k + 1..];
    }
  }

  /** What first fit leaves of a heap, said without it. */
  lemma FirstFitTakes(v: View, w: View, ret: Ptr, n: nat)
    requires var k := FirstFit(v.free, n);
      if k == |v.free| then ret == NULL && w == v
      else ret == v.free[k].at + HEADER && w == Served(v, k, n)
    ensures FirstFitTaken(v, w, ret, n)
    ensures ret != NULL ==> ret >= HEADER && ret - HEADER in w.live && w.live[ret - HEADER] <= n + 2 * HEADER
  {
    var k := FirstFit(v.free, n);
    if k < |v.free| {
      ServedIsTaken(v, k, n);
      assert TakenAt(v, w, k, ret, n);
    }
  }

  lemma OneNode(head: Ptr, b: Block, q: Ptr, next: map<Ptr, Ptr>, size: map<Ptr, nat>)
    requires head in next && head in size && size[head] == 0 && next[head] == b.at
    requires b.at in next && b.at in size && next[b.at] == q && size[b.at] == b.size
    ensures FromHead(head, [b], q, next, size) && Total([b]) == b.size
  {
    assert NodeAt([b], 0, q, next, size);
    assert TotalTo([b], 1) == TotalTo([b], 0) + b.size;
  }

  class Heap {
    const base: nat              // address of all_heap
    const head: Ptr              // address of the_heap.head
    var tail: Ptr
    var allSize: nat
    var next: map<Ptr, Ptr>      // the fields of the head, of the tail and of every block header
    var size: map<Ptr, nat>

    ghost var lo: nat
    ghost var hi: nat
    ghost var free: seq<Block>
    ghost var live: map<Ptr, nat>

    ghost function Here(): View
      reads this
    {
      View(lo, hi, tail, free, live)
    }

    /** The heap a caller sees: before `heap_init`, the one it will set up. */
    ghost function Now(): View
      reads this
    {
      if tail == NULL then InitialView(base) else Here()
    }

    ghost predicate Valid()
      reads this
    {
      && base > 0 && head != NULL && (head + HEADER <= base || base + CONFIG_HEAP <= head)
      && head in next && head in size && size[head] == 0
      && if tail == NULL then next[head] == NULL && live == map[] && allSize == CONFIG_HEAP else Ready()
    }

    ghost predicate Ready()
      reads this
    {
      && Kept(Here()) && (lo, hi, tail) == Layout(base)
      && FromHead(head, free, tail, next, size)
      && tail in next && tail in size && next[tail] == NULL && size[tail] == 0
      && (forall x :: x in live ==> x in size && size[x] == live[x])
      && allSize == Total(free)
    }

    /**
      A live block reaches into the tail sentinel exactly when the array is aligned and the
      first byte of the sentinel is not free.
     */
    lemma SentinelCovered()
      requires Valid() && tail != NULL
      ensures !ClearOfTail(Here()) <==> base % 8 == 0 && !FreeAt(free, tail)
    {
      var v := Here();
      assert GoodUnder(v, 0);
      forall x | x in live && x + live[x] > tail ensures base % 8 == 0 && !FreeAt(free, tail) {
        LiveInside(v, x, x + live[x] - 1);
        LiveInside(v, x, tail);
      }
      if base % 8 == 0 && !FreeAt(free, tail) {
        assert v.lo <= tail < v.hi && LiveAt(live, tail);
        var x :| x in live && Holds(Block(x, live[x]), tail);
        assert x + v.live[x] > v.tail;
      }
    }

    /** Releasing everything that is live gives the heap as it was set up. */
    lemma AllReleased(xs: seq<Ptr>)
      requires Valid() && tail != NULL && Distinct(xs) && forall x :: x in xs <==> x in live
      ensures ReleasedAll(Here(), xs) == InitialView(base)
    {
      assert GoodUnder(Here(), 0);
      ReleaseEverything(Here(), xs);
    }

    constructor (base: nat, head: Ptr)
      requires base > 0 && head != NULL && (head + HEADER <= base || base + CONFIG_HEAP <= head)
      ensures Valid() && Now() == InitialView(base) && this.base == base && tail == NULL
    {
      this.base, this.head := base, head;
      tail, allSize := NULL, CONFIG_HEAP;
      next, size := map[head := NULL], map[head := 0];
      lo, hi, free, live := 0, 0, [], map[];
    }

    method Init()
      requires Valid() && tail == NULL
      modifies this
      ensures Valid() && tail != NULL && Here() == InitialView(base)
    {
      var start, end := Place();
      tail := end;
      InitialKept(base);
      WriteFirst(start);
      lo, hi, free := start, start + allSize, [Block(start, allSize)];
      assert Here() == InitialView(base);
    }

    /** The fields of the head, the tail sentinel and the first block. */
    method WriteFirst(start: Ptr)
      requires start != tail && head != start && head != tail
      modifies `next, `size
      ensures FromHead(head, [Block(start, allSize)], tail, next, size) && Total([Block(start, allSize)]) == allSize
      ensures tail in next && tail in size && next[tail] == NULL && size[tail] == 0
    {
      next := next[head := start];
      size := size[head := 0];
      size := size[tail := 0];
      next := next[tail := NULL];
      next := next[start := tail];
      size := size[start := allSize];
      OneNode(head, Block(start, allSize), tail, next, size);
    }

    /** Aligns the start and the tail sentinel inside the array. */
    method Place() returns (start: Ptr, end: Ptr)
      requires allSize == CONFIG_HEAP
      modifies `allSize
      ensures start == Layout(base).0 && end == Layout(base).2 && start + allSize == Layout(base).1
    {
      start := base;
      if start % 8 != 0 {
        start := start + 7;
        start := start - start % 8;
        allSize := allSize - (start - base);
      }
      end := start + allSize - HEADER;
      if end % 8 != 0 {
        end := end - end % 8;
        allSize := end - start;
      }
    }

    /**
      Serves a request from the lowest block that fits, and splits that block if enough remains;
      NULL exactly when no free block fits.
     */
    method Malloc(want: nat) returns (ret: Ptr)
      requires Valid()
      requires want + HEADER + 7 < 0x1_0000_0000_0000_0000  // size_t does not wrap
      modifies this
      ensures Valid() && tail != NULL
      ensures FirstFitTaken(old(Now()), Here(), ret, AlignUp(want + HEADER))
      ensures ret != NULL ==>
        ret >= HEADER && ret - HEADER in live && live[ret - HEADER] <= AlignUp(want + HEADER) + 2 * HEADER
    {
      var n := RoundUp(want + HEADER);
      if tail == NULL {
        Init();
      }
      ghost var v := Here();
      ret := TakeFirst(n);
      FirstFitTakes(v, Here(), ret, n);
    }

    method TakeFirst(n: nat) returns (ret: Ptr)
      requires Valid() && tail != NULL && n >= HEADER
      modifies this
      ensures Valid() && tail != NULL
      ensures var v := old(Here());
        var k := FirstFit(v.free, n);
        if k == |v.free| then ret == NULL && Here() == v
        else ret == v.free[k].at + HEADER && Here() == Served(v, k, n)
    {
      var prev: Ptr, use: Ptr := head, next[head];
      ghost var k := 0;
      StartsNotNull(Here());
      if free != [] {
        assert NodeAt(free, 0, tail, next, size);
      }
      while size[use] < n
        invariant k <= |free| && forall i :: 0 <= i < k ==> free[i].size < n
        invariant prev == (if k == 0 then head else free[k - 1].at)
        invariant use == if k < |free| then free[k].at else tail
        invariant use in size && use in next && (k < |free| ==> size[use] == free[k].size)
        decreases |free| - k
      {
        if k < |free| {
          assert NodeAt(free, k, tail, next, size);
        }
        if k + 1 < |free| {
          assert NodeAt(free, k + 1, tail, next, size);
        }
        prev := use;
        use := next[use];
        if use == NULL {
          return NULL;
        }
        k := k + 1;
      }
      ret := use + HEADER;
      Unlink(prev, use, n, k);
    }

    /** Takes block number `k` out of the list, or splits it. */
    method Unlink(prev: Ptr, use: Ptr, n: nat, ghost k: nat)
      requires Valid() && tail != NULL && k < |free| && HEADER <= n <= free[k].size
      requires prev == LastNode(head, free[..k]) && use == free[k].at
      modifies this
      ensures Valid() && tail == old(tail) && Here() == Served(old(Here()), k, n)
    {
      ghost var v, a, x, b := Here(), free[..k], free[k], free[k + 1..];
      assert free == a + [x] + b;
      ServedApart(v, head, a, x, b, n);
      MiddleNode(head, a, x, b, tail, next, size);
      TailInside(v);
      WriteNodes(prev, use, n, a, x, b);
      ServedMemory(v, head, a, x, b, n, old(next), old(size), next, size);
      ServedTotal(v, k, n);
      allSize := allSize - size[use];
      ServedKept(v, k, n);
      free, live := a + Rest(x, n) + b, live[use := size[use]];
    }

    method WriteNodes(prev: Ptr, use: Ptr, n: nat, ghost a: seq<Block>, ghost x: Block, ghost b: seq<Block>)
      requires use == x.at && use in next && use in size && size[use] == x.size && next[use] == First(b, tail)
      requires prev == LastNode(head, a) && prev in next && 0 < n <= x.size
      requires prev != use && (x.size - n > MIN_SIZE ==> prev != use + n)
      modifies `next, `size
      ensures ServedFields(head, a, x, b, n, tail, old(next), old(size), next, size)
    {
      next := next[prev := next[use]];
      if size[use] - n > MIN_SIZE {
        CutRest(prev, use, n);
      }
      next := next[use := NULL];
    }

    /** Splits block `use` after `n` bytes and links the rest behind `prev`. */
    method CutRest(prev: Ptr, use: Ptr, n: nat)
      requires use in size && prev in next && 0 < n <= size[use]
      modifies `next, `size
      ensures size == old(size)[use + n := old(size)[use] - n][use := n]
      ensures next == old(next)[use + n := old(next)[prev]][prev := use + n]
    {
      var rest := use + n;
      size := size[rest := size[use] - n];
      size := size[use := n];
      next := next[rest := next[prev]];
      next := next[prev := rest];
    }

    /** Returns a live block to the free list and joins it with the free blocks it touches. */
    method Free(ptr: Ptr)
      requires Valid()
      requires ptr == NULL || (ptr >= HEADER && tail != NULL && ptr - HEADER in live)
      modifies this
      ensures Valid()
      ensures ptr == NULL ==> Now() == old(Now())
      ensures ptr != NULL ==> tail != NULL && Here() == Released(old(Here()), ptr - HEADER)
      ensures ptr != NULL ==> live == old(live) - {ptr - HEADER} && (lo, hi, tail) == old((lo, hi, tail))
    {
      if ptr == NULL {
        return;
      }
      var node := ptr - HEADER;
      ReleasedTotal(Here(), node);
      ReleasedKept(Here(), node);
      TailInside(Here());
      allSize := allSize + size[node];
      InsertFreeBlock(node);
    }

    /** The last node of the list in front of `node`. */
    method FindPlace(node: Ptr) returns (iter: Ptr, ghost k: nat)
      requires FromHead(head, free, tail, next, size) && node <= tail
      ensures k == Rank(free, node) && iter == LastNode(head, free[..k])
      ensures iter in next && next[iter] == First(free[k..], tail)
    {
      iter, k := head, 0;
      while next[iter] < node
        invariant k <= |free| && (forall i :: 0 <= i < k ==> free[i].at < node)
        invariant iter == (if k == 0 then head else free[k - 1].at)
        invariant iter in next && next[iter] == if k < |free| then free[k].at else tail
        decreases |free| - k
      {
        assert NodeAt(free, k, tail, next, size);
        iter := next[iter];
        k := k + 1;
      }
    }

    method InsertFreeBlock(node: Ptr)
      requires FromHead(head, free, tail, next, size) && Kept(Here()) && node in live
      requires !(lo <= head < hi) && head != tail && tail in next && tail in size
      requires forall x :: x in live ==> x in size && size[x] == live[x]
      modifies `next, `size, `free, `live
      ensures Here() == Released(old(Here()), node)
      ensures FromHead(head, free, tail, next, size)
      ensures tail in next && tail in size && next[tail] == old(next[tail]) && size[tail] == old(size[tail])
      ensures forall x :: x in live ==> x in size && size[x] == live[x]
    {
      ghost var k := Relink(node);
      free, live := Inserted(free[..k], Block(node, live[node]), free[k..]), live - {node};
    }

    /** The fields written by `InsertFreeBlock`. */
    method Relink(node: Ptr) returns (ghost k: nat)
      requires FromHead(head, free, tail, next, size) && Kept(Here()) && node in live
      requires !(lo <= head < hi) && head != tail && node in size && size[node] == live[node]
      modifies `next, `size
      ensures k == Rank(free, node) && node != tail
      ensures FromHead(head, Inserted(free[..k], Block(node, live[node]), free[k..]), tail, next, size)
      ensures forall x :: (x in live || x == tail) && x != node ==>
        (x in old(next) ==> x in next && next[x] == old(next[x]))
        && (x in old(size) ==> x in size && size[x] == old(size[x]))
    {
      var iter;
      BeforeTail(Here(), node);
      iter, k := FindPlace(node);
      ghost var a, b := free[..k], free[k..];
      assert free == a + b;
      ReleasedApart(Here(), head, node, a, b);
      LinkAndJoin(iter, node, a, Block(node, live[node]), b);
    }

    /** Puts `node` behind `iter` and joins it on both sides. */
    method LinkAndJoin(iter: Ptr, node: Ptr, ghost a: seq<Block>, ghost n: Block, ghost b: seq<Block>)
      requires FromHead(head, a + b, tail, next, size) && Listed(a) && Listed(a + b) && n.at == node
      requires iter == LastNode(head, a) && iter in next && next[iter] == First(b, tail)
      requires head !in Starts(a) && head !in Starts(b) && iter !in Starts(b) && iter != node && tail !in Starts(b)
      requires node in size && size[node] == n.size && node != head && node !in Starts(a) && node !in Starts(b)
      modifies `next, `size
      ensures FromHead(head, Inserted(a, n, b), tail, next, size)
      ensures SameBut(old(next), next, {iter, node}) && SameBut(old(size), size, {iter, node})
    {
      LinkIn(iter, node, a, n, b);
      JoinNext(node, a, n, b);
      JoinPrev(iter, node, a, JoinRight(n, b));
    }

    method LinkIn(iter: Ptr, node: Ptr, ghost a: seq<Block>, ghost n: Block, ghost b: seq<Block>)
      requires FromHead(head, a + b, tail, next, size) && Listed(a + b) && n.at == node
      requires iter == LastNode(head, a) && iter in next && next[iter] == First(b, tail)
      requires head !in Starts(a) && head !in Starts(b) && iter !in Starts(b) && iter != node
      requires node in size && size[node] == n.size && node != head && node !in Starts(a) && node !in Starts(b)
      modifies `next
      ensures FromHead(head, a + [n] + b, tail, next, size) && SameBut(old(next), next, {iter, node})
    {
      LinkNode(head, a, n, b, tail, next, size);
      next := next[node := next[iter]];
      next := next[iter := node];
    }

    /** Joins `node` with the free block after it, if they touch. */
    method JoinNext(node: Ptr, ghost a: seq<Block>, ghost n: Block, ghost b: seq<Block>)
      requires FromHead(head, a + [n] + b, tail, next, size) && n.at == node
      requires node != head && node !in Starts(a) && node !in Starts(b) && tail !in Starts(b)
      modifies `next, `size
      ensures FromHead(head, a + JoinRight(n, b), tail, next, size)
      ensures SameBut(old(next), next, {node}) && SameBut(old(size), size, {node})
    {
      MiddleNode(head, a, n, b, tail, next, size);
      assert a + [n] + b == a + ([n] + b);
      assert b != [] ==> b[0].at in Starts(b);
      if node + size[node] == next[node] {
        if next[node] != tail {
          JoinRightMemory(head, a, n, b, tail, next, size);
          size := size[node := size[node] + size[next[node]]];
          next := next[node := next[next[node]]];
        } else {
          next := next[node := tail];
          assert next == old(next);
        }
      }
    }

    /** Joins `node` with the free block before it, if they touch. */
    method JoinPrev(iter: Ptr, node: Ptr, ghost a: seq<Block>, ghost s: seq<Block>)
      requires FromHead(head, a + s, tail, next, size) && s != [] && s[0].at == node
      requires iter == LastNode(head, a) && Listed(a) && head !in Starts(a) && iter !in Starts(s) && node != head
      modifies `next, `size
      ensures FromHead(head, JoinLeft(a, s), tail, next, size)
      ensures SameBut(old(next), next, {iter}) && SameBut(old(size), size, {iter})
    {
      EndNode(head, a, s, tail, next, size);
      if iter + size[iter] == node {
        JoinLeftMemory(head, a, s, tail, next, size);
        size := size[iter := size[iter] + size[node]];
        next := next[iter := next[node]];
      }
    }

    /**
      The statistics walk.  The tail sentinel counts as a block of size zero, and before
      `heap_init` the walk finds nothing.
     */
    method Stats() returns (remain: nat, freeIter: nat, maxBlock: nat, blocks: nat)
      requires Valid()
      ensures remain == allSize && (remain == freeIter <==> tail != NULL)
      ensures tail == NULL ==> freeIter == 0 && maxBlock == 0 && blocks == 0
      ensures tail != NULL ==> freeIter == Total(Here().free) && blocks == |Here().free| + 1
      ensures forall i :: 0 <= i < |Here().free| && tail != NULL ==> Here().free[i].size <= maxBlock
      ensures tail != NULL ==> maxBlock == 0 || exists i :: 0 <= i < |Here().free| && Here().free[i].size == maxBlock
    {
      remain, freeIter, maxBlock, blocks := allSize, 0, 0, 0;
      var node: Ptr := next[head];
      if tail != NULL {
        StartsNotNull(Here());
      }
      while node != NULL
        invariant tail == NULL ==> node == NULL && freeIter == 0 && maxBlock == 0 && blocks == 0
        invariant tail != NULL ==> blocks <= |free| + 1 && (node == NULL <==> blocks == |free| + 1)
        invariant tail != NULL ==> freeIter == TotalTo(free, if blocks <= |free| then blocks else |free|)
        invariant tail != NULL && blocks <= |free| ==> node == if blocks < |free| then free[blocks].at else tail
        invariant tail != NULL ==> forall i :: 0 <= i < blocks && i < |free| ==> free[i].size <= maxBlock
        invariant tail != NULL ==> maxBlock == 0 || exists i :: 0 <= i < |free| && free[i].size == maxBlock
        decreases |free| + 1 - blocks
      {
        if blocks < |free| {
          assert NodeAt(free, blocks, tail, next, size);
        }
        freeIter := freeIter + size[node];
        if size[node] > maxBlock {
          maxBlock := size[node];
        }
        blocks := blocks + 1;
        node := next[node];
      }
    }
  }
}
