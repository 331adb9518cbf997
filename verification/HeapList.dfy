/**
  The singly linked free list of mg/source/heap.c in memory: a static head node, one node at
  the start of every free block, and a tail sentinel.
 */
module HeapList {
  import opened Basics
  import opened HeapView

  /** Where a list of blocks that ends in front of `q` begins. */
  function First(f: seq<Block>, q: Ptr): Ptr {
    if f == [] then q else f[0].at
  }

  /** The node of block number `i` holds its size and leads to the next block, the last to `q`. */
  ghost predicate NodeAt(f: seq<Block>, i: int, q: Ptr, next: map<Ptr, Ptr>, size: map<Ptr, nat>)
    requires 0 <= i < |f|
  {
    && f[i].at in next && f[i].at in size && size[f[i].at] == f[i].size
    && next[f[i].at] == if i + 1 < |f| then f[i + 1].at else q
  }

  ghost predicate Segment(f: seq<Block>, q: Ptr, next: map<Ptr, Ptr>, size: map<Ptr, nat>) {
    forall i :: 0 <= i < |f| ==> NodeAt(f, i, q, next, size)
  }

  /** The list from `head` to `q`. */
  ghost predicate FromHead(head: Ptr, f: seq<Block>, q: Ptr, next: map<Ptr, Ptr>, size: map<Ptr, nat>) {
    && head in next && head in size && size[head] == 0 && next[head] == First(f, q)
    && Segment(f, q, next, size)
  }

  ghost function Starts(f: seq<Block>): set<Ptr> {
    set i | 0 <= i < |f| :: f[i].at
  }

  lemma SegmentCat(a: seq<Block>, b: seq<Block>, q: Ptr, next: map<Ptr, Ptr>, size: map<Ptr, nat>)
    ensures Segment(a + b, q, next, size) <==> Segment(a, First(b, q), next, size) && Segment(b, q, next, size)
  {
    var f := a + b;
    if Segment(f, q, next, size) {
      forall i | 0 <= i < |a| ensures NodeAt(a, i, First(b, q), next, size) {
        assert NodeAt(f, i, q, next, size);
      }
      forall i | 0 <= i < |b| ensures NodeAt(b, i, q, next, size) {
        assert NodeAt(f, |a| + i, q, next, size);
      }
    } else if Segment(a, First(b, q), next, size) && Segment(b, q, next, size) {
      forall i | 0 <= i < |f| ensures NodeAt(f, i, q, next, size) {
        assert if i < |a| then NodeAt(a, i, First(b, q), next, size) else NodeAt(b, i - |a|, q, next, size);
      }
    }
  }

  lemma FromHeadCat(head: Ptr, a: seq<Block>, b: seq<Block>, q: Ptr, next: map<Ptr, Ptr>, size: map<Ptr, nat>)
    ensures FromHead(head, a + b, q, next, size)
       <==> FromHead(head, a, First(b, q), next, size) && Segment(b, q, next, size)
  {
    SegmentCat(a, b, q, next, size);
  }

  lemma SegmentFrame(f: seq<Block>, q: Ptr, next: map<Ptr, Ptr>, size: map<Ptr, nat>, next': map<Ptr, Ptr>,
                     size': map<Ptr, nat>)
    requires Segment(f, q, next, size)
    requires forall x :: x in Starts(f) && x in next && x in size ==>
      x in next' && x in size' && next'[x] == next[x] && size'[x] == size[x]
    ensures Segment(f, q, next', size')
  {
    forall i | 0 <= i < |f| ensures NodeAt(f, i, q, next', size') {
      assert NodeAt(f, i, q, next, size) && f[i].at in Starts(f);
    }
  }

  /** The node in front of the end of a list. */
  function LastNode(head: Ptr, f: seq<Block>): Ptr {
    if f == [] then head else f[|f| - 1].at
  }

  /** Writing the next field of the last node gives the list another end. */
  lemma Retarget(head: Ptr, f: seq<Block>, q: Ptr, q': Ptr, next: map<Ptr, Ptr>, size: map<Ptr, nat>,
                 next': map<Ptr, Ptr>, size': map<Ptr, nat>)
    requires Listed(f) && head !in Starts(f) && FromHead(head, f, q, next, size)
    requires forall x :: x in Starts(f) + {head} && x in next && x in size ==>
      x in next' && x in size' && next'[x] == (if x == LastNode(head, f) then q' else next[x]) && size'[x] == size[x]
    ensures FromHead(head, f, q', next', size')
  {
    forall i | 0 <= i < |f| ensures NodeAt(f, i, q', next', size') {
      assert NodeAt(f, i, q, next, size) && f[i].at in Starts(f);
      if i < |f| - 1 { ListedOrder(f, i, |f| - 1); }
    }
    assert f != [] ==> f[|f| - 1].at in Starts(f);
  }

  // ----- addresses -----

  lemma LiveStart(live: map<Ptr, nat>, y: Ptr)
    requires y in live && live[y] > 0
    ensures LiveAt(live, y)
  {
    assert Holds(Block(y, live[y]), y);
  }

  /** Block starts lie inside the range and before the tail, and are ordered around block `k`. */
  lemma FreeStarts(v: View)
    requires Kept(v)
    ensures Listed(v.free) && 0 < v.lo < v.tail <= v.hi
    ensures forall y :: y in Starts(v.free) ==> v.lo <= y < v.tail && y !in v.live
    ensures forall y :: y in v.live ==> v.lo <= y < v.tail
  {
    assert GoodUnder(v, 0);
    forall i | 0 <= i < |v.free| ensures v.lo <= v.free[i].at < v.tail && v.free[i].at !in v.live {
      var p := v.free[i].at;
      assert GapAt(v.free, i);
      assert Holds(v.free[i], p) && FreeAt(v.free, p);
      if p in v.live {
        LiveStart(v.live, p);
        assert false;
      }
    }
    forall y | y in v.live ensures v.lo <= y {
      LiveStart(v.live, y);
    }
  }

  /** The addresses of all nodes behind the list head: free blocks, live blocks and the tail. */
  ghost function Nodes(v: View): set<Ptr> {
    Starts(v.free) + v.live.Keys + {v.tail}
  }

  /** No two nodes share a byte, so their fields can be kept in maps. */
  lemma NodesApart(v: View, y: Ptr, z: Ptr)
    requires Kept(v) && y in Nodes(v) && z in Nodes(v) && y < z
    ensures y + HEADER <= z
  {
    assert GoodUnder(v, 0);
    FreeStarts(v);
    if z != v.tail && z < y + HEADER {
      if y in v.live {
        assert Holds(Block(y, v.live[y]), z) && LiveAt(v.live, z);
        FreeStartsHeld(v, z);
      } else {
        var i :| 0 <= i < |v.free| && v.free[i].at == y;
        assert Holds(v.free[i], z) && FreeAt(v.free, z);
        if z in v.live {
          LiveStart(v.live, z);
          assert false;
        }
        var j :| 0 <= j < |v.free| && v.free[j].at == z;
        ListedOrder(v.free, if i < j then i else j, if i < j then j else i);
      }
    }
  }

  /** The first byte of a free block is not live. */
  lemma FreeStartsHeld(v: View, z: Ptr)
    requires Good(v) && LiveAt(v.live, z)
    ensures z !in Starts(v.free)
  {
    assert !FreeAt(v.free, z);
    NotAStart(v.free, z);
  }

  lemma StartsNotNull(v: View)
    requires Kept(v)
    ensures v.tail != NULL && forall i :: 0 <= i < |v.free| ==> v.free[i].at != NULL
  {
    FreeStarts(v);
    forall i | 0 <= i < |v.free| ensures v.free[i].at != NULL {
      assert v.free[i].at in Starts(v.free);
    }
  }

  lemma TailInside(v: View)
    requires Kept(v)
    ensures 0 < v.lo < v.tail <= v.hi
  {
    FreeStarts(v);
  }

  /** No block, free or live, starts inside the free block `x`. */
  lemma FreeInside(v: View, a: seq<Block>, x: Block, b: seq<Block>, y: Ptr)
    requires Kept(v) && v.free == a + [x] + b && Holds(x, y)
    ensures y !in Starts(a) && y !in Starts(b) && y !in v.live
    ensures v.lo <= y < v.hi && x.End() <= v.hi
  {
    assert GoodUnder(v, 0);
    assert v.free[|a|] == x && FreeAt(v.free, y);
    OneHolder(a, x, b, y);
    ListedAround(a, x, b);
    NotAStart(a, y);
    NotAStart(b, y);
    if y in v.live {
      LiveStart(v.live, y);
      assert false;
    }
    assert Holds(x, x.End() - 1) && FreeAt(v.free, x.End() - 1);
  }

  lemma NotAStart(a: seq<Block>, y: Ptr)
    requires Listed(a) && !FreeAt(a, y)
    ensures y !in Starts(a)
  {
    forall i | 0 <= i < |a| ensures a[i].at != y {
      assert GapAt(a, i);
      assert !Holds(a[i], y);
    }
  }

  lemma StartsCat(a: seq<Block>, b: seq<Block>)
    ensures Starts(a + b) == Starts(a) + Starts(b)
  {
    var f := a + b;
    forall x | x in Starts(a) ensures x in Starts(f) {
      var i :| 0 <= i < |a| && a[i].at == x;
      assert f[i].at == x;
    }
    forall x | x in Starts(b) ensures x in Starts(f) {
      var i :| 0 <= i < |b| && b[i].at == x;
      assert f[|a| + i].at == x;
    }
  }

  /** The list after block `x` was taken out of it, or its end put in its place. */
  lemma ServedList(head: Ptr, a: seq<Block>, x: Block, r: seq<Block>, b: seq<Block>, q: Ptr,
                   next: map<Ptr, Ptr>, size: map<Ptr, nat>, next': map<Ptr, Ptr>, size': map<Ptr, nat>)
    requires FromHead(head, a + [x] + b, q, next, size) && Listed(a + [x] + b)
    requires |r| <= 1 && head !in Starts(a) && head !in Starts(b) && head != x.at && head !in Starts(r)
    requires x.at !in Starts(a) && x.at !in Starts(b) && Starts(r) !! Starts(a) + Starts(b)
    requires LastNode(head, a) !in Starts(b) + Starts(r)
    requires SameBut(next, next', {LastNode(head, a), x.at} + Starts(r)) && SameBut(size, size', {x.at} + Starts(r))
    requires LastNode(head, a) in next' && next'[LastNode(head, a)] == First(r + b, q)
    requires Segment(r, First(b, q), next', size')
    ensures FromHead(head, a + r + b, q, next', size')
  {
    assert a + [x] + b == a + ([x] + b) && a + r + b == a + (r + b);
    FromHeadCat(head, a, [x] + b, q, next, size);
    SegmentCat([x], b, q, next, size);
    SegmentFrame(b, q, next, size, next', size');
    SegmentCat(r, b, q, next', size');
    ListedCat(a, [x] + b);
    Retarget(head, a, x.at, First(r + b, q), next, size, next', size');
    FromHeadCat(head, a, r + b, q, next', size');
  }

  lemma OneSegment(x: Block, q: Ptr, next: map<Ptr, Ptr>, size: map<Ptr, nat>)
    requires x.at in next && x.at in size && next[x.at] == q && size[x.at] == x.size
    ensures Segment([x], q, next, size) && Starts([x]) == {x.at}
  {
    assert NodeAt([x], 0, q, next, size);
    assert [x][0].at == x.at;
  }

  /** The nodes of block `x` and of what a request leaves of it are no other nodes. */
  lemma RestNodes(v: View, head: Ptr, a: seq<Block>, x: Block, b: seq<Block>, n: nat)
    requires Kept(v) && v.free == a + [x] + b && 0 < n <= x.size && !(v.lo <= head < v.hi)
    ensures Listed(v.free) && v.lo <= x.at < v.tail && x.at !in v.live && x.at !in Starts(a) && x.at !in Starts(b)
    ensures head !in Starts(a) && head !in Starts(b) && head != x.at && head !in Starts(Rest(x, n))
    ensures Starts(Rest(x, n)) !! Starts(a) + Starts(b) + v.live.Keys + {x.at, v.tail}
  {
    FreeStarts(v);
    StartsCat(a + [x], b);
    StartsCat(a, [x]);
    assert x.at in Starts([x]) by { assert [x][0].at == x.at; }
    FreeInside(v, a, x, b, x.at);
    if x.size - n > MIN_SIZE {
      FreeInside(v, a, x, b, x.at + n);
      assert GoodUnder(v, 0);
      assert forall y :: y in Starts(Rest(x, n)) ==> y == x.at + n;
    }
  }

  /** The node before a block is a free block of its own, if it is not the head. */
  lemma LastFree(v: View, a: seq<Block>, b: seq<Block>)
    requires Kept(v) && v.free == a + b && a != []
    ensures var p := a[|a| - 1].at; p in Starts(a) && p !in Starts(b) && p !in v.live && p < v.tail
  {
    var c, l := a[..|a| - 1], a[|a| - 1];
    FreeStarts(v);
    StartsCat(a, b);
    assert v.free == c + [l] + b && v.free[|c|] == l && GapAt(v.free, |c|);
    FreeInside(v, c, l, b, l.at);
  }

  /** The nodes a request writes to, seen from block `x`: none of them is another block. */
  lemma ServedNodes(v: View, head: Ptr, a: seq<Block>, x: Block, b: seq<Block>, n: nat)
    requires Kept(v) && v.free == a + [x] + b && 0 < n <= x.size && !(v.lo <= head < v.hi)
    ensures Listed(v.free) && v.lo <= x.at < v.tail && x.at !in v.live && x.at !in Starts(a) && x.at !in Starts(b)
    ensures head !in Starts(a) && head !in Starts(b) && head != x.at && head !in Starts(Rest(x, n))
    ensures Starts(Rest(x, n)) !! Starts(a) + Starts(b) + v.live.Keys + {x.at, v.tail}
    ensures var p := LastNode(head, a);
      p !in Starts(b) + Starts(Rest(x, n)) && p != x.at && p !in v.live && (p == head || p < v.tail)
  {
    RestNodes(v, head, a, x, b, n);
    if a == [] {
      FreeStarts(v);
    } else {
      assert v.free == a + ([x] + b);
      LastFree(v, a, [x] + b);
      StartsCat([x], b);
    }
  }

  lemma ServedApart(v: View, head: Ptr, a: seq<Block>, x: Block, b: seq<Block>, n: nat)
    requires Kept(v) && v.free == a + [x] + b && 0 < n <= x.size && !(v.lo <= head < v.hi)
    ensures LastNode(head, a) != x.at && (x.size - n > MIN_SIZE ==> LastNode(head, a) != x.at + n)
  {
    ServedNodes(v, head, a, x, b, n);
    if x.size - n > MIN_SIZE {
      assert Rest(x, n)[0].at in Starts(Rest(x, n));
    }
  }

  /** What a list holds at the block in the middle. */
  lemma MiddleNode(head: Ptr, a: seq<Block>, x: Block, b: seq<Block>, q: Ptr, next: map<Ptr, Ptr>, size: map<Ptr, nat>)
    requires FromHead(head, a + [x] + b, q, next, size)
    ensures x.at in next && x.at in size && size[x.at] == x.size && next[x.at] == First(b, q)
    ensures LastNode(head, a) in next && next[LastNode(head, a)] == x.at && LastNode(head, a) in size
  {
    var f := a + [x] + b;
    assert NodeAt(f, |a|, q, next, size);
    assert a != [] ==> NodeAt(f, |a| - 1, q, next, size);
  }

  lemma EndNode(head: Ptr, a: seq<Block>, s: seq<Block>, q: Ptr, next: map<Ptr, Ptr>, size: map<Ptr, nat>)
    requires FromHead(head, a + s, q, next, size) && s != []
    ensures LastNode(head, a) in size && size[LastNode(head, a)] == if a == [] then 0 else a[|a| - 1].size
    ensures s[0].at in next && s[0].at in size && size[s[0].at] == s[0].size
  {
    assert NodeAt(a + s, |a|, q, next, size);
    assert a != [] ==> NodeAt(a + s, |a| - 1, q, next, size);
  }

  /** The node fields once block `x` has served a request for `n` bytes. */
  ghost predicate ServedFields(head: Ptr, a: seq<Block>, x: Block, b: seq<Block>, n: nat, q: Ptr,
                               next: map<Ptr, Ptr>, size: map<Ptr, nat>, next': map<Ptr, Ptr>, size': map<Ptr, nat>)
    requires n <= x.size
  {
    var p, split, y := LastNode(head, a), x.size - n > MIN_SIZE, x.at + n;
    && SameBut(next, next', {p, x.at} + (if split then {y} else {}))
    && SameBut(size, size', {x.at} + (if split then {y} else {}))
    && p in next' && next'[p] == (if split then y else First(b, q))
    && x.at in size' && size'[x.at] == Portion(x, n).size
    && (split ==> y in next' && y in size' && next'[y] == First(b, q) && size'[y] == x.size - n)
  }

  lemma ServedMemory(v: View, head: Ptr, a: seq<Block>, x: Block, b: seq<Block>, n: nat,
                     next: map<Ptr, Ptr>, size: map<Ptr, nat>, next': map<Ptr, Ptr>, size': map<Ptr, nat>)
    requires Kept(v) && v.free == a + [x] + b && 0 < n <= x.size && !(v.lo <= head < v.hi)
    requires FromHead(head, v.free, v.tail, next, size) && head != v.tail
    requires v.tail in next && v.tail in size && forall y :: y in v.live ==> y in size && size[y] == v.live[y]
    requires ServedFields(head, a, x, b, n, v.tail, next, size, next', size')
    ensures FromHead(head, a + Rest(x, n) + b, v.tail, next', size')
    ensures v.tail in next' && v.tail in size' && next'[v.tail] == next[v.tail] && size'[v.tail] == size[v.tail]
    ensures forall y :: y in v.live ==> y in size' && size'[y] == v.live[y]
  {
    var r := Rest(x, n);
    ServedNodes(v, head, a, x, b, n);
    if x.size - n > MIN_SIZE {
      OneSegment(r[0], First(b, v.tail), next', size');
    } else {
      assert Starts(r) == {} && r + b == b;
    }
    ServedList(head, a, x, r, b, v.tail, next, size, next', size');
  }

  // ----- release -----

  /** A new node between `a` and `b`. */
  lemma LinkNode(head: Ptr, a: seq<Block>, n: Block, b: seq<Block>, q: Ptr, next: map<Ptr, Ptr>, size: map<Ptr, nat>)
    requires FromHead(head, a + b, q, next, size) && Listed(a + b) && head !in Starts(a) && head !in Starts(b)
    requires n.at in size && size[n.at] == n.size && n.at != head && n.at !in Starts(a) && n.at !in Starts(b)
    requires LastNode(head, a) !in Starts(b)
    ensures FromHead(head, a + [n] + b, q, next[n.at := First(b, q)][LastNode(head, a) := n.at], size)
  {
    var next' := next[n.at := First(b, q)][LastNode(head, a) := n.at];
    assert a + [n] + b == a + ([n] + b);
    assert LastNode(head, a) != n.at by {
      assert a != [] ==> a[|a| - 1].at in Starts(a);
    }
    FromHeadCat(head, a, b, q, next, size);
    ListedCat(a, b);
    Retarget(head, a, First(b, q), n.at, next, size, next', size);
    SegmentFrame(b, q, next, size, next', size);
    OneSegment(n, First(b, q), next', size);
    SegmentCat([n], b, q, next', size);
    FromHeadCat(head, a, [n] + b, q, next', size);
  }

  /** Block `n` takes over the bytes and the link of the block after it. */
  lemma AbsorbNext(head: Ptr, a: seq<Block>, n: Block, m: Block, c: seq<Block>, q: Ptr, next: map<Ptr, Ptr>,
                   size: map<Ptr, nat>)
    requires FromHead(head, a + [n, m] + c, q, next, size)
    requires n.at !in Starts(a) && n.at !in Starts(c) && n.at != head && n.at != m.at
    ensures m.at in next && m.at in size && n.at in size && n.at in next && next[n.at] == m.at
    ensures FromHead(head, a + [Block(n.at, n.size + m.size)] + c, q,
                     next[n.at := next[m.at]], size[n.at := size[n.at] + size[m.at]])
  {
    var f := a + [n, m] + c;
    assert NodeAt(f, |a|, q, next, size) && NodeAt(f, |a| + 1, q, next, size);
    var x := Block(n.at, n.size + m.size);
    var next', size' := next[n.at := next[m.at]], size[n.at := size[n.at] + size[m.at]];
    assert f == a + ([n, m] + c) && a + [x] + c == a + ([x] + c);
    FromHeadCat(head, a, [n, m] + c, q, next, size);
    SegmentCat([n, m], c, q, next, size);
    SegmentFrame(a, n.at, next, size, next', size');
    SegmentFrame(c, q, next, size, next', size');
    OneSegment(x, First(c, q), next', size');
    SegmentCat([x], c, q, next', size');
    FromHeadCat(head, a, [x] + c, q, next', size');
  }

  lemma JoinRightMemory(head: Ptr, a: seq<Block>, n: Block, b: seq<Block>, q: Ptr, next: map<Ptr, Ptr>,
                        size: map<Ptr, nat>)
    requires FromHead(head, a + [n] + b, q, next, size) && b != [] && n.End() == b[0].at
    requires n.at !in Starts(a) && n.at !in Starts(b) && n.at != head
    ensures b[0].at in next && b[0].at in size && n.at in size && n.at in next && next[n.at] == b[0].at
    ensures FromHead(head, a + JoinRight(n, b), q,
                     next[n.at := next[b[0].at]], size[n.at := size[n.at] + size[b[0].at]])
  {
    var m, c := b[0], b[1..];
    assert a + [n] + b == a + [n, m] + c;
    assert b[0].at in Starts(b);
    assert n.at !in Starts(c) by { StartsCat([m], c); assert b == [m] + c; }
    AbsorbNext(head, a, n, m, c, q, next, size);
    assert a + JoinRight(n, b) == a + [Block(n.at, n.size + m.size)] + c;
  }

  lemma JoinLeftMemory(head: Ptr, a: seq<Block>, s: seq<Block>, q: Ptr, next: map<Ptr, Ptr>, size: map<Ptr, nat>)
    requires FromHead(head, a + s, q, next, size) && s != [] && a != [] && a[|a| - 1].End() == s[0].at
    requires Listed(a) && head !in Starts(a) && a[|a| - 1].at !in Starts(s)
    ensures var l := a[|a| - 1].at; s[0].at in next && s[0].at in size && l in size && l in next && next[l] == s[0].at
    ensures var l := a[|a| - 1].at;
      FromHead(head, JoinLeft(a, s), q, next[l := next[s[0].at]], size[l := size[l] + size[s[0].at]])
  {
    var a', l, m, c := a[..|a| - 1], a[|a| - 1], s[0], s[1..];
    assert a + s == a' + [l, m] + c;
    assert a == a' + [l] && l.at in Starts(a) && m.at in Starts(s);
    assert l.at !in Starts(a') by {
      forall i | 0 <= i < |a'| ensures a'[i].at != l.at { ListedOrder(a, i, |a| - 1); }
    }
    assert l.at !in Starts(c) by { StartsCat([m], c); assert s == [m] + c; }
    AbsorbNext(head, a', l, m, c, q, next, size);
  }

  /** The nodes a release writes to are no other block's. */
  lemma ReleasedNodes(v: View, head: Ptr, x: Ptr, a: seq<Block>, b: seq<Block>)
    requires Kept(v) && x in v.live && v.free == a + b && !(v.lo <= head < v.hi)
    requires forall i :: 0 <= i < |a| ==> a[i].at < x
    requires b != [] ==> b[0].at >= x
    ensures Listed(a) && Listed(a + b) && x < v.tail && x != head
    ensures head !in Starts(a) && head !in Starts(b) && x !in Starts(a) && x !in Starts(b)
    ensures var p := LastNode(head, a);
      p !in Starts(b) && p != x && p !in v.live && (p == head || p < v.tail)
  {
    FreeStarts(v);
    StartsCat(a, b);
    ListedCat(a, b);
    if a != [] {
      var l := a[|a| - 1];
      assert l.at in Starts(a);
      forall i | 0 <= i < |b| ensures b[i].at != l.at {
        ListedOrder(a + b, |a| - 1, |a| + i);
      }
    }
  }

  lemma BeforeTail(v: View, x: Ptr)
    requires Kept(v) && x in v.live
    ensures x < v.tail
  {
    FreeStarts(v);
  }

  /** The nodes a release writes to are neither those of other blocks nor the tail sentinel. */
  lemma ReleasedApart(v: View, head: Ptr, x: Ptr, a: seq<Block>, b: seq<Block>)
    requires Kept(v) && x in v.live && v.free == a + b && !(v.lo <= head < v.hi) && head != v.tail
    requires forall i :: 0 <= i < |a| ==> a[i].at < x
    requires b != [] ==> b[0].at >= x
    ensures Listed(a) && Listed(a + b) && x != v.tail && x != head
    ensures head !in Starts(a) && head !in Starts(b) && x !in Starts(a) && x !in Starts(b) && v.tail !in Starts(b)
    ensures var p := LastNode(head, a);
      p !in Starts(b) && p != x && p !in v.live && p != v.tail
  {
    ReleasedNodes(v, head, x, a, b);
    FreeStarts(v);
    StartsCat(a, b);
  }
}
