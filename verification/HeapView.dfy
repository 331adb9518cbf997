/**
  The first-fit heap of mg/source/heap.c as a value: an address-ordered list of free blocks,
  the live blocks, and what allocation and release make of them.
 */
module HeapView {
  import opened Basics

  /** sizeof(struct heap_node) on a 64-bit target, rounded up to 8. */
  const HEADER: nat := 16
  const MIN_SIZE: nat := 2 * HEADER
  const CONFIG_HEAP: nat := 1024 * 1024

  datatype Block = Block(at: Ptr, size: nat) {
    function End(): nat { at + size }
  }

  datatype View = View(lo: nat, hi: nat, tail: Ptr, free: seq<Block>, live: map<Ptr, nat>)

  // ----- bytes -----

  ghost predicate Holds(b: Block, p: nat) {
    b.at <= p < b.End()
  }

  ghost predicate FreeAt(f: seq<Block>, p: nat) {
    exists i :: 0 <= i < |f| && Holds(f[i], p)
  }

  ghost predicate LiveAt(live: map<Ptr, nat>, p: nat) {
    exists x :: x in live && Holds(Block(x, live[x]), p)
  }

  ghost predicate GapAt(f: seq<Block>, i: int)
    requires 0 <= i < |f|
  {
    f[i].size > 0 && (i + 1 < |f| ==> f[i].End() < f[i + 1].at)
  }

  /** Ascending addresses, and a gap between any two blocks. */
  ghost predicate Listed(f: seq<Block>) {
    forall i :: 0 <= i < |f| ==> GapAt(f, i)
  }

  lemma {:induction false} ListedOrder(f: seq<Block>, i: nat, j: nat)
    requires Listed(f) && i < j < |f|
    ensures f[i].End() < f[j].at
  {
    assert GapAt(f, j - 1);
    if i < j - 1 { ListedOrder(f, i, j - 1); }
  }

  ghost predicate LiveApart(live: map<Ptr, nat>) {
    forall x, y :: x in live && y in live && x < y ==> x + live[x] <= y
  }

  /** Free and live blocks tile the range: every byte of it belongs to exactly one block. */
  ghost predicate Good(v: View) {
    && Listed(v.free) && LiveApart(v.live)
    && (forall p: nat :: v.lo <= p < v.hi <==> FreeAt(v.free, p) || LiveAt(v.live, p))
    && (forall p: nat :: !(FreeAt(v.free, p) && LiveAt(v.live, p)))
    && Bounded(v)
  }

  /** A good heap; sealed as `Basics` explains. */
  ghost predicate Kept(v: View) {
    forall seal: nat :: GoodUnder(v, seal)
  }

  ghost predicate GoodUnder(v: View, seal: nat) {
    Good(v)
  }

  /** The block has room for its header, which ends before the tail sentinel begins. */
  ghost predicate Roomy(b: Block, tail: Ptr) {
    b.size >= HEADER && b.at + HEADER <= tail
  }

  /** The tail sentinel lies behind every header, at most a header before the end. */
  ghost predicate Bounded(v: View) {
    && 0 < v.lo && v.lo + HEADER <= v.tail <= v.hi <= v.tail + HEADER
    && (forall x :: x in v.live ==> Roomy(Block(x, v.live[x]), v.tail))
    && (forall i :: 0 <= i < |v.free| ==> Roomy(v.free[i], v.tail))
  }

  // ----- the free list is a function of the bytes it covers -----

  lemma FreeAtTail(f: seq<Block>, p: nat)
    requires Listed(f) && f != []
    ensures FreeAt(f[1..], p) <==> FreeAt(f, p) && p >= f[0].End()
  {
    if FreeAt(f[1..], p) {
      var i :| 0 <= i < |f[1..]| && Holds(f[1..][i], p);
      assert Holds(f[i + 1], p);
      ListedOrder(f, 0, i + 1);
    }
    if FreeAt(f, p) && p >= f[0].End() {
      var i :| 0 <= i < |f| && Holds(f[i], p);
      assert Holds(f[1..][i - 1], p);
    }
  }

  lemma ListedTail(f: seq<Block>)
    requires Listed(f) && f != []
    ensures Listed(f[1..])
  {
    forall i | 0 <= i < |f[1..]| ensures GapAt(f[1..], i) {
      assert GapAt(f, i + 1);
    }
  }

  /** The first block is the first stretch of covered bytes. */
  lemma FirstBlock(f: seq<Block>)
    requires Listed(f) && f != []
    ensures forall p: nat :: f[0].at <= p < f[0].End() ==> FreeAt(f, p)
    ensures !FreeAt(f, f[0].End()) && forall p: nat :: p < f[0].at ==> !FreeAt(f, p)
  {
    forall p: nat | f[0].at <= p < f[0].End() ensures FreeAt(f, p) {
      assert Holds(f[0], p);
    }
    assert GapAt(f, 0);
    forall i | 0 < i < |f| ensures f[0].End() < f[i].at {
      ListedOrder(f, 0, i);
    }
  }

  /** Two lists that cover the same bytes are equal. */
  lemma {:induction false} Canonical(f: seq<Block>, g: seq<Block>)
    requires Listed(f) && Listed(g)
    requires forall p: nat :: FreeAt(f, p) <==> FreeAt(g, p)
    ensures f == g
  {
    if f != [] { FirstBlock(f); assert GapAt(f, 0) && FreeAt(f, f[0].at); }
    if g != [] { FirstBlock(g); assert GapAt(g, 0) && FreeAt(g, g[0].at); }
    if f != [] && g != [] {
      assert f[0] == g[0] by {
        assert FreeAt(f, f[0].End()) == FreeAt(g, f[0].End());
        assert FreeAt(f, g[0].End()) == FreeAt(g, g[0].End());
      }
      ListedTail(f);
      ListedTail(g);
      forall p: nat ensures FreeAt(f[1..], p) <==> FreeAt(g[1..], p) {
        FreeAtTail(f, p);
        FreeAtTail(g, p);
      }
      Canonical(f[1..], g[1..]);
      assert f == [f[0]] + f[1..] && g == [g[0]] + g[1..];
    }
  }

  /** The free list is a function of the set of live blocks. */
  lemma FreeListFromLive(v: View, w: View)
    requires Good(v) && Good(w) && v.lo == w.lo && v.hi == w.hi && v.live == w.live
    ensures v.free == w.free
  {
    forall p: nat ensures FreeAt(v.free, p) <==> FreeAt(w.free, p) {
    }
    Canonical(v.free, w.free);
  }

  // ----- lists in pieces -----

  lemma FreeAtCat(a: seq<Block>, b: seq<Block>, p: nat)
    ensures FreeAt(a + b, p) <==> FreeAt(a, p) || FreeAt(b, p)
  {
    var f := a + b;
    if FreeAt(f, p) {
      var i :| 0 <= i < |f| && Holds(f[i], p);
      assert if i < |a| then Holds(a[i], p) else Holds(b[i - |a|], p);
    }
    if FreeAt(a, p) {
      var i :| 0 <= i < |a| && Holds(a[i], p);
      assert Holds(f[i], p);
    }
    if FreeAt(b, p) {
      var i :| 0 <= i < |b| && Holds(b[i], p);
      assert Holds(f[|a| + i], p);
    }
  }

  lemma FreeAtAround(a: seq<Block>, x: Block, b: seq<Block>, p: nat)
    ensures FreeAt(a + [x] + b, p) <==> FreeAt(a, p) || Holds(x, p) || FreeAt(b, p)
  {
    FreeAtCat(a + [x], b, p);
    FreeAtCat(a, [x], p);
    assert Holds([x][0], p) ==> FreeAt([x], p);
  }

  ghost predicate Precede(a: seq<Block>, b: seq<Block>) {
    a == [] || b == [] || a[|a| - 1].End() < b[0].at
  }

  lemma ListedCat(a: seq<Block>, b: seq<Block>)
    ensures Listed(a + b) <==> Listed(a) && Listed(b) && Precede(a, b)
  {
    var f := a + b;
    if Listed(f) {
      forall i | 0 <= i < |a| ensures GapAt(a, i) {
        assert GapAt(f, i);
      }
      assert a != [] ==> GapAt(f, |a| - 1);
      forall i | 0 <= i < |b| ensures GapAt(b, i) {
        assert GapAt(f, |a| + i);
      }
    } else if Listed(a) && Listed(b) && Precede(a, b) {
      forall i | 0 <= i < |f| ensures GapAt(f, i) {
        assert if i < |a| then GapAt(a, i) else GapAt(b, i - |a|);
      }
    }
  }

  lemma ListedAround(a: seq<Block>, x: Block, b: seq<Block>)
    ensures Listed(a + [x] + b)
       <==> Listed(a) && Listed(b) && x.size > 0 && Precede(a, [x]) && Precede([x], b)
  {
    ListedCat(a + [x], b);
    ListedCat(a, [x]);
    assert Listed([x]) <==> x.size > 0 by {
      assert GapAt([x], 0) <==> x.size > 0;
    }
  }

  // ----- release -----

  /** `x` in front of the blocks `b`, joined with the first of them if it touches it. */
  function JoinRight(x: Block, b: seq<Block>): (r: seq<Block>)
    ensures r != [] && r[0].at == x.at
  {
    if b != [] && x.End() == b[0].at then [Block(x.at, x.size + b[0].size)] + b[1..] else [x] + b
  }

  /** The blocks `a` in front of `s`, the last of them joined with the first of `s` if they touch. */
  function JoinLeft(a: seq<Block>, s: seq<Block>): seq<Block>
    requires s != []
  {
    if a != [] && a[|a| - 1].End() == s[0].at
    then a[..|a| - 1] + [Block(a[|a| - 1].at, a[|a| - 1].size + s[0].size)] + s[1..]
    else a + s
  }

  /** `x` between the blocks `a` and `b`, joined with the blocks it touches. */
  function Inserted(a: seq<Block>, x: Block, b: seq<Block>): seq<Block> {
    JoinLeft(a, JoinRight(x, b))
  }

  lemma JoinRightBytes(x: Block, b: seq<Block>, p: nat)
    ensures FreeAt(JoinRight(x, b), p) <==> Holds(x, p) || FreeAt(b, p)
  {
    if b != [] && x.End() == b[0].at {
      FreeAtAround([], b[0], b[1..], p);
      FreeAtAround([], Block(x.at, x.size + b[0].size), b[1..], p);
      assert [] + [b[0]] + b[1..] == b;
      assert JoinRight(x, b) == [] + [Block(x.at, x.size + b[0].size)] + b[1..];
    } else {
      FreeAtAround([], x, b, p);
      assert [] + [x] + b == [x] + b;
    }
  }

  lemma JoinLeftBytes(a: seq<Block>, s: seq<Block>, p: nat)
    requires s != []
    ensures FreeAt(JoinLeft(a, s), p) <==> FreeAt(a, p) || FreeAt(s, p)
  {
    if a != [] && a[|a| - 1].End() == s[0].at {
      var a', l := a[..|a| - 1], a[|a| - 1];
      FreeAtAround(a', l, [], p);
      FreeAtAround([], s[0], s[1..], p);
      FreeAtAround(a', Block(l.at, l.size + s[0].size), s[1..], p);
      assert a == a' + [l] + [] && s == [] + [s[0]] + s[1..];
    } else {
      FreeAtCat(a, s, p);
    }
  }

  lemma InsertedBytes(a: seq<Block>, x: Block, b: seq<Block>, p: nat)
    ensures FreeAt(Inserted(a, x, b), p) <==> FreeAt(a + b, p) || Holds(x, p)
  {
    FreeAtCat(a, b, p);
    JoinRightBytes(x, b, p);
    JoinLeftBytes(a, JoinRight(x, b), p);
  }

  lemma JoinRightListed(x: Block, b: seq<Block>)
    requires Listed(b) && x.size > 0 && (b == [] || x.End() <= b[0].at)
    ensures Listed(JoinRight(x, b))
  {
    if b != [] && x.End() == b[0].at {
      ListedAround([], b[0], b[1..]);
      ListedAround([], Block(x.at, x.size + b[0].size), b[1..]);
      assert [] + [b[0]] + b[1..] == b;
      assert JoinRight(x, b) == [] + [Block(x.at, x.size + b[0].size)] + b[1..];
    } else {
      ListedAround([], x, b);
      assert [] + [x] + b == [x] + b;
    }
  }

  lemma JoinLeftListed(a: seq<Block>, s: seq<Block>)
    requires Listed(a) && Listed(s) && s != [] && (a == [] || a[|a| - 1].End() <= s[0].at)
    ensures Listed(JoinLeft(a, s))
  {
    if a != [] && a[|a| - 1].End() == s[0].at {
      var a', l := a[..|a| - 1], a[|a| - 1];
      assert a == a' + [l] && s == [s[0]] + s[1..];
      assert JoinLeft(a' + [l], [s[0]] + s[1..]) == a' + [Block(l.at, l.size + s[0].size)] + s[1..];
      TouchingListed(a', l, s[0], s[1..]);
    } else {
      ListedCat(a, s);
    }
  }

  /** Two lists that touch stay a list when the blocks that touch become one. */
  lemma TouchingListed(a: seq<Block>, x: Block, y: Block, b: seq<Block>)
    requires Listed(a + [x]) && Listed([y] + b) && x.End() == y.at
    ensures Listed(a + [Block(x.at, x.size + y.size)] + b)
  {
    assert (a + [x])[|a|] == x && ([y] + b)[0] == y;
    assert GapAt(a + [x], |a|) && GapAt([y] + b, 0);
    ListedCat(a, [x]);
    ListedCat([y], b);
    ListedAround(a, Block(x.at, x.size + y.size), b);
  }

  lemma InsertedListed(a: seq<Block>, x: Block, b: seq<Block>)
    requires Listed(a + b) && x.size > 0
    requires a != [] ==> a[|a| - 1].End() <= x.at
    requires b != [] ==> x.End() <= b[0].at
    ensures Listed(Inserted(a, x, b))
  {
    ListedCat(a, b);
    JoinRightListed(x, b);
    JoinLeftListed(a, JoinRight(x, b));
  }

  /** How many blocks of `f` start before `x`. */
  function Rank(f: seq<Block>, x: Ptr): (k: nat)
    ensures k <= |f|
    ensures forall i :: 0 <= i < k ==> f[i].at < x
    ensures k < |f| ==> f[k].at >= x
  {
    if f == [] || f[0].at >= x then 0 else 1 + Rank(f[1..], x)
  }

  /** The live block at `x` is released. */
  function Released(v: View, x: Ptr): View
    requires x in v.live
  {
    var k := Rank(v.free, x);
    v.(free := Inserted(v.free[..k], Block(x, v.live[x]), v.free[k..]), live := v.live - {x})
  }

  lemma {:induction false} ReleasedGood(v: View, x: Ptr)
    requires Good(v) && x in v.live
    ensures Good(Released(v, x))
  {
    var v' := Released(v, x);
    ReleasedListed(v, x);
    forall p: nat
      ensures v'.lo <= p < v'.hi <==> FreeAt(v'.free, p) || LiveAt(v'.live, p)
      ensures !(FreeAt(v'.free, p) && LiveAt(v'.live, p))
    {
      ReleasedBytes(v, x, p);
    }
  }

  lemma {:induction false} ReleasedListed(v: View, x: Ptr)
    requires Good(v) && x in v.live
    ensures Listed(Released(v, x).free) && Bounded(Released(v, x))
  {
    var k, n := Rank(v.free, x), Block(x, v.live[x]);
    var a, b := v.free[..k], v.free[k..];
    assert a + b == v.free;
    NeighboursOutside(v, x, a, b);
    InsertedListed(a, n, b);
    InsertedRoomy(a, n, b, v.tail);
  }

  /** Released bytes change from live to free, and no others. */
  lemma {:induction false} ReleasedBytes(v: View, x: Ptr, p: nat)
    requires Good(v) && x in v.live
    ensures var v' := Released(v, x);
      && (v'.lo <= p < v'.hi <==> FreeAt(v'.free, p) || LiveAt(v'.live, p))
      && !(FreeAt(v'.free, p) && LiveAt(v'.live, p))
  {
    var k, n := Rank(v.free, x), Block(x, v.live[x]);
    var a, b := v.free[..k], v.free[k..];
    assert a + b == v.free;
    InsertedBytes(a, n, b, p);
    LiveWithout(v.live, x, p);
    assert Holds(n, p) ==> LiveAt(v.live, p);
    assert v.lo <= p < v.hi <==> FreeAt(v.free, p) || LiveAt(v.live, p);
    assert !(FreeAt(v.free, p) && LiveAt(v.live, p));
  }

  lemma LiveWithout(live: map<Ptr, nat>, x: Ptr, p: nat)
    requires x in live && LiveApart(live)
    ensures LiveAt(live - {x}, p) <==> LiveAt(live, p) && !Holds(Block(x, live[x]), p)
  {
    var rest := live - {x};
    if LiveAt(rest, p) {
      var y :| y in rest && Holds(Block(y, rest[y]), p);
      assert Holds(Block(y, live[y]), p);
    }
    if LiveAt(live, p) && !Holds(Block(x, live[x]), p) {
      var y :| y in live && Holds(Block(y, live[y]), p);
      assert y in rest && Holds(Block(y, rest[y]), p);
    }
  }

  /** A live block touches no free byte: its free neighbours end before it or start after it. */
  lemma NeighboursOutside(v: View, x: Ptr, a: seq<Block>, b: seq<Block>)
    requires Good(v) && x in v.live && v.free == a + b
    requires forall i :: 0 <= i < |a| ==> a[i].at < x
    requires b != [] ==> b[0].at >= x
    ensures a != [] ==> a[|a| - 1].End() <= x
    ensures b != [] ==> x + v.live[x] <= b[0].at
  {
    if a != [] && a[|a| - 1].End() > x {
      assert Holds(v.free[|a| - 1], x) && Holds(Block(x, v.live[x]), x);
      assert FreeAt(v.free, x) && LiveAt(v.live, x);
      assert false;
    }
    if b != [] && b[0].at < x + v.live[x] {
      var p := b[0].at;
      assert GapAt(v.free, |a|);
      assert v.free[|a|] == b[0] && Holds(v.free[|a|], p) && Holds(Block(x, v.live[x]), p);
      assert FreeAt(v.free, p) && LiveAt(v.live, p);
      assert false;
    }
  }

  lemma InsertedRoomy(a: seq<Block>, x: Block, b: seq<Block>, tail: Ptr)
    requires Roomy(x, tail) && forall i :: 0 <= i < |a + b| ==> Roomy((a + b)[i], tail)
    ensures forall i :: 0 <= i < |Inserted(a, x, b)| ==> Roomy(Inserted(a, x, b)[i], tail)
  {
    assert forall i :: 0 <= i < |a| ==> (a + b)[i] == a[i];
    assert forall i :: 0 <= i < |b| ==> (a + b)[|a| + i] == b[i];
  }

  // ----- allocation -----

  /** The first block of at least `n` bytes; the length of the list if there is none. */
  function FirstFit(f: seq<Block>, n: nat): (k: nat)
    ensures k <= |f|
    ensures forall i :: 0 <= i < k ==> f[i].size < n
    ensures k < |f| ==> f[k].size >= n
  {
    if f == [] || f[0].size >= n then 0 else 1 + FirstFit(f[1..], n)
  }

  /** The bytes of block `b` that a request for `n` takes: all of it if little would remain. */
  function Portion(b: Block, n: nat): (t: Block)
    requires n <= b.size
    ensures t.at == b.at && n <= t.size <= b.size
  {
    if b.size - n > MIN_SIZE then Block(b.at, n) else b
  }

  function Rest(b: Block, n: nat): seq<Block>
    requires n <= b.size
  {
    if b.size - n > MIN_SIZE then [Block(b.at + n, b.size - n)] else []
  }

  /** Block number `k` serves a request that rounds to `n`. */
  function Served(v: View, k: nat, n: nat): View
    requires k < |v.free| && n <= v.free[k].size
  {
    var b := v.free[k];
    v.(free := v.free[..k] + Rest(b, n) + v.free[k + 1..], live := v.live[b.at := Portion(b, n).size])
  }

  lemma ServedListed(a: seq<Block>, x: Block, b: seq<Block>, n: nat)
    requires Listed(a + [x] + b) && 0 < n <= x.size
    ensures Listed(a + Rest(x, n) + b)
  {
    ListedAround(a, x, b);
    if x.size - n > MIN_SIZE {
      ListedAround(a, Block(x.at + n, x.size - n), b);
    } else {
      assert a + [] + b == a + b;
      assert a != [] && b != [] ==> Precede(a, b);
      ListedCat(a, b);
    }
  }

  lemma ServedBytes(a: seq<Block>, x: Block, b: seq<Block>, n: nat, p: nat)
    requires Listed(a + [x] + b) && 0 < n <= x.size
    ensures FreeAt(a + Rest(x, n) + b, p) <==> FreeAt(a + [x] + b, p) && !Holds(Portion(x, n), p)
  {
    FreeAtAround(a, x, b, p);
    if Holds(x, p) { OneHolder(a, x, b, p); }
    if x.size - n > MIN_SIZE {
      FreeAtAround(a, Block(x.at + n, x.size - n), b, p);
    } else {
      assert a + [] + b == a + b;
      FreeAtCat(a, b, p);
    }
  }

  /** A byte of `x` is in no other block. */
  lemma OneHolder(a: seq<Block>, x: Block, b: seq<Block>, p: nat)
    requires Listed(a + [x] + b) && Holds(x, p)
    ensures !FreeAt(a, p) && !FreeAt(b, p)
  {
    var f := a + [x] + b;
    assert f[|a|] == x;
    if FreeAt(a, p) {
      var i :| 0 <= i < |a| && Holds(a[i], p);
      ListedOrder(f, i, |a|);
    }
    if FreeAt(b, p) {
      var i :| 0 <= i < |b| && Holds(b[i], p);
      ListedOrder(f, |a|, |a| + 1 + i);
    }
  }

  lemma LiveWith(live: map<Ptr, nat>, x: Ptr, n: nat, p: nat)
    requires x !in live
    ensures LiveAt(live[x := n], p) <==> LiveAt(live, p) || Holds(Block(x, n), p)
  {
    var more := live[x := n];
    if LiveAt(more, p) {
      var y :| y in more && Holds(Block(y, more[y]), p);
      assert y != x ==> y in live && Holds(Block(y, live[y]), p);
    }
    if LiveAt(live, p) {
      var y :| y in live && Holds(Block(y, live[y]), p);
      assert y in more && Holds(Block(y, more[y]), p);
    }
    if Holds(Block(x, n), p) {
      assert x in more && Holds(Block(x, more[x]), p);
    }
  }

  /** A block of free bytes starts at no live address and overlaps no live block. */
  lemma FreeNotLive(v: View, t: Block)
    requires Good(v) && t.size > 0 && forall p: nat :: Holds(t, p) ==> FreeAt(v.free, p)
    ensures t.at !in v.live && LiveApart(v.live[t.at := t.size])
  {
    assert Holds(t, t.at) && !LiveAt(v.live, t.at);
    assert forall x :: x in v.live ==> !Holds(Block(x, v.live[x]), t.at);
    var more := v.live[t.at := t.size];
    forall x, y | x in more && y in more && x < y ensures x + more[x] <= y {
      if x == t.at {
        assert Holds(Block(y, v.live[y]), y) && LiveAt(v.live, y);
        assert !Holds(t, y);
      } else if y == t.at {
        assert !Holds(Block(x, v.live[x]), t.at);
      }
    }
  }

  lemma {:induction false} ServedGood(v: View, k: nat, n: nat)
    requires Good(v) && k < |v.free| && HEADER <= n <= v.free[k].size
    ensures v.free[k].at !in v.live && Good(Served(v, k, n))
  {
    var a, x, b := v.free[..k], v.free[k], v.free[k + 1..];
    var t, v' := Portion(x, n), Served(v, k, n);
    assert v.free == a + [x] + b;
    ServedListed(a, x, b, n);
    forall p: nat ensures FreeAt(v'.free, p) <==> FreeAt(v.free, p) && !Holds(t, p) {
      ServedBytes(a, x, b, n, p);
    }
    forall p: nat | Holds(t, p) ensures FreeAt(v.free, p) {
      assert Holds(v.free[k], p);
    }
    FreeNotLive(v, t);
    forall p: nat ensures LiveAt(v'.live, p) <==> LiveAt(v.live, p) || Holds(t, p) {
      LiveWith(v.live, t.at, t.size, p);
    }
    ServedRoomy(v, k, n);
  }

  lemma ServedKept(v: View, k: nat, n: nat)
    requires Kept(v) && k < |v.free| && HEADER <= n <= v.free[k].size
    ensures Kept(Served(v, k, n))
  {
    assert GoodUnder(v, 0);
    ServedGood(v, k, n);
  }

  lemma ReleasedKept(v: View, x: Ptr)
    requires Kept(v) && x in v.live
    ensures Kept(Released(v, x))
  {
    assert GoodUnder(v, 0);
    ReleasedGood(v, x);
  }

  /** The remainder of a split has room for a header in front of the tail sentinel. */
  lemma ServedRoomy(v: View, k: nat, n: nat)
    requires Good(v) && k < |v.free| && HEADER <= n <= v.free[k].size
    ensures Bounded(Served(v, k, n))
  {
    var x := v.free[k];
    var p := x.End() - 1;
    assert Holds(x, p) && FreeAt(v.free, p);
    assert x.End() <= v.hi;
    var f := Served(v, k, n).free;
    forall i | 0 <= i < |f| ensures Roomy(f[i], v.tail) {
      assert i < k ==> f[i] == v.free[i];
      assert i >= k + |Rest(x, n)| ==> f[i] == v.free[i + 1 - |Rest(x, n)|];
    }
  }

  // ----- the free list is canonical -----

  /** Allocating a block and releasing it at once restores the exact heap. */
  lemma {:induction false} MallocFreeRestores(v: View, k: nat, n: nat)
    requires Good(v) && k < |v.free| && HEADER <= n <= v.free[k].size
    ensures Released(Served(v, k, n), v.free[k].at) == v
  {
    var x := v.free[k].at;
    ServedGood(v, k, n);
    var w := Released(Served(v, k, n), x);
    ReleasedGood(Served(v, k, n), x);
    assert w.live == v.live;
    FreeListFromLive(v, w);
  }

  /** Releases the live blocks `xs` one after the other. */
  function ReleasedAll(v: View, xs: seq<Ptr>): View
    requires Distinct(xs) && forall x :: x in xs ==> x in v.live
    decreases xs
  {
    if xs == [] then v
    else
      assert forall i :: 0 < i < |xs| ==> xs[i] != xs[0];
      ReleasedAll(Released(v, xs[0]), xs[1..])
  }

  lemma {:induction false} ReleasedAllKept(v: View, xs: seq<Ptr>)
    requires Kept(v) && Distinct(xs) && forall x :: x in xs ==> x in v.live
    ensures var w := ReleasedAll(v, xs);
      Kept(w) && w.lo == v.lo && w.hi == v.hi && w.tail == v.tail && w.live == v.live - Elems(xs)
    decreases xs
  {
    if xs != [] {
      ReleasedKept(v, xs[0]);
      assert forall i :: 0 < i < |xs| ==> xs[i] != xs[0];
      ReleasedAllKept(Released(v, xs[0]), xs[1..]);
      WithoutFirst(v.live, xs);
    }
  }

  lemma WithoutFirst(live: map<Ptr, nat>, xs: seq<Ptr>)
    requires xs != []
    ensures live - {xs[0]} - Elems(xs[1..]) == live - Elems(xs)
  {
    assert xs == [xs[0]] + xs[1..];
  }

  lemma ReleasedAllGood(v: View, xs: seq<Ptr>)
    requires Good(v) && Distinct(xs) && forall x :: x in xs ==> x in v.live
    ensures var w := ReleasedAll(v, xs);
      Good(w) && w.lo == v.lo && w.hi == v.hi && w.tail == v.tail && w.live == v.live - Elems(xs)
  {
    assert Kept(v);
    ReleasedAllKept(v, xs);
    assert GoodUnder(ReleasedAll(v, xs), 0);
  }

  /** The order in which a set of blocks is released does not matter. */
  lemma {:induction false} ReleaseOrderIrrelevant(v: View, xs: seq<Ptr>, ys: seq<Ptr>)
    requires Good(v) && Distinct(xs) && Distinct(ys)
    requires forall x :: x in xs ==> x in v.live
    requires forall x :: x in xs <==> x in ys
    ensures ReleasedAll(v, xs) == ReleasedAll(v, ys)
  {
    ReleasedAllGood(v, xs);
    ReleasedAllGood(v, ys);
    assert Elems(xs) == Elems(ys);
    FreeListFromLive(ReleasedAll(v, xs), ReleasedAll(v, ys));
  }

  function Initial(lo: nat, hi: nat, tail: Ptr): View
    requires lo <= hi
  {
    View(lo, hi, tail, [Block(lo, hi - lo)], map[])
  }

  lemma InitialGood(lo: nat, hi: nat, tail: Ptr)
    requires 0 < lo && lo + HEADER <= tail <= hi <= tail + HEADER
    ensures Good(Initial(lo, hi, tail))
  {
    var v := Initial(lo, hi, tail);
    assert GapAt(v.free, 0);
    forall p: nat ensures FreeAt(v.free, p) <==> lo <= p < hi {
      assert Holds(v.free[0], p) <==> lo <= p < hi;
    }
  }

  /** Releasing everything that is live restores the single initial block. */
  lemma {:induction false} ReleaseEverything(v: View, xs: seq<Ptr>)
    requires Good(v) && Distinct(xs) && forall x :: x in xs <==> x in v.live
    ensures v.lo <= v.hi && ReleasedAll(v, xs) == Initial(v.lo, v.hi, v.tail)
  {
    ReleasedAllGood(v, xs);
    var w := ReleasedAll(v, xs);
    assert w.live == map[];
    InitialGood(v.lo, v.hi, v.tail);
    FreeListFromLive(w, Initial(v.lo, v.hi, v.tail));
  }

  // ----- totals -----

  /** The sum of the sizes of the first `k` blocks. */
  function TotalTo(f: seq<Block>, k: nat): nat
    requires k <= |f|
  {
    if k == 0 then 0 else TotalTo(f, k - 1) + f[k - 1].size
  }

  function Total(f: seq<Block>): nat {
    TotalTo(f, |f|)
  }

  lemma {:induction false} TotalToCat(a: seq<Block>, b: seq<Block>, k: nat)
    requires k <= |a| + |b|
    ensures TotalTo(a + b, k) == if k <= |a| then TotalTo(a, k) else Total(a) + TotalTo(b, k - |a|)
  {
    if k > 0 { TotalToCat(a, b, k - 1); }
  }

  lemma {:induction false} TotalAround(a: seq<Block>, x: Block, b: seq<Block>)
    ensures Total(a + b) == Total(a) + Total(b)
    ensures Total(a + [x] + b) == Total(a) + x.size + Total(b)
  {
    TotalToCat(a, b, |a| + |b|);
    TotalToCat(a + [x], b, |a| + 1 + |b|);
    TotalToCat(a, [x], |a| + 1);
    assert TotalTo([x], 1) == TotalTo([x], 0) + x.size;
  }

  lemma {:induction false} JoinRightTotal(x: Block, b: seq<Block>)
    ensures Total(JoinRight(x, b)) == x.size + Total(b)
  {
    if b != [] && x.End() == b[0].at {
      TotalAround([], b[0], b[1..]);
      TotalAround([], Block(x.at, x.size + b[0].size), b[1..]);
      assert [] + [b[0]] + b[1..] == b;
      assert JoinRight(x, b) == [] + [Block(x.at, x.size + b[0].size)] + b[1..];
    } else {
      TotalAround([], x, b);
      assert [] + [x] + b == [x] + b;
    }
  }

  lemma {:induction false} JoinLeftTotal(a: seq<Block>, s: seq<Block>)
    requires s != []
    ensures Total(JoinLeft(a, s)) == Total(a) + Total(s)
  {
    if a != [] && a[|a| - 1].End() == s[0].at {
      var a', l := a[..|a| - 1], a[|a| - 1];
      TotalAround(a', l, []);
      TotalAround([], s[0], s[1..]);
      TotalAround(a', Block(l.at, l.size + s[0].size), s[1..]);
      assert a == a' + [l] + [] && s == [] + [s[0]] + s[1..];
    } else {
      TotalAround(a, s[0], s);
    }
  }

  /** Releasing a block adds its size to the free total. */
  lemma {:induction false} ReleasedTotal(v: View, x: Ptr)
    requires x in v.live
    ensures Total(Released(v, x).free) == Total(v.free) + v.live[x]
  {
    var k := Rank(v.free, x);
    var a, b := v.free[..k], v.free[k..];
    assert a + b == v.free;
    TotalAround(a, Block(x, 0), b);
    JoinRightTotal(Block(x, v.live[x]), b);
    JoinLeftTotal(a, JoinRight(Block(x, v.live[x]), b));
  }

  /** Serving a request takes what the request got from the free total. */
  lemma {:induction false} ServedTotal(v: View, k: nat, n: nat)
    requires k < |v.free| && n <= v.free[k].size
    ensures Total(Served(v, k, n).free) + Portion(v.free[k], n).size == Total(v.free)
  {
    var a, x, b := v.free[..k], v.free[k], v.free[k + 1..];
    assert v.free == a + [x] + b;
    TotalAround(a, x, b);
    if x.size - n > MIN_SIZE {
      TotalAround(a, Block(x.at + n, x.size - n), b);
    } else {
      assert a + [] + b == a + b;
    }
  }
}
