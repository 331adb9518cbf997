/**
  The allocator of mg/source/memalloc.c as a value: the blocks that tile the arena, their
  sizes and marks, and what allocation and release make of them.
 */
module MemView {
  import opened Basics

  /** sizeof(struct heap_node) on a 64-bit target, rounded up to 8. */
  const HEADER: nat := 72
  /** sizeof(struct list_node). */
  const LINK: nat := 16
  const MIN_SIZE: nat := 2 * HEADER
  const CONFIG_HEAP: nat := 10 * 1024

  ghost function Size(size: map<Ptr, nat>, x: Ptr): nat {
    if x in size then size[x] else 0
  }

  ghost predicate InUse(used: map<Ptr, bool>, x: Ptr) {
    x in used && used[x]
  }

  /** `y` starts where `x` ends, and at least one of the two is in use. */
  ghost predicate Joined(x: Ptr, y: Ptr, size: map<Ptr, nat>, used: map<Ptr, bool>) {
    x + Size(size, x) == y && (InUse(used, x) || InUse(used, y))
  }

  ghost predicate JoinedAt(s: seq<Ptr>, i: int, size: map<Ptr, nat>, used: map<Ptr, bool>)
    requires 0 <= i < |s| - 1
  {
    Joined(s[i], s[i + 1], size, used)
  }

  /** Consecutive blocks, each with room beyond its header, no two neighbours both free. */
  ghost predicate Run(s: seq<Ptr>, size: map<Ptr, nat>, used: map<Ptr, bool>) {
    && (forall x :: x in s ==> x in size && x in used && size[x] > HEADER)
    && (forall i :: 0 <= i < |s| - 1 ==> JoinedAt(s, i, size, used))
  }

  /** The blocks of `s` fill the arena from `lo` to `hi`. */
  ghost predicate Tiles(s: seq<Ptr>, size: map<Ptr, nat>, used: map<Ptr, bool>, lo: nat, hi: nat) {
    && Run(s, size, used)
    && s != [] && s[0] == lo && s[|s| - 1] + Size(size, s[|s| - 1]) == hi
  }

  ghost function FreeSize(x: Ptr, size: map<Ptr, nat>, used: map<Ptr, bool>): nat {
    if InUse(used, x) then 0 else Size(size, x)
  }

  /** The free bytes in the first `k` blocks of `s`. */
  ghost function FreeUpTo(s: seq<Ptr>, k: nat, size: map<Ptr, nat>, used: map<Ptr, bool>): nat
    requires k <= |s|
  {
    if k == 0 then 0 else FreeUpTo(s, k - 1, size, used) + FreeSize(s[k - 1], size, used)
  }

  ghost function FreeSum(s: seq<Ptr>, size: map<Ptr, nat>, used: map<Ptr, bool>): nat {
    FreeUpTo(s, |s|, size, used)
  }

  ghost predicate Agree<V>(s: seq<Ptr>, m: map<Ptr, V>, m': map<Ptr, V>) {
    forall x :: x in s ==> (x in m <==> x in m') && (x in m ==> m[x] == m'[x])
  }

  lemma {:induction false} FreeSumFrame(s: seq<Ptr>, k: nat, size: map<Ptr, nat>, used: map<Ptr, bool>,
                                        size': map<Ptr, nat>, used': map<Ptr, bool>)
    requires Agree(s, size, size') && Agree(s, used, used') && k <= |s|
    ensures FreeUpTo(s, k, size, used) == FreeUpTo(s, k, size', used')
  {
    if k > 0 {
      assert s[k - 1] in s;
      FreeSumFrame(s, k - 1, size, used, size', used');
    }
  }

  lemma {:induction false} FreeUpToAppend(a: seq<Ptr>, b: seq<Ptr>, k: nat, size: map<Ptr, nat>, used: map<Ptr, bool>)
    requires k <= |a| + |b|
    ensures FreeUpTo(a + b, k, size, used)
         == if k <= |a| then FreeUpTo(a, k, size, used) else FreeSum(a, size, used) + FreeUpTo(b, k - |a|, size, used)
  {
    if k > 0 { FreeUpToAppend(a, b, k - 1, size, used); }
  }

  lemma {:induction false} FreeSumAppend(a: seq<Ptr>, b: seq<Ptr>, size: map<Ptr, nat>, used: map<Ptr, bool>)
    ensures FreeSum(a + b, size, used) == FreeSum(a, size, used) + FreeSum(b, size, used)
  {
    FreeUpToAppend(a, b, |a| + |b|, size, used);
  }

  lemma RunFrame(s: seq<Ptr>, size: map<Ptr, nat>, used: map<Ptr, bool>, size': map<Ptr, nat>, used': map<Ptr, bool>)
    requires Run(s, size, used) && Agree(s, size, size') && Agree(s, used, used')
    ensures Run(s, size', used')
  {
    forall i | 0 <= i < |s| - 1 ensures JoinedAt(s, i, size', used') {
      assert s[i] in s && s[i + 1] in s && JoinedAt(s, i, size, used);
    }
  }

  lemma RunAppend(a: seq<Ptr>, b: seq<Ptr>, size: map<Ptr, nat>, used: map<Ptr, bool>)
    ensures Run(a + b, size, used)
       <==> && Run(a, size, used) && Run(b, size, used)
            && (a == [] || b == [] || Joined(a[|a| - 1], b[0], size, used))
  {
    var s := a + b;
    if Run(s, size, used) {
      forall i | 0 <= i < |a| - 1 ensures JoinedAt(a, i, size, used) {
        assert JoinedAt(s, i, size, used);
      }
      forall i | 0 <= i < |b| - 1 ensures JoinedAt(b, i, size, used) {
        assert JoinedAt(s, |a| + i, size, used);
      }
      assert a != [] && b != [] ==> JoinedAt(s, |a| - 1, size, used);
    } else if Run(a, size, used) && Run(b, size, used) && (a == [] || b == [] || Joined(a[|a| - 1], b[0], size, used)) {
      forall i | 0 <= i < |s| - 1 ensures JoinedAt(s, i, size, used) {
        assert i < |a| - 1 ==> JoinedAt(a, i, size, used);
        assert i >= |a| ==> JoinedAt(b, i - |a|, size, used);
      }
    }
  }

  /** An earlier block ends before a later one starts. */
  lemma {:induction false} Apart(s: seq<Ptr>, size: map<Ptr, nat>, used: map<Ptr, bool>, i: nat, j: nat)
    requires Run(s, size, used) && i < j < |s|
    ensures s[i] + Size(size, s[i]) <= s[j] && s[i] < s[j]
  {
    assert JoinedAt(s, j - 1, size, used);
    assert s[i] in s && s[j - 1] in s;
    if i < j - 1 { Apart(s, size, used, i, j - 1); }
  }

  /** No block starts inside another one. */
  lemma Outside(a: seq<Ptr>, x: Ptr, b: seq<Ptr>, size: map<Ptr, nat>, used: map<Ptr, bool>, y: Ptr)
    requires Run(a + [x] + b, size, used)
    requires x <= y < x + Size(size, x)
    ensures y !in a && y !in b
  {
    var s := a + [x] + b;
    assert s[|a|] == x;
    if y in a {
      var i := IndexOf(a, y);
      assert s[i] == y;
      Apart(s, size, used, i, |a|);
    }
    if y in b {
      var i := IndexOf(b, y);
      assert s[|a| + 1 + i] == y;
      Apart(s, size, used, |a|, |a| + 1 + i);
    }
  }

  lemma Untouched<V>(s: seq<Ptr>, m: map<Ptr, V>, k: Ptr, u: V, l: Ptr, w: V)
    requires k !in s && l !in s
    ensures Agree(s, m, m[k := u]) && Agree(s, m, m[k := u][l := w])
  {
  }

  datatype View = View(
    lo: nat, hi: nat,           // the arena
    blocks: seq<Ptr>,           // every block, in address order
    size: map<Ptr, nat>,
    used: map<Ptr, bool>,
    free: set<Ptr>,             // the blocks the tree holds
    total: nat,                 // the_heap.all_size
    asked: map<Ptr, nat>)       // what the owner of each live block asked for

  /** The tree holds exactly the unused blocks, and every live block is as large as asked for. */
  ghost predicate Indexed(all: set<Ptr>, size: map<Ptr, nat>, used: map<Ptr, bool>, free: set<Ptr>,
                          asked: map<Ptr, nat>) {
    && (forall x :: x in free <==> x in all && !InUse(used, x))
    && (forall x :: x in asked <==> x in all && InUse(used, x))
    && (forall x :: x in asked ==> x % 8 == 0 && asked[x] + HEADER <= Size(size, x))
    && (forall x :: x in free ==> x % 8 == 0)
  }

  ghost predicate Good(v: View) {
    && v.lo > 0
    && Tiles(v.blocks, v.size, v.used, v.lo, v.hi)
    && v.total == FreeSum(v.blocks, v.size, v.used)
    && Indexed(Elems(v.blocks), v.size, v.used, v.free, v.asked)
  }

  /**
    Takes the blocks `mid` out from between `a` and `b`: what `a` and `b` are like on their own,
    also under marks and sizes that differ elsewhere.
   */
  lemma {:induction false} Sides(a: seq<Ptr>, mid: seq<Ptr>, b: seq<Ptr>, size: map<Ptr, nat>, used: map<Ptr, bool>,
                                 size': map<Ptr, nat>, used': map<Ptr, bool>, lo: nat, hi: nat)
    requires mid != [] && Tiles(a + mid + b, size, used, lo, hi)
    requires Agree(a, size, size') && Agree(b, size, size')
    requires Agree(a, used, used') && Agree(b, used, used')
    ensures Run(a, size', used') && Run(mid, size, used) && Run(b, size', used')
    ensures var y, z := mid[0], mid[|mid| - 1];
      && (if a == [] then y == lo
          else a[0] == lo && var p := a[|a| - 1]; p + Size(size', p) == y && (InUse(used', p) || InUse(used, y)))
      && (if b == [] then z + Size(size, z) == hi
          else && b[|b| - 1] + Size(size', b[|b| - 1]) == hi && z + Size(size, z) == b[0]
               && (InUse(used, z) || InUse(used', b[0])))
    ensures FreeSum(a + mid + b, size, used)
         == FreeSum(a, size', used') + FreeSum(mid, size, used) + FreeSum(b, size', used')
  {
    RunAppend(a + mid, b, size, used);
    RunAppend(a, mid, size, used);
    RunFrame(a, size, used, size', used');
    RunFrame(b, size, used, size', used');
    FreeSumAppend(a + mid, b, size, used);
    FreeSumAppend(a, mid, size, used);
    FreeSumFrame(a, |a|, size, used, size', used');
    FreeSumFrame(b, |b|, size, used, size', used');
    assert a != [] ==> a[0] in a && a[|a| - 1] in a;
    assert b != [] ==> b[0] in b && b[|b| - 1] in b;
  }

  ghost function EndOf(s: seq<Ptr>, size: map<Ptr, nat>): nat
    requires s != []
  {
    s[|s| - 1] + Size(size, s[|s| - 1])
  }

  /** Replaces the blocks `mid` by `mid'`, which cover the same bytes. */
  lemma {:induction false} Splice(a: seq<Ptr>, mid: seq<Ptr>, mid': seq<Ptr>, b: seq<Ptr>,
                                  size: map<Ptr, nat>, used: map<Ptr, bool>,
                                  size': map<Ptr, nat>, used': map<Ptr, bool>, lo: nat, hi: nat)
    requires mid != [] && Tiles(a + mid + b, size, used, lo, hi)
    requires Agree(a, size, size') && Agree(b, size, size')
    requires Agree(a, used, used') && Agree(b, used, used')
    requires mid' != [] && Run(mid', size', used')
    requires mid'[0] == mid[0] && EndOf(mid', size') == EndOf(mid, size)
    requires a == [] || InUse(used, a[|a| - 1]) || InUse(used', mid'[0])
    requires b == [] || InUse(used', mid'[|mid'| - 1]) || InUse(used, b[0])
    ensures Tiles(a + mid' + b, size', used', lo, hi)
    ensures FreeSum(a + mid' + b, size', used') + FreeSum(mid, size, used)
         == FreeSum(a + mid + b, size, used) + FreeSum(mid', size', used')
  {
    Sides(a, mid, b, size, used, size', used', lo, hi);
    RunAppend(a, mid', size', used');
    RunAppend(a + mid', b, size', used');
    FreeSumAppend(a + mid', b, size', used');
    FreeSumAppend(a, mid', size', used');
    assert b != [] ==> b[0] in b && b[0] == EndOf(mid', size');
    assert a != [] ==> a[|a| - 1] in a;
  }

  lemma {:induction false} Single(x: Ptr, size: map<Ptr, nat>, used: map<Ptr, bool>)
    ensures Run([x], size, used) <==> x in size && x in used && size[x] > HEADER
    ensures FreeSum([x], size, used) == FreeSize(x, size, used)
  {
    assert x in [x] && FreeUpTo([x], 1, size, used) == FreeUpTo([x], 0, size, used) + FreeSize(x, size, used);
  }

  lemma FreeNeighbours(a: seq<Ptr>, x: Ptr, b: seq<Ptr>, size: map<Ptr, nat>, used: map<Ptr, bool>)
    requires Run(a + [x] + b, size, used)
    ensures x in size && x in used && size[x] > HEADER
    ensures a != [] ==> InUse(used, a[|a| - 1]) || InUse(used, x)
    ensures b != [] ==> InUse(used, b[0]) || InUse(used, x)
  {
    var s := a + [x] + b;
    assert s[|a|] in s && s[|a|] == x;
    assert a != [] ==> JoinedAt(s, |a| - 1, size, used);
    assert b != [] ==> JoinedAt(s, |a|, size, used);
  }

  // ----- allocation -----

  /** A good heap; sealed as `Basics` explains. */
  ghost predicate Kept(v: View) {
    forall seal: nat :: GoodUnder(v, seal)
  }

  ghost predicate GoodUnder(v: View, seal: nat) {
    Good(v)
  }

  /** The whole of the free block `x` goes to a request for `want` bytes. */
  ghost function Taken(v: View, x: Ptr, want: nat): View
    requires x in v.size && v.size[x] <= v.total
  {
    v.(used := v.used[x := true], free := v.free - {x}, total := v.total - v.size[x],
       asked := v.asked[x := want])
  }

  lemma {:induction false} TakenGood(v: View, a: seq<Ptr>, x: Ptr, b: seq<Ptr>, want: nat)
    requires Good(v) && v.blocks == a + [x] + b && x in v.free
    requires want + HEADER <= Size(v.size, x)
    ensures x in v.size && v.size[x] <= v.total && Good(Taken(v, x, want))
  {
    var used := v.used[x := true];
    Outside(a, x, b, v.size, v.used, x);
    Untouched(a, v.used, x, true, x, true);
    Untouched(b, v.used, x, true, x, true);
    FreeNeighbours(a, x, b, v.size, v.used);
    Single(x, v.size, v.used);
    Single(x, v.size, used);
    Splice(a, [x], [x], b, v.size, v.used, v.size, used, v.lo, v.hi);
  }

  /** The first `n` bytes of the free block `x` go to the request, the rest becomes a free block. */
  ghost function Carved(v: View, a: seq<Ptr>, x: Ptr, b: seq<Ptr>, n: nat, want: nat): View
    requires x in v.size && n <= v.size[x] && n <= v.total
  {
    v.(blocks := a + [x, x + n] + b,
       size := v.size[x := n][x + n := v.size[x] - n],
       used := v.used[x := true][x + n := false],
       free := v.free - {x} + {x + n}, total := v.total - n,
       asked := v.asked[x := want])
  }

  lemma {:induction false} Pair(x: Ptr, y: Ptr, size: map<Ptr, nat>, used: map<Ptr, bool>)
    requires Run([x], size, used) && Run([y], size, used) && Joined(x, y, size, used)
    ensures Run([x, y], size, used)
    ensures FreeSum([x, y], size, used) == FreeSize(x, size, used) + FreeSize(y, size, used)
  {
    RunAppend([x], [y], size, used);
    FreeSumAppend([x], [y], size, used);
    Single(x, size, used);
    Single(y, size, used);
    assert [x] + [y] == [x, y];
  }

  lemma {:induction false} CarvedPair(x: Ptr, n: nat, size: map<Ptr, nat>, used: map<Ptr, bool>)
    requires x in size && HEADER < n && n + HEADER < size[x]
    ensures var size', used' := size[x := n][x + n := size[x] - n], used[x := true][x + n := false];
      && Run([x, x + n], size', used') && FreeSum([x, x + n], size', used') == size[x] - n
      && EndOf([x, x + n], size') == EndOf([x], size)
  {
    var y := x + n;
    var size', used' := size[x := n][y := size[x] - n], used[x := true][y := false];
    Single(x, size', used');
    Single(y, size', used');
    Pair(x, y, size', used');
  }

  lemma {:induction false} CarvedTiles(a: seq<Ptr>, x: Ptr, b: seq<Ptr>, n: nat,
                                       size: map<Ptr, nat>, used: map<Ptr, bool>, lo: nat, hi: nat)
    requires Tiles(a + [x] + b, size, used, lo, hi) && x in size && !InUse(used, x)
    requires HEADER < n && n + HEADER < size[x]
    ensures var size', used' := size[x := n][x + n := size[x] - n], used[x := true][x + n := false];
      && Tiles(a + [x, x + n] + b, size', used', lo, hi)
      && FreeSum(a + [x, x + n] + b, size', used') + n == FreeSum(a + [x] + b, size, used)
  {
    var y := x + n;
    var size', used' := size[x := n][y := size[x] - n], used[x := true][y := false];
    Outside(a, x, b, size, used, x);
    Outside(a, x, b, size, used, y);
    Untouched(a, used, x, true, y, false);
    Untouched(b, used, x, true, y, false);
    Untouched(a, size, x, n, y, size[x] - n);
    Untouched(b, size, x, n, y, size[x] - n);
    FreeNeighbours(a, x, b, size, used);
    Single(x, size, used);
    CarvedPair(x, n, size, used);
    Splice(a, [x], [x, y], b, size, used, size', used', lo, hi);
  }

  /** The second part of a split block starts where no block did. */
  lemma CarvedOutside(a: seq<Ptr>, x: Ptr, b: seq<Ptr>, n: nat, size: map<Ptr, nat>, used: map<Ptr, bool>)
    requires Run(a + [x] + b, size, used) && x in size && 0 < n < size[x]
    ensures x + n !in a + [x] + b && x + n !in Elems(a + [x] + b)
  {
    Outside(a, x, b, size, used, x + n);
  }

  lemma {:induction false} CarvedIndexed(v: View, a: seq<Ptr>, x: Ptr, b: seq<Ptr>, n: nat, want: nat)
    requires x in v.size && x in v.free && n <= v.total && x + n !in Elems(a + [x] + b)
    requires Indexed(Elems(a + [x] + b), v.size, v.used, v.free, v.asked)
    requires n % 8 == 0 && want + HEADER <= n && n + HEADER < v.size[x]
    ensures var v' := Carved(v, a, x, b, n, want);
      Indexed(Elems(v'.blocks), v'.size, v'.used, v'.free, v'.asked)
  {
    ElemsCarved(a, x, x + n, b);
    IndexedCarved(Elems(a + [x] + b), v.size, v.used, v.free, v.asked, x, n, want);
  }

  lemma ElemsCarved(a: seq<Ptr>, x: Ptr, y: Ptr, b: seq<Ptr>)
    ensures Elems(a + [x, y] + b) == Elems(a + [x] + b) + {y}
  {
  }

  lemma IndexedCarved(all: set<Ptr>, size: map<Ptr, nat>, used: map<Ptr, bool>, free: set<Ptr>, asked: map<Ptr, nat>,
                      x: Ptr, n: nat, want: nat)
    requires Indexed(all, size, used, free, asked) && x in free && x in size && x + n !in all && n > 0
    requires want + HEADER <= n <= size[x] && n % 8 == 0
    ensures Indexed(all + {x + n}, size[x := n][x + n := size[x] - n], used[x := true][x + n := false],
                    free - {x} + {x + n}, asked[x := want])
  {
  }

  lemma {:induction false} CarvedGood(v: View, a: seq<Ptr>, x: Ptr, b: seq<Ptr>, n: nat, want: nat)
    requires Good(v) && v.blocks == a + [x] + b && x in v.free
    requires n % 8 == 0 && want + HEADER <= n && n + HEADER < Size(v.size, x) && want > 0
    ensures n <= v.total && x + n !in v.blocks && Good(Carved(v, a, x, b, n, want))
  {
    CarvedView(v, a, x, b, n, want);
    CarvedOutside(a, x, b, n, v.size, v.used);
    CarvedIndexed(v, a, x, b, n, want);
  }

  lemma {:induction false} CarvedView(v: View, a: seq<Ptr>, x: Ptr, b: seq<Ptr>, n: nat, want: nat)
    requires Tiles(v.blocks, v.size, v.used, v.lo, v.hi) && v.total == FreeSum(v.blocks, v.size, v.used)
    requires v.blocks == a + [x] + b && x in v.size && !InUse(v.used, x)
    requires HEADER < n && n + HEADER < v.size[x]
    ensures n <= v.total
    ensures var v' := Carved(v, a, x, b, n, want);
      Tiles(v'.blocks, v'.size, v'.used, v'.lo, v'.hi) && v'.total == FreeSum(v'.blocks, v'.size, v'.used)
  {
    CarvedTiles(a, x, b, n, v.size, v.used, v.lo, v.hi);
  }

  // ----- release -----

  ghost function Grown(pre: seq<Ptr>, x: Ptr, post: seq<Ptr>, size: map<Ptr, nat>): nat {
    (if pre == [] then 0 else Size(size, pre[0])) + Size(size, x) + (if post == [] then 0 else Size(size, post[0]))
  }

  /**
    The live block `x` is released and joined with a free block before it (`pre`, at most one)
    and a free block after it (`post`, at most one).
   */
  ghost function Freed(v: View, a: seq<Ptr>, pre: seq<Ptr>, x: Ptr, post: seq<Ptr>, b: seq<Ptr>): View {
    var y := if pre == [] then x else pre[0];
    var size := v.size[x := Grown([], x, post, v.size)];
    v.(blocks := a + [y] + b,
       size := if pre == [] then size else size[y := Grown(pre, x, post, v.size)],
       used := v.used[x := false],
       free := v.free - Elems(post) + {y},
       total := v.total + Size(v.size, x),
       asked := v.asked - {x})
  }

  ghost predicate AllFree(s: seq<Ptr>, used: map<Ptr, bool>) {
    forall x :: x in s ==> !InUse(used, x)
  }

  /** `x` with its free neighbours is one stretch of memory, all of it free but `x`. */
  lemma {:induction false} Stretch(pre: seq<Ptr>, x: Ptr, post: seq<Ptr>, size: map<Ptr, nat>, used: map<Ptr, bool>)
    requires |pre| <= 1 && |post| <= 1 && AllFree(pre, used) && AllFree(post, used) && InUse(used, x)
    requires Run(pre + [x] + post, size, used)
    ensures var mid := pre + [x] + post;
      && EndOf(mid, size) == mid[0] + Grown(pre, x, post, size)
      && FreeSum(mid, size, used) + Size(size, x) == Grown(pre, x, post, size)
  {
    FreeSumAppend(pre + [x], post, size, used);
    FreeSumAppend(pre, [x], size, used);
    Single(x, size, used);
    var mid := pre + [x] + post;
    if pre != [] {
      Single(pre[0], size, used);
      assert pre == [pre[0]] && pre[0] in pre && JoinedAt(mid, 0, size, used);
    }
    if post != [] {
      Single(post[0], size, used);
      assert post == [post[0]] && post[0] in post && JoinedAt(mid, |pre|, size, used);
    }
  }

  /** The blocks `mid` become one free block. */
  lemma {:induction false} MergeTiles(a: seq<Ptr>, mid: seq<Ptr>, b: seq<Ptr>, size: map<Ptr, nat>,
                                      used: map<Ptr, bool>,
                                      size': map<Ptr, nat>, used': map<Ptr, bool>, lo: nat, hi: nat)
    requires mid != [] && Tiles(a + mid + b, size, used, lo, hi)
    requires Agree(a, size, size') && Agree(b, size, size')
    requires Agree(a, used, used') && Agree(b, used, used')
    requires var y := mid[0];
      y in size' && y in used' && !used'[y] && size'[y] > HEADER && y + size'[y] == EndOf(mid, size)
    requires a == [] || InUse(used, a[|a| - 1])
    requires b == [] || InUse(used, b[0])
    ensures Tiles(a + [mid[0]] + b, size', used', lo, hi)
    ensures FreeSum(a + [mid[0]] + b, size', used') + FreeSum(mid, size, used)
         == FreeSum(a + mid + b, size, used) + size'[mid[0]]
  {
    Single(mid[0], size', used');
    Splice(a, mid, [mid[0]], b, size, used, size', used', lo, hi);
  }

  lemma Regrouped(a: seq<Ptr>, pre: seq<Ptr>, x: Ptr, post: seq<Ptr>, b: seq<Ptr>)
    ensures a + (pre + [x] + post) + b == (a + pre) + [x] + (post + b)
    ensures |pre| == 1 ==> a + (pre + [x] + post) + b == a + [pre[0]] + ([x] + post + b)
  {
  }

  /** Neither `x` nor its free neighbour before it is among the other blocks. */
  lemma FreedOutside(a: seq<Ptr>, pre: seq<Ptr>, x: Ptr, post: seq<Ptr>, b: seq<Ptr>, size: map<Ptr, nat>,
                     used: map<Ptr, bool>)
    requires |pre| <= 1 && Run(a + (pre + [x] + post) + b, size, used)
    ensures x !in a && x !in b && (pre != [] ==> pre[0] !in a && pre[0] !in b)
    ensures x in size && x in used && size[x] > HEADER
    ensures pre != [] ==> pre[0] in size && pre[0] in used && pre[0] != x
  {
    Regrouped(a, pre, x, post, b);
    FreeNeighbours(a + pre, x, post + b, size, used);
    Outside(a + pre, x, post + b, size, used, x);
    if pre != [] {
      FreeNeighbours(a, pre[0], [x] + post + b, size, used);
      Outside(a, pre[0], [x] + post + b, size, used, pre[0]);
    }
  }

  lemma {:induction false} FreedTiles(v: View, a: seq<Ptr>, pre: seq<Ptr>, x: Ptr, post: seq<Ptr>, b: seq<Ptr>)
    requires Tiles(v.blocks, v.size, v.used, v.lo, v.hi) && v.total == FreeSum(v.blocks, v.size, v.used)
    requires v.blocks == a + (pre + [x] + post) + b && InUse(v.used, x)
    requires |pre| <= 1 && |post| <= 1 && AllFree(pre, v.used) && AllFree(post, v.used)
    requires a == [] || InUse(v.used, a[|a| - 1])
    requires b == [] || InUse(v.used, b[0])
    ensures var v' := Freed(v, a, pre, x, post, b);
      Tiles(v'.blocks, v'.size, v'.used, v'.lo, v'.hi) && v'.total == FreeSum(v'.blocks, v'.size, v'.used)
  {
    var mid, y := pre + [x] + post, if pre == [] then x else pre[0];
    var v' := Freed(v, a, pre, x, post, b);
    assert pre != [] ==> pre[0] in pre;
    FreedOutside(a, pre, x, post, b, v.size, v.used);
    Untouched(a, v.used, x, false, x, false);
    Untouched(b, v.used, x, false, x, false);
    Untouched(a, v.size, x, v'.size[x], y, v'.size[y]);
    Untouched(b, v.size, x, v'.size[x], y, v'.size[y]);
    Sides(a, mid, b, v.size, v.used, v'.size, v'.used, v.lo, v.hi);
    Stretch(pre, x, post, v.size, v.used);
    MergeTiles(a, mid, b, v.size, v.used, v'.size, v'.used, v.lo, v.hi);
  }

  lemma IndexedFreed(all: set<Ptr>, all': set<Ptr>, size: map<Ptr, nat>, size': map<Ptr, nat>, used: map<Ptr, bool>,
                     free: set<Ptr>, asked: map<Ptr, nat>, x: Ptr, y: Ptr, gone: set<Ptr>)
    requires Indexed(all, size, used, free, asked) && x in asked
    requires all' == all - {x} - gone + {y} && gone <= free && (y == x || y in free)
    requires forall z :: z in asked && z != x ==> Size(size', z) == Size(size, z)
    ensures Indexed(all', size', used[x := false], free - gone + {y}, asked - {x})
  {
  }

  lemma ElemsFreed(a: seq<Ptr>, pre: seq<Ptr>, x: Ptr, post: seq<Ptr>, b: seq<Ptr>)
    requires |pre| <= 1 && |post| <= 1
    requires x !in a && x !in b && forall z :: z in post ==> z !in a && z !in b && z !in pre && z != x
    ensures var y := if pre == [] then x else pre[0];
      Elems(a + [y] + b) == Elems(a + (pre + [x] + post) + b) - {x} - Elems(post) + {y}
  {
    var y := if pre == [] then x else pre[0];
    assert forall z :: z in pre ==> z == y;
    assert y in pre + [x];
  }

  /** The set of blocks loses `x` and its free neighbours, and gains the block they become. */
  lemma FreedElems(a: seq<Ptr>, pre: seq<Ptr>, x: Ptr, post: seq<Ptr>, b: seq<Ptr>, size: map<Ptr, nat>,
                   used: map<Ptr, bool>)
    requires |pre| <= 1 && |post| <= 1 && Run(a + (pre + [x] + post) + b, size, used)
    ensures var all, y := Elems(a + (pre + [x] + post) + b), if pre == [] then x else pre[0];
      && Elems(a + [y] + b) == all - {x} - Elems(post) + {y}
      && {x, y} + Elems(pre) + Elems(post) <= all && (pre != [] ==> y != x)
  {
    FreedOutside(a, pre, x, post, b, size, used);
    PostOutside(a, pre, x, post, b, size, used);
    ElemsFreed(a, pre, x, post, b);
    assert pre != [] ==> pre[0] in pre;
  }

  lemma {:induction false} FreedIndexed(v: View, a: seq<Ptr>, pre: seq<Ptr>, x: Ptr, post: seq<Ptr>, b: seq<Ptr>)
    requires AllFree(pre, v.used) && AllFree(post, v.used) && InUse(v.used, x)
    requires Indexed(Elems(a + (pre + [x] + post) + b), v.size, v.used, v.free, v.asked)
    requires var all, y := Elems(a + (pre + [x] + post) + b), if pre == [] then x else pre[0];
      && Elems(a + [y] + b) == all - {x} - Elems(post) + {y}
      && {x, y} + Elems(pre) + Elems(post) <= all && (pre != [] ==> y != x)
    ensures var v' := Freed(v, a, pre, x, post, b);
      Indexed(Elems(v'.blocks), v'.size, v'.used, v'.free, v'.asked)
  {
    var v', y := Freed(v, a, pre, x, post, b), if pre == [] then x else pre[0];
    var all := Elems(a + (pre + [x] + post) + b);
    assert pre != [] ==> y in pre && y in Elems(pre);
    assert v'.blocks == a + [y] + b;
    assert Elems(v'.blocks) == all - {x} - Elems(post) + {y};
    IndexedFreed(all, Elems(v'.blocks), v.size, v'.size, v.used, v.free, v.asked, x, y, Elems(post));
  }

  lemma PostOutside(a: seq<Ptr>, pre: seq<Ptr>, x: Ptr, post: seq<Ptr>, b: seq<Ptr>, size: map<Ptr, nat>,
                    used: map<Ptr, bool>)
    requires |post| <= 1 && Run(a + (pre + [x] + post) + b, size, used)
    ensures forall z :: z in post ==> z !in a && z !in b && z !in pre && z != x
  {
    if post != [] {
      var n := post[0];
      assert a + (pre + [x] + post) + b == (a + pre + [x]) + [n] + b;
      FreeNeighbours(a + pre + [x], n, b, size, used);
      Outside(a + pre + [x], n, b, size, used, n);
    }
  }

  lemma {:induction false} FreedGood(v: View, a: seq<Ptr>, pre: seq<Ptr>, x: Ptr, post: seq<Ptr>, b: seq<Ptr>)
    requires Good(v) && v.blocks == a + (pre + [x] + post) + b && InUse(v.used, x)
    requires |pre| <= 1 && |post| <= 1 && AllFree(pre, v.used) && AllFree(post, v.used)
    requires a == [] || InUse(v.used, a[|a| - 1])
    requires b == [] || InUse(v.used, b[0])
    ensures Good(Freed(v, a, pre, x, post, b))
  {
    FreedTiles(v, a, pre, x, post, b);
    FreedElems(a, pre, x, post, b, v.size, v.used);
    FreedIndexed(v, a, pre, x, post, b);
  }

  // ----- what it comes to -----

  /** Serving a request from the free block `x`, in full. */
  ghost function Served(v: View, a: seq<Ptr>, x: Ptr, b: seq<Ptr>, n: nat, want: nat): View
    requires x in v.size && n <= v.size[x] <= v.total
  {
    if v.size[x] - n > MIN_SIZE then Carved(v, a, x, b, n, want) else Taken(v, x, want)
  }

  lemma {:induction false} ServedKept(v: View, a: seq<Ptr>, x: Ptr, b: seq<Ptr>, want: nat)
    requires Kept(v) && v.blocks == a + [x] + b && x in v.free && want > 0
    requires AlignUp(want + HEADER) < Size(v.size, x)
    ensures x in v.size && v.size[x] <= v.total && Kept(Served(v, a, x, b, AlignUp(want + HEADER), want))
    ensures v.size[x] - AlignUp(want + HEADER) > MIN_SIZE ==>
      x + AlignUp(want + HEADER) !in v.blocks && x + AlignUp(want + HEADER) !in v.free
  {
    assert GoodUnder(v, 0);
    var n := AlignUp(want + HEADER);
    TakenGood(v, a, x, b, want);
    if v.size[x] - n > MIN_SIZE {
      CarvedGood(v, a, x, b, n, want);
      assert x + n !in Elems(v.blocks);
    }
  }

  /** `v'` is `v` after the live block `x` was released and joined with its free neighbours. */
  ghost predicate FreedFrom(v: View, v': View, a: seq<Ptr>, pre: seq<Ptr>, x: Ptr, post: seq<Ptr>, b: seq<Ptr>) {
    && v.blocks == a + (pre + [x] + post) + b && x in v.asked
    && |pre| <= 1 && |post| <= 1 && AllFree(pre, v.used) && AllFree(post, v.used)
    && (pre != [] || a == [] || InUse(v.used, a[|a| - 1]))
    && (post != [] || b == [] || InUse(v.used, b[0]))
    && v' == Freed(v, a, pre, x, post, b)
  }

  lemma {:induction false} FreedKept(v: View, v': View, a: seq<Ptr>, pre: seq<Ptr>, x: Ptr, post: seq<Ptr>, b: seq<Ptr>)
    requires Kept(v) && FreedFrom(v, v', a, pre, x, post, b)
    ensures Kept(v')
  {
    assert GoodUnder(v, 0);
    assert InUse(v.used, x);
    UsedBoundary(a, pre, x, post, b, v.size, v.used);
    FreedGood(v, a, pre, x, post, b);
  }

  /** Beyond a free neighbour the next block is in use. */
  lemma {:induction false} UsedBoundary(a: seq<Ptr>, pre: seq<Ptr>, x: Ptr, post: seq<Ptr>, b: seq<Ptr>,
                                        size: map<Ptr, nat>, used: map<Ptr, bool>)
    requires Run(a + (pre + [x] + post) + b, size, used)
    requires |pre| <= 1 && |post| <= 1 && AllFree(pre, used) && AllFree(post, used)
    ensures pre != [] && a != [] ==> InUse(used, a[|a| - 1])
    ensures post != [] && b != [] ==> InUse(used, b[0])
  {
    var s := a + (pre + [x] + post) + b;
    if pre != [] && a != [] {
      assert pre[0] in pre && JoinedAt(s, |a| - 1, size, used);
    }
    if post != [] && b != [] {
      assert post[0] in post && JoinedAt(s, |a| + |pre| + 1, size, used);
    }
  }

  /** The fields of the heap as release leaves them. */
  lemma {:induction false} FreedFields(v: View, v': View, a: seq<Ptr>, pre: seq<Ptr>, x: Ptr, post: seq<Ptr>,
                                       b: seq<Ptr>, y: Ptr)
    requires if pre == [] then y == x else y == pre[0] && y != x
    requires v'.lo == v.lo && v'.hi == v.hi && v'.blocks == a + [y] + b
    requires var size := v.size[x := Grown([], x, post, v.size)];
      v'.size == if pre == [] then size else size[y := Size(size, y) + Size(size, x)]
    requires v'.used == v.used[x := false] && v'.total == v.total + Size(v.size, x) && v'.asked == v.asked - {x}
    requires v'.free == v.free - Elems(post) - {y} + {y}
    ensures v' == Freed(v, a, pre, x, post, b)
  {
    assert v.free - Elems(post) - {y} + {y} == v.free - Elems(post) + {y};
  }

  /** What release finds around a live block. */
  lemma {:induction false} LiveBlock(v: View, a: seq<Ptr>, x: Ptr, b: seq<Ptr>)
    requires Kept(v) && v.blocks == a + [x] + b && x in v.asked
    ensures x in v.size && x in v.used && v.used[x] && x !in v.free && x !in a && x !in b
    ensures forall y :: y in a || y in b ==> y in v.used && y in v.size && (y in v.free <==> !v.used[y])
  {
    assert GoodUnder(v, 0);
    FreeNeighbours(a, x, b, v.size, v.used);
    Outside(a, x, b, v.size, v.used, x);
    assert x in Elems(v.blocks);
    forall y | y in a || y in b ensures y in v.used && y in v.size && (y in v.free <==> !v.used[y]) {
      assert y in v.blocks && y in Elems(v.blocks);
    }
  }

  /** Every block of a good heap, and every byte of it, lies inside the arena. */
  lemma {:induction false} Inside(v: View, a: seq<Ptr>, x: Ptr, b: seq<Ptr>)
    requires Kept(v) && v.blocks == a + [x] + b
    ensures 0 < v.lo <= x && x + Size(v.size, x) <= v.hi
    ensures NULL !in v.blocks
  {
    assert GoodUnder(v, 0);
    var s := v.blocks;
    assert s[|a|] == x;
    forall i | 0 <= i < |s| ensures s[i] >= v.lo {
      if 0 < i { Apart(s, v.size, v.used, 0, i); }
    }
    if |a| < |s| - 1 { Apart(s, v.size, v.used, |a|, |s| - 1); }
  }

  /** A live payload is aligned, at least as large as asked for, and inside the arena. */
  lemma {:induction false} LivePayload(v: View, x: Ptr)
    requires Good(v) && x in v.asked
    ensures v.lo <= x && x + HEADER + v.asked[x] <= x + Size(v.size, x) <= v.hi
    ensures (x + HEADER) % 8 == 0
  {
    var s := v.blocks;
    assert x in Elems(s);
    var i := IndexOf(s, x);
    if 0 < i { Apart(s, v.size, v.used, 0, i); }
    if i < |s| - 1 { Apart(s, v.size, v.used, i, |s| - 1); }
    assert s[|s| - 1] in s;
  }

  /** Of two live blocks the lower one ends before the other. */
  lemma {:induction false} LivePayloads(v: View, x: Ptr, y: Ptr)
    requires Good(v) && x in v.asked && y in v.asked && x < y
    ensures x + HEADER + v.asked[x] <= x + Size(v.size, x) <= y
  {
    var s := v.blocks;
    LivePayload(v, x);
    assert x in Elems(s) && y in Elems(s);
    var i, j := IndexOf(s, x), IndexOf(s, y);
    if j < i { Apart(s, v.size, v.used, j, i); }
    Apart(s, v.size, v.used, i, j);
  }

  // ----- the heap is a function of its live blocks -----

  /**
    Of two runs over the same bytes with the same live blocks, the first block of one does not
    end behind the first block of the other.
   */
  lemma {:induction false} FirstEnds(s: seq<Ptr>, size: map<Ptr, nat>, used: map<Ptr, bool>,
                                     t: seq<Ptr>, size': map<Ptr, nat>, used': map<Ptr, bool>)
    requires Run(s, size, used) && Run(t, size', used') && s != [] && t != []
    requires s[0] == t[0] && EndOf(s, size) == EndOf(t, size') && !InUse(used, s[0])
    requires forall x :: x in s && InUse(used, x) ==> x in t
    ensures Size(size', t[0]) <= Size(size, s[0])
  {
    if |s| > 1 {
      assert JoinedAt(s, 0, size, used) && s[1] in s;
      Apart(s, size, used, 0, 1);
      var i := IndexOf(t, s[1]);
      Apart(t, size', used', 0, i);
    } else if |t| > 1 {
      Apart(t, size', used', 0, |t| - 1);
    }
  }

  /** Two runs over the same bytes with the same live blocks are the same. */
  lemma {:induction false} SameRuns(s: seq<Ptr>, size: map<Ptr, nat>, used: map<Ptr, bool>,
                                    t: seq<Ptr>, size': map<Ptr, nat>, used': map<Ptr, bool>)
    requires Run(s, size, used) && Run(t, size', used') && s != [] && t != []
    requires s[0] == t[0] && EndOf(s, size) == EndOf(t, size')
    requires forall x :: x in s && InUse(used, x) <==> x in t && InUse(used', x)
    requires forall x :: x in s && InUse(used, x) ==> Size(size, x) == Size(size', x)
    ensures s == t && forall x :: x in s ==> Size(size, x) == Size(size', x) && (InUse(used, x) <==> InUse(used', x))
    decreases s
  {
    assert s[0] in s && t[0] in t;
    if !InUse(used, s[0]) {
      FirstEnds(s, size, used, t, size', used');
      FirstEnds(t, size', used', s, size, used);
    }
    assert Size(size, s[0]) == Size(size', t[0]);
    if |s| > 1 { Apart(s, size, used, 0, |s| - 1); }
    if |t| > 1 { Apart(t, size', used', 0, |t| - 1); }
    assert |s| == 1 <==> |t| == 1;
    if |s| > 1 {
      TailRun(s, size, used);
      TailRun(t, size', used');
      SameRuns(s[1..], size, used, t[1..], size', used');
      assert s == [s[0]] + s[1..] && t == [t[0]] + t[1..];
    }
  }

  lemma TailRun(s: seq<Ptr>, size: map<Ptr, nat>, used: map<Ptr, bool>)
    requires Run(s, size, used) && |s| > 1
    ensures Run(s[1..], size, used) && EndOf(s[1..], size) == EndOf(s, size) && s[1] == s[0] + Size(size, s[0])
    ensures s[0] !in s[1..] && forall x :: x in s <==> x == s[0] || x in s[1..]
  {
    assert s == [s[0]] + s[1..];
    RunAppend([s[0]], s[1..], size, used);
    assert JoinedAt(s, 0, size, used);
    forall i | 0 <= i < |s| - 1 ensures s[1..][i] != s[0] {
      Apart(s, size, used, 0, i + 1);
    }
  }

  /** The same heap, but for fields of addresses at which no block starts. */
  ghost predicate SameHeap(v: View, w: View) {
    && v.lo == w.lo && v.hi == w.hi && v.blocks == w.blocks && v.free == w.free && v.total == w.total
    && v.asked.Keys == w.asked.Keys && forall x :: x in v.blocks ==> Size(v.size, x) == Size(w.size, x)
  }

  /** Blocks, free blocks and their total are a function of the live blocks. */
  lemma HeapFromLive(v: View, w: View)
    requires Good(v) && Good(w) && v.lo == w.lo && v.hi == w.hi && v.asked.Keys == w.asked.Keys
    requires forall x :: x in v.asked ==> Size(v.size, x) == Size(w.size, x)
    ensures SameHeap(v, w)
  {
    LiveInBlocks(v);
    LiveInBlocks(w);
    SameRuns(v.blocks, v.size, v.used, w.blocks, w.size, w.used);
    FreeSumFrame(v.blocks, |v.blocks|, v.size, v.used, w.size, w.used);
  }

  lemma LiveInBlocks(v: View)
    requires Good(v)
    ensures forall x :: x in v.asked <==> x in v.blocks && InUse(v.used, x)
  {
    assert forall x :: x in Elems(v.blocks) <==> x in v.blocks;
  }

  // ----- allocation and release, said of the live blocks -----

  /**
    `w` is `v` after the free block `x` served a request for `want` bytes that rounds to `n`.  The
    block is split exactly when more than two headers remain: then the request gets `n` bytes and
    the others are a free block behind them.  Otherwise the request gets the whole block.
   */
  ghost predicate TakenFrom(v: View, w: View, x: Ptr, n: nat, want: nat) {
    && x in v.free && w.lo == v.lo && w.hi == v.hi && w.asked == v.asked[x := want]
    && (forall y :: y in v.blocks && y != x ==> Size(w.size, y) == Size(v.size, y))
    && w.total + Size(w.size, x) == v.total
    && var z := Size(v.size, x);
      if z > n + 2 * HEADER
      then Size(w.size, x) == n && Size(w.size, x + n) == z - n && w.free == v.free - {x} + {x + n}
      else Size(w.size, x) == z && w.free == v.free - {x}
  }

  lemma ServedIsTaken(v: View, a: seq<Ptr>, x: Ptr, b: seq<Ptr>, n: nat, want: nat)
    requires Good(v) && v.blocks == a + [x] + b && x in v.free && 0 < n < Size(v.size, x) <= v.total
    ensures TakenFrom(v, Served(v, a, x, b, n, want), x, n, want)
  {
    Outside(a, x, b, v.size, v.used, x + n);
  }

  /** `w` is `v` after the live block `x` was released; what else there is follows from `HeapFromLive`. */
  ghost predicate ReleasedFrom(v: View, w: View, x: Ptr) {
    && x in v.asked && w.lo == v.lo && w.hi == v.hi && w.asked == v.asked - {x}
    && (forall y :: y in w.asked ==> Size(w.size, y) == Size(v.size, y))
    && w.total == v.total + Size(v.size, x)
  }

  lemma FreedIsReleased(v: View, w: View, a: seq<Ptr>, pre: seq<Ptr>, x: Ptr, post: seq<Ptr>, b: seq<Ptr>)
    requires Good(v) && FreedFrom(v, w, a, pre, x, post, b)
    ensures ReleasedFrom(v, w, x)
  {
    assert pre != [] ==> pre[0] in pre;
    LiveInBlocks(v);
  }

  /** Allocating a block and releasing it at once restores the heap. */
  lemma MallocFreeRestores(v: View, w: View, u: View, x: Ptr, n: nat, want: nat)
    requires Good(v) && Good(w) && Good(u) && TakenFrom(v, w, x, n, want) && ReleasedFrom(w, u, x)
    ensures SameHeap(u, v) && u.asked == v.asked
  {
    LiveInBlocks(v);
    assert x !in v.asked;
    HeapFromLive(u, v);
  }

  lemma OneInUse(s: seq<Ptr>, size: map<Ptr, nat>, used: map<Ptr, bool>)
    requires Run(s, size, used) && |s| > 1
    ensures exists x :: x in s && InUse(used, x)
  {
    assert JoinedAt(s, 0, size, used) && s[0] in s && s[1] in s;
  }

  /** A heap without live blocks is one free block over the arena. */
  lemma NothingLive(v: View)
    requires Good(v) && v.asked == map[]
    ensures v.blocks == [v.lo] && v.free == {v.lo} && Size(v.size, v.lo) == v.hi - v.lo == v.total
  {
    LiveInBlocks(v);
    var s := v.blocks;
    assert s[0] in s;
    if |s| > 1 {
      OneInUse(s, v.size, v.used);
      assert false;
    }
    assert s == [v.lo];
    Single(v.lo, v.size, v.used);
    assert forall x :: x in v.free <==> x in Elems(s);
  }
}
