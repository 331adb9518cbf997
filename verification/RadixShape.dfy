/**
  Indexes as digits, and the radix tree of lib/source/radix.c as a value: which node stands for
  which prefix of an index.
 */
module RadixShape {
  import opened Basics

  const BIT_LEVEL: nat := 4
  const SIZE_LEVEL: nat := 16
  const MAX_HEIGHT: nat := 16

  /** `size_t` on a 64-bit host. */
  type Index = v: int | 0 <= v < 0x1_0000_0000_0000_0000

  /** The address of the root struct, which the first node is given as its parent. */
  const ROOT: Ptr := 1

  // ----- digits -----

  /** `index >> shift`. */
  function Shifted(index: nat, shift: nat): nat {
    Quotient(index, Pow2(shift))
  }

  function Quotient(a: nat, m: nat): nat
    requires m > 0
  {
    a / m
  }

  /** What is left of an index above the lowest `h` digits. */
  function Prefix(index: nat, h: nat): nat {
    if h == 0 then index else Prefix(index, h - 1) / SIZE_LEVEL
  }

  function Log2(v: nat): nat
    requires v > 0
  {
    if v < 2 then 0 else 1 + Log2(v / 2)
  }

  /** `radix_tree_height`: how many digits an index has. */
  function HeightOf(index: nat): (h: nat)
    ensures h > 0
  {
    if index == 0 then 1 else Log2(index) / BIT_LEVEL + 1
  }

  lemma DivideTwice(a: nat, m: nat, n: nat)
    requires m > 0 && n > 0
    ensures m * n > 0 && a / (m * n) == a / m / n
  {
    DivideParts(a, m, n, a / m, a % m, a / m / n, a / m % n);
  }

  lemma DivideParts(a: nat, m: nat, n: nat, q: nat, r: nat, q': nat, r': nat)
    requires a == m * q + r && r < m && q == n * q' + r' && r' < n
    ensures m * n > 0 && a / (m * n) == q'
  {
    Distribute(m, n, q', r');
    Times(m, r', n - 1);
    Times(m, 0, r');
    assert m * (n - 1) == m * n - m;
    Divide(a, m * n, m * r' + r, q');
  }

  lemma {:induction false} PrefixIsShift(index: nat, h: nat)
    ensures Prefix(index, h) == Shifted(index, h * BIT_LEVEL)
  {
    if h > 0 {
      PrefixIsShift(index, h - 1);
      Pow2Add((h - 1) * BIT_LEVEL, BIT_LEVEL);
      assert Pow2(BIT_LEVEL) == SIZE_LEVEL;
      DivideTwice(index, Pow2((h - 1) * BIT_LEVEL), SIZE_LEVEL);
    }
  }

  lemma {:induction false} PrefixMonotone(a: nat, b: nat, h: nat)
    requires a <= b
    ensures Prefix(a, h) <= Prefix(b, h)
  {
    if h > 0 {
      PrefixMonotone(a, b, h - 1);
    }
  }

  /** How many indexes a tree of height `h` has room for. */
  function Capacity(h: nat): nat {
    Pow2(h * BIT_LEVEL)
  }

  lemma FitsIff(index: nat, h: nat)
    ensures Prefix(index, h) == 0 <==> index < Capacity(h)
  {
    PrefixIsShift(index, h);
    QuotientZero(index, Capacity(h));
  }

  lemma QuotientZero(a: nat, m: nat)
    requires m > 0
    ensures a / m == 0 <==> a < m
  {
    if a < m { Divide(a, m, a, 0); }
  }

  lemma {:induction false} Log2Bounds(v: nat)
    requires v > 0
    ensures Pow2(Log2(v)) <= v < Pow2(Log2(v) + 1)
  {
    if v >= 2 {
      Log2Bounds(v / 2);
    }
  }

  /** The height of an index is the least height with room for it. */
  lemma HeightIsLeast(index: nat, h: nat)
    requires h > 0
    ensures HeightOf(index) <= h <==> index < Capacity(h)
  {
    if index > 0 {
      var l := Log2(index);
      Log2Bounds(index);
      if l / BIT_LEVEL + 1 <= h {
        Pow2Monotone(l + 1, h * BIT_LEVEL);
      } else {
        Pow2Monotone(h * BIT_LEVEL, l);
      }
    }
  }

  lemma HeightBounded(index: Index)
    ensures HeightOf(index) <= MAX_HEIGHT
  {
    assert Pow2(8) == 256;
    Pow2Add(8, 8);
    Pow2Add(16, 16);
    Pow2Add(32, 32);
    HeightIsLeast(index, MAX_HEIGHT);
  }

  /** What a search makes of an index: the digits above the height of the tree are not looked at. */
  function Seen(index: nat, h: nat): nat {
    index % Capacity(h)
  }

  lemma SeenFits(index: nat, h: nat)
    ensures Seen(index, h) < Capacity(h) && Prefix(Seen(index, h), h) == 0
    ensures index < Capacity(h) ==> Seen(index, h) == index
  {
    FitsIff(Seen(index, h), h);
    if index < Capacity(h) {
      Divide(index, Capacity(h), index, 0);
    }
  }

  /** The part above a level moves through the division. */
  lemma {:induction false} PrefixSplit(c: nat, q: nat, h: nat, j: nat)
    requires j <= h
    ensures Prefix(c + Capacity(h) * q, j) == Prefix(c, j) + Capacity(h - j) * q
  {
    if j > 0 {
      PrefixSplit(c, q, h, j - 1);
      CapacityStep(h - j + 1, q);
      var a, b := Prefix(c, j - 1), Capacity(h - j) * q;
      assert Capacity(h - (j - 1)) * q == SIZE_LEVEL * b;
    }
  }

  /** A tree of height `h` reads the same digits of an index and of what it sees of it. */
  lemma SeenDigit(index: nat, h: nat, j: nat)
    requires j < h
    ensures Prefix(Seen(index, h), j) % SIZE_LEVEL == Prefix(index, j) % SIZE_LEVEL
  {
    var q := Euclid(index, Capacity(h));
    DigitAbove(index, Seen(index, h), q, h, j);
  }

  lemma Euclid(a: nat, m: nat) returns (q: nat)
    requires m > 0
    ensures a == a % m + m * q
  {
    q := Quotient(a, m);
  }

  lemma DigitAbove(index: nat, c: nat, q: nat, h: nat, j: nat)
    requires j < h && index == c + Capacity(h) * q
    ensures Prefix(c, j) % SIZE_LEVEL == Prefix(index, j) % SIZE_LEVEL
  {
    PrefixSplit(c, q, h, j);
    CapacityStep(h - j, q);
    AddMultiple(Prefix(c, j), Capacity(h - j - 1) * q);
  }

  lemma CapacityStep(h: nat, q: nat)
    requires h > 0
    ensures Capacity(h) * q == SIZE_LEVEL * (Capacity(h - 1) * q)
  {
    Pow2Add((h - 1) * BIT_LEVEL, BIT_LEVEL);
    assert Pow2(BIT_LEVEL) == SIZE_LEVEL;
    var a := Capacity(h - 1);
    assert Capacity(h) == a * SIZE_LEVEL;
    assert a * SIZE_LEVEL * q == SIZE_LEVEL * (a * q);
  }

  lemma AddMultiple(x: nat, y: nat)
    ensures (x + SIZE_LEVEL * y) % SIZE_LEVEL == x % SIZE_LEVEL
  {
  }

  // ----- nodes -----

  datatype Node = Node(slots: seq<Ptr>, parent: Ptr, offset: nat, count: nat, height: nat)

  /** The node at `level` for the indexes that begin with `prefix`. */
  datatype Place = Place(level: nat, prefix: nat)

  function Up(pl: Place): Place {
    Place(pl.level + 1, pl.prefix / SIZE_LEVEL)
  }

  function Child(pl: Place, d: nat): Place
    requires pl.level > 0
  {
    Place(pl.level - 1, SIZE_LEVEL * pl.prefix + d)
  }

  /** The place on the way to `index` at level `h`. */
  function On(index: nat, h: nat): Place {
    Place(h, Prefix(index, h))
  }

  /** The leaf for `index`, and its slot there. */
  lemma Leaf(index: nat)
    ensures On(index, 1) == Place(1, index / SIZE_LEVEL)
    ensures Child(On(index, 1), index % SIZE_LEVEL) == Place(0, index)
  {
    assert Prefix(index, 0) == index;
  }

  function Occupied(slots: seq<Ptr>): (n: nat)
    ensures n <= |slots|
  {
    if slots == [] then 0 else (if slots[0] == NULL then 0 else 1) + Occupied(slots[1..])
  }

  lemma {:induction false} OccupiedUpdate(slots: seq<Ptr>, i: nat, p: Ptr)
    requires i < |slots|
    ensures Occupied(slots[i := p]) + (if slots[i] == NULL then 0 else 1)
         == Occupied(slots) + (if p == NULL then 0 else 1)
  {
    if i == 0 {
      assert slots[i := p][1..] == slots[1..];
    } else {
      OccupiedUpdate(slots[1..], i - 1, p);
      assert slots[i := p][1..] == slots[1..][i - 1 := p];
    }
  }

  lemma {:induction false} OccupiedNone(slots: seq<Ptr>)
    ensures Occupied(slots) == 0 <==> forall i :: 0 <= i < |slots| ==> slots[i] == NULL
  {
    if slots != [] {
      OccupiedNone(slots[1..]);
      assert slots == [slots[0]] + slots[1..];
    }
  }

  function NoSlots(): (s: seq<Ptr>)
    ensures |s| == SIZE_LEVEL && forall i :: 0 <= i < |s| ==> s[i] == NULL
  {
    seq(SIZE_LEVEL, _ => NULL)
  }

  lemma NewNodeCounts(p: Ptr)
    requires p != NULL
    ensures Occupied(NoSlots()) == 0 && Occupied(NoSlots()[0 := p]) == 1
  {
    OccupiedNone(NoSlots());
    OccupiedUpdate(NoSlots(), 0, p);
  }

  // ----- the tree -----

  /** The structs in memory, the places of the nodes, and the map the tree stands for. */
  datatype Shape = Shape(height: nat, rnode: Ptr, mem: map<Ptr, Node>, nodes: map<Place, Ptr>, content: map<nat, Ptr>)

  ghost predicate Fields(s: Shape, pl: Place) {
    && pl in s.nodes && s.nodes[pl] in s.mem && s.nodes[pl] != NULL && s.nodes[pl] != ROOT
    && 1 <= pl.level <= s.height
    && var n := s.mem[s.nodes[pl]];
      && n.height == pl.level && n.offset == pl.prefix % SIZE_LEVEL
      && |n.slots| == SIZE_LEVEL && n.count == Occupied(n.slots)
  }

  /** Only the root node has no node above it, and parent links lead to the node above. */
  ghost predicate Above(s: Shape, pl: Place)
    requires Fields(s, pl)
  {
    var n := s.mem[s.nodes[pl]];
    if pl.level == s.height then pl.prefix == 0 && s.nodes[pl] == s.rnode && (n.parent == NULL || n.parent == ROOT)
    else Up(pl) in s.nodes && n.parent == s.nodes[Up(pl)]
  }

  /** What belongs into slot `d` of the node at `pl`. */
  ghost function Filling(s: Shape, pl: Place, d: nat): Ptr
    requires pl.level > 0
  {
    var c := Child(pl, d);
    if pl.level > 1 then if c in s.nodes then s.nodes[c] else NULL
    else if c.prefix in s.content then s.content[c.prefix] else NULL
  }

  ghost predicate Below(s: Shape, pl: Place)
    requires Fields(s, pl)
  {
    forall d :: 0 <= d < SIZE_LEVEL ==> s.mem[s.nodes[pl]].slots[d] == Filling(s, pl, d)
  }

  ghost predicate Stands(s: Shape, pl: Place) {
    Fields(s, pl) && Above(s, pl) && Below(s, pl)
  }

  ghost predicate Holds(s: Shape, k: nat) {
    k in s.content && s.content[k] != NULL && On(k, 1) in s.nodes
  }

  ghost predicate Placed(s: Shape, p: Ptr) {
    exists pl :: pl in s.nodes && s.nodes[pl] == p
  }

  /** No node stands at two places. */
  ghost predicate Apart(s: Shape, a: Place, b: Place)
    requires a in s.nodes && b in s.nodes
  {
    s.nodes[a] == s.nodes[b] ==> a == b
  }

  /** Everything but that nodes are not empty. */
  ghost predicate Built(s: Shape) {
    && (forall pl {:trigger Stands(s, pl)} :: pl in s.nodes ==> Stands(s, pl))
    && (forall k {:trigger Holds(s, k)} :: k in s.content ==> Holds(s, k))
    && (forall a, b {:trigger Apart(s, a, b)} :: a in s.nodes && b in s.nodes ==> Apart(s, a, b))
    && (forall p {:trigger Placed(s, p)} :: p in s.mem ==> Placed(s, p))
    && (s.height == 0 ==> s.rnode == NULL && s.nodes == map[])
    && (s.height > 0 ==> Place(s.height, 0) in s.nodes)
    && s.height <= MAX_HEIGHT
  }

  ghost predicate Full(s: Shape, pl: Place) {
    pl in s.nodes && s.nodes[pl] in s.mem && s.mem[s.nodes[pl]].count > 0
  }

  /** A tree in which only `hole` may be an empty node. */
  ghost predicate BuiltBut(s: Shape, hole: Ptr) {
    Built(s) && forall pl {:trigger Full(s, pl)} :: pl in s.nodes && s.nodes[pl] != hole ==> Full(s, pl)
  }

  /** Reads a place: the facts a caller needs about one node. */
  lemma At(s: Shape, pl: Place)
    requires Built(s) && pl in s.nodes
    ensures Stands(s, pl)
  {
  }

  /** On the way to a key of the map there is a node at every level. */
  lemma {:induction false} PathThere(s: Shape, k: nat, h: nat)
    requires Built(s) && k in s.content && 1 <= h <= s.height
    ensures On(k, h) in s.nodes
  {
    if h == 1 {
      assert Holds(s, k);
    } else {
      PathThere(s, k, h - 1);
      At(s, On(k, h - 1));
    }
  }

  lemma KeysFit(s: Shape, k: nat)
    requires Built(s) && k in s.content
    ensures s.height > 0 && Prefix(k, s.height) == 0 && k < Capacity(s.height)
  {
    assert Holds(s, k);
    At(s, On(k, 1));
    PathThere(s, k, s.height);
    At(s, On(k, s.height));
    FitsIff(k, s.height);
  }

  /** One step down from a node on the way to `index`. */
  lemma StepDown(s: Shape, index: nat, h: nat)
    requires Built(s) && h > 0 && On(index, h) in s.nodes
    ensures Stands(s, On(index, h))
    ensures Child(On(index, h), Prefix(index, h - 1) % SIZE_LEVEL) == On(index, h - 1)
    ensures Up(On(index, h - 1)) == On(index, h)
    ensures var p := s.mem[s.nodes[On(index, h)]].slots[Prefix(index, h - 1) % SIZE_LEVEL];
      && (h > 1 ==> p == if On(index, h - 1) in s.nodes then s.nodes[On(index, h - 1)] else NULL)
      && (h == 1 ==> p == if index in s.content then s.content[index] else NULL)
  {
    At(s, On(index, h));
  }

  lemma NodeNotNull(s: Shape, pl: Place)
    requires Built(s) && pl in s.nodes
    ensures s.nodes[pl] != NULL && s.nodes[pl] != ROOT && s.nodes[pl] in s.mem
  {
    At(s, pl);
  }
}
