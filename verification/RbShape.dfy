/**
  Red-black trees as values: the tree a set of linked nodes spells out, the path from the
  root to a position in it (a zipper), the red-black balance conditions, and the sentences
  that tie both to node memory.  The pointer algorithms are in RbTree.dfy.
 */
module RbShape {
  import opened Basics

  datatype Color = Red | Black

  /** The link fields of `struct rb_node`. */
  datatype RbNode = RbNode(parent: Ptr, left: Ptr, right: Ptr, color: Color)

  type Memory = map<Ptr, RbNode>

  datatype Tree = Leaf | Node(left: Tree, id: Ptr, color: Color, right: Tree)

  /** A tree with one subtree missing; the path leads from the hole up to the root. */
  datatype Path =
    | Top
    | InLeft(up: Path, id: Ptr, color: Color, right: Tree)
    | InRight(up: Path, left: Tree, id: Ptr, color: Color)

  ghost function Plug(z: Path, t: Tree): Tree {
    match z
    case Top => t
    case InLeft(up, id, c, r) => Plug(up, Node(t, id, c, r))
    case InRight(up, l, id, c) => Plug(up, Node(l, id, c, t))
  }

  ghost function Ids(t: Tree): set<Ptr> {
    if t.Leaf? then {} else Ids(t.left) + {t.id} + Ids(t.right)
  }

  ghost function PathIds(z: Path): set<Ptr> {
    match z
    case Top => {}
    case InLeft(up, id, _, r) => PathIds(up) + {id} + Ids(r)
    case InRight(up, l, id, _) => PathIds(up) + {id} + Ids(l)
  }

  ghost function Inorder(t: Tree): seq<Ptr> {
    if t.Leaf? then [] else Inorder(t.left) + [t.id] + Inorder(t.right)
  }

  /** The nodes that precede the hole in order. */
  ghost function Before(z: Path): seq<Ptr> {
    match z
    case Top => []
    case InLeft(up, _, _, _) => Before(up)
    case InRight(up, l, id, _) => Before(up) + Inorder(l) + [id]
  }

  /** The nodes that follow the hole in order. */
  ghost function After(z: Path): seq<Ptr> {
    match z
    case Top => []
    case InLeft(up, id, _, r) => [id] + Inorder(r) + After(up)
    case InRight(up, _, _, _) => After(up)
  }

  ghost function RootOf(t: Tree): Ptr {
    if t.Leaf? then NULL else t.id
  }

  /** The node above the hole. */
  ghost function ParentOf(z: Path): Ptr {
    if z.Top? then NULL else z.id
  }

  ghost predicate BlackRoot(t: Tree) {
    t.Leaf? || t.color == Black
  }

  // ----- links -----

  /** Memory `m` links the nodes of `t` into that tree, below `p`, each node once. */
  ghost predicate Linked(t: Tree, p: Ptr, m: Memory) {
    t.Node? ==>
      && t.id != NULL && t.id in m
      && m[t.id] == RbNode(p, RootOf(t.left), RootOf(t.right), t.color)
      && Linked(t.left, t.id, m) && Linked(t.right, t.id, m)
      && t.id !in Ids(t.left) && t.id !in Ids(t.right) && Ids(t.left) !! Ids(t.right)
  }

  /** Memory `m` links the nodes of the path above a subtree rooted at `hole`. */
  ghost predicate LinkedPath(z: Path, hole: Ptr, m: Memory, root: Ptr) {
    match z
    case Top => root == hole
    case InLeft(up, id, c, r) =>
      && id != NULL && id in m && m[id] == RbNode(ParentOf(up), hole, RootOf(r), c)
      && Linked(r, id, m) && LinkedPath(up, id, m, root)
      && id !in Ids(r) && id !in PathIds(up) && Ids(r) !! PathIds(up)
    case InRight(up, l, id, c) =>
      && id != NULL && id in m && m[id] == RbNode(ParentOf(up), RootOf(l), hole, c)
      && Linked(l, id, m) && LinkedPath(up, id, m, root)
      && id !in Ids(l) && id !in PathIds(up) && Ids(l) !! PathIds(up)
  }

  /** Memory `m` and root pointer `root` hold the tree `Plug(z, t)`, seen from `t`. */
  ghost predicate Focus(z: Path, t: Tree, m: Memory, root: Ptr) {
    LinkedPath(z, RootOf(t), m, root) && Linked(t, ParentOf(z), m) && Ids(t) !! PathIds(z)
  }

  lemma {:induction false} LinkedFrame(t: Tree, p: Ptr, m: Memory, m': Memory)
    requires Linked(t, p, m)
    requires forall x :: x in Ids(t) && x in m ==> x in m' && m'[x] == m[x]
    ensures Linked(t, p, m')
  {
    if t.Node? {
      LinkedFrame(t.left, t.id, m, m');
      LinkedFrame(t.right, t.id, m, m');
    }
  }

  lemma {:induction false} PathFrame(z: Path, h: Ptr, m: Memory, m': Memory, root: Ptr)
    requires LinkedPath(z, h, m, root)
    requires forall x :: x in PathIds(z) && x in m ==> x in m' && m'[x] == m[x]
    ensures LinkedPath(z, h, m', root)
  {
    match z
    case Top =>
    case InLeft(up, id, _, r) =>
      LinkedFrame(r, id, m, m');
      PathFrame(up, id, m, m', root);
    case InRight(up, l, id, _) =>
      LinkedFrame(l, id, m, m');
      PathFrame(up, id, m, m', root);
  }

  /** Moving a subtree below another node changes the parent field of its root only. */
  lemma Reparent(t: Tree, p: Ptr, p': Ptr, m: Memory, m': Memory)
    requires Linked(t, p, m)
    requires forall x :: x in Ids(t) && x in m ==>
      x in m' && m'[x] == if x == t.id then m[x].(parent := p') else m[x]
    ensures Linked(t, p', m')
  {
    if t.Node? {
      LinkedFrame(t.left, t.id, m, m');
      LinkedFrame(t.right, t.id, m, m');
    }
  }

  /** The memory in which the link that led to the hole of `z` leads to `h` instead. */
  ghost function Relinked(z: Path, h: Ptr, m: Memory): Memory
    requires z.Top? || z.id in m
  {
    match z
    case Top => m
    case InLeft(_, id, _, _) => m[id := m[id].(left := h)]
    case InRight(_, _, id, _) => m[id := m[id].(right := h)]
  }

  lemma Relink(z: Path, h: Ptr, h': Ptr, m: Memory, m': Memory, root: Ptr, root': Ptr)
    requires LinkedPath(z, h, m, root)
    requires forall x :: x in PathIds(z) && x in m ==> x in m' && m'[x] == Relinked(z, h', m)[x]
    requires root' == if z.Top? then h' else root
    ensures LinkedPath(z, h', m', root')
  {
    match z
    case Top =>
    case InLeft(up, id, _, r) =>
      LinkedFrame(r, id, m, m');
      PathFrame(up, id, m, m', root);
    case InRight(up, l, id, _) =>
      LinkedFrame(l, id, m, m');
      PathFrame(up, id, m, m', root);
  }

  // ----- the tree seen from different places -----

  lemma Regroup(a: seq<Ptr>, b: seq<Ptr>, x: Ptr, c: seq<Ptr>, d: seq<Ptr>)
    ensures a + (b + [x] + c) + d == a + b + ([x] + c + d)
    ensures a + (b + [x] + c) + d == (a + b + [x]) + c + d
    ensures a + (b + [x] + c) + d == (a + b) + [x] + (c + d)
  {
  }

  lemma {:induction false} PlugInorder(z: Path, t: Tree)
    ensures Inorder(Plug(z, t)) == Before(z) + Inorder(t) + After(z)
  {
    match z
    case Top =>
    case InLeft(up, id, c, r) =>
      PlugInorder(up, Node(t, id, c, r));
      Regroup(Before(up), Inorder(t), id, Inorder(r), After(up));
    case InRight(up, l, id, c) =>
      PlugInorder(up, Node(l, id, c, t));
      Regroup(Before(up), Inorder(l), id, Inorder(t), After(up));
  }

  lemma EmptyHoleOrder(z: Path)
    ensures Inorder(Plug(z, Leaf)) == Before(z) + After(z)
  {
    PlugInorder(z, Leaf);
  }

  lemma {:induction false} PlugFocus(z: Path, t: Tree, m: Memory, root: Ptr)
    ensures Focus(z, t, m, root) <==> Focus(Top, Plug(z, t), m, root)
  {
    match z
    case Top =>
    case InLeft(up, id, c, r) =>
      PlugFocus(up, Node(t, id, c, r), m, root);
    case InRight(up, l, id, c) =>
      PlugFocus(up, Node(l, id, c, t), m, root);
  }

  lemma {:induction false} InorderIds(t: Tree)
    ensures forall x :: x in Inorder(t) <==> x in Ids(t)
  {
    if t.Node? {
      InorderIds(t.left);
      InorderIds(t.right);
    }
  }

  lemma {:induction false} LinkedNotNull(t: Tree, p: Ptr, m: Memory)
    requires Linked(t, p, m)
    ensures NULL !in Ids(t)
  {
    if t.Node? {
      LinkedNotNull(t.left, t.id, m);
      LinkedNotNull(t.right, t.id, m);
    }
  }

  lemma {:induction false} InorderDistinct(t: Tree, p: Ptr, m: Memory)
    requires Linked(t, p, m)
    ensures Distinct(Inorder(t))
  {
    if t.Node? {
      InorderDistinct(t.left, t.id, m);
      InorderDistinct(t.right, t.id, m);
      InorderIds(t.left);
      InorderIds(t.right);
      var l, r := Inorder(t.left), Inorder(t.right);
      forall i, j | 0 <= i < j < |l + [t.id] + r|
        ensures (l + [t.id] + r)[i] != (l + [t.id] + r)[j]
      {
        assert i < |l| ==> l[i] in l;
        assert j > |l| ==> r[j - |l| - 1] in r;
      }
    }
  }

  // ----- balance -----

  /** No red node has a red child, and every way down to a leaf passes `h` black nodes. */
  ghost predicate Balanced(t: Tree, h: nat) {
    match t
    case Leaf => h == 0
    case Node(l, _, Black, r) => h > 0 && Balanced(l, h - 1) && Balanced(r, h - 1)
    case Node(l, _, Red, r) => Balanced(l, h) && Balanced(r, h) && BlackRoot(l) && BlackRoot(r)
  }

  /** A path whose hole takes a black-rooted tree of black height `h`; the root is black. */
  ghost predicate BalancedPath(z: Path, h: nat) {
    match z
    case Top => true
    case InLeft(up, _, Black, r) => Balanced(r, h) && BalancedPath(up, h + 1)
    case InRight(up, l, _, Black) => Balanced(l, h) && BalancedPath(up, h + 1)
    case InLeft(up, _, Red, r) =>
      Balanced(r, h) && BlackRoot(r) && up != Top && up.color == Black && BalancedPath(up, h)
    case InRight(up, l, _, Red) =>
      Balanced(l, h) && BlackRoot(l) && up != Top && up.color == Black && BalancedPath(up, h)
  }

  /** The red-black conditions on a whole tree. */
  ghost predicate RedBlack(t: Tree) {
    BlackRoot(t) && exists h: nat :: Balanced(t, h)
  }

  lemma {:induction false} PlugBalanced(z: Path, t: Tree, h: nat)
    requires Balanced(t, h) && BalancedPath(z, h)
    requires BlackRoot(t) || (z != Top && z.color == Black)
    ensures RedBlack(Plug(z, t))
  {
    match z
    case Top =>
    case InLeft(up, id, c, r) =>
      PlugBalanced(up, Node(t, id, c, r), if c == Black then h + 1 else h);
    case InRight(up, l, id, c) =>
      PlugBalanced(up, Node(l, id, c, t), if c == Black then h + 1 else h);
  }

  /** Conversely, both parts of a balanced tree are balanced. */
  lemma {:induction false} UnplugBalanced(z: Path, t: Tree) returns (h: nat)
    requires RedBlack(Plug(z, t))
    ensures Balanced(t, h) && BalancedPath(z, h)
    ensures BlackRoot(t) || (z != Top && z.color == Black)
  {
    match z
    case Top =>
      h :| Balanced(t, h);
    case InLeft(up, id, c, r) =>
      var h' := UnplugBalanced(up, Node(t, id, c, r));
      h := if c == Black then h' - 1 else h';
    case InRight(up, l, id, c) =>
      var h' := UnplugBalanced(up, Node(l, id, c, t));
      h := if c == Black then h' - 1 else h';
  }

  // ----- what balance is for -----

  ghost function Height(t: Tree): nat {
    if t.Leaf? then 0
    else 1 + if Height(t.left) > Height(t.right) then Height(t.left) else Height(t.right)
  }

  lemma {:induction false} BalancedBounds(t: Tree, h: nat)
    requires Balanced(t, h)
    ensures Height(t) <= 2 * h + if BlackRoot(t) then 0 else 1
    ensures Pow2(h) <= |Inorder(t)| + 1
  {
    if t.Node? {
      var h' := if t.color == Black then h - 1 else h;
      BalancedBounds(t.left, h');
      BalancedBounds(t.right, h');
    }
  }

  /**
    A red-black tree of n nodes is at most 2 * log2(n + 1) high, written without a logarithm.
   */
  lemma {:induction false} RedBlackHeight(t: Tree)
    requires RedBlack(t)
    ensures Pow2(Height(t)) <= (|Inorder(t)| + 1) * (|Inorder(t)| + 1)
  {
    var h: nat :| Balanced(t, h);
    BalancedBounds(t, h);
    Pow2Monotone(Height(t), h + h);
    Pow2Add(h, h);
    SquareMonotone(Pow2(h), |Inorder(t)| + 1);
  }

  // ----- the order as a sequence -----

  /** The sequence without the element `x`. */
  ghost function Removed<T>(s: seq<T>, x: T): seq<T>
    requires x in s
  {
    s[..IndexOf(s, x)] + s[IndexOf(s, x) + 1..]
  }

  ghost function FirstOf(s: seq<Ptr>): Ptr {
    if s == [] then NULL else s[0]
  }

  ghost function LastOf(s: seq<Ptr>): Ptr {
    if s == [] then NULL else s[|s| - 1]
  }

  /** `a` comes before `b`: a smaller key, or the same key inserted earlier. */
  ghost predicate Precedes(value: map<Ptr, nat>, stamp: map<Ptr, nat>, a: Ptr, b: Ptr) {
    && a in value && b in value && a in stamp && b in stamp
    && (value[a] < value[b] || (value[a] == value[b] && stamp[a] < stamp[b]))
  }

  ghost predicate Sorted(s: seq<Ptr>, value: map<Ptr, nat>, stamp: map<Ptr, nat>) {
    forall i, j :: 0 <= i < j < |s| ==> Precedes(value, stamp, s[i], s[j])
  }

  /** Every pair is in order, except pairs with `x`, whose key may have changed in place. */
  ghost predicate SortedApartFrom(s: seq<Ptr>, value: map<Ptr, nat>, stamp: map<Ptr, nat>, x: Ptr) {
    forall i, j :: 0 <= i < j < |s| && s[i] != x && s[j] != x ==> Precedes(value, stamp, s[i], s[j])
  }

  /** Removing a node whose key changed in place leaves a sorted sequence. */
  lemma RemovedSorted(s: seq<Ptr>, value: map<Ptr, nat>, stamp: map<Ptr, nat>, x: Ptr)
    requires x in s && Distinct(s) && SortedApartFrom(s, value, stamp, x)
    ensures Sorted(Removed(s, x), value, stamp)
  {
    var k, r := IndexOf(s, x), Removed(s, x);
    forall i | 0 <= i < |r| ensures r[i] == s[if i < k then i else i + 1] && r[i] != x {
    }
  }

  lemma RemovedMembers<T>(s: seq<T>, x: T)
    requires x in s && Distinct(s)
    ensures forall y :: y in Removed(s, x) <==> y in s && y != x
  {
    var k, r := IndexOf(s, x), Removed(s, x);
    forall i | 0 <= i < |r| ensures r[i] == s[if i < k then i else i + 1] && r[i] != x {
    }
    forall y | y in s && y != x ensures y in r {
      var i := IndexOf(s, y);
      assert r[if i < k then i else i - 1] == y;
    }
  }

  lemma SortedFrame(s: seq<Ptr>, value: map<Ptr, nat>, value': map<Ptr, nat>, stamp: map<Ptr, nat>)
    requires Sorted(s, value, stamp)
    requires forall x :: x in s && x in value ==> x in value' && value'[x] == value[x]
    ensures Sorted(s, value', stamp)
  {
    forall i, j | 0 <= i < j < |s| ensures Precedes(value', stamp, s[i], s[j]) {
      assert Precedes(value, stamp, s[i], s[j]);
    }
  }

  lemma InsertedSorted(s: seq<Ptr>, value: map<Ptr, nat>, stamp: map<Ptr, nat>, k: nat, x: Ptr)
    requires Sorted(s, value, stamp) && k <= |s| && x in value && x in stamp
    requires forall i :: 0 <= i < |s| ==> s[i] in value && s[i] in stamp && stamp[s[i]] < stamp[x]
    requires forall i :: 0 <= i < k ==> value[s[i]] <= value[x]
    requires forall i :: k <= i < |s| ==> value[s[i]] > value[x]
    ensures Sorted(s[..k] + [x] + s[k..], value, stamp)
  {
    var r := s[..k] + [x] + s[k..];
    assert r[k] == x;
    forall i | 0 <= i < |r| && i != k ensures r[i] == s[if i < k then i else i - 1] {
    }
  }

  /** Positions in the tree, found by node. */
  lemma {:induction false} Locate(z: Path, t: Tree, x: Ptr) returns (w: Path, s: Tree)
    requires x in Ids(t)
    ensures s.Node? && s.id == x && Plug(w, s) == Plug(z, t)
    decreases t
  {
    if x == t.id {
      w, s := z, t;
    } else if x in Ids(t.left) {
      w, s := Locate(InLeft(z, t.id, t.color, t.right), t.left, x);
    } else {
      w, s := Locate(InRight(z, t.left, t.id, t.color), t.right, x);
    }
  }
}
