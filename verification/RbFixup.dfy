/**
  What one step of the red-black fix-up loops does to the tree in focus: the links it must
  leave behind, the balance it restores and the order it keeps.
 */
module RbFixup {
  import opened Basics
  import opened RbShape

  /** The tree after a left rotation at its root. */
  ghost function RotatedLeft(t: Tree): Tree
    requires t.Node? && t.right.Node?
  {
    Node(Node(t.left, t.id, t.color, t.right.left), t.right.id, t.right.color, t.right.right)
  }

  ghost function RotatedRight(t: Tree): Tree
    requires t.Node? && t.left.Node?
  {
    Node(t.left.left, t.left.id, t.left.color, Node(t.left.right, t.id, t.color, t.right))
  }

  lemma SequenceRegroup(a: seq<Ptr>, x: Ptr, b: seq<Ptr>, y: Ptr, c: seq<Ptr>)
    ensures a + [x] + (b + [y] + c) == (a + [x] + b) + [y] + c
  {
  }

  lemma {:induction false} RotationKeepsOrder(t: Tree)
    requires t.Node?
    ensures t.right.Node? ==> Inorder(RotatedLeft(t)) == Inorder(t)
    ensures t.left.Node? ==> Inorder(RotatedRight(t)) == Inorder(t)
  {
    if t.right.Node? {
      var r := t.right;
      SequenceRegroup(Inorder(t.left), t.id, Inorder(r.left), r.id, Inorder(r.right));
      assert RotatedLeft(t).left == Node(t.left, t.id, t.color, r.left);
    }
    if t.left.Node? {
      var l := t.left;
      SequenceRegroup(Inorder(l.left), l.id, Inorder(l.right), t.id, Inorder(t.right));
      assert RotatedRight(t).right == Node(l.right, t.id, t.color, t.right);
    }
  }

  ghost function RootSet(t: Tree): set<Ptr> {
    if t.Leaf? then {} else {t.id}
  }

  ghost function ParentSet(z: Path): set<Ptr> {
    if z.Top? then {} else {z.id}
  }

  lemma RotateLeftLinks(z: Path, t: Tree, m: Memory, m': Memory, root: Ptr, root': Ptr)
    requires t.Node? && t.right.Node?
    requires Focus(z, t, m, root)
    requires SameBut(m, m', {t.id, t.right.id} + RootSet(t.right.left) + ParentSet(z))
    requires {t.id, t.right.id} <= m'.Keys
    requires m'[t.id] == RbNode(t.right.id, RootOf(t.left), RootOf(t.right.left), t.color)
    requires m'[t.right.id] == RbNode(ParentOf(z), t.id, RootOf(t.right.right), t.right.color)
    requires var b := t.right.left; b.Node? ==> b.id in m && b.id in m' && m'[b.id] == m[b.id].(parent := t.id)
    requires z != Top ==> z.id in m && z.id in m' && m'[z.id] == Relinked(z, t.right.id, m)[z.id]
    requires root' == if z.Top? then t.right.id else root
    ensures Focus(z, RotatedLeft(t), m', root')
  {
    var r := t.right;
    var n := Node(t.left, t.id, t.color, r.left);
    assert Linked(r, t.id, m) && Linked(r.left, r.id, m) && Linked(r.right, r.id, m);
    assert Linked(n, r.id, m') by {
      LinkedFrame(t.left, t.id, m, m');
      Reparent(r.left, r.id, t.id, m, m');
    }
    assert Linked(Node(n, r.id, r.color, r.right), ParentOf(z), m') by {
      LinkedFrame(r.right, r.id, m, m');
    }
    Relink(z, t.id, r.id, m, m', root, root');
  }

  lemma RotateRightLinks(z: Path, t: Tree, m: Memory, m': Memory, root: Ptr, root': Ptr)
    requires t.Node? && t.left.Node?
    requires Focus(z, t, m, root)
    requires SameBut(m, m', {t.id, t.left.id} + RootSet(t.left.right) + ParentSet(z))
    requires {t.id, t.left.id} <= m'.Keys
    requires m'[t.id] == RbNode(t.left.id, RootOf(t.left.right), RootOf(t.right), t.color)
    requires m'[t.left.id] == RbNode(ParentOf(z), RootOf(t.left.left), t.id, t.left.color)
    requires var b := t.left.right; b.Node? ==> b.id in m && b.id in m' && m'[b.id] == m[b.id].(parent := t.id)
    requires z != Top ==> z.id in m && z.id in m' && m'[z.id] == Relinked(z, t.left.id, m)[z.id]
    requires root' == if z.Top? then t.left.id else root
    ensures Focus(z, RotatedRight(t), m', root')
  {
    var l := t.left;
    var n := Node(l.right, t.id, t.color, t.right);
    assert Linked(l, t.id, m) && Linked(l.left, l.id, m) && Linked(l.right, l.id, m);
    assert Linked(n, l.id, m') by {
      LinkedFrame(t.right, t.id, m, m');
      Reparent(l.right, l.id, t.id, m, m');
    }
    assert Linked(Node(l.left, l.id, l.color, n), ParentOf(z), m') by {
      LinkedFrame(l.left, l.id, m, m');
    }
    Relink(z, t.id, l.id, m, m', root, root');
  }

  // ----- moving the focus, and painting the node in focus -----

  lemma ZoomLeft(z: Path, t: Tree, m: Memory, root: Ptr)
    requires t.Node?
    ensures Focus(z, t, m, root) <==> Focus(InLeft(z, t.id, t.color, t.right), t.left, m, root)
  {
  }

  lemma ZoomRight(z: Path, t: Tree, m: Memory, root: Ptr)
    requires t.Node?
    ensures Focus(z, t, m, root) <==> Focus(InRight(z, t.left, t.id, t.color), t.right, m, root)
  {
  }

  lemma Paint(z: Path, t: Tree, c: Color, m: Memory, root: Ptr)
    requires t.Node? && t.id in m && Focus(z, t, m, root)
    ensures Focus(z, t.(color := c), m[t.id := m[t.id].(color := c)], root)
  {
    var m' := m[t.id := m[t.id].(color := c)];
    LinkedFrame(t.left, t.id, m, m');
    LinkedFrame(t.right, t.id, m, m');
    PathFrame(z, t.id, m, m', root);
  }

  lemma PaintLeft(z: Path, t: Tree, c: Color, m: Memory, root: Ptr)
    requires t.Node? && t.left.Node? && t.left.id in m && Focus(z, t, m, root)
    ensures Focus(z, t.(left := t.left.(color := c)), m[t.left.id := m[t.left.id].(color := c)], root)
  {
    ZoomLeft(z, t, m, root);
    Paint(InLeft(z, t.id, t.color, t.right), t.left, c, m, root);
    ZoomLeft(z, t.(left := t.left.(color := c)), m[t.left.id := m[t.left.id].(color := c)], root);
  }

  lemma PaintRight(z: Path, t: Tree, c: Color, m: Memory, root: Ptr)
    requires t.Node? && t.right.Node? && t.right.id in m && Focus(z, t, m, root)
    ensures Focus(z, t.(right := t.right.(color := c)), m[t.right.id := m[t.right.id].(color := c)], root)
  {
    ZoomRight(z, t, m, root);
    Paint(InRight(z, t.left, t.id, t.color), t.right, c, m, root);
    ZoomRight(z, t.(right := t.right.(color := c)), m[t.right.id := m[t.right.id].(color := c)], root);
  }

  // ----- insertion -----

  ghost function Depth(z: Path): nat {
    if z.Top? then 0 else 1 + Depth(z.up)
  }

  /** The subtree one level above the hole of `z` when `t` fills the hole. */
  ghost function Around(z: Path, t: Tree): (a: Tree)
    requires z != Top
    ensures a.Node? && a.id == z.id && a.color == z.color
  {
    match z
    case InLeft(_, id, c, r) => Node(t, id, c, r)
    case InRight(_, l, id, c) => Node(l, id, c, t)
  }

  lemma AroundFocus(z: Path, t: Tree, m: Memory, root: Ptr)
    requires z != Top
    ensures Focus(z, t, m, root) <==> Focus(z.up, Around(z, t), m, root)
  {
  }

  lemma {:induction false} SameOrder(z: Path, t: Tree, t': Tree)
    requires Inorder(t) == Inorder(t')
    ensures Inorder(Plug(z, t)) == Inorder(Plug(z, t'))
  {
    PlugInorder(z, t);
    PlugInorder(z, t');
  }

  /** `t` is red and so is its child `node`, the only violation in `t`. */
  ghost predicate OneRedRed(t: Tree, node: Ptr, h: nat) {
    && t.Node? && t.color == Red
    && Balanced(t.left, h) && Balanced(t.right, h)
    && (if BlackRoot(t.left) then t.right.Node? && !BlackRoot(t.right) && node == t.right.id
        else t.left.Node? && node == t.left.id && BlackRoot(t.right))
  }

  /** A pair of red nodes turned so that the lower one is the left child. */
  ghost function LeaningLeft(t: Tree): Tree
    requires t.Node?
  {
    if BlackRoot(t.right) then t else RotatedLeft(t)
  }

  ghost function LeaningRight(t: Tree): Tree
    requires t.Node?
  {
    if BlackRoot(t.left) then t else RotatedRight(t)
  }

  lemma {:induction false} InsertRotatedRight(g: Tree, node: Ptr, h: nat)
    requires g.Node? && g.left.Node? && OneRedRed(g.left, node, h)
    requires Balanced(g.right, h) && BlackRoot(g.right)
    ensures var t := LeaningLeft(g.left);
      var g' := RotatedRight(Node(t.(color := Black), g.id, Red, g.right));
      Balanced(g', h + 1) && Inorder(g') == Inorder(g)
  {
    var t := LeaningLeft(g.left);
    RotationKeepsOrder(g.left);
    RotationKeepsOrder(Node(t.(color := Black), g.id, Red, g.right));
  }

  lemma {:induction false} InsertRotatedLeft(g: Tree, node: Ptr, h: nat)
    requires g.Node? && g.right.Node? && OneRedRed(g.right, node, h)
    requires Balanced(g.left, h) && BlackRoot(g.left)
    ensures var t := LeaningRight(g.right);
      var g' := RotatedLeft(Node(g.left, g.id, Red, t.(color := Black)));
      Balanced(g', h + 1) && Inorder(g') == Inorder(g)
  {
    var t := LeaningRight(g.right);
    RotationKeepsOrder(g.right);
    RotationKeepsOrder(Node(g.left, g.id, Red, t.(color := Black)));
  }

  /** Insertion ends by painting the root of the whole tree black. */
  lemma {:induction false} PaintRootBlack(z: Path, t: Tree, h: nat, m: Memory, root: Ptr)
    requires Focus(z, t, m, root) && t.Node?
    requires Balanced(t, h) && BalancedPath(z, h)
    requires z.Top? || z.color == Black
    ensures root in m && Plug(z, t).Node?
    ensures var w := Plug(z, t).(color := Black);
      && Focus(Top, w, m[root := m[root].(color := Black)], root)
      && RedBlack(w) && Inorder(w) == Inorder(Plug(z, t))
  {
    var w := Plug(z, t);
    PlugFocus(z, t, m, root);
    if z != Top {
      PlugBalanced(z, t, h);
    } else {
      assert Balanced(w.(color := Black), if t.color == Black then h else h + 1);
    }
    PlugNode(z, t);
    assert Linked(w, NULL, m);
    Paint(Top, w, Black, m, root);
  }

  lemma {:induction false} PlugNode(z: Path, t: Tree)
    requires t.Node?
    ensures Plug(z, t).Node?
  {
    if z != Top { PlugNode(z.up, Around(z, t)); }
  }

  /**
    The state of the insertion fix-up: `node` is red and in focus, and the only conditions
    that may fail are that its parent is black and that the root is.
   */
  ghost predicate Climbing(z: Path, t: Tree, h: nat, node: Ptr, m: Memory, root: Ptr) {
    && t.Node? && t.id == node && t.color == Red
    && Focus(z, t, m, root)
    && Balanced(t, h) && BalancedPath(z, h)
  }

  /**
    Where insertion finds a red node below a red parent, the grandparent exists and is black,
    and the subtree at the grandparent has no other violation.
   */
  lemma {:induction false} RedParent(z: Path, t: Tree, h: nat, m: Memory, root: Ptr)
    requires t.Node? && Climbing(z, t, h, t.id, m, root)
    requires z != Top && z.color == Red
    ensures z.up != Top && z.up.color == Black && BalancedPath(z.up.up, h + 1)
    ensures z.id in m && m[z.id].parent == z.up.id && z.up.id in m
    ensures var g := Around(z.up, Around(z, t));
      && Focus(z.up.up, g, m, root)
      && Plug(z.up.up, g) == Plug(z, t)
      && m[z.up.id].left == RootOf(g.left) && m[z.up.id].right == RootOf(g.right)
      && RootOf(g.left) != RootOf(g.right)
      && Linked(g.left, g.id, m) && Linked(g.right, g.id, m)
      && if z.up.InLeft? then OneRedRed(g.left, t.id, h) && g.left.id == z.id && Balanced(g.right, h)
         else OneRedRed(g.right, t.id, h) && g.right.id == z.id && Balanced(g.left, h)
    ensures Depth(z) == Depth(z.up.up) + 2
  {
    var p := Around(z, t);
    assert BalancedPath(z, h) && BalancedPath(z.up, h);
    assert LinkedPath(z, t.id, m, root) && LinkedPath(z.up, z.id, m, root);
    AroundFocus(z, t, m, root);
    AroundFocus(z.up, p, m, root);
  }

  // ----- erasure -----

  /**
    The state of the erasure fix-up: the ways down through the subtree in focus pass one black
    node too few, unless the subtree's root is red and is painted black.
   */
  ghost predicate Lacking(z: Path, t: Tree, h: nat, m: Memory, root: Ptr) {
    && Focus(z, t, m, root)
    && BalancedPath(z, h + 1)
    && if BlackRoot(t) then Balanced(t, h) else Balanced(t.(color := Black), h + 1)
  }

  ghost function OuterRedRight(s: Tree): (r: Tree)
    requires s.Node? && !(BlackRoot(s.left) && BlackRoot(s.right))
    ensures r.Node?
  {
    if !BlackRoot(s.right) then s
    else RotatedRight(Node(s.left.(color := Black), s.id, Red, s.right))
  }

  ghost function OuterRedLeft(s: Tree): (r: Tree)
    requires s.Node? && !(BlackRoot(s.left) && BlackRoot(s.right))
    ensures r.Node?
  {
    if !BlackRoot(s.left) then s
    else RotatedLeft(Node(s.left, s.id, Red, s.right.(color := Black)))
  }

  ghost function BorrowedRight(p: Tree): Tree
    requires p.Node? && p.right.Node? && p.right.right.Node?
  {
    var s := p.right;
    Node(Node(p.left, p.id, Black, s.left), s.id, p.color, s.right.(color := Black))
  }

  ghost function BorrowedLeft(p: Tree): Tree
    requires p.Node? && p.left.Node? && p.left.left.Node?
  {
    var s := p.left;
    Node(s.left.(color := Black), s.id, p.color, Node(s.right, p.id, Black, p.right))
  }

  /** Both measures the erasure loop can shrink: the depth of the focus, or its blackness. */
  ghost function LackMeasure(z: Path, t: Tree): nat {
    Depth(z) + if BlackRoot(t) then 1 else 0
  }

  /**
    A subtree that lacks a black node has a sibling, and a red sibling has a black parent and
    two black children.
   */
  lemma {:induction false} SiblingExists(z: Path, t: Tree, h: nat, m: Memory, root: Ptr)
    requires Lacking(z, t, h, m, root) && BlackRoot(t) && z != Top
    ensures var s := SiblingOf(z);
      && s.Node? && s.id in m && m[s.id] == RbNode(z.id, RootOf(s.left), RootOf(s.right), s.color)
      && Linked(s.left, s.id, m) && Linked(s.right, s.id, m)
      && (s.color == Red ==>
            && z.color == Black
            && s.left.Node? && s.left.color == Black && s.right.Node? && s.right.color == Black)
    ensures z.id in m && m[z.id].color == z.color
    ensures if z.InLeft? then m[z.id].right == z.right.id && m[z.id].left == RootOf(t) != z.right.id
            else m[z.id].left == z.left.id && m[z.id].right == RootOf(t) != z.left.id
  {
    var s := SiblingOf(z);
    assert Balanced(s, h + 1) && Linked(s, z.id, m);
    if s.color == Red {
      assert Balanced(s.left, h + 1) && Balanced(s.right, h + 1);
    }
  }

  lemma {:induction false} BorrowRightBalance(z: Path, t: Tree, h: nat)
    requires z.InLeft? && z.right.Node? && z.right.color == Black
    requires BlackRoot(t) && Balanced(t, h) && BalancedPath(z, h + 1)
    requires !(BlackRoot(z.right.left) && BlackRoot(z.right.right))
    ensures OuterRedRight(z.right).right.Node?
    ensures var p' := BorrowedRight(Node(t, z.id, z.color, OuterRedRight(z.right)));
      RedBlack(Plug(z.up, p')) && Inorder(Plug(z.up, p')) == Inorder(Plug(z, t))
  {
    var p, s := Around(z, t), OuterRedRight(z.right);
    OuterRedRightBalance(z.right, h);
    var p' := BorrowedRight(p.(right := s));
    assert Balanced(Node(t, p.id, Black, s.left), h + 1);
    PlugBalanced(z.up, p', if z.color == Black then h + 2 else h + 1);
    RotationKeepsOrder(p.(right := s));
    SameOrder(z.up, p, p');
  }

  lemma {:induction false} OuterRedRightBalance(s: Tree, h: nat)
    requires s.Node? && s.color == Black && Balanced(s, h + 1)
    requires !(BlackRoot(s.left) && BlackRoot(s.right))
    ensures var o := OuterRedRight(s);
      && o.right.Node? && Balanced(o.left, h) && Balanced(o.right.(color := Black), h + 1)
      && Inorder(o) == Inorder(s)
  {
    assert Balanced(s.left, h) && Balanced(s.right, h);
    if BlackRoot(s.right) {
      RotationKeepsOrder(Node(s.left.(color := Black), s.id, Red, s.right));
    }
  }

  ghost function SiblingOf(z: Path): Tree
    requires z != Top
  {
    if z.InLeft? then z.right else z.left
  }

  /** The subtree at the parent once the sibling of the hole is red. */
  ghost function Dimmed(z: Path, t: Tree): (p: Tree)
    requires z != Top && SiblingOf(z).Node?
    ensures p.Node? && p.id == z.id && p.color == z.color
  {
    if z.InLeft? then Node(t, z.id, z.color, z.right.(color := Red))
    else Node(z.left.(color := Red), z.id, z.color, t)
  }

  /** A black sibling with black children turns red, and the shortage moves to the parent. */
  lemma {:induction false} DimSibling(z: Path, t: Tree, h: nat, m: Memory, root: Ptr)
    requires Lacking(z, t, h, m, root) && BlackRoot(t) && z != Top
    requires var s := SiblingOf(z);
      s.Node? && s.id in m && s.color == Black && BlackRoot(s.left) && BlackRoot(s.right)
    ensures var s := SiblingOf(z).id;
      Lacking(z.up, Dimmed(z, t), if z.color == Black then h + 1 else h, m[s := m[s].(color := Red)], root)
    ensures Inorder(Plug(z.up, Dimmed(z, t))) == Inorder(Plug(z, t))
  {
    var p, s := Around(z, t), SiblingOf(z);
    AroundFocus(z, t, m, root);
    SameOrder(z.up, p, Dimmed(z, t));
    assert Balanced(s, h + 1) && Balanced(s.left, h) && Balanced(s.right, h);
    if z.InLeft? {
      PaintRight(z.up, p, Red, m, root);
    } else {
      PaintLeft(z.up, p, Red, m, root);
    }
  }

  lemma {:induction false} BorrowLeftBalance(z: Path, t: Tree, h: nat)
    requires z.InRight? && z.left.Node? && z.left.color == Black
    requires BlackRoot(t) && Balanced(t, h) && BalancedPath(z, h + 1)
    requires !(BlackRoot(z.left.left) && BlackRoot(z.left.right))
    ensures OuterRedLeft(z.left).left.Node?
    ensures var p' := BorrowedLeft(Node(OuterRedLeft(z.left), z.id, z.color, t));
      RedBlack(Plug(z.up, p')) && Inorder(Plug(z.up, p')) == Inorder(Plug(z, t))
  {
    var p, s := Around(z, t), OuterRedLeft(z.left);
    OuterRedLeftBalance(z.left, h);
    var p' := BorrowedLeft(p.(left := s));
    assert Balanced(Node(s.right, p.id, Black, t), h + 1);
    PlugBalanced(z.up, p', if z.color == Black then h + 2 else h + 1);
    RotationKeepsOrder(p.(left := s));
    SameOrder(z.up, p, p');
  }

  lemma {:induction false} OuterRedLeftBalance(s: Tree, h: nat)
    requires s.Node? && s.color == Black && Balanced(s, h + 1)
    requires !(BlackRoot(s.left) && BlackRoot(s.right))
    ensures var o := OuterRedLeft(s);
      && o.left.Node? && Balanced(o.right, h) && Balanced(o.left.(color := Black), h + 1)
      && Inorder(o) == Inorder(s)
  {
    assert Balanced(s.left, h) && Balanced(s.right, h);
    if BlackRoot(s.left) {
      RotationKeepsOrder(Node(s.left, s.id, Red, s.right.(color := Black)));
    }
  }

  lemma {:induction false} RootOnPath(z: Path, hole: Ptr, m: Memory, root: Ptr)
    requires LinkedPath(z, hole, m, root)
    ensures if z.Top? then root == hole else root in PathIds(z) && root != NULL
  {
    if z != Top { RootOnPath(z.up, z.id, m, root); }
  }

  /** The root pointer equals the node in focus exactly when the focus is the whole tree. */
  lemma TopOrBelow(z: Path, t: Tree, m: Memory, root: Ptr)
    requires Focus(z, t, m, root)
    ensures root == RootOf(t) <==> z == Top
    ensures t.Node? ==> t.id != NULL && t.id in m && m[t.id].color == t.color
  {
    RootOnPath(z, RootOf(t), m, root);
    assert t.Node? ==> t.id in Ids(t);
  }

  ghost function BlackHeight(t: Tree): (h: nat)
    requires RedBlack(t)
    ensures Balanced(t, h)
  {
    var h: nat :| Balanced(t, h); h
  }

  ghost function Blackened(t: Tree): Tree {
    if t.Leaf? then t else t.(color := Black)
  }

  /** Erasure ends by painting the node in focus black. */
  lemma {:induction false} BlackenEnd(z: Path, t: Tree, h: nat, m: Memory, root: Ptr)
    requires Lacking(z, t, h, m, root) && (z == Top || !BlackRoot(t))
    ensures t.Node? ==> t.id != NULL && t.id in m
    ensures var m' := if t.Leaf? then m else m[t.id := m[t.id].(color := Black)];
      var w := Plug(z, Blackened(t));
      Focus(Top, w, m', root) && RedBlack(w) && Inorder(w) == Inorder(Plug(z, t))
  {
    var m' := if t.Leaf? then m else m[t.id := m[t.id].(color := Black)];
    if t.Node? { Paint(z, t, Black, m, root); }
    PlugFocus(z, Blackened(t), m', root);
    SameOrder(z, t, Blackened(t));
    PlugBalanced(z, Blackened(t), if BlackRoot(t) then h else h + 1);
  }

  // ----- taking a node out -----

  /** The child of a node that has at most one. */
  ghost function OnlyChild(t: Tree): Tree
    requires t.Node?
  {
    if t.left.Leaf? then t.right else t.left
  }

  lemma SubstituteLinks(z: Path, t: Tree, node: Ptr, m: Memory, m': Memory, root: Ptr, root': Ptr)
    requires t.Node? && Focus(z, t, m, root)
    requires node != NULL && node in m && node !in Ids(t) && node !in PathIds(z)
    requires SameBut(m, m', {node} + RootSet(t.left) + RootSet(t.right) + ParentSet(z))
    requires node in m' && m'[node] == RbNode(ParentOf(z), RootOf(t.left), RootOf(t.right), t.color)
    requires t.left.Node? ==> t.left.id in m && t.left.id in m' && m'[t.left.id] == m[t.left.id].(parent := node)
    requires t.right.Node? ==> t.right.id in m && t.right.id in m' && m'[t.right.id] == m[t.right.id].(parent := node)
    requires z != Top ==> z.id in m && z.id in m' && m'[z.id] == Relinked(z, node, m)[z.id]
    requires root' == if z.Top? then node else root
    ensures Focus(z, t.(id := node), m', root')
  {
    Reparent(t.left, t.id, node, m, m');
    Reparent(t.right, t.id, node, m, m');
    Relink(z, t.id, node, m, m', root, root');
  }

  // ----- paths inside a subtree -----

  /** The path `w` inside the subtree that fills the hole of `z`, continued to the root. */
  ghost function Join(w: Path, z: Path): Path {
    match w
    case Top => z
    case InLeft(up, id, c, r) => InLeft(Join(up, z), id, c, r)
    case InRight(up, l, id, c) => InRight(Join(up, z), l, id, c)
  }

  lemma {:induction false} JoinFocus(w: Path, z: Path, t: Tree, m: Memory, root: Ptr)
    ensures Plug(Join(w, z), t) == Plug(z, Plug(w, t))
    ensures Focus(Join(w, z), t, m, root) <==> Focus(z, Plug(w, t), m, root)
  {
    if w != Top {
      JoinFocus(w.up, z, Around(w, t), m, root);
      AroundFocus(Join(w, z), t, m, root);
    }
  }

  /** Balance does not depend on which node sits at a place on the path. */
  lemma {:induction false} RenameOnPath(w: Path, z: Path, l: Tree, a: Ptr, b: Ptr, c: Color, h: nat)
    requires BalancedPath(Join(w, InRight(z, l, a, c)), h)
    ensures BalancedPath(Join(w, InRight(z, l, b, c)), h)
  {
    if w != Top {
      RenameOnPath(w.up, z, l, a, b, c, if w.color == Black then h + 1 else h);
    }
  }

  /** A removed node leaves a shortage behind if it was black, and none if it was red. */
  lemma {:induction false} UnlinkBalance(z: Path, t: Tree) returns (h: nat)
    requires t.Node? && (t.left.Leaf? || t.right.Leaf?)
    requires RedBlack(Plug(z, t))
    ensures var c := OnlyChild(t);
      && BalancedPath(z, h)
      && if t.color == Red then BlackRoot(c) && Balanced(c, h)
         else h > 0 && if BlackRoot(c) then Balanced(c, h - 1) else Balanced(c.(color := Black), h)
  {
    h := UnplugBalanced(z, t);
    var c := OnlyChild(t);
    assert Balanced(c, if t.color == Red then h else h - 1);
  }

  lemma {:induction false} PlugIds(z: Path, t: Tree)
    ensures Ids(Plug(z, t)) == PathIds(z) + Ids(t)
  {
    if z != Top { PlugIds(z.up, Around(z, t)); }
  }

  lemma {:induction false} JoinIds(w: Path, z: Path)
    ensures PathIds(Join(w, z)) == PathIds(w) + PathIds(z)
  {
    if w != Top { JoinIds(w.up, z); }
  }

  /** A way down that always goes left leads to the first node in order. */
  lemma LeftmostOrder(w: Path, s: Tree)
    requires s.Node? && s.left.Leaf? && Before(w) == []
    ensures Inorder(Plug(w, s)) == [s.id] + Inorder(Plug(w, s.right))
  {
    PlugInorder(w, s);
    PlugInorder(w, s.right);
  }

  lemma RightmostOrder(w: Path, s: Tree)
    requires s.Node? && s.right.Leaf? && After(w) == []
    ensures Inorder(Plug(w, s)) == Inorder(Plug(w, s.left)) + [s.id]
  {
    PlugInorder(w, s);
    PlugInorder(w, s.left);
  }

  /** Moving the first node of the right subtree to the root leaves the order without the root. */
  lemma {:induction false} SuccessorOrder(z: Path, l: Tree, c: Color, w: Path, s: Tree)
    requires s.Node? && s.left.Leaf? && Before(w) == []
    ensures Inorder(Plug(Join(w, InRight(z, l, s.id, c)), s.right))
         == Before(z) + (Inorder(l) + Inorder(Plug(w, s))) + After(z)
  {
    var z2 := InRight(z, l, s.id, c);
    JoinFocus(w, z2, s.right, map[], NULL);
    LeftmostOrder(w, s);
    PlugInorder(z, Node(l, s.id, c, Plug(w, s.right)));
    assert Inorder(l) + [s.id] + Inorder(Plug(w, s.right)) == Inorder(l) + Inorder(Plug(w, s));
  }

  lemma AroundIndex(s: seq<Ptr>, a: seq<Ptr>, x: Ptr, b: seq<Ptr>)
    requires Distinct(s) && s == a + [x] + b
    ensures x in s && s[..IndexOf(s, x)] == a && s[IndexOf(s, x) + 1..] == b
  {
    assert s[|a|] == x;
    IndexOfUnique(s, x, |a|);
  }

  lemma FirstLast(a: seq<Ptr>, b: seq<Ptr>)
    ensures FirstOf(a + b) == if a == [] then FirstOf(b) else a[0]
    ensures LastOf(a + b) == if b == [] then LastOf(a) else b[|b| - 1]
  {
    if a == [] { assert a + b == b; }
    if b == [] { assert a + b == a; }
  }

  /** The order, around the node in focus. */
  lemma FocusOrder(z: Path, t: Tree)
    requires t.Node?
    ensures Inorder(Plug(z, t)) == (Before(z) + Inorder(t.left)) + [t.id] + (Inorder(t.right) + After(z))
  {
    PlugInorder(z, t);
    Regroup(Before(z), Inorder(t.left), t.id, Inorder(t.right), After(z));
  }

  /** Where the node in focus stands in the order, and what is on either side of it. */
  lemma FocusIndex(z: Path, t: Tree, m: Memory, root: Ptr)
    requires t.Node? && Focus(z, t, m, root)
    ensures var s := Inorder(Plug(z, t));
      && Distinct(s) && t.id in s
      && s[..IndexOf(s, t.id)] == Before(z) + Inorder(t.left)
      && s[IndexOf(s, t.id) + 1..] == Inorder(t.right) + After(z)
  {
    FocusOrder(z, t);
    PlugFocus(z, t, m, root);
    InorderDistinct(Plug(z, t), NULL, m);
    AroundIndex(Inorder(Plug(z, t)), Before(z) + Inorder(t.left), t.id, Inorder(t.right) + After(z));
  }

  /** The keys of `s` are at most `bound`, or at least `bound`. */
  ghost predicate AtMost(s: seq<Ptr>, value: map<Ptr, nat>, bound: nat) {
    forall x :: x in s ==> x in value && value[x] <= bound
  }

  ghost predicate AtLeast(s: seq<Ptr>, value: map<Ptr, nat>, bound: nat) {
    forall x :: x in s ==> x in value && value[x] >= bound
  }

  lemma SortedAround(a: seq<Ptr>, x: Ptr, b: seq<Ptr>, value: map<Ptr, nat>, stamp: map<Ptr, nat>)
    requires Sorted(a + [x] + b, value, stamp)
    requires forall y :: y in a + [x] + b ==> y in value
    ensures x in value
    ensures AtMost(a, value, value[x]) && AtLeast(b, value, value[x])
  {
    var s := a + [x] + b;
    assert s[|a|] == x;
    forall y | y in a ensures y in value && value[y] <= value[x] {
      assert s[IndexOf(a, y)] == y;
    }
    forall y | y in b ensures y in value && value[y] >= value[x] {
      assert s[|a| + 1 + IndexOf(b, y)] == y;
    }
  }

  /** In a sorted tree the keys left of the node in focus are at most its own, those right at least. */
  lemma SplitOrder(z: Path, t: Tree, value: map<Ptr, nat>, stamp: map<Ptr, nat>)
    requires t.Node? && Sorted(Inorder(Plug(z, t)), value, stamp)
    requires forall x :: x in Inorder(Plug(z, t)) ==> x in value
    ensures t.id in value
    ensures AtMost(Before(InRight(z, t.left, t.id, t.color)), value, value[t.id])
    ensures AtLeast(After(InLeft(z, t.id, t.color, t.right)), value, value[t.id])
  {
    FocusOrder(z, t);
    SortedAround(Before(z) + Inorder(t.left), t.id, Inorder(t.right) + After(z), value, stamp);
  }

  /** The first node after a cut of the order is the least one after it. */
  lemma LeastAfterCut(a: seq<Ptr>, b: seq<Ptr>, value: map<Ptr, nat>, stamp: map<Ptr, nat>)
    requires Sorted(a + b, value, stamp)
    ensures b != [] ==> forall x :: x in b && x != b[0] ==> Precedes(value, stamp, b[0], x)
  {
    if b != [] {
      assert (a + b)[|a|] == b[0];
      forall x | x in b && x != b[0] ensures Precedes(value, stamp, b[0], x) {
        var i := IndexOf(b, x);
        assert (a + b)[|a| + i] == x;
      }
    }
  }

  /** Every node of `s` has a key and an insertion time before `clock`. */
  ghost predicate Stamped(s: seq<Ptr>, value: map<Ptr, nat>, stamp: map<Ptr, nat>, clock: nat) {
    forall x :: x in s ==> x in value && x in stamp && stamp[x] < clock
  }

  /** The newest node goes after every node whose key is at most its own. */
  lemma InsertedOrder(a: seq<Ptr>, b: seq<Ptr>, value: map<Ptr, nat>, stamp: map<Ptr, nat>, clock: nat, x: Ptr)
    requires Sorted(a + b, value, stamp) && Stamped(a + b, value, stamp, clock)
    requires x in value && x !in a + b
    requires AtMost(a, value, value[x]) && AtLeast(b, value, value[x] + 1)
    ensures Sorted(a + [x] + b, value, stamp[x := clock])
    ensures Stamped(a + [x] + b, value, stamp[x := clock], clock + 1)
  {
    var s, stamp' := a + b, stamp[x := clock];
    assert s[..|a|] == a && s[|a|..] == b;
    forall i | 0 <= i < |s| ensures s[i] in value && s[i] in stamp' && stamp'[s[i]] < clock {
      assert s[i] in s;
    }
    forall i, j | 0 <= i < j < |s| ensures Precedes(value, stamp', s[i], s[j]) {
      assert s[i] in s && s[j] in s && Precedes(value, stamp, s[i], s[j]);
    }
    forall i | 0 <= i < |a| ensures value[s[i]] <= value[x] {
      assert s[i] == a[i];
    }
    forall i | |a| <= i < |s| ensures value[s[i]] > value[x] {
      assert s[i] == b[i - |a|];
    }
    InsertedSorted(s, value, stamp', |a|, x);
  }

  lemma Regather(a: seq<Ptr>, b: seq<Ptr>, c: seq<Ptr>, d: seq<Ptr>)
    ensures a + (b + c) + d == (a + b) + (c + d)
  {
  }

  lemma RemovedEnds(s: seq<Ptr>, x: Ptr)
    requires x in s && Distinct(s)
    ensures var i, r := IndexOf(s, x), Removed(s, x);
      && FirstOf(r) == (if x == s[0] then FirstOf(s[i + 1..]) else s[0])
      && LastOf(r) == (if x == s[|s| - 1] then LastOf(s[..i]) else s[|s| - 1])
      && (|s| == 1 ==> r == [])
  {
    var i := IndexOf(s, x);
    FirstLast(s[..i], s[i + 1..]);
  }

  /** A red leaf in an empty hole breaks no black height. */
  lemma NewLeaf(z: Path, node: Ptr) returns (h: nat)
    requires RedBlack(Plug(z, Leaf)) && node !in Inorder(Plug(z, Leaf))
    ensures node !in PathIds(z)
    ensures var t := Node(Leaf, node, Red, Leaf);
      Balanced(t, h) && BalancedPath(z, h) && Inorder(Plug(z, t)) == Before(z) + [node] + After(z)
  {
    h := UnplugBalanced(z, Leaf);
    InorderIds(Plug(z, Leaf));
    PlugIds(z, Leaf);
    var t := Node(Leaf, node, Red, Leaf);
    PlugInorder(z, t);
    assert Inorder(t) == [node];
  }
}
