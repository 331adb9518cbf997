/**
  The intrusive red-black tree of lib/source/rbtree.c: parent pointers, iterative fix-up,
  equal keys kept in insertion order, and cached first node, last node and count.
 */
module RbTrees {
  import opened Basics
  import opened RbShape
  import opened RbFixup

  /** The link an insertion writes: `&root->rb_node`, or a child field of a node. */
  datatype Link = FromRoot | LeftOf(node: Ptr) | RightOf(node: Ptr)

  ghost function LinkTo(z: Path): Link {
    match z
    case Top => FromRoot
    case InLeft(_, id, _, _) => LeftOf(id)
    case InRight(_, _, id, _) => RightOf(id)
  }

  class RbTree {
    // struct rb_root
    var rbNode: Ptr
    var firstNode: Ptr
    var lastNode: Ptr
    var count: nat

    // The nodes.  The value field has a map of its own, so that a method's frame says whether
    // it can change a key.
    var mem: Memory
    var value: map<Ptr, nat>

    /** The tree that `mem` spells out from `rbNode`. */
    ghost var tree: Tree

    /** When each node was inserted. */
    ghost var stamp: map<Ptr, nat>
    ghost var clock: nat

    /** The nodes from first to last. */
    ghost function Order(): seq<Ptr>
      reads this
    {
      Inorder(tree)
    }

    /** Links, colours and cached fields; nothing about keys. */
    ghost predicate Valid()
      reads this
    {
      && Focus(Top, tree, mem, rbNode)
      && RedBlack(tree)
      && count == |Order()| && firstNode == FirstOf(Order()) && lastNode == LastOf(Order())
    }

    /** Keys ascend, and equal keys are in order of insertion. */
    ghost predicate Ordered()
      reads this
    {
      Stamped(Order(), value, stamp, clock) && Sorted(Order(), value, stamp)
    }

    /** Valid and in order; sealed as `Basics` explains, to be opened by `Sealed(0)`. */
    ghost predicate Sound()
      reads this
    {
      forall seal: nat :: Sealed(seal)
    }

    ghost predicate Sealed(seal: nat)
      reads this
    {
      Valid() && Ordered()
    }

    /** In order, except that the key of `node` may have changed in place. */
    ghost predicate OrderedApartFrom(node: Ptr)
      reads this
    {
      Stamped(Order(), value, stamp, clock) && SortedApartFrom(Order(), value, stamp, node)
    }

    constructor ()
      ensures Valid() && Ordered() && Order() == [] && value == map[]
    {
      rbNode, firstNode, lastNode, count := NULL, NULL, NULL, 0;
      mem, value := map[], map[];
      tree, stamp, clock := Leaf, map[], 0;
      new;
      assert Balanced(tree, 0);
    }

    method RotateLeft(node: Ptr, ghost z: Path, ghost t: Tree)
      requires t.Node? && t.right.Node? && node == t.id
      requires Focus(z, t, mem, rbNode)
      modifies `mem, `rbNode
      ensures Focus(z, RotatedLeft(t), mem, rbNode)
      ensures SameBut(old(mem), mem, {t.id, t.right.id, RootOf(t.right.left), ParentOf(z)})
    {
      ghost var m0, r := mem, t.right;
      assert Linked(r, node, mem) && Linked(r.left, r.id, mem) && Linked(r.right, r.id, mem);
      var right := mem[node].right;
      var inner := mem[right].left;

      mem := mem[node := mem[node].(right := inner)];
      if mem[node].right != NULL {
        mem := mem[inner := mem[inner].(parent := node)];
      }
      mem := mem[right := mem[right].(left := node)];

      mem := mem[right := mem[right].(parent := mem[node].parent)];
      if mem[right].parent != NULL {
        var up := mem[node].parent;
        if node == mem[up].left {
          mem := mem[up := mem[up].(left := right)];
        } else {
          mem := mem[up := mem[up].(right := right)];
        }
      } else {
        rbNode := right;
      }
      mem := mem[node := mem[node].(parent := right)];

      RotateLeftLinks(z, t, m0, mem, old(rbNode), rbNode);
    }

    method RotateRight(node: Ptr, ghost z: Path, ghost t: Tree)
      requires t.Node? && t.left.Node? && node == t.id
      requires Focus(z, t, mem, rbNode)
      modifies `mem, `rbNode
      ensures Focus(z, RotatedRight(t), mem, rbNode)
      ensures SameBut(old(mem), mem, {t.id, t.left.id, RootOf(t.left.right), ParentOf(z)})
    {
      ghost var m0, l := mem, t.left;
      assert Linked(l, node, mem) && Linked(l.left, l.id, mem) && Linked(l.right, l.id, mem);
      var left := mem[node].left;
      var inner := mem[left].right;

      mem := mem[node := mem[node].(left := inner)];
      if mem[node].left != NULL {
        mem := mem[inner := mem[inner].(parent := node)];
      }
      mem := mem[left := mem[left].(right := node)];

      mem := mem[left := mem[left].(parent := mem[node].parent)];
      if mem[left].parent != NULL {
        var up := mem[node].parent;
        if node == mem[up].right {
          mem := mem[up := mem[up].(right := left)];
        } else {
          mem := mem[up := mem[up].(left := left)];
        }
      } else {
        rbNode := left;
      }
      mem := mem[node := mem[node].(parent := left)];

      RotateRightLinks(z, t, m0, mem, old(rbNode), rbNode);
    }

    /** Case 1 of insertion: a red parent and a red uncle turn black, the grandparent red. */
    method PushRed(parent: Ptr, uncle: Ptr, grand: Ptr, ghost z: Path, ghost g: Tree)
      requires g.Node? && g.left.Node? && g.right.Node? && g.id == grand
      requires (parent == g.left.id && uncle == g.right.id) || (uncle == g.left.id && parent == g.right.id)
      requires Focus(z, g, mem, rbNode)
      modifies `mem
      ensures var g' := Node(g.left.(color := Black), g.id, Red, g.right.(color := Black));
        Focus(z, g', mem, rbNode) && Inorder(Plug(z, g')) == Inorder(Plug(z, g))
    {
      assert Linked(g.left, g.id, mem) && Linked(g.right, g.id, mem);
      ghost var g1 := g.(left := g.left.(color := Black));
      ghost var g2 := g1.(right := g1.right.(color := Black));
      ghost var m := mem;
      PaintLeft(z, g, Black, m, rbNode);
      PaintRight(z, g1, Black, m[g.left.id := m[g.left.id].(color := Black)], rbNode);
      mem := mem[uncle := mem[uncle].(color := Black)];
      mem := mem[parent := mem[parent].(color := Black)];
      assert mem == m[g.left.id := m[g.left.id].(color := Black)][g.right.id := m[g.right.id].(color := Black)];
      Paint(z, g2, Red, mem, rbNode);
      mem := mem[grand := mem[grand].(color := Red)];
      SameOrder(z, g, g2.(color := Red));
    }

    /** The uncle is black and the parent a left child: rotate the violation away. */
    method InsertRotateRight(node: Ptr, parent: Ptr, grand: Ptr, ghost z: Path, ghost g: Tree, ghost h: nat)
      returns (n: Ptr, ghost g': Tree)
      requires g.Node? && g.left.Node? && g.id == grand && g.left.id == parent
      requires Focus(z, g, mem, rbNode)
      requires OneRedRed(g.left, node, h) && Balanced(g.right, h) && BlackRoot(g.right)
      modifies `mem, `rbNode
      ensures Focus(z, g', mem, rbNode) && Inorder(Plug(z, g')) == Inorder(Plug(z, g))
      ensures g'.Node? && g'.color == Black && Balanced(g', h + 1)
      ensures g'.left.Node? && g'.left.id == n && g'.left.color == Red
    {
      var p;
      p, n := parent, node;
      ghost var z1, t := InLeft(z, g.id, g.color, g.right), g.left;
      ZoomLeft(z, g, mem, rbNode);
      assert Linked(t, g.id, mem) && Linked(t.left, t.id, mem) && Linked(t.right, t.id, mem);
      if mem[p].right == n {
        RotateLeft(p, z1, t);
        p, n := n, p;
      }
      t := LeaningLeft(t);
      g' := g.(left := t);
      ZoomLeft(z, g', mem, rbNode);
      assert Linked(t, g.id, mem);
      PaintLeft(z, g', Black, mem, rbNode);
      mem := mem[p := mem[p].(color := Black)];
      g' := g'.(left := t.(color := Black));
      Paint(z, g', Red, mem, rbNode);
      mem := mem[grand := mem[grand].(color := Red)];
      g' := g'.(color := Red);
      RotateRight(grand, z, g');
      g' := RotatedRight(g');
      InsertRotatedRight(g, node, h);
      SameOrder(z, g, g');
    }

    /** The mirror image: the uncle is black and the parent a right child. */
    method InsertRotateLeft(node: Ptr, parent: Ptr, grand: Ptr, ghost z: Path, ghost g: Tree, ghost h: nat)
      returns (n: Ptr, ghost g': Tree)
      requires g.Node? && g.right.Node? && g.id == grand && g.right.id == parent
      requires Focus(z, g, mem, rbNode)
      requires OneRedRed(g.right, node, h) && Balanced(g.left, h) && BlackRoot(g.left)
      modifies `mem, `rbNode
      ensures Focus(z, g', mem, rbNode) && Inorder(Plug(z, g')) == Inorder(Plug(z, g))
      ensures g'.Node? && g'.color == Black && Balanced(g', h + 1)
      ensures g'.right.Node? && g'.right.id == n && g'.right.color == Red
    {
      var p;
      p, n := parent, node;
      ghost var z1, t := InRight(z, g.left, g.id, g.color), g.right;
      ZoomRight(z, g, mem, rbNode);
      assert Linked(t, g.id, mem) && Linked(t.left, t.id, mem) && Linked(t.right, t.id, mem);
      if mem[p].left == n {
        RotateRight(p, z1, t);
        p, n := n, p;
      }
      t := LeaningRight(t);
      g' := g.(right := t);
      ZoomRight(z, g', mem, rbNode);
      assert Linked(t, g.id, mem);
      PaintRight(z, g', Black, mem, rbNode);
      mem := mem[p := mem[p].(color := Black)];
      g' := g'.(right := t.(color := Black));
      Paint(z, g', Red, mem, rbNode);
      mem := mem[grand := mem[grand].(color := Red)];
      g' := g'.(color := Red);
      RotateLeft(grand, z, g');
      g' := RotatedLeft(g');
      InsertRotatedLeft(g, node, h);
      SameOrder(z, g, g');
    }

    /** The loop body when the parent is a left child. */
    method InsertBelowLeft(node: Ptr, parent: Ptr, grand: Ptr, ghost z: Path, ghost t: Tree, ghost h: nat)
      returns (n: Ptr, ghost z': Path, ghost t': Tree, ghost h': nat)
      requires Climbing(z, t, h, node, mem, rbNode)
      requires z != Top && z.color == Red && z.up.InLeft? && z.id == parent && z.up.id == grand
      modifies `mem, `rbNode
      ensures Climbing(z', t', h', n, mem, rbNode) && Depth(z') < Depth(z)
      ensures Inorder(Plug(z', t')) == Inorder(Plug(z, t))
    {
      RedParent(z, t, h, mem, rbNode);
      ghost var up, g := z.up.up, Around(z.up, Around(z, t));
      var uncle := mem[grand].right;
      if uncle != NULL && mem[uncle].color == Red {
        PushRed(parent, uncle, grand, up, g);
        n := grand;
        z', t', h' := up, Node(g.left.(color := Black), g.id, Red, g.right.(color := Black)), h + 1;
      } else {
        n, g := InsertRotateRight(node, parent, grand, up, g, h);
        z', t', h' := InLeft(up, g.id, g.color, g.right), g.left, h;
        ZoomLeft(up, g, mem, rbNode);
      }
    }

    /** The loop body when the parent is a right child. */
    method InsertBelowRight(node: Ptr, parent: Ptr, grand: Ptr, ghost z: Path, ghost t: Tree, ghost h: nat)
      returns (n: Ptr, ghost z': Path, ghost t': Tree, ghost h': nat)
      requires Climbing(z, t, h, node, mem, rbNode)
      requires z != Top && z.color == Red && z.up.InRight? && z.id == parent && z.up.id == grand
      modifies `mem, `rbNode
      ensures Climbing(z', t', h', n, mem, rbNode) && Depth(z') < Depth(z)
      ensures Inorder(Plug(z', t')) == Inorder(Plug(z, t))
    {
      RedParent(z, t, h, mem, rbNode);
      ghost var up, g := z.up.up, Around(z.up, Around(z, t));
      var uncle := mem[grand].left;
      if uncle != NULL && mem[uncle].color == Red {
        PushRed(parent, uncle, grand, up, g);
        n := grand;
        z', t', h' := up, Node(g.left.(color := Black), g.id, Red, g.right.(color := Black)), h + 1;
      } else {
        n, g := InsertRotateLeft(node, parent, grand, up, g, h);
        z', t', h' := InRight(up, g.left, g.id, g.color), g.right, h;
        ZoomRight(up, g, mem, rbNode);
      }
    }

    /** The fix-up loop of insertion, from the new red node up. */
    method InsertColor(newNode: Ptr, ghost z0: Path, ghost t0: Tree, ghost h0: nat)
      requires Climbing(z0, t0, h0, newNode, mem, rbNode)
      modifies `mem, `rbNode, `tree
      ensures Focus(Top, tree, mem, rbNode) && RedBlack(tree)
      ensures Inorder(tree) == Inorder(Plug(z0, t0))
    {
      var node := newNode;
      ghost var z, t, h := z0, t0, h0;
      while true
        invariant Climbing(z, t, h, node, mem, rbNode)
        invariant Inorder(Plug(z, t)) == Inorder(Plug(z0, t0))
        decreases Depth(z)
      {
        var parent := mem[node].parent;
        if !(parent != NULL && mem[parent].color == Red) {
          break;
        }
        RedParent(z, t, h, mem, rbNode);
        var grand := mem[parent].parent;
        if parent == mem[grand].left {
          node, z, t, h := InsertBelowLeft(node, parent, grand, z, t, h);
        } else {
          node, z, t, h := InsertBelowRight(node, parent, grand, z, t, h);
        }
      }
      PlugNode(z, t);
      tree := Plug(z, t).(color := Black);
      PaintRootBlack(z, t, h, mem, rbNode);
      mem := mem[rbNode := mem[rbNode].(color := Black)];
    }

    // ----- erasure -----

    /** A red sibling on the right moves above the parent; the new sibling is black. */
    method LiftRightSibling(parent: Ptr, other: Ptr, ghost z: Path, ghost t: Tree) returns (ghost z': Path)
      requires z.InLeft? && z.id == parent && z.right.Node? && z.right.id == other
      requires Focus(z, t, mem, rbNode)
      modifies `mem, `rbNode
      ensures z' == InLeft(InLeft(z.up, other, Black, z.right.right), parent, Red, z.right.left)
      ensures Focus(z', t, mem, rbNode) && Inorder(Plug(z', t)) == Inorder(Plug(z, t))
    {
      ghost var p := Around(z, t);
      AroundFocus(z, t, mem, rbNode);
      assert Linked(p.right, p.id, mem);
      PaintRight(z.up, p, Black, mem, rbNode);
      mem := mem[other := mem[other].(color := Black)];
      ghost var p1 := p.(right := p.right.(color := Black));
      Paint(z.up, p1, Red, mem, rbNode);
      mem := mem[parent := mem[parent].(color := Red)];
      ghost var p2 := p1.(color := Red);
      RotateLeft(parent, z.up, p2);
      ghost var p3 := RotatedLeft(p2);
      ZoomLeft(z.up, p3, mem, rbNode);
      z' := InLeft(z.up, other, Black, z.right.right);
      ZoomLeft(z', p3.left, mem, rbNode);
      z' := InLeft(z', parent, Red, z.right.left);
      RotationKeepsOrder(p2);
      SameOrder(z.up, p, p3);
    }

    /** A black sibling on the right whose red child is the inner one: turn it outwards. */
    method TurnRightSibling(parent: Ptr, sibling: Ptr, ghost z: Path, ghost s: Tree) returns (other: Ptr)
      requires z.InRight? && z.id == parent && s.Node? && s.id == sibling && s.color == Black
      requires !(BlackRoot(s.left) && BlackRoot(s.right))
      requires Focus(z, s, mem, rbNode)
      modifies `mem, `rbNode
      ensures Focus(z, OuterRedRight(s), mem, rbNode) && other == OuterRedRight(s).id
    {
      other := sibling;
      assert Linked(s.left, s.id, mem) && Linked(s.right, s.id, mem);
      if mem[other].right == NULL || mem[mem[other].right].color == Black {
        var inner := mem[other].left;
        PaintLeft(z, s, Black, mem, rbNode);
        if inner != NULL {
          mem := mem[inner := mem[inner].(color := Black)];
        }
        ghost var s1 := s.(left := s.left.(color := Black));
        Paint(z, s1, Red, mem, rbNode);
        mem := mem[other := mem[other].(color := Red)];
        RotateRight(other, z, s1.(color := Red));
        other := mem[parent].right;
      }
    }

    method TurnLeftSibling(parent: Ptr, sibling: Ptr, ghost z: Path, ghost s: Tree) returns (other: Ptr)
      requires z.InLeft? && z.id == parent && s.Node? && s.id == sibling && s.color == Black
      requires !(BlackRoot(s.left) && BlackRoot(s.right))
      requires Focus(z, s, mem, rbNode)
      modifies `mem, `rbNode
      ensures Focus(z, OuterRedLeft(s), mem, rbNode) && other == OuterRedLeft(s).id
    {
      other := sibling;
      assert Linked(s.left, s.id, mem) && Linked(s.right, s.id, mem);
      if mem[other].left == NULL || mem[mem[other].left].color == Black {
        var inner := mem[other].right;
        PaintRight(z, s, Black, mem, rbNode);
        if inner != NULL {
          mem := mem[inner := mem[inner].(color := Black)];
        }
        ghost var s1 := s.(right := s.right.(color := Black));
        Paint(z, s1, Red, mem, rbNode);
        mem := mem[other := mem[other].(color := Red)];
        RotateLeft(other, z, s1.(color := Red));
        other := mem[parent].left;
      }
    }

    /** The last step: the black sibling's outer red child pays for the missing black node. */
    method BorrowFromRight(parent: Ptr, other: Ptr, ghost z: Path, ghost p: Tree)
      requires p.Node? && p.id == parent && p.right.Node? && p.right.id == other && p.right.right.Node?
      requires Focus(z, p, mem, rbNode)
      modifies `mem, `rbNode
      ensures Focus(z, BorrowedRight(p), mem, rbNode)
    {
      ghost var s, zs := p.right, InRight(z, p.left, p.id, p.color);
      ZoomRight(z, p, mem, rbNode);
      assert Linked(s, p.id, mem);
      Paint(zs, s, p.color, mem, rbNode);
      mem := mem[other := mem[other].(color := mem[parent].color)];
      ghost var s1 := s.(color := p.color);
      ZoomRight(z, p.(right := s1), mem, rbNode);
      Paint(z, p.(right := s1), Black, mem, rbNode);
      mem := mem[parent := mem[parent].(color := Black)];
      ghost var p1 := Node(p.left, p.id, Black, s1);
      ZoomRight(z, p1, mem, rbNode);
      assert Linked(s1, p.id, mem) && Linked(s1.right, s1.id, mem);
      PaintRight(InRight(z, p.left, p.id, Black), s1, Black, mem, rbNode);
      if mem[other].right != NULL {
        mem := mem[mem[other].right := mem[mem[other].right].(color := Black)];
      }
      ghost var s2 := s1.(right := s1.right.(color := Black));
      ZoomRight(z, p1.(right := s2), mem, rbNode);
      RotateLeft(parent, z, p1.(right := s2));
    }

    method BorrowFromLeft(parent: Ptr, other: Ptr, ghost z: Path, ghost p: Tree)
      requires p.Node? && p.id == parent && p.left.Node? && p.left.id == other && p.left.left.Node?
      requires Focus(z, p, mem, rbNode)
      modifies `mem, `rbNode
      ensures Focus(z, BorrowedLeft(p), mem, rbNode)
    {
      ghost var s, zs := p.left, InLeft(z, p.id, p.color, p.right);
      ZoomLeft(z, p, mem, rbNode);
      assert Linked(s, p.id, mem);
      Paint(zs, s, p.color, mem, rbNode);
      mem := mem[other := mem[other].(color := mem[parent].color)];
      ghost var s1 := s.(color := p.color);
      ZoomLeft(z, p.(left := s1), mem, rbNode);
      Paint(z, p.(left := s1), Black, mem, rbNode);
      mem := mem[parent := mem[parent].(color := Black)];
      ghost var p1 := Node(s1, p.id, Black, p.right);
      ZoomLeft(z, p1, mem, rbNode);
      assert Linked(s1, p.id, mem) && Linked(s1.left, s1.id, mem);
      PaintLeft(InLeft(z, p.id, Black, p.right), s1, Black, mem, rbNode);
      if mem[other].left != NULL {
        mem := mem[mem[other].left := mem[mem[other].left].(color := Black)];
      }
      ghost var s2 := s1.(left := s1.left.(color := Black));
      ZoomLeft(z, p1.(left := s2), mem, rbNode);
      RotateRight(parent, z, p1.(left := s2));
    }

    /** The sibling on the right is black and has a red child: the fix-up ends here. */
    method EraseRotateLeft(parent: Ptr, sibling: Ptr, ghost z: Path, ghost t: Tree, ghost h: nat)
      returns (ghost p': Tree)
      requires Lacking(z, t, h, mem, rbNode) && BlackRoot(t) && z.InLeft? && z.id == parent
      requires z.right.Node? && z.right.id == sibling && z.right.color == Black
      requires !(BlackRoot(z.right.left) && BlackRoot(z.right.right))
      modifies `mem, `rbNode
      ensures Focus(Top, p', mem, rbNode) && RedBlack(p')
      ensures Inorder(p') == Inorder(Plug(z, t))
    {
      ghost var p, s := Around(z, t), z.right;
      AroundFocus(z, t, mem, rbNode);
      ZoomRight(z.up, p, mem, rbNode);
      var other := TurnRightSibling(parent, sibling, InRight(z.up, t, parent, z.color), s);
      ghost var p1 := Node(t, z.id, z.color, OuterRedRight(s));
      ZoomRight(z.up, p1, mem, rbNode);
      BorrowRightBalance(z, t, h);
      BorrowFromRight(parent, other, z.up, p1);
      p' := Plug(z.up, BorrowedRight(p1));
      PlugFocus(z.up, BorrowedRight(p1), mem, rbNode);
    }

    /** Makes the sibling on the right black, if it is not. */
    method BlackenRightSibling(parent: Ptr, ghost z: Path, ghost t: Tree, ghost h: nat)
      returns (other: Ptr, ghost z': Path)
      requires Lacking(z, t, h, mem, rbNode) && BlackRoot(t) && z.InLeft? && z.id == parent
      modifies `mem, `rbNode
      ensures Lacking(z', t, h, mem, rbNode) && Inorder(Plug(z', t)) == Inorder(Plug(z, t))
      ensures z'.InLeft? && z'.id == parent && z'.right.Node? && z'.right.id == other
      ensures z'.right.color == Black
      ensures z' == z || (Depth(z') == Depth(z) + 1 && z'.color == Red)
    {
      SiblingExists(z, t, h, mem, rbNode);
      z' := z;
      other := mem[parent].right;
      if mem[other].color == Red {
        z' := LiftRightSibling(parent, other, z, t);
        other := mem[parent].right;
      }
    }

    /** The loop body when the subtree in focus is a left child. */
    method EraseBelowLeft(parent: Ptr, ghost z0: Path, ghost t: Tree, ghost h: nat)
      returns (done: bool, node: Ptr, up: Ptr, ghost z': Path, ghost t': Tree, ghost h': nat)
      requires Lacking(z0, t, h, mem, rbNode) && BlackRoot(t) && z0.InLeft? && z0.id == parent
      modifies `mem, `rbNode
      ensures Inorder(Plug(z', t')) == Inorder(Plug(z0, t))
      ensures Lacking(z', t', h', mem, rbNode) && node == RootOf(t') && up == ParentOf(z')
      ensures if done then z' == Top else LackMeasure(z', t') < LackMeasure(z0, t)
    {
      var other;
      ghost var z;
      other, z := BlackenRightSibling(parent, z0, t, h);
      SiblingExists(z, t, h, mem, rbNode);
      if && (mem[other].left == NULL || mem[mem[other].left].color == Black)
         && (mem[other].right == NULL || mem[mem[other].right].color == Black) {
        DimSibling(z, t, h, mem, rbNode);
        mem := mem[other := mem[other].(color := Red)];
        node := parent;
        up := mem[node].parent;
        done, z', t', h' := false, z.up, Dimmed(z, t), if z.color == Black then h + 1 else h;
      } else {
        t' := EraseRotateLeft(parent, other, z, t, h);
        z', h' := Top, BlackHeight(t');
        done, node, up := true, rbNode, NULL;
      }
    }

    // The mirror images, for a subtree that is a right child.

    method LiftLeftSibling(parent: Ptr, other: Ptr, ghost z: Path, ghost t: Tree) returns (ghost z': Path)
      requires z.InRight? && z.id == parent && z.left.Node? && z.left.id == other
      requires Focus(z, t, mem, rbNode)
      modifies `mem, `rbNode
      ensures z' == InRight(InRight(z.up, z.left.left, other, Black), z.left.right, parent, Red)
      ensures Focus(z', t, mem, rbNode) && Inorder(Plug(z', t)) == Inorder(Plug(z, t))
    {
      ghost var p := Around(z, t);
      AroundFocus(z, t, mem, rbNode);
      assert Linked(p.left, p.id, mem);
      PaintLeft(z.up, p, Black, mem, rbNode);
      mem := mem[other := mem[other].(color := Black)];
      ghost var p1 := p.(left := p.left.(color := Black));
      Paint(z.up, p1, Red, mem, rbNode);
      mem := mem[parent := mem[parent].(color := Red)];
      ghost var p2 := p1.(color := Red);
      RotateRight(parent, z.up, p2);
      ghost var p3 := RotatedRight(p2);
      ZoomRight(z.up, p3, mem, rbNode);
      z' := InRight(z.up, z.left.left, other, Black);
      ZoomRight(z', p3.right, mem, rbNode);
      z' := InRight(z', z.left.right, parent, Red);
      RotationKeepsOrder(p2);
      SameOrder(z.up, p, p3);
    }

    method EraseRotateRight(parent: Ptr, sibling: Ptr, ghost z: Path, ghost t: Tree, ghost h: nat)
      returns (ghost p': Tree)
      requires Lacking(z, t, h, mem, rbNode) && BlackRoot(t) && z.InRight? && z.id == parent
      requires z.left.Node? && z.left.id == sibling && z.left.color == Black
      requires !(BlackRoot(z.left.left) && BlackRoot(z.left.right))
      modifies `mem, `rbNode
      ensures Focus(Top, p', mem, rbNode) && RedBlack(p')
      ensures Inorder(p') == Inorder(Plug(z, t))
    {
      ghost var p, s := Around(z, t), z.left;
      AroundFocus(z, t, mem, rbNode);
      ZoomLeft(z.up, p, mem, rbNode);
      var other := TurnLeftSibling(parent, sibling, InLeft(z.up, parent, z.color, t), s);
      ghost var p1 := Node(OuterRedLeft(s), z.id, z.color, t);
      ZoomLeft(z.up, p1, mem, rbNode);
      BorrowLeftBalance(z, t, h);
      BorrowFromLeft(parent, other, z.up, p1);
      p' := Plug(z.up, BorrowedLeft(p1));
      PlugFocus(z.up, BorrowedLeft(p1), mem, rbNode);
    }

    method BlackenLeftSibling(parent: Ptr, ghost z: Path, ghost t: Tree, ghost h: nat)
      returns (other: Ptr, ghost z': Path)
      requires Lacking(z, t, h, mem, rbNode) && BlackRoot(t) && z.InRight? && z.id == parent
      modifies `mem, `rbNode
      ensures Lacking(z', t, h, mem, rbNode) && Inorder(Plug(z', t)) == Inorder(Plug(z, t))
      ensures z'.InRight? && z'.id == parent && z'.left.Node? && z'.left.id == other
      ensures z'.left.color == Black
      ensures z' == z || (Depth(z') == Depth(z) + 1 && z'.color == Red)
    {
      SiblingExists(z, t, h, mem, rbNode);
      z' := z;
      other := mem[parent].left;
      if mem[other].color == Red {
        z' := LiftLeftSibling(parent, other, z, t);
        other := mem[parent].left;
      }
    }

    method EraseBelowRight(parent: Ptr, ghost z0: Path, ghost t: Tree, ghost h: nat)
      returns (done: bool, node: Ptr, up: Ptr, ghost z': Path, ghost t': Tree, ghost h': nat)
      requires Lacking(z0, t, h, mem, rbNode) && BlackRoot(t) && z0.InRight? && z0.id == parent
      modifies `mem, `rbNode
      ensures Inorder(Plug(z', t')) == Inorder(Plug(z0, t))
      ensures Lacking(z', t', h', mem, rbNode) && node == RootOf(t') && up == ParentOf(z')
      ensures if done then z' == Top else LackMeasure(z', t') < LackMeasure(z0, t)
    {
      var other;
      ghost var z;
      other, z := BlackenLeftSibling(parent, z0, t, h);
      SiblingExists(z, t, h, mem, rbNode);
      if && (mem[other].left == NULL || mem[mem[other].left].color == Black)
         && (mem[other].right == NULL || mem[mem[other].right].color == Black) {
        DimSibling(z, t, h, mem, rbNode);
        mem := mem[other := mem[other].(color := Red)];
        node := parent;
        up := mem[node].parent;
        done, z', t', h' := false, z.up, Dimmed(z, t), if z.color == Black then h + 1 else h;
      } else {
        t' := EraseRotateRight(parent, other, z, t, h);
        z', h' := Top, BlackHeight(t');
        done, node, up := true, rbNode, NULL;
      }
    }

    /** The fix-up loop of erasure, from the place a black node left. */
    method EraseColor(child: Ptr, above: Ptr, ghost z0: Path, ghost t0: Tree, ghost h0: nat)
      requires Lacking(z0, t0, h0, mem, rbNode) && child == RootOf(t0) && above == ParentOf(z0)
      modifies `mem, `rbNode, `tree
      ensures Focus(Top, tree, mem, rbNode) && RedBlack(tree)
      ensures Inorder(tree) == Inorder(Plug(z0, t0))
    {
      var node, parent := child, above;
      ghost var z, t, h := z0, t0, h0;
      while true
        invariant Lacking(z, t, h, mem, rbNode) && node == RootOf(t) && parent == ParentOf(z)
        invariant Inorder(Plug(z, t)) == Inorder(Plug(z0, t0))
        decreases LackMeasure(z, t)
      {
        TopOrBelow(z, t, mem, rbNode);
        if !((node == NULL || mem[node].color == Black) && node != rbNode) {
          break;
        }
        SiblingExists(z, t, h, mem, rbNode);
        var done;
        if mem[parent].left == node {
          done, node, parent, z, t, h := EraseBelowLeft(parent, z, t, h);
        } else {
          done, node, parent, z, t, h := EraseBelowRight(parent, z, t, h);
        }
        if done {
          break;
        }
      }
      BlackenEnd(z, t, h, mem, rbNode);
      tree := Plug(z, Blackened(t));
      if node != NULL {
        mem := mem[node := mem[node].(color := Black)];
      }
    }

    /** Takes a node with at most one child out of the tree; the child takes its place. */
    method Unlink(node: Ptr, child: Ptr, ghost z: Path, ghost t: Tree) returns (parent: Ptr)
      requires t.Node? && t.id == node && (t.left.Leaf? || t.right.Leaf?) && child == RootOf(OnlyChild(t))
      requires Focus(z, t, mem, rbNode)
      modifies `mem, `rbNode
      ensures Focus(z, OnlyChild(t), mem, rbNode) && parent == ParentOf(z)
      ensures mem.Keys == old(mem.Keys) && mem[node] == old(mem[node])
    {
      ghost var m := mem;
      ghost var c := OnlyChild(t);
      parent := mem[node].parent;
      assert Linked(c, node, mem);
      if child != NULL {
        mem := mem[child := mem[child].(parent := parent)];
      }
      if parent != NULL {
        if mem[parent].left == node {
          mem := mem[parent := mem[parent].(left := child)];
        } else {
          mem := mem[parent := mem[parent].(right := child)];
        }
      } else {
        rbNode := child;
      }
      Reparent(c, node, parent, m, mem);
      Relink(z, node, child, m, mem, old(rbNode), rbNode);
    }

    /** Puts `node`, which is outside the tree, in the place of `victim`. */
    method Substitute(victim: Ptr, node: Ptr, ghost z: Path, ghost t: Tree)
      requires t.Node? && t.id == victim && t.left.Node?
      requires Focus(z, t, mem, rbNode)
      requires node != NULL && node in mem && node !in Ids(t) && node !in PathIds(z)
      modifies `mem, `rbNode
      ensures Focus(z, t.(id := node), mem, rbNode)
    {
      ghost var m := mem;
      assert Linked(t.left, victim, mem) && Linked(t.right, victim, mem);
      mem := mem[node := mem[node].(parent := mem[victim].parent)];
      mem := mem[node := mem[node].(color := mem[victim].color)];
      mem := mem[node := mem[node].(right := mem[victim].right)];
      mem := mem[node := mem[node].(left := mem[victim].left)];
      var up := mem[victim].parent;
      if up != NULL {
        if mem[up].left == victim {
          mem := mem[up := mem[up].(left := node)];
        } else {
          mem := mem[up := mem[up].(right := node)];
        }
      } else {
        rbNode := node;
      }
      var l, r := mem[victim].left, mem[victim].right;
      mem := mem[l := mem[l].(parent := node)];
      if r != NULL {
        mem := mem[r := mem[r].(parent := node)];
      }
      SubstituteLinks(z, t, node, m, mem, old(rbNode), rbNode);
    }

    /** The same, seen from a place `w` below the right child of `victim`. */
    method SubstituteAbove(victim: Ptr, node: Ptr, ghost z: Path, ghost l: Tree, ghost c: Color, ghost w: Path,
                           ghost t: Tree)
      requires l.Node?
      requires Focus(Join(w, InRight(z, l, victim, c)), t, mem, rbNode)
      requires node != NULL && node in mem
      requires node !in Ids(t) && node !in PathIds(Join(w, InRight(z, l, victim, c)))
      modifies `mem, `rbNode
      ensures Focus(Join(w, InRight(z, l, node, c)), t, mem, rbNode)
    {
      ghost var t1 := Node(l, victim, c, Plug(w, t));
      JoinFocus(w, InRight(z, l, victim, c), t, mem, rbNode);
      ZoomRight(z, t1, mem, rbNode);
      PlugIds(w, t);
      JoinIds(w, InRight(z, l, victim, c));
      Substitute(victim, node, z, t1);
      ZoomRight(z, t1.(id := node), mem, rbNode);
      JoinFocus(w, InRight(z, l, node, c), t, mem, rbNode);
    }

    /** Follows left links down from `start`. */
    method Leftmost(start: Ptr, ghost z: Path, ghost t: Tree) returns (node: Ptr, ghost w: Path, ghost s: Tree)
      requires t.Node? && t.id == start && Focus(z, t, mem, rbNode)
      ensures s.Node? && s.id == node && s.left.Leaf? && Plug(w, s) == t && Before(w) == []
    {
      node, w, s := start, Top, t;
      while true
        invariant s.Node? && s.id == node && Plug(w, s) == t && Before(w) == []
        invariant Linked(s, ParentOf(Join(w, z)), mem)
        decreases s
      {
        var left := mem[node].left;
        if left == NULL {
          break;
        }
        w, s := InLeft(w, s.id, s.color, s.right), s.left;
        node := left;
      }
    }

    /** Follows right links down from `start`. */
    method Rightmost(start: Ptr, ghost z: Path, ghost t: Tree) returns (node: Ptr, ghost w: Path, ghost s: Tree)
      requires t.Node? && t.id == start && Focus(z, t, mem, rbNode)
      ensures s.Node? && s.id == node && s.right.Leaf? && Plug(w, s) == t && After(w) == []
    {
      node, w, s := start, Top, t;
      while true
        invariant s.Node? && s.id == node && Plug(w, s) == t && After(w) == []
        invariant Linked(s, ParentOf(Join(w, z)), mem)
        decreases s
      {
        var right := mem[node].right;
        if right == NULL {
          break;
        }
        w, s := InRight(w, s.left, s.id, s.color), s.right;
        node := right;
      }
    }

    /** The fix-up, if the node that left a place was black. */
    method EraseFinish(child: Ptr, parent: Ptr, color: Color, ghost z: Path, ghost c: Tree, ghost h: nat)
      requires Focus(z, c, mem, rbNode) && child == RootOf(c) && parent == ParentOf(z)
      requires BalancedPath(z, h)
      requires if color == Red then BlackRoot(c) && Balanced(c, h)
               else h > 0 && if BlackRoot(c) then Balanced(c, h - 1) else Balanced(c.(color := Black), h)
      modifies `mem, `rbNode, `tree
      ensures Focus(Top, tree, mem, rbNode) && RedBlack(tree)
      ensures Inorder(tree) == Inorder(Plug(z, c))
    {
      if color == Black {
        EraseColor(child, parent, z, c, h - 1);
      } else {
        tree := Plug(z, c);
        PlugFocus(z, c, mem, rbNode);
        PlugBalanced(z, c, h);
      }
    }

    /** Takes `node` out of the tree and rebalances; no key is read. */
    method Erase(node: Ptr, ghost z: Path, ghost t: Tree)
      requires t.Node? && t.id == node && tree == Plug(z, t)
      requires Focus(z, t, mem, rbNode) && RedBlack(tree)
      modifies `mem, `rbNode, `tree
      ensures Focus(Top, tree, mem, rbNode) && RedBlack(tree)
      ensures Inorder(tree) == Before(z) + (Inorder(t.left) + Inorder(t.right)) + After(z)
    {
      var child;
      assert Linked(t.left, node, mem) && Linked(t.right, node, mem);
      if mem[node].left == NULL {
        child := mem[node].right;
      } else if mem[node].right == NULL {
        child := mem[node].left;
      } else {
        EraseInner(node, z, t);
        return;
      }
      var color := mem[node].color;
      ghost var h := UnlinkBalance(z, t);
      ghost var c := OnlyChild(t);
      var parent := Unlink(node, child, z, t);
      EraseFinish(child, parent, color, z, c, h);
      PlugInorder(z, c);
      assert Inorder(t.left) + Inorder(t.right) == Inorder(c);
    }

    /** The node has two children: its successor takes its place. */
    method EraseInner(victim: Ptr, ghost z: Path, ghost t: Tree)
      requires t.Node? && t.id == victim && t.left.Node? && t.right.Node? && tree == Plug(z, t)
      requires Focus(z, t, mem, rbNode) && RedBlack(tree)
      modifies `mem, `rbNode, `tree
      ensures Focus(Top, tree, mem, rbNode) && RedBlack(tree)
      ensures Inorder(tree) == Before(z) + (Inorder(t.left) + Inorder(t.right)) + After(z)
    {
      var node, child, parent, color;
      ghost var w, s, h;
      node, child, parent, color, w, s, h := UnlinkSuccessor(victim, z, t);
      SubstituteAbove(victim, node, z, t.left, t.color, w, s.right);
      RenameOnPath(w, z, t.left, victim, node, t.color, h);
      EraseFinish(child, parent, color, Join(w, InRight(z, t.left, node, t.color)), s.right, h);
      SuccessorOrder(z, t.left, t.color, w, s);
    }

    /** Finds the successor of `victim` and takes it out of the right subtree. */
    method UnlinkSuccessor(victim: Ptr, ghost z: Path, ghost t: Tree)
      returns (node: Ptr, child: Ptr, parent: Ptr, color: Color, ghost w: Path, ghost s: Tree, ghost h: nat)
      requires t.Node? && t.id == victim && t.left.Node? && t.right.Node?
      requires Focus(z, t, mem, rbNode) && RedBlack(Plug(z, t))
      modifies `mem, `rbNode
      ensures s.Node? && s.id == node && s.left.Leaf? && s.color == color && s.right == OnlyChild(s)
      ensures Plug(w, s) == t.right && Before(w) == []
      ensures var zs := Join(w, InRight(z, t.left, victim, t.color));
        && Focus(zs, s.right, mem, rbNode)
        && node != NULL && node in mem && node !in Ids(s.right) && node !in PathIds(zs)
        && BalancedPath(zs, h)
      ensures child == RootOf(s.right) && parent == ParentOf(Join(w, InRight(z, t.left, node, t.color)))
      ensures if color == Red then BlackRoot(s.right) && Balanced(s.right, h)
              else h > 0 && if BlackRoot(s.right) then Balanced(s.right, h - 1)
                            else Balanced(s.right.(color := Black), h)
    {
      ghost var zr := InRight(z, t.left, victim, t.color);
      ZoomRight(z, t, mem, rbNode);
      node, w, s := Leftmost(mem[victim].right, zr, t.right);
      ghost var zs := Join(w, zr);
      JoinFocus(w, zr, s, mem, rbNode);
      TopOrBelow(zs, s, mem, rbNode);
      child, color := mem[node].right, mem[node].color;
      h := UnlinkBalance(zs, s);
      parent := Unlink(node, child, zs, s);
      if mem[node].parent == victim {
        parent := node;
      }
      JoinIds(w, zr);
    }

    // ----- reading the order -----

    /** The subtree `t` of `node` stands at `z`, with these neighbours in order. */
    ghost predicate StandsAt(node: Ptr, z: Path, t: Tree)
      requires node in Order()
      reads this
    {
      && t.Node? && t.id == node && Plug(z, t) == tree && Focus(z, t, mem, rbNode)
      && node in mem && mem[node].left == RootOf(t.left) && mem[node].right == RootOf(t.right)
      && Linked(t.left, node, mem) && Linked(t.right, node, mem)
      && var i := IndexOf(Order(), node);
        && FirstOf(Order()[i + 1..]) == (if t.right.Leaf? then FirstOf(After(z)) else FirstOf(Inorder(t.right)))
        && LastOf(Order()[..i]) == (if t.left.Leaf? then LastOf(Before(z)) else LastOf(Inorder(t.left)))
        && Order()[..i] == Before(z) + Inorder(t.left) && Order()[i + 1..] == Inorder(t.right) + After(z)
    }

    /** Every node of the tree stands somewhere in it. */
    lemma Find(node: Ptr) returns (z: Path, t: Tree)
      requires Focus(Top, tree, mem, rbNode) && node in Order()
      ensures StandsAt(node, z, t)
    {
      InorderIds(tree);
      z, t := Locate(Top, tree, node);
      PlugFocus(z, t, mem, rbNode);
      FocusIndex(z, t, mem, rbNode);
      FirstLast(Inorder(t.right), After(z));
      FirstLast(Before(z), Inorder(t.left));
    }

    /** Climbs while it comes from the right; ends at the first node after the subtree at `start`. */
    method ClimbFromRight(start: Ptr, ghost z0: Path, ghost t0: Tree) returns (r: Ptr)
      requires t0.Node? && t0.id == start && Focus(z0, t0, mem, rbNode)
      ensures r == FirstOf(After(z0))
    {
      var node := start;
      ghost var z, t := z0, t0;
      while mem[node].parent != NULL && node == mem[mem[node].parent].right
        invariant t.Node? && t.id == node && Focus(z, t, mem, rbNode) && After(z) == After(z0)
        decreases z
      {
        AroundFocus(z, t, mem, rbNode);
        node := mem[node].parent;
        t, z := Around(z, t), z.up;
      }
      r := mem[node].parent;
    }

    method ClimbFromLeft(start: Ptr, ghost z0: Path, ghost t0: Tree) returns (r: Ptr)
      requires t0.Node? && t0.id == start && Focus(z0, t0, mem, rbNode)
      ensures r == LastOf(Before(z0))
    {
      var node := start;
      ghost var z, t := z0, t0;
      while mem[node].parent != NULL && node == mem[mem[node].parent].left
        invariant t.Node? && t.id == node && Focus(z, t, mem, rbNode) && Before(z) == Before(z0)
        decreases z
      {
        AroundFocus(z, t, mem, rbNode);
        node := mem[node].parent;
        t, z := Around(z, t), z.up;
      }
      r := mem[node].parent;
    }

    /** The node after `node` in order, or NULL. */
    method Next(node: Ptr) returns (r: Ptr)
      requires Focus(Top, tree, mem, rbNode) && node in Order()
      ensures r == FirstOf(Order()[IndexOf(Order(), node) + 1..])
      ensures var i := IndexOf(Order(), node);
        r == if i + 1 < |Order()| then Order()[i + 1] else NULL
    {
      ghost var z, t := Find(node);
      if mem[node].right != NULL {
        ghost var w, s;
        ZoomRight(z, t, mem, rbNode);
        r, w, s := Leftmost(mem[node].right, InRight(z, t.left, node, t.color), t.right);
        LeftmostOrder(w, s);
      } else {
        r := ClimbFromRight(node, z, t);
      }
    }

    /** The node before `node` in order, or NULL. */
    method Prev(node: Ptr) returns (r: Ptr)
      requires Focus(Top, tree, mem, rbNode) && node in Order()
      ensures r == LastOf(Order()[..IndexOf(Order(), node)])
      ensures var i := IndexOf(Order(), node);
        r == if i > 0 then Order()[i - 1] else NULL
    {
      ghost var z, t := Find(node);
      if mem[node].left != NULL {
        ghost var w, s;
        ZoomLeft(z, t, mem, rbNode);
        r, w, s := Rightmost(mem[node].left, InLeft(z, node, t.color, t.right), t.left);
        RightmostOrder(w, s);
      } else {
        r := ClimbFromLeft(node, z, t);
      }
    }

    method First() returns (r: Ptr)
      requires Valid()
      ensures r == FirstOf(Order()) == firstNode
      ensures r == if Order() == [] then NULL else Order()[0]
    {
      if rbNode == NULL {
        return NULL;
      }
      ghost var w, s;
      r, w, s := Leftmost(rbNode, Top, tree);
      LeftmostOrder(w, s);
    }

    method Last() returns (r: Ptr)
      requires Valid()
      ensures r == LastOf(Order()) == lastNode
      ensures r == if Order() == [] then NULL else Order()[|Order()| - 1]
    {
      if rbNode == NULL {
        return NULL;
      }
      ghost var w, s;
      r, w, s := Rightmost(rbNode, Top, tree);
      RightmostOrder(w, s);
    }

    /** The first node in order whose key is greater than `key`, or NULL if there is none. */
    method FirstGreater(key: nat) returns (r: Ptr)
      requires Valid() && Ordered()
      ensures r == NULL ==> forall x :: x in Order() ==> value[x] <= key
      ensures r != NULL ==> r in Order() && value[r] > key
      ensures r != NULL ==> forall x :: x in Order() && x != r && value[x] > key ==> Precedes(value, stamp, r, x)
    {
      var node := rbNode;
      r := NULL;
      ghost var z, t := Top, tree;
      while node != NULL
        invariant Plug(z, t) == tree && node == RootOf(t) && Linked(t, ParentOf(z), mem)
        invariant AtMost(Before(z), value, key) && AtLeast(After(z), value, key + 1)
        invariant r == FirstOf(After(z)) && (r == NULL ==> After(z) == [])
        decreases t
      {
        SplitOrder(z, t, value, stamp);
        if value[node] > key {
          r := node;
          node := mem[node].left;
          z, t := InLeft(z, t.id, t.color, t.right), t.left;
        } else {
          node := mem[node].right;
          z, t := InRight(z, t.left, t.id, t.color), t.right;
        }
      }
      EmptyHoleOrder(z);
      LeastAfterCut(Before(z), After(z), value, stamp);
    }

    // ----- the two updates -----

    /** Hangs `node`, red and without children, on the empty link `link` below `parent`. */
    method LinkNode(node: Ptr, parent: Ptr, link: Link, ghost z: Path)
      requires Focus(z, Leaf, mem, rbNode) && parent == ParentOf(z) && link == LinkTo(z)
      requires node != NULL && node !in PathIds(z)
      modifies `mem, `rbNode
      ensures Focus(z, Node(Leaf, node, Red, Leaf), mem, rbNode)
    {
      ghost var m := mem;
      mem := mem[node := RbNode(parent, NULL, NULL, Red)];
      match link {
        case FromRoot => rbNode := node;
        case LeftOf(p) => mem := mem[p := mem[p].(left := node)];
        case RightOf(p) => mem := mem[p := mem[p].(right := node)];
      }
      Relink(z, NULL, node, m, mem, old(rbNode), rbNode);
    }

    /** Finds the empty link after every node whose key is at most `key`. */
    method FindLink(key: nat) returns (parent: Ptr, link: Link, ghost z: Path)
      requires Valid() && Ordered()
      ensures Focus(z, Leaf, mem, rbNode) && Plug(z, Leaf) == tree && Order() == Before(z) + After(z)
      ensures parent == ParentOf(z) && link == LinkTo(z)
      ensures AtMost(Before(z), value, key) && AtLeast(After(z), value, key + 1)
    {
      var node := rbNode;
      parent, link := NULL, FromRoot;
      z := Top;
      ghost var t := tree;
      while node != NULL
        invariant Plug(z, t) == tree && node == RootOf(t) && Focus(z, t, mem, rbNode)
        invariant parent == ParentOf(z) && link == LinkTo(z)
        invariant AtMost(Before(z), value, key) && AtLeast(After(z), value, key + 1)
        decreases t
      {
        SplitOrder(z, t, value, stamp);
        parent := node;
        if key < value[node] {
          link, node := LeftOf(node), mem[node].left;
          ZoomLeft(z, t, mem, rbNode);
          z, t := InLeft(z, t.id, t.color, t.right), t.left;
        } else {
          link, node := RightOf(node), mem[node].right;
          ZoomRight(z, t, mem, rbNode);
          z, t := InRight(z, t.left, t.id, t.color), t.right;
        }
      }
      EmptyHoleOrder(z);
    }

    /** Adds `node` after every node whose key is at most its own. */
    method InsertNode(node: Ptr) returns (ghost a: seq<Ptr>, ghost b: seq<Ptr>)
      requires Valid() && Ordered()
      requires node != NULL && node !in Order() && node in value
      modifies `mem, `rbNode, `tree, `firstNode, `lastNode, `count, `stamp, `clock
      ensures Valid() && Ordered()
      ensures old(Order()) == a + b && Order() == a + [node] + b
      ensures AtMost(a, value, value[node]) && AtLeast(b, value, value[node] + 1)
      ensures stamp == old(stamp)[node := old(clock)]
    {
      a, b := Attach(node);
      InsertedOrder(a, b, value, stamp, clock, node);
      stamp, clock := stamp[node := clock], clock + 1;
    }

    method Attach(node: Ptr) returns (ghost a: seq<Ptr>, ghost b: seq<Ptr>)
      requires Valid() && Ordered()
      requires node != NULL && node !in Order() && node in value
      modifies `mem, `rbNode, `tree, `firstNode, `lastNode, `count
      ensures Valid()
      ensures old(Order()) == a + b && Order() == a + [node] + b
      ensures AtMost(a, value, value[node]) && AtLeast(b, value, value[node] + 1)
    {
      var parent, link;
      ghost var z;
      parent, link, z := FindLink(value[node]);
      a, b := Before(z), After(z);
      ExtendEnds(node, a, b);
      AddLeaf(node, parent, link, z);
      count := count + 1;
    }

    /** Moves the cached ends if `node` goes before the first node or after the last. */
    method ExtendEnds(node: Ptr, ghost a: seq<Ptr>, ghost b: seq<Ptr>)
      requires count == |a + b| && firstNode == FirstOf(a + b) && lastNode == LastOf(a + b)
      requires node in value && AtMost(a, value, value[node]) && AtLeast(b, value, value[node] + 1)
      modifies `firstNode, `lastNode
      ensures firstNode == FirstOf(a + [node] + b) && lastNode == LastOf(a + [node] + b)
    {
      FirstLast(a, b);
      FirstLast(a, [node] + b);
      FirstLast(a + [node], b);
      assert a + [node] + b == a + ([node] + b);
      if count != 0 {
        assert a != [] ==> a[0] in a && a[|a| - 1] in a;
        assert b != [] ==> b[0] in b && b[|b| - 1] in b;
        if value[node] >= value[lastNode] {
          lastNode := node;
        }
        if value[node] < value[firstNode] {
          firstNode := node;
        }
      } else {
        firstNode := node;
        lastNode := node;
      }
    }

    /** Links a new leaf and rebalances. */
    method AddLeaf(node: Ptr, parent: Ptr, link: Link, ghost z: Path)
      requires Focus(z, Leaf, mem, rbNode) && Plug(z, Leaf) == tree && RedBlack(tree)
      requires parent == ParentOf(z) && link == LinkTo(z)
      requires node != NULL && node !in Inorder(tree)
      modifies `mem, `rbNode, `tree
      ensures Focus(Top, tree, mem, rbNode) && RedBlack(tree)
      ensures Inorder(tree) == Before(z) + [node] + After(z)
    {
      ghost var h := NewLeaf(z, node);
      LinkNode(node, parent, link, z);
      InsertColor(node, z, Node(Leaf, node, Red, Leaf), h);
    }

    /** Takes `node` out.  Only links are read: the keys of the tree need not be in order. */
    method RemoveNode(node: Ptr)
      requires Valid() && node in Order()
      modifies `mem, `rbNode, `tree, `firstNode, `lastNode, `count
      ensures Valid()
      ensures Order() == Removed(old(Order()), node)
      ensures forall x :: x in Order() <==> x in old(Order()) && x != node
      ensures old(OrderedApartFrom(node)) ==> Ordered()
    {
      ghost var order := Order();
      InorderDistinct(tree, NULL, mem);
      Detach(node);
      RemovedMembers(order, node);
      if old(OrderedApartFrom(node)) {
        RemovedSorted(order, value, stamp, node);
      }
    }

    method Detach(node: Ptr)
      requires Valid() && node in Order()
      modifies `mem, `rbNode, `tree, `firstNode, `lastNode, `count
      ensures Valid()
      ensures Order() == Removed(old(Order()), node)
    {
      ShrinkEnds(node);
      EraseNode(node);
      count := count - 1;
    }

    /** An assignment to the value field of a node, whether or not the node is in the tree. */
    method SetValue(node: Ptr, v: nat)
      requires Valid() && Ordered()
      modifies `value
      ensures value == old(value)[node := v]
      ensures Valid() && Order() == old(Order())
      ensures if node in Order() then OrderedApartFrom(node) else Ordered()
    {
      value := value[node := v];
      if node !in Order() {
        SortedFrame(Order(), old(value), value, stamp);
      } else {
        forall i, j | 0 <= i < j < |Order()| && Order()[i] != node && Order()[j] != node
          ensures Precedes(value, stamp, Order()[i], Order()[j])
        {
          assert Precedes(old(value), stamp, Order()[i], Order()[j]);
        }
      }
    }

    /** Moves a cached end away from `node`. */
    method ShrinkEnds(node: Ptr)
      requires Valid() && node in Order()
      modifies `firstNode, `lastNode
      ensures firstNode == FirstOf(Removed(Order(), node)) && lastNode == LastOf(Removed(Order(), node))
    {
      InorderDistinct(tree, NULL, mem);
      RemovedEnds(Order(), node);
      if count > 1 {
        if node == lastNode {
          lastNode := Prev(node);
        }
        if node == firstNode {
          firstNode := Next(node);
        }
      } else {
        lastNode := NULL;
        firstNode := NULL;
      }
    }

    method EraseNode(node: Ptr)
      requires Focus(Top, tree, mem, rbNode) && RedBlack(tree) && node in Order()
      modifies `mem, `rbNode, `tree
      ensures Focus(Top, tree, mem, rbNode) && RedBlack(tree)
      ensures Order() == Removed(old(Order()), node)
    {
      ghost var z, t := Find(node);
      Erase(node, z, t);
      Regather(Before(z), Inorder(t.left), Inorder(t.right), After(z));
    }

    /** The height is at most 2 * log2(count + 1). */
    lemma HeightBound()
      requires Valid()
      ensures Pow2(Height(tree)) <= (count + 1) * (count + 1)
    {
      RedBlackHeight(tree);
    }
  }
}
