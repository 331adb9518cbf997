/**
  The radix tree of lib/source/radix.c: a tree of nodes with sixteen slots, one level for each
  digit of an index, with parent links and counts of the filled slots.
 */
module RadixTrees {
  import opened Basics
  import opened RadixShape
  import opened RadixSteps
  import opened RadixSearch

  /** How a search ends; Stray is the walk that takes the root struct for a node. */
  datatype Outcome = Found(item: Ptr) | Nothing | Stray

  ghost function Get(content: map<nat, Ptr>, k: nat): Ptr {
    if k in content then content[k] else NULL
  }

  lemma FreshAddress(taken: set<Ptr>)
    ensures exists p: Ptr :: p > ROOT && p !in taken
  {
    var p := AboveAll(taken);
    assert p > ROOT && p !in taken;
  }

  lemma {:induction false} AboveAll(taken: set<Ptr>) returns (p: Ptr)
    ensures p > ROOT && forall q :: q in taken ==> q < p
  {
    p := ROOT + 1;
    if taken != {} {
      var q :| q in taken;
      p := AboveAll(taken - {q});
      assert forall r :: r in taken ==> r == q || r in taken - {q};
      p := if p <= q then q + 1 else p;
    }
  }

  /** The answer a search for the least key at or above `index` should give. */
  ghost predicate IsUpperBound(content: map<nat, Ptr>, index: nat, r: Outcome) {
    if exists j :: j in content && index <= j then exists k :: Least(content, index, k) && r == Found(content[k])
    else r == Nothing
  }

  class RadixTree {
    var height: nat
    var count: nat
    var rnode: Ptr
    /** The allocated nodes. */
    var mem: map<Ptr, Node>

    ghost var nodes: map<Place, Ptr>
    /** The map the tree stands for. */
    ghost var content: map<nat, Ptr>

    ghost function Here(): Shape
      reads this
    {
      Shape(height, rnode, mem, nodes, content)
    }

    ghost predicate ValidBut(hole: Ptr)
      reads this
    {
      BuiltBut(Here(), hole) && count == |nodes| == |mem|
    }

    /** The tree stands for `content`, and `count` is its number of nodes. */
    ghost predicate Valid()
      reads this
    {
      ValidBut(NULL)
    }

    /** The root node was put above an earlier root. */
    ghost predicate HasGrown()
      reads this
    {
      rnode in mem && mem[rnode].parent == NULL
    }

    /** The tree without the last step of the count of `leaf` is whole but for an empty leaf. */
    ghost predicate OverCounted(leaf: Ptr)
      reads this
    {
      && leaf in mem && mem[leaf].count > 0 && count == |nodes| == |mem|
      && BuiltBut(Here().(mem := mem[leaf := mem[leaf].(count := mem[leaf].count - 1)]), leaf)
    }

    constructor ()
      ensures Valid() && content == map[] && height == 0 && !HasGrown()
    {
      height, count, rnode, mem := 0, 0, NULL, map[];
      nodes, content := map[], map[];
      new;
      NothingBuilt();
    }

    method NodeAlloc(h: nat) returns (p: Ptr)
      modifies `count, `mem
      ensures p > ROOT && p !in old(mem) && count == old(count) + 1
      ensures mem == old(mem)[p := Node(NoSlots(), NULL, 0, 0, h)]
    {
      FreshAddress(mem.Keys);
      p :| p > ROOT && p !in mem;
      count := count + 1;
      mem := mem[p := Node(NoSlots(), NULL, 0, 0, h)];
    }

    method NodeFree(node: Ptr)
      requires count > 0
      modifies `count, `mem
      ensures count == old(count) - 1 && mem == old(mem) - {node}
    {
      mem := mem - {node};
      count := count - 1;
    }

    // ----- insert -----

    /** One more level on top: the old root becomes the first child of a new one. */
    method GrowOnce()
      requires Valid() && 0 < height < MAX_HEIGHT
      modifies this
      ensures Valid() && height == old(height) + 1 && content == old(content) && HasGrown()
    {
      ghost var s := Here();
      At(s, Place(height, 0));
      NoHigher(s);
      PutRoot();
      nodes := nodes[Place(height, 0) := rnode];
      GrownBuilt(s, rnode);
    }

    method PutRoot()
      requires rnode in mem
      modifies `height, `count, `rnode, `mem
      ensures height == old(height) + 1 && count == old(count) + 1 && rnode > ROOT && rnode !in old(mem)
      ensures mem == old(mem)[old(rnode) := old(mem)[old(rnode)].(parent := rnode)]
                             [rnode := Node(NoSlots()[0 := old(rnode)], NULL, 0, 1, height)]
    {
      height := height + 1;
      var newNode := NodeAlloc(height);
      mem := mem[newNode := mem[newNode].(offset := 0)];
      mem := mem[rnode := mem[rnode].(parent := newNode)];
      mem := mem[newNode := mem[newNode].(slots := mem[newNode].slots[0 := rnode])];
      mem := mem[newNode := mem[newNode].(count := mem[newNode].count + 1)];
      rnode := newNode;
    }

    method GrowHeight(h: nat)
      requires Valid() && 0 < height <= h <= MAX_HEIGHT
      modifies this
      ensures Valid() && height == h && content == old(content)
      ensures if old(height) == h then unchanged(this) else HasGrown()
    {
      while height < h
        invariant Valid() && 0 < height <= h && content == old(content)
        invariant if old(height) == height then unchanged(this) else HasGrown()
      {
        GrowOnce();
      }
    }

    /** A new node in an empty slot of `node`. */
    method AddNode(node: Ptr, offset: nat, ghost pl: Place)
      requires ValidBut(node) && pl in nodes && nodes[pl] == node && pl.level > 1 && offset < SIZE_LEVEL
      requires Child(pl, offset) !in nodes && Stands(Here(), pl)
      modifies `count, `mem, `nodes
      ensures Child(pl, offset) in nodes && ValidBut(nodes[Child(pl, offset)])
      ensures forall ql :: ql in old(nodes) ==> ql in nodes && nodes[ql] == old(nodes)[ql]
      ensures rnode in old(mem) ==> rnode in mem && mem[rnode].parent == old(mem)[rnode].parent
    {
      ghost var s := Here();
      var p := HangNode(node, offset, mem[node].height - 1);
      nodes := nodes[Child(pl, offset) := p];
      AddedBuilt(s, pl, offset, p);
    }

    method HangNode(node: Ptr, offset: nat, h: nat) returns (p: Ptr)
      requires node in mem && offset < |mem[node].slots|
      modifies `count, `mem
      ensures p > ROOT && p !in old(mem) && count == old(count) + 1
      ensures var n := old(mem)[node];
        mem == old(mem)[node := n.(slots := n.slots[offset := p], count := n.count + 1)]
                       [p := Node(NoSlots(), node, offset, 0, h)]
    {
      p := NodeAlloc(h);
      mem := mem[node := mem[node].(slots := mem[node].slots[offset := p])];
      mem := mem[node := mem[node].(count := mem[node].count + 1)];
      mem := mem[p := mem[p].(offset := offset)];
      mem := mem[p := mem[p].(parent := node)];
    }

    /** Walks down to the leaf for `index`, adding the nodes that are not there. */
    method GrowPath(index: Index) returns (leaf: Ptr)
      requires ValidBut(rnode) && height > 0 && index < Capacity(height)
      modifies `count, `mem, `nodes
      ensures On(index, 1) in nodes && leaf == nodes[On(index, 1)] && ValidBut(leaf)
      ensures index in content ==> mem == old(mem) && nodes == old(nodes) && count == old(count)
      ensures rnode in old(mem) ==> rnode in mem && mem[rnode].parent == old(mem)[rnode].parent
    {
      leaf := rnode;
      var h := height;
      var shift := (h - 1) * BIT_LEVEL;
      FitsIff(index, height);
      At(Here(), Place(height, 0));
      while h > 1
        invariant 1 <= h <= height && shift == (h - 1) * BIT_LEVEL
        invariant On(index, h) in nodes && leaf == nodes[On(index, h)] && ValidBut(leaf)
        invariant index in content ==> mem == old(mem) && nodes == old(nodes) && count == old(count)
        invariant rnode in old(mem) ==> rnode in mem && mem[rnode].parent == old(mem)[rnode].parent
      {
        leaf := StepTo(leaf, index, h, shift);
        shift := shift - BIT_LEVEL;
        h := h - 1;
      }
    }

    /** One level of the walk. */
    method StepTo(node: Ptr, index: Index, h: nat, shift: nat) returns (next: Ptr)
      requires 1 < h <= height && shift == (h - 1) * BIT_LEVEL
      requires On(index, h) in nodes && node == nodes[On(index, h)] && ValidBut(node)
      modifies `count, `mem, `nodes
      ensures On(index, h - 1) in nodes && next == nodes[On(index, h - 1)] && ValidBut(next)
      ensures index in content ==> mem == old(mem) && nodes == old(nodes) && count == old(count)
      ensures rnode in old(mem) ==> rnode in mem && mem[rnode].parent == old(mem)[rnode].parent
    {
      ghost var pl := On(index, h);
      PrefixIsShift(index, h - 1);
      StepDown(Here(), index, h);
      var offset := Shifted(index, shift) % SIZE_LEVEL;
      if mem[node].slots[offset] == NULL {
        if On(index, h - 1) in nodes { NodeNotNull(Here(), On(index, h - 1)); }
        if index in content { PathThere(Here(), index, h - 1); }
        AddNode(node, offset, pl);
        StepDown(Here(), index, h);
      } else {
        SlotCounts(Here(), pl, offset);
        NotEmpty(Here(), pl, node);
        HoleAnywhere(Here(), mem[node].slots[offset]);
      }
      next := mem[node].slots[offset];
    }

    /** `radix_tree_grow_node`. */
    method GrowNode(index: Index, item: Ptr) returns (r: int)
      requires ValidBut(rnode) && height > 0 && index < Capacity(height)
      modifies `count, `mem, `nodes, `content
      ensures r == if index in old(content) then -1 else 0
      ensures Valid() <==> index in old(content) || item != NULL
      ensures Valid() ==> content == if index in old(content) then old(content) else old(content)[index := item]
      ensures !Valid() ==> content == old(content) && On(index, 1) in nodes && OverCounted(nodes[On(index, 1)])
      ensures index in old(content) ==> mem == old(mem) && count == old(count)
      ensures rnode in old(mem) ==> rnode in mem && mem[rnode].parent == old(mem)[rnode].parent
    {
      var leaf := GrowPath(index);
      r := FillSlot(leaf, index, item);
    }

    method FillSlot(leaf: Ptr, index: Index, item: Ptr) returns (r: int)
      requires On(index, 1) in nodes && leaf == nodes[On(index, 1)] && ValidBut(leaf)
      modifies `mem, `content
      ensures r == if index in old(content) then -1 else 0
      ensures Valid() <==> index in old(content) || item != NULL
      ensures Valid() ==> content == if index in old(content) then old(content) else old(content)[index := item]
      ensures !Valid() ==> content == old(content) && OverCounted(leaf)
      ensures index in old(content) ==> mem == old(mem)
      ensures rnode in old(mem) ==> rnode in mem && mem[rnode].parent == old(mem)[rnode].parent
    {
      ghost var s := Here();
      StepDown(s, index, 1);
      Leaf(index);
      assert Prefix(index, 0) == index;
      var offset := index % SIZE_LEVEL;
      if index in content { assert Holds(s, index); }
      if mem[leaf].slots[offset] != NULL {
        SlotCounts(s, On(index, 1), offset);
        NotEmpty(s, On(index, 1), leaf);
        return -1;
      }
      mem := mem[leaf := mem[leaf].(slots := mem[leaf].slots[offset := item])];
      mem := mem[leaf := mem[leaf].(count := mem[leaf].count + 1)];
      r := 0;
      if item == NULL {
        assert s.mem[leaf].slots[offset := NULL] == s.mem[leaf].slots;
        assert s == s.(mem := mem[leaf := mem[leaf].(count := mem[leaf].count - 1)]);
        assert !Stands(Here(), On(index, 1));
        return;
      }
      content := content[index := item];
      StoredBuilt(s, index, item);
      assert Here() == Stored(s, index, item);
    }

    /**
      Adds `item` at an index that has none.  Where there is one already it fails and changes
      nothing.  A NULL item is counted although it fills no slot.
     */
    method Insert(index: Index, item: Ptr) returns (r: int)
      requires Valid()
      modifies this
      ensures r == if index in old(content) then -1 else 0
      ensures Valid() <==> index in old(content) || item != NULL
      ensures Valid() ==> content == if index in old(content) then old(content) else old(content)[index := item]
      ensures !Valid() ==> content == old(content) && On(index, 1) in nodes && OverCounted(nodes[On(index, 1)])
      ensures index in old(content) ==> unchanged(this`height, this`count, this`rnode, this`mem)
      ensures height == if old(height) < HeightOf(index) then HeightOf(index) else old(height)
      ensures HasGrown() <==> old(HasGrown()) || 0 < old(height) < HeightOf(index)
    {
      var h := HeightOf(index);
      HeightBounded(index);
      HeightIsLeast(index, h);
      if index in content { KeysFit(Here(), index); }
      if height > 0 {
        At(Here(), Place(height, 0));
        HeightIsLeast(index, height);
      }
      if rnode == NULL {
        if height > 0 { assert false; }
        assert content == map[] by {
          if k :| k in content { KeysFit(Here(), k); }
        }
        assert mem == map[];
        rnode := NodeAlloc(h);
        mem := mem[rnode := mem[rnode].(parent := ROOT)];
        height := h;
        nodes := map[Place(h, 0) := rnode];
        PlantedBuilt(h, rnode);
        assert Here() == Planted(h, rnode);
        r := GrowNode(index, item);
        return;
      }
      if h > height {
        GrowHeight(h);
      }
      HoleAnywhere(Here(), rnode);
      r := GrowNode(index, item);
    }

    // ----- lookup -----

    /**
      The item at an index.  Digits above the height of the tree are not looked at, so an index
      that does not fit is taken for what is left of it.
     */
    method Lookup(index: Index) returns (r: Ptr)
      requires Valid()
      ensures r == Get(content, Seen(index, height))
      ensures r == Get(content, index) <==> index < Capacity(height) || Seen(index, height) !in content
    {
      ghost var s, i := Here(), Seen(index, height);
      SeenFits(index, height);
      if i in content { KeysFit(s, i); assert Holds(s, i) && content[i] != NULL; }
      if index in content { KeysFit(s, index); }
      assert Get(content, i) == Get(content, index) <==> index < Capacity(height) || i !in content;
      if height > 0 { At(s, Place(height, 0)); }
      var node := rnode;
      if node == NULL {
        return NULL;
      }
      var h := height;
      var shift: int := (h - 1) * BIT_LEVEL;
      while h > 0
        invariant 0 <= h <= height && shift == (h - 1) * BIT_LEVEL
        invariant h > 0 ==> On(i, h) in nodes && node == nodes[On(i, h)]
        invariant h == 0 ==> i in content && node == content[i]
      {
        StepDown(s, i, h);
        SeenDigit(index, height, h - 1);
        PrefixIsShift(index, h - 1);
        if h > 1 && i in content { PathThere(s, i, h - 1); }
        if On(i, h - 1) in nodes { At(s, On(i, h - 1)); }
        var offset := Shifted(index, shift) % SIZE_LEVEL;
        node := mem[node].slots[offset];
        if node == NULL {
          return NULL;
        }
        shift := shift - BIT_LEVEL;
        h := h - 1;
      }
      r := node;
    }

    // ----- delete -----

    /** Walks down to the leaf for `index`; NULL if it is not there. */
    method FindLeaf(index: Index) returns (node: Ptr)
      requires Valid() && height > 0 && index < Capacity(height)
      ensures node == if On(index, 1) in nodes then nodes[On(index, 1)] else NULL
    {
      ghost var s := Here();
      node := rnode;
      var h := height;
      var shift := (h - 1) * BIT_LEVEL;
      FitsIff(index, height);
      At(s, Place(height, 0));
      while h > 1
        invariant 1 <= h <= height && shift == (h - 1) * BIT_LEVEL
        invariant node == if On(index, h) in nodes then nodes[On(index, h)] else NULL
      {
        if node == NULL {
          if On(index, h) in nodes { NodeNotNull(s, On(index, h)); }
          NoLeaf(s, index, h);
          return;
        }
        StepDown(s, index, h);
        PrefixIsShift(index, h - 1);
        var offset := Shifted(index, shift) % SIZE_LEVEL;
        node := mem[node].slots[offset];
        shift := shift - BIT_LEVEL;
        h := h - 1;
      }
    }

    lemma {:induction false} NoLeaf(s: Shape, index: nat, h: nat)
      requires Built(s) && 1 <= h <= s.height && On(index, h) !in s.nodes
      ensures On(index, 1) !in s.nodes
    {
      if h > 1 {
        if On(index, h - 1) in s.nodes { At(s, On(index, h - 1)); }
        NoLeaf(s, index, h - 1);
      }
    }

    /** Takes the item at an index out, and with it the nodes that are empty then. */
    method Delete(index: Index) returns (item: Ptr)
      requires Valid()
      modifies this
      ensures Valid() && item == Get(old(content), index) && content == old(content) - {index}
      ensures height == if content == map[] then 0 else old(height)
      ensures index !in old(content) ==> unchanged(this`height, this`count, this`rnode, this`mem)
      ensures HasGrown() <==> old(HasGrown()) && content != map[]
    {
      ghost var s := Here();
      if height > 0 { At(s, Place(height, 0)); HeightIsLeast(index, height); }
      if index in content { KeysFit(s, index); assert Holds(s, index); }
      assert content == map[] ==> height == 0 by {
        if content == map[] && height > 0 { NotWithoutKeys(s, Place(height, 0)); }
      }
      if height < HeightOf(index) {
        assert content == content - {index};
        return NULL;
      }
      var node := FindLeaf(index);
      if node == NULL {
        if On(index, 1) in nodes { NodeNotNull(s, On(index, 1)); }
        assert content == content - {index};
        return NULL;
      }
      StepDown(s, index, 1);
      Leaf(index);
      assert Prefix(index, 0) == index;
      var offset := index % SIZE_LEVEL;
      item := mem[node].slots[offset];
      if item == NULL {
        assert content == content - {index};
        return;
      }
      TakeOut(node, offset, index);
      Prune(node, On(index, 1));
    }

    /** A tree with a node has a key. */
    lemma {:induction false} NotWithoutKeys(s: Shape, pl: Place)
      requires BuiltBut(s, NULL) && pl in s.nodes
      ensures s.content != map[]
      decreases pl.level
    {
      At(s, pl);
      assert Full(s, pl);
      var n := s.mem[s.nodes[pl]];
      OccupiedNone(n.slots);
      var d :| 0 <= d < SIZE_LEVEL && n.slots[d] != NULL;
      assert n.slots[d] == Filling(s, pl, d);
      if pl.level > 1 {
        NotWithoutKeys(s, Child(pl, d));
      }
    }

    method TakeOut(node: Ptr, offset: nat, ghost index: nat)
      requires Valid() && index in content && offset == index % SIZE_LEVEL
      requires On(index, 1) in nodes && node == nodes[On(index, 1)]
      requires Stands(Here(), On(index, 1)) && mem[node].slots[offset] != NULL
      modifies `mem, `content
      ensures ValidBut(node) && content == old(content) - {index}
      ensures rnode in old(mem) ==> rnode in mem && mem[rnode].parent == old(mem)[rnode].parent
    {
      ghost var s := Here();
      SlotCounts(s, On(index, 1), offset);
      mem := mem[node := mem[node].(slots := mem[node].slots[offset := NULL])];
      mem := mem[node := mem[node].(count := mem[node].count - 1)];
      content := content - {index};
      HoleAnywhere(s, node);
      StoredBuilt(s, index, NULL);
      assert Here() == Stored(s, index, NULL);
    }

    /** Frees a node that became empty, then the node above if that did, up to the root. */
    method Prune(start: Ptr, ghost place: Place)
      requires place in nodes && nodes[place] == start && ValidBut(start) && height > 0
      modifies this
      ensures Valid() && content == old(content)
      ensures height == (if content == map[] then 0 else old(height))
      ensures HasGrown() <==> old(HasGrown()) && content != map[]
    {
      var node := start;
      ghost var pl := place;
      At(Here(), pl);
      At(Here(), Place(height, 0));
      while mem[node].count == 0 && node != rnode
        invariant pl in nodes && nodes[pl] == node && ValidBut(node) && Stands(Here(), pl)
        invariant height == old(height) && content == old(content) && rnode == old(rnode)
        invariant rnode in mem && mem[rnode].parent == old(mem)[rnode].parent
        decreases height - pl.level
      {
        node := PruneOne(node, pl);
        pl := Up(pl);
        At(Here(), pl);
        At(Here(), Place(height, 0));
      }
      DropRoot(node, pl);
    }

    /** Frees the root if it is the empty node that pruning ended at. */
    method DropRoot(node: Ptr, ghost pl: Place)
      requires pl in nodes && nodes[pl] == node && ValidBut(node) && height > 0 && Stands(Here(), pl)
      requires mem[node].count > 0 || node == rnode
      modifies this
      ensures Valid() && content == old(content)
      ensures height == (if content == map[] then 0 else old(height))
      ensures HasGrown() <==> old(HasGrown()) && content != map[]
    {
      At(Here(), Place(height, 0));
      assert node != rnode ==> Full(Here(), Place(height, 0));
      if rnode != NULL && mem[rnode].count == 0 {
        EmptyRoot(Here());
        NodeFree(node);
        rnode := NULL;
        height := 0;
        nodes := map[];
        assert mem == map[];
        NothingBuilt();
      } else {
        NotEmpty(Here(), pl, node);
        NotWithoutKeys(Here(), pl);
      }
    }

    method PruneOne(node: Ptr, ghost pl: Place) returns (parent: Ptr)
      requires pl in nodes && nodes[pl] == node && ValidBut(node) && Stands(Here(), pl)
      requires mem[node].count == 0 && node != rnode && rnode in mem
      modifies `count, `mem, `nodes
      ensures Up(pl) in nodes && parent == nodes[Up(pl)] && ValidBut(parent)
      ensures rnode in mem && mem[rnode].parent == old(mem)[rnode].parent
    {
      ghost var s := Here();
      ghost var up := Up(pl);
      At(s, up);
      assert Apart(s, pl, up);
      assert Full(s, up);
      parent := mem[node].parent;
      var off := mem[node].offset;
      NodeFree(node);
      mem := mem[parent := mem[parent].(slots := mem[parent].slots[off := NULL])];
      mem := mem[parent := mem[parent].(count := mem[parent].count - 1)];
      nodes := nodes - {pl};
      PrunedBuilt(s, pl);
      assert Here() == Pruned(s, pl);
    }

    // ----- the least key at or above an index -----

    /** The first filled slot of `node` from `start` on, or SIZE_LEVEL. */
    method Scan(node: Ptr, start: nat) returns (d: nat)
      requires node in mem && |mem[node].slots| == SIZE_LEVEL && start <= SIZE_LEVEL
      ensures start <= d <= SIZE_LEVEL && (d < SIZE_LEVEL ==> mem[node].slots[d] != NULL)
      ensures forall e :: start <= e < d ==> mem[node].slots[e] == NULL
    {
      d := start;
      while d < SIZE_LEVEL && mem[node].slots[d] == NULL
        invariant start <= d <= SIZE_LEVEL
        invariant forall e :: start <= e < d ==> mem[node].slots[e] == NULL
      {
        d := d + 1;
      }
    }

    /** `radix_tree_node_left`: the item of the least key below a node. */
    method NodeLeft(start: Ptr, ghost top: Place) returns (r: Ptr, ghost k: nat)
      requires Valid() && top in nodes && nodes[top] == start
      ensures FirstBelow(content, top, k) && r == content[k] && r != NULL
    {
      ghost var s := Here();
      ghost var pl := top;
      var node := start;
      At(s, top);
      var h := mem[node].height;
      assert Prefix(top.prefix, 0) == top.prefix;
      while h > 0
        invariant h <= top.level && pl.level == h && Inside(top, pl)
        invariant h > 0 ==> pl in nodes && node == nodes[pl]
        invariant h == 0 ==> pl.prefix in content && node == content[pl.prefix]
        invariant forall j :: j in content && Prefix(j, top.level) == top.prefix ==> pl.prefix <= Prefix(j, h)
      {
        At(s, pl);
        assert Full(s, pl);
        OccupiedNone(mem[node].slots);
        var offset := Scan(node, 0);
        LeftStep(s, top, pl, offset);
        InsideChild(top, pl, offset);
        assert mem[node].slots[offset] == Filling(s, pl, offset);
        pl := Child(pl, offset);
        node := mem[node].slots[offset];
        h := h - 1;
      }
      r, k := node, pl.prefix;
      assert Holds(s, k);
      assert forall j :: Prefix(j, 0) == j;
    }

    /** The least key beyond the slots of `node` before `start`, if it is below `node`. */
    method ScanLeft(node: Ptr, start: nat, ghost i: nat, ghost pl: Place) returns (hit: Ptr, ghost k: nat)
      requires Valid() && pl in nodes && node == nodes[pl] && pl.level > 1 && start <= SIZE_LEVEL
      requires Stands(Here(), pl)
      requires From(content, i, pl.level - 1, SIZE_LEVEL * pl.prefix + start)
      requires Prefix(i, pl.level - 1) < SIZE_LEVEL * pl.prefix + start
      ensures hit != NULL ==> Least(content, i, k) && hit == content[k]
      ensures hit == NULL ==> From(content, i, pl.level, pl.prefix + 1)
    {
      ghost var s := Here();
      k := 0;
      hit := NULL;
      var d := Scan(node, start);
      ScanBound(s, i, pl, start, d);
      if d < SIZE_LEVEL {
        assert mem[node].slots[d] == Filling(s, pl, d);
        hit, k := NodeLeft(mem[node].slots[d], Child(pl, d));
        FirstIsLeast(s, i, Child(pl, d), k);
      }
    }

    /** The least key beyond the empty slot on the way to `i`, if it is below `node`. */
    method ScanBeyond(node: Ptr, offset: nat, ghost i: nat, ghost h: nat) returns (hit: Ptr, ghost k: nat)
      requires Valid() && On(i, h) in nodes && node == nodes[On(i, h)] && h > 1 && Stands(Here(), On(i, h))
      requires offset == Prefix(i, h - 1) % SIZE_LEVEL && mem[node].slots[offset] == NULL
      ensures hit != NULL ==> Least(content, i, k) && hit == content[k]
      ensures hit == NULL ==> From(content, i, h, Prefix(i, h) + 1)
    {
      ghost var s := Here();
      StepDown(s, i, h);
      FromStart(content, i, h - 1);
      ScanBound(s, i, On(i, h), offset, offset + 1);
      hit, k := ScanLeft(node, offset + 1, i, On(i, h));
    }

    /** The way down: ends with the item, at the leaf, or at a node with nothing beyond the index. */
    method Descend(index: Index) returns (node: Ptr, hit: Ptr, ghost h: nat, ghost k: nat)
      requires Valid() && rnode != NULL
      ensures var i := Seen(index, height);
        && (hit != NULL ==> Least(content, i, k) && hit == content[k])
        && (hit == NULL ==> 1 <= h <= height && On(i, h) in nodes && node == nodes[On(i, h)])
        && (hit == NULL && h > 1 ==> From(content, i, h, Prefix(i, h) + 1))
    {
      ghost var s, i := Here(), Seen(index, height);
      SeenFits(index, height);
      At(s, Place(height, 0));
      node, hit, h, k := rnode, NULL, height, 0;
      var shift: int := (height - 1) * BIT_LEVEL;
      while mem[node].height > 1
        invariant 1 <= h <= height && On(i, h) in nodes && node == nodes[On(i, h)] && Stands(s, On(i, h))
        invariant shift == (h - 1) * BIT_LEVEL
        decreases h
      {
        StepDown(s, i, h);
        SeenDigit(index, height, h - 1);
        PrefixIsShift(index, h - 1);
        var offset := Shifted(index, shift) % SIZE_LEVEL;
        if mem[node].slots[offset] != NULL {
          node := mem[node].slots[offset];
          shift := shift - BIT_LEVEL;
          h := h - 1;
          At(s, On(i, h));
        } else {
          hit, k := ScanBeyond(node, offset, i, h);
          return;
        }
      }
    }

    /** The slots of a leaf from that of the index on. */
    method ScanLeaf(node: Ptr, index: Index) returns (hit: Ptr, ghost k: nat)
      requires Valid() && height > 0 && On(Seen(index, height), 1) in nodes && node == nodes[On(Seen(index, height), 1)]
      ensures var i := Seen(index, height);
        && (hit != NULL ==> Least(content, i, k) && hit == content[k])
        && (hit == NULL ==> From(content, i, 1, Prefix(i, 1) + 1))
    {
      ghost var s, i := Here(), Seen(index, height);
      ghost var pl := On(i, 1);
      StepDown(s, i, 1);
      SeenDigit(index, height, 0);
      assert Prefix(index, 0) == index && Prefix(i, 0) == i;
      Leaf(i);
      var offset := index % SIZE_LEVEL;
      FromStart(content, i, 0);
      var d := Scan(node, offset);
      ScanBound(s, i, pl, offset, d);
      if d < SIZE_LEVEL {
        assert mem[node].slots[d] == Filling(s, pl, d);
        hit, k := mem[node].slots[d], Child(pl, d).prefix;
      } else {
        hit, k := NULL, 0;
      }
    }

    /** The way up from a node with nothing beyond the index. */
    method Climb(start: Ptr, ghost i: nat, ghost h0: nat) returns (r: Outcome, ghost k: nat)
      requires Valid() && height > 0 && Prefix(i, height) == 0
      requires 1 <= h0 <= height && On(i, h0) in nodes && start == nodes[On(i, h0)]
      requires From(content, i, h0, Prefix(i, h0) + 1)
      ensures if exists j :: j in content && i <= j then Least(content, i, k) && r == Found(content[k])
              else r == if HasGrown() then Nothing else Stray
    {
      ghost var s, h := Here(), h0;
      var node := start;
      k := 0;
      At(s, On(i, h));
      At(s, Place(height, 0));
      while mem[node].parent != NULL
        invariant 1 <= h <= height && On(i, h) in nodes && node == nodes[On(i, h)] && Stands(s, On(i, h))
        invariant From(content, i, h, Prefix(i, h) + 1)
        decreases height - h
      {
        var off := mem[node].offset;
        node := mem[node].parent;
        if node == ROOT {
          if h < height { At(s, Up(On(i, h))); }
          NoneAbove(s, i);
          return Stray, 0;
        }
        assert h < height;
        h := h + 1;
        At(s, On(i, h));
        var hit;
        hit, k := ScanLeft(node, off + 1, i, On(i, h));
        if hit != NULL {
          return Found(hit), k;
        }
      }
      if h < height { At(s, Up(On(i, h))); }
      NoneAbove(s, i);
      r := Nothing;
    }

    /** A bound beyond the root leaves no key. */
    lemma NoneAbove(s: Shape, i: nat)
      requires Built(s) && From(s.content, i, s.height, 1)
      ensures !exists j :: j in s.content && i <= j
    {
      forall j | j in s.content ensures j < i {
        KeysFit(s, j);
      }
    }

    /**
      When the upper-bound search answers for the index: there is a key at or above it, or none
      above what the tree sees of it and the search does not stray.
     */
    ghost predicate BoundIsRight(index: nat)
      reads this
    {
      || (exists j :: j in content && index <= j)
      || ((rnode == NULL || HasGrown()) && forall j :: j in content ==> j < Seen(index, height))
    }

    /** A tree with a key at or above an index sees all of the index. */
    lemma KeySeesIndex(index: nat)
      requires Valid()
      ensures (exists j :: j in content && index <= j) ==> Seen(index, height) == index
      ensures Seen(index, height) <= index
    {
      SeenFits(index, height);
      if j :| j in content && index <= j { KeysFit(Here(), j); }
    }

    /**
      The item of the least key at or above what the tree sees of an index.  If there is none,
      the answer is NULL once the tree has grown above its first root; before that the search
      walks on from the first root to the root struct.
     */
    method UpperBound(index: Index) returns (r: Outcome)
      requires Valid()
      ensures var i := Seen(index, height);
        if exists j :: j in content && i <= j then exists k :: Least(content, i, k) && r == Found(content[k])
        else r == if rnode == NULL || HasGrown() then Nothing else Stray
      ensures IsUpperBound(content, index, r) <==> BoundIsRight(index)
    {
      ghost var s, i := Here(), Seen(index, height);
      SeenFits(index, height);
      KeySeesIndex(index);
      if rnode == NULL {
        if height > 0 { At(s, Place(height, 0)); }
        if j :| j in content { KeysFit(s, j); }
        return Nothing;
      }
      var node, hit;
      ghost var h, k;
      node, hit, h, k := Descend(index);
      if hit != NULL {
        return Found(hit);
      }
      At(s, On(i, h));
      if mem[node].height == 1 {
        hit, k := ScanLeaf(node, index);
        if hit != NULL {
          return Found(hit);
        }
      }
      r, k := Climb(node, i, h);
    }
  }
}
