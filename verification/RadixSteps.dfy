/** What each update of the radix tree does to the tree as a whole. */
module RadixSteps {
  import opened Basics
  import opened RadixShape

  /** With one more node at one more place, nodes and places still match one to one. */
  lemma OneMore(s: Shape, s': Shape, c: Place, p: Ptr)
    requires Built(s) && c !in s.nodes && p !in s.mem
    requires s'.nodes == s.nodes[c := p] && s'.mem.Keys == s.mem.Keys + {p}
    ensures forall a, b {:trigger Apart(s', a, b)} :: a in s'.nodes && b in s'.nodes ==> Apart(s', a, b)
    ensures forall x {:trigger Placed(s', x)} :: x in s'.mem ==> Placed(s', x)
  {
    forall a, b {:trigger Apart(s', a, b)} | a in s'.nodes && b in s'.nodes ensures Apart(s', a, b) {
      if a != c { At(s, a); }
      if b != c { At(s, b); }
      if a != c && b != c { assert Apart(s, a, b); }
    }
    forall x {:trigger Placed(s', x)} | x in s'.mem ensures Placed(s', x) {
      if x == p { assert s'.nodes[c] == x; }
      else {
        assert Placed(s, x);
        var ql :| ql in s.nodes && s.nodes[ql] == x;
        assert s'.nodes[ql] == x;
      }
    }
  }

  // ----- a new node below a node -----

  ghost function Added(s: Shape, pl: Place, d: nat, p: Ptr): Shape
    requires pl in s.nodes && s.nodes[pl] in s.mem && pl.level > 0
    requires d < |s.mem[s.nodes[pl]].slots|
  {
    var q := s.nodes[pl];
    var n := s.mem[q];
    s.(mem := s.mem[q := n.(slots := n.slots[d := p], count := n.count + 1)]
                   [p := Node(NoSlots(), q, d, 0, pl.level - 1)],
       nodes := s.nodes[Child(pl, d) := p])
  }

  ghost predicate CanAdd(s: Shape, pl: Place, d: nat, p: Ptr) {
    && Built(s) && pl in s.nodes && pl.level > 1 && d < SIZE_LEVEL
    && Child(pl, d) !in s.nodes
    && p != NULL && p != ROOT && p !in s.mem
    && Stands(s, pl)
  }

  lemma AddedNew(s: Shape, pl: Place, d: nat, p: Ptr)
    requires CanAdd(s, pl, d, p)
    ensures Stands(Added(s, pl, d, p), Child(pl, d))
  {
    var c, s' := Child(pl, d), Added(s, pl, d, p);
    NewNodeCounts(p);
    ChildDigits(pl, d);
    AddedEmpty(s, pl, d, p);
    assert s'.nodes[c] == p && s'.mem[p] == Node(NoSlots(), s.nodes[pl], d, 0, pl.level - 1);
    assert Fields(s', c);
    assert Above(s', c);
    assert Below(s', c);
  }

  lemma ChildDigits(pl: Place, d: nat)
    requires pl.level > 0 && d < SIZE_LEVEL
    ensures Child(pl, d).prefix % SIZE_LEVEL == d && Up(Child(pl, d)) == pl
  {
    Divide(SIZE_LEVEL * pl.prefix + d, SIZE_LEVEL, d, pl.prefix);
  }

  lemma AddedEmpty(s: Shape, pl: Place, d: nat, p: Ptr)
    requires CanAdd(s, pl, d, p)
    ensures forall e :: 0 <= e < SIZE_LEVEL ==> Filling(Added(s, pl, d, p), Child(pl, d), e) == NULL
  {
    var c, s' := Child(pl, d), Added(s, pl, d, p);
    forall e | 0 <= e < SIZE_LEVEL ensures Filling(s', c, e) == NULL {
      NothingBelow(s, c, e);
    }
  }

  /** Without a node at a place there is nothing below it. */
  lemma NothingBelow(s: Shape, c: Place, e: nat)
    requires Built(s) && c !in s.nodes && 0 < c.level < s.height && e < SIZE_LEVEL
    ensures if c.level > 1 then Child(c, e) !in s.nodes else Child(c, e).prefix !in s.content
  {
    if c.level > 1 {
      if Child(c, e) in s.nodes {
        At(s, Child(c, e));
      }
    } else if Child(c, e).prefix in s.content {
      assert Holds(s, Child(c, e).prefix);
      Leaf(Child(c, e).prefix);
    }
  }

  lemma AddedParent(s: Shape, pl: Place, d: nat, p: Ptr)
    requires CanAdd(s, pl, d, p)
    ensures Stands(Added(s, pl, d, p), pl) && Full(Added(s, pl, d, p), pl)
  {
    var s' := Added(s, pl, d, p);
    var n := s.mem[s.nodes[pl]];
    assert n.slots[d] == Filling(s, pl, d) == NULL;
    OccupiedUpdate(n.slots, d, p);
    forall e | 0 <= e < SIZE_LEVEL ensures n.slots[d := p][e] == Filling(s', pl, e) {
    }
  }

  lemma AddedOther(s: Shape, pl: Place, d: nat, p: Ptr, ql: Place)
    requires CanAdd(s, pl, d, p) && ql in s.nodes && ql != pl
    ensures Stands(Added(s, pl, d, p), ql)
    ensures Full(s, ql) ==> Full(Added(s, pl, d, p), ql)
  {
    var s' := Added(s, pl, d, p);
    At(s, ql);
    assert Apart(s, pl, ql);
    forall e | 0 <= e < SIZE_LEVEL ensures Filling(s', ql, e) == Filling(s, ql, e) {
    }
  }

  lemma AddedBuilt(s: Shape, pl: Place, d: nat, p: Ptr)
    requires CanAdd(s, pl, d, p) && BuiltBut(s, s.nodes[pl])
    ensures BuiltBut(Added(s, pl, d, p), p)
  {
    var c, s' := Child(pl, d), Added(s, pl, d, p);
    forall ql {:trigger Stands(s', ql)} {:trigger Full(s', ql)} | ql in s'.nodes
      ensures Stands(s', ql) && (ql != c ==> Full(s', ql))
    {
      if ql == c { AddedNew(s, pl, d, p); }
      else if ql == pl { AddedParent(s, pl, d, p); }
      else {
        assert Apart(s, pl, ql) && Full(s, ql);
        AddedOther(s, pl, d, p, ql);
      }
    }
    forall k {:trigger Holds(s', k)} | k in s'.content ensures Holds(s', k) { assert Holds(s, k); }
    OneMore(s, s', c, p);
  }

  // ----- a new root above the root -----

  ghost function Grown(s: Shape, p: Ptr): Shape
    requires s.rnode in s.mem
  {
    Shape(s.height + 1, p,
          s.mem[s.rnode := s.mem[s.rnode].(parent := p)][p := Node(NoSlots()[0 := s.rnode], NULL, 0, 1, s.height + 1)],
          s.nodes[Place(s.height + 1, 0) := p], s.content)
  }

  ghost predicate CanGrow(s: Shape, p: Ptr) {
    && Built(s) && 0 < s.height < MAX_HEIGHT && s.rnode in s.mem
    && p != NULL && p != ROOT && p !in s.mem
    && Stands(s, Place(s.height, 0))
  }

  lemma GrownNew(s: Shape, p: Ptr)
    requires CanGrow(s, p)
    ensures Stands(Grown(s, p), Place(s.height + 1, 0))
  {
    var s', pl := Grown(s, p), Place(s.height + 1, 0);
    NewNodeCounts(s.rnode);
    forall d | 0 <= d < SIZE_LEVEL ensures Filling(s', pl, d) == if d == 0 then s.rnode else NULL {
      assert Child(pl, d) == Place(s.height, d);
      if d > 0 { OnlyRootOnTop(s, d); }
    }
  }

  lemma OnlyRootOnTop(s: Shape, d: nat)
    requires Built(s) && d > 0
    ensures Place(s.height, d) !in s.nodes
  {
    if Place(s.height, d) in s.nodes { At(s, Place(s.height, d)); }
  }

  lemma GrownOther(s: Shape, p: Ptr, ql: Place)
    requires CanGrow(s, p) && ql in s.nodes
    ensures Stands(Grown(s, p), ql) && (Full(s, ql) ==> Full(Grown(s, p), ql))
  {
    var s', top := Grown(s, p), Place(s.height, 0);
    At(s, ql);
    assert Apart(s, ql, top);
    forall d | 0 <= d < SIZE_LEVEL ensures Filling(s', ql, d) == Filling(s, ql, d) {
    }
  }

  lemma NoHigher(s: Shape)
    requires Built(s)
    ensures Place(s.height + 1, 0) !in s.nodes
  {
    if Place(s.height + 1, 0) in s.nodes { At(s, Place(s.height + 1, 0)); }
  }

  lemma GrownEach(s: Shape, p: Ptr, ql: Place)
    requires CanGrow(s, p) && BuiltBut(s, NULL) && ql in Grown(s, p).nodes
    ensures Stands(Grown(s, p), ql) && Full(Grown(s, p), ql)
  {
    if ql == Place(s.height + 1, 0) {
      GrownNew(s, p);
    } else {
      At(s, ql);
      assert Full(s, ql);
      GrownOther(s, p, ql);
    }
  }

  lemma GrownBuilt(s: Shape, p: Ptr)
    requires CanGrow(s, p) && BuiltBut(s, NULL)
    ensures BuiltBut(Grown(s, p), NULL)
  {
    var s', c := Grown(s, p), Place(s.height + 1, 0);
    NoHigher(s);
    forall ql {:trigger Stands(s', ql)} {:trigger Full(s', ql)} | ql in s'.nodes
      ensures Stands(s', ql) && Full(s', ql)
    {
      GrownEach(s, p, ql);
    }
    forall k {:trigger Holds(s', k)} | k in s'.content ensures Holds(s', k) { assert Holds(s, k); }
    OneMore(s, s', c, p);
  }

  // ----- the first node -----

  ghost function Planted(h: nat, p: Ptr): Shape {
    Shape(h, p, map[p := Node(NoSlots(), ROOT, 0, 0, h)], map[Place(h, 0) := p], map[])
  }

  lemma PlantedBuilt(h: nat, p: Ptr)
    requires 0 < h <= MAX_HEIGHT && p != NULL && p != ROOT
    ensures BuiltBut(Planted(h, p), p)
  {
    var s := Planted(h, p);
    NewNodeCounts(p);
    assert Stands(s, Place(h, 0));
    assert s.nodes[Place(h, 0)] == p;
  }

  // ----- an item put into a leaf, or taken out -----

  ghost function Stored(s: Shape, k: nat, item: Ptr): Shape
    requires On(k, 1) in s.nodes && s.nodes[On(k, 1)] in s.mem && |s.mem[s.nodes[On(k, 1)]].slots| == SIZE_LEVEL
  {
    var q := s.nodes[On(k, 1)];
    var n := s.mem[q];
    var count := if item != NULL then n.count + 1 else if n.count > 0 then n.count - 1 else 0;
    s.(mem := s.mem[q := n.(slots := n.slots[k % SIZE_LEVEL := item], count := count)],
       content := if item != NULL then s.content[k := item] else s.content - {k})
  }

  /** An empty slot is filled, or a filled one is emptied. */
  ghost predicate CanStore(s: Shape, k: nat, item: Ptr) {
    && Built(s) && On(k, 1) in s.nodes && Stands(s, On(k, 1))
    && (item != NULL <==> k !in s.content)
  }

  lemma StoredLeaf(s: Shape, k: nat, item: Ptr)
    requires CanStore(s, k, item)
    ensures Stands(Stored(s, k, item), On(k, 1))
    ensures item != NULL ==> Full(Stored(s, k, item), On(k, 1))
  {
    var pl, s' := On(k, 1), Stored(s, k, item);
    var n, d := s.mem[s.nodes[pl]], k % SIZE_LEVEL;
    Leaf(k);
    assert n.slots[d] == Filling(s, pl, d);
    assert k in s.content ==> Holds(s, k);
    OccupiedUpdate(n.slots, d, item);
    forall e | 0 <= e < SIZE_LEVEL ensures n.slots[d := item][e] == Filling(s', pl, e) {
    }
  }

  lemma StoredOther(s: Shape, k: nat, item: Ptr, ql: Place)
    requires CanStore(s, k, item) && ql in s.nodes && ql != On(k, 1)
    ensures Stands(Stored(s, k, item), ql) && (Full(s, ql) ==> Full(Stored(s, k, item), ql))
  {
    var pl, s' := On(k, 1), Stored(s, k, item);
    At(s, ql);
    assert Apart(s, pl, ql);
    Leaf(k);
    forall e | 0 <= e < SIZE_LEVEL ensures Filling(s', ql, e) == Filling(s, ql, e) {
    }
  }

  lemma StoredBuilt(s: Shape, k: nat, item: Ptr)
    requires CanStore(s, k, item) && BuiltBut(s, s.nodes[On(k, 1)])
    ensures BuiltBut(Stored(s, k, item), if item != NULL then NULL else s.nodes[On(k, 1)])
  {
    var pl, s' := On(k, 1), Stored(s, k, item);
    forall ql {:trigger Stands(s', ql)} {:trigger Full(s', ql)} | ql in s'.nodes
      ensures Stands(s', ql) && (ql != pl || item != NULL ==> Full(s', ql))
    {
      if ql == pl { StoredLeaf(s, k, item); }
      else {
        assert Apart(s, pl, ql) && Full(s, ql);
        StoredOther(s, k, item, ql);
      }
    }
    forall j {:trigger Holds(s', j)} | j in s'.content ensures Holds(s', j) { assert j != k ==> Holds(s, j); }
    forall a, b {:trigger Apart(s', a, b)} | a in s'.nodes && b in s'.nodes
      ensures Apart(s', a, b)
    {
      assert Apart(s, a, b);
    }
    forall x {:trigger Placed(s', x)} | x in s'.mem ensures Placed(s', x) {
      assert Placed(s, x);
      var ql :| ql in s.nodes && s.nodes[ql] == x;
      assert s'.nodes[ql] == x;
    }
  }

  // ----- an empty node taken out -----

  ghost function Pruned(s: Shape, pl: Place): Shape
    requires pl in s.nodes && Up(pl) in s.nodes && s.nodes[Up(pl)] in s.mem
    requires |s.mem[s.nodes[Up(pl)]].slots| == SIZE_LEVEL && s.mem[s.nodes[Up(pl)]].count > 0
  {
    var q := s.nodes[Up(pl)];
    var n := s.mem[q];
    s.(mem := s.mem[q := n.(slots := n.slots[pl.prefix % SIZE_LEVEL := NULL], count := n.count - 1)] - {s.nodes[pl]},
       nodes := s.nodes - {pl})
  }

  ghost predicate CanPrune(s: Shape, pl: Place) {
    && pl in s.nodes && BuiltBut(s, s.nodes[pl]) && Stands(s, pl) && pl.level < s.height
    && s.mem[s.nodes[pl]].count == 0
    && Stands(s, Up(pl)) && s.nodes[Up(pl)] != s.nodes[pl] && s.mem[s.nodes[Up(pl)]].count > 0
  }

  /** Nothing hangs below an empty node. */
  lemma EmptyBelow(s: Shape, pl: Place, d: nat)
    requires Built(s) && pl in s.nodes && Stands(s, pl) && s.mem[s.nodes[pl]].count == 0 && d < SIZE_LEVEL
    ensures pl.level > 1 ==> Child(pl, d) !in s.nodes
    ensures pl.level == 1 ==> Child(pl, d).prefix !in s.content
  {
    OccupiedNone(s.mem[s.nodes[pl]].slots);
    assert Child(pl, d) in s.nodes ==> Stands(s, Child(pl, d));
    assert Child(pl, d).prefix in s.content ==> Holds(s, Child(pl, d).prefix);
    assert Filling(s, pl, d) == NULL;
  }

  lemma PrunedParent(s: Shape, pl: Place)
    requires CanPrune(s, pl)
    ensures Stands(Pruned(s, pl), Up(pl))
  {
    var up, s' := Up(pl), Pruned(s, pl);
    var n, d := s.mem[s.nodes[up]], pl.prefix % SIZE_LEVEL;
    assert Child(up, d) == pl;
    assert n.slots[d] == Filling(s, up, d) == s.nodes[pl];
    OccupiedUpdate(n.slots, d, NULL);
    forall e | 0 <= e < SIZE_LEVEL ensures n.slots[d := NULL][e] == Filling(s', up, e) {
    }
  }

  lemma PrunedOther(s: Shape, pl: Place, ql: Place)
    requires CanPrune(s, pl) && ql in s.nodes && ql != pl && ql != Up(pl)
    ensures Stands(Pruned(s, pl), ql) && (Full(s, ql) ==> Full(Pruned(s, pl), ql))
  {
    var up, s' := Up(pl), Pruned(s, pl);
    var d := pl.prefix % SIZE_LEVEL;
    At(s, ql);
    assert Apart(s, pl, ql) && Apart(s, up, ql);
    assert Child(up, d) == pl;
    forall e | 0 <= e < SIZE_LEVEL ensures Filling(s', ql, e) == Filling(s, ql, e) {
    }
    if ql.level < s.height {
      assert Up(ql) != pl by {
        if Up(ql) == pl {
          assert Child(pl, ql.prefix % SIZE_LEVEL) == ql;
          EmptyBelow(s, pl, ql.prefix % SIZE_LEVEL);
          assert false;
        }
      }
    }
  }

  lemma PrunedBuilt(s: Shape, pl: Place)
    requires CanPrune(s, pl)
    ensures BuiltBut(Pruned(s, pl), s.nodes[Up(pl)])
  {
    var up, s' := Up(pl), Pruned(s, pl);
    forall ql {:trigger Stands(s', ql)} {:trigger Full(s', ql)} | ql in s'.nodes
      ensures Stands(s', ql) && (ql != up ==> Full(s', ql))
    {
      if ql == up { PrunedParent(s, pl); }
      else {
        assert Apart(s, pl, ql) && Full(s, ql);
        PrunedOther(s, pl, ql);
      }
    }
    forall k {:trigger Holds(s', k)} | k in s'.content ensures Holds(s', k) {
      assert Holds(s, k);
      Leaf(k);
      if On(k, 1) == pl {
        EmptyBelow(s, pl, k % SIZE_LEVEL);
      }
    }
    forall a, b {:trigger Apart(s', a, b)} | a in s'.nodes && b in s'.nodes
      ensures Apart(s', a, b)
    {
      assert Apart(s, a, b);
    }
    forall x {:trigger Placed(s', x)} | x in s'.mem ensures Placed(s', x) {
      assert Placed(s, x);
      var ql :| ql in s.nodes && s.nodes[ql] == x;
      assert s'.nodes[ql] == x;
    }
  }

  // ----- the root taken out -----

  /** Every node but the root leads up to a node just below the root. */
  lemma {:induction false} LeadsToTop(s: Shape, pl: Place) returns (ql: Place)
    requires Built(s) && pl in s.nodes && pl.level < s.height
    ensures ql in s.nodes && ql.level == s.height - 1 && Up(ql) == Place(s.height, 0)
    decreases s.height - pl.level
  {
    At(s, pl);
    At(s, Up(pl));
    if pl.level == s.height - 1 {
      ql := pl;
    } else {
      ql := LeadsToTop(s, Up(pl));
    }
  }

  lemma EmptyRoot(s: Shape)
    requires Built(s) && s.height > 0 && Stands(s, Place(s.height, 0)) && s.mem[s.rnode].count == 0
    ensures s.nodes == map[Place(s.height, 0) := s.rnode] && s.mem.Keys == {s.rnode} && s.content == map[]
  {
    var top := Place(s.height, 0);
    forall pl | pl in s.nodes ensures pl == top {
      At(s, pl);
      if pl.level < s.height {
        var ql := LeadsToTop(s, pl);
        At(s, ql);
        assert Child(top, ql.prefix % SIZE_LEVEL) == ql;
        EmptyBelow(s, top, ql.prefix % SIZE_LEVEL);
      }
    }
    forall k | k in s.content ensures false {
      assert Holds(s, k);
      assert On(k, 1) == top;
      Leaf(k);
      EmptyBelow(s, top, k % SIZE_LEVEL);
    }
    forall x | x in s.mem ensures x == s.rnode {
      assert Placed(s, x);
    }
  }

  lemma NothingBuilt()
    ensures BuiltBut(Shape(0, NULL, map[], map[], map[]), NULL)
  {
  }
}
