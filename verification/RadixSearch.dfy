/** What the slots of a radix tree say about the order of its keys. */
module RadixSearch {
  import opened Basics
  import opened RadixShape
  import opened RadixSteps

  /** `k` is the least key at or above `i`. */
  ghost predicate Least(content: map<nat, Ptr>, i: nat, k: nat) {
    k in content && i <= k && forall j :: j in content && i <= j ==> k <= j
  }

  /** Every key at or above `i` has a prefix of at least `x` above its lowest `h` digits. */
  ghost predicate From(content: map<nat, Ptr>, i: nat, h: nat, x: nat) {
    forall j :: j in content && i <= j ==> x <= Prefix(j, h)
  }

  /** `k` is the least key below the node at `pl`. */
  ghost predicate FirstBelow(content: map<nat, Ptr>, pl: Place, k: nat) {
    && k in content && Prefix(k, pl.level) == pl.prefix
    && forall j :: j in content && Prefix(j, pl.level) == pl.prefix ==> k <= j
  }

  /** There is no key below an empty slot. */
  lemma EmptySlot(s: Shape, pl: Place, d: nat, k: nat)
    requires Built(s) && Stands(s, pl) && d < SIZE_LEVEL && s.mem[s.nodes[pl]].slots[d] == NULL
    requires k in s.content
    ensures Prefix(k, pl.level - 1) != Child(pl, d).prefix
  {
    assert Filling(s, pl, d) == NULL;
    assert Holds(s, k);
    if pl.level > 1 {
      PathThere(s, k, pl.level - 1);
      At(s, On(k, pl.level - 1));
    } else {
      assert Prefix(k, 0) == k;
    }
  }

  /** Slots found empty push the bound on the keys up. */
  lemma {:induction false} ScanBound(s: Shape, i: nat, pl: Place, from: nat, to: nat)
    requires Built(s) && Stands(s, pl) && from <= to <= SIZE_LEVEL
    requires forall d :: from <= d < to ==> s.mem[s.nodes[pl]].slots[d] == NULL
    requires From(s.content, i, pl.level - 1, SIZE_LEVEL * pl.prefix + from)
    ensures From(s.content, i, pl.level - 1, SIZE_LEVEL * pl.prefix + to)
    decreases SIZE_LEVEL - from
  {
    if from < to {
      forall j | j in s.content && i <= j ensures SIZE_LEVEL * pl.prefix + from + 1 <= Prefix(j, pl.level - 1) {
        EmptySlot(s, pl, from, j);
      }
      ScanBound(s, i, pl, from + 1, to);
    }
  }

  /** The least key below the first node at or above a bound is the least key. */
  lemma FirstIsLeast(s: Shape, i: nat, pl: Place, k: nat)
    requires FirstBelow(s.content, pl, k) && From(s.content, i, pl.level, pl.prefix)
    requires Prefix(i, pl.level) < pl.prefix
    ensures Least(s.content, i, k)
  {
    if k < i { PrefixMonotone(k, i, pl.level); }
    forall j | j in s.content && i <= j ensures k <= j {
      if j < k { PrefixMonotone(j, k, pl.level); }
    }
  }

  /** Every key at or above `i` is at or beyond the place of `i`. */
  lemma FromStart(content: map<nat, Ptr>, i: nat, h: nat)
    ensures From(content, i, h, Prefix(i, h))
  {
    forall j | j in content && i <= j ensures Prefix(i, h) <= Prefix(j, h) {
      PrefixMonotone(i, j, h);
    }
  }

  /** Going on from the first filled slot of a node keeps to the least key below `top`. */
  lemma {:induction false} LeftStep(s: Shape, top: Place, pl: Place, d: nat)
    requires Built(s) && Stands(s, pl) && d < SIZE_LEVEL
    requires forall e :: 0 <= e < d ==> s.mem[s.nodes[pl]].slots[e] == NULL
    requires forall j :: j in s.content && Prefix(j, top.level) == top.prefix ==> pl.prefix <= Prefix(j, pl.level)
    ensures forall j :: j in s.content && Prefix(j, top.level) == top.prefix ==>
      Child(pl, d).prefix <= Prefix(j, pl.level - 1)
  {
    forall j | j in s.content && Prefix(j, top.level) == top.prefix
      ensures Child(pl, d).prefix <= Prefix(j, pl.level - 1)
    {
      var e := Prefix(j, pl.level - 1) - SIZE_LEVEL * pl.prefix;
      if e < d {
        assert 0 <= e;
        EmptySlot(s, pl, e, j);
      }
    }
  }

  /** A place below `top` has the prefix of `top` above. */
  ghost predicate Inside(top: Place, pl: Place) {
    pl.level <= top.level && Prefix(pl.prefix, top.level - pl.level) == top.prefix
  }

  lemma {:induction false} PrefixTwice(k: nat, a: nat, b: nat)
    ensures Prefix(Prefix(k, a), b) == Prefix(k, a + b)
  {
    if b > 0 {
      PrefixTwice(k, a, b - 1);
    }
  }

  lemma {:induction false} InsideChild(top: Place, pl: Place, d: nat)
    requires pl.level > 0 && d < SIZE_LEVEL && Inside(top, pl)
    ensures Inside(top, Child(pl, d))
  {
    var c := Child(pl, d).prefix;
    PrefixTwice(c, 1, top.level - pl.level);
    assert Prefix(c, 0) == c;
    assert Prefix(c, 1) == c / SIZE_LEVEL == pl.prefix;
  }

  /** A node with a filled slot is not empty. */
  lemma NotEmpty(s: Shape, pl: Place, hole: Ptr)
    requires BuiltBut(s, hole) && Stands(s, pl) && s.nodes[pl] == hole
    requires s.mem[hole].count > 0
    ensures BuiltBut(s, NULL)
  {
    forall ql | ql in s.nodes ensures Full(s, ql) {
      assert ql in s.nodes && s.nodes[ql] != hole ==> Full(s, ql);
    }
  }

  lemma SlotCounts(s: Shape, pl: Place, d: nat)
    requires Stands(s, pl) && d < SIZE_LEVEL && s.mem[s.nodes[pl]].slots[d] != NULL
    ensures s.mem[s.nodes[pl]].count > 0
  {
    OccupiedNone(s.mem[s.nodes[pl]].slots);
  }

  lemma HoleAnywhere(s: Shape, hole: Ptr)
    requires BuiltBut(s, NULL)
    ensures BuiltBut(s, hole)
  {
    forall pl | pl in s.nodes && s.nodes[pl] != hole ensures Full(s, pl) {
      At(s, pl);
    }
  }
}
