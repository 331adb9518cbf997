/**
  The sequence-number generator of ccrpc/source/rpc.c: 32-bit numbers that wrap around, skip
  zero and skip every number whose call is still pending.
 */
module Sequence {
  import opened Basics
  import opened Bytes
  import opened HashMaps

  /** How many sequence numbers there are: 1 to 2^32 - 1. */
  const NUMBERS: nat := 0xffff_ffff

  ghost predicate IsNumber(s: int) {
    1 <= s <= NUMBERS
  }

  /** `g_next_seq++`, with zero replaced by one. */
  function Successor(s: U32): (r: U32)
    ensures r != 0
  {
    var t := (s + 1) % 0x1_0000_0000;
    if t == 0 then 1 else t
  }

  /** The number `i` steps after `start`, around the cycle. */
  ghost function After(start: U32, i: nat): U32
    requires IsNumber(start)
    ensures IsNumber(After(start, i))
  {
    if i == 0 then start else Successor(After(start, i - 1))
  }

  lemma AfterNext(start: U32, i: nat)
    requires IsNumber(start)
    ensures After(start, i + 1) == Successor(After(start, i))
  {
  }

  lemma {:induction false} AfterModulo(start: U32, i: nat)
    requires IsNumber(start)
    ensures After(start, i) == (start - 1 + i) % NUMBERS + 1
  {
    if i > 0 {
      AfterModulo(start, i - 1);
      SuccessorOf(After(start, i - 1));
      NextRemainder(start - 1 + (i - 1), NUMBERS);
    } else {
      Divide(start - 1, NUMBERS, start - 1, 0);
    }
  }

  lemma SuccessorOf(s: U32)
    requires IsNumber(s)
    ensures Successor(s) == if s == NUMBERS then 1 else s + 1
  {
  }

  lemma NextRemainder(x: nat, m: nat)
    requires m > 0
    ensures (x + 1) % m == if x % m == m - 1 then 0 else x % m + 1
  {
    var q, r := x / m, x % m;
    if r == m - 1 {
      assert m * (q + 1) == m * q + m;
      Divide(x + 1, m, 0, q + 1);
    } else {
      Divide(x + 1, m, r + 1, q);
    }
  }

  /** Fewer than a whole turn of steps never meets the same number twice. */
  lemma {:induction false} AfterDistinct(start: U32, i: nat, j: nat)
    requires IsNumber(start) && i < j < i + NUMBERS
    ensures After(start, i) != After(start, j)
  {
    AfterModulo(start, i);
    AfterModulo(start, j);
    RemaindersDiffer(start - 1 + i, start - 1 + j, NUMBERS);
  }

  lemma RemaindersDiffer(a: nat, b: nat, m: nat)
    requires a < b < a + m
    ensures a % m != b % m
  {
    var d := b / m - a / m;
    assert b - a == m * d + (b % m - a % m);
    assert d <= 0 ==> m * d <= 0;
    assert d >= 1 ==> m * d >= m;
  }

  /** Pigeonhole on the cycle: a set that holds `i` successive numbers has `i` members. */
  lemma {:induction false} CycleCount(start: U32, i: nat, taken: set<U32>)
    requires IsNumber(start) && i <= NUMBERS
    requires forall j :: 0 <= j < i ==> After(start, j) in taken
    ensures i <= |taken|
  {
    if i > 0 {
      var last := After(start, i - 1);
      forall j | 0 <= j < i - 1 ensures After(start, j) in taken - {last} {
        AfterDistinct(start, j, i - 1);
      }
      CycleCount(start, i - 1, taken - {last});
    }
  }

  /** A free number exists exactly when fewer than 2^32 - 1 numbers are taken. */
  lemma FreeNumberExists(taken: set<U32>)
    requires forall s :: s in taken ==> IsNumber(s)
    ensures (exists s: U32 :: IsNumber(s) && s !in taken) <==> |taken| < NUMBERS
  {
    if forall s: U32 :: IsNumber(s) ==> s in taken {
      CycleCount(1, NUMBERS, taken);
    } else {
      var s: U32 :| IsNumber(s) && s !in taken;
      AllNumbers(taken + {s}, NUMBERS);
    }
  }

  lemma {:induction false} AllNumbers(taken: set<U32>, n: nat)
    requires forall s :: s in taken ==> 1 <= s <= n
    ensures |taken| <= n
  {
    if n == 0 {
      assert taken == {};
    } else if n <= NUMBERS && n in taken {
      AllNumbers(taken - {n}, n - 1);
    } else {
      AllNumbers(taken, n - 1);
    }
  }

  /** The numbers whose calls are pending. */
  ghost function Taken<V>(content: map<Key, V>): set<U32> {
    set key | key in content && key.IntKey? && 1 <= key.w <= NUMBERS :: key.w
  }

  class Generator<V> {
    var nextSeq: U32
    const pending: HashMap<V>

    ghost predicate Valid()
      reads this, pending
    {
      nextSeq != 0 && pending.Valid() && pending.keyType == IntKeys
    }

    constructor (pending: HashMap<V>)
      requires pending.Valid() && pending.keyType == IntKeys
      ensures Valid() && this.pending == pending && nextSeq == 1
    {
      this.pending, nextSeq := pending, 1;
    }

    /**
      The first number from `nextSeq` on that is not pending, `skipped` steps away.  The loop
      ends because fewer than 2^32 - 1 calls are pending.
     */
    method Next() returns (s: U32, ghost skipped: nat)
      requires Valid() && |Taken(pending.content)| < NUMBERS
      modifies `nextSeq
      ensures Valid() && s != 0 && IntKey(s) !in pending.content
      ensures s == After(old(nextSeq), skipped) && nextSeq == Successor(s)
      ensures forall j :: 0 <= j < skipped ==> IntKey(After(old(nextSeq), j)) in pending.content
    {
      ghost var start := nextSeq;
      skipped := 0;
      while true
        invariant nextSeq != 0 && nextSeq == After(start, skipped) && skipped <= NUMBERS
        invariant forall j :: 0 <= j < skipped ==> IntKey(After(start, j)) in pending.content
        decreases NUMBERS - skipped
      {
        assert skipped < NUMBERS by { AllPending(start, skipped, pending.content); }
        s := nextSeq;
        AfterNext(start, skipped);
        Advance();
        var again := pending.Contains(IntKey(s));
        if !again {
          return;
        }
        skipped := skipped + 1;
      }
    }

    method Advance()
      modifies `nextSeq
      ensures nextSeq == Successor(old(nextSeq))
    {
      nextSeq := (nextSeq + 1) % 0x1_0000_0000;
      if nextSeq == 0 {
        nextSeq := 1;
      }
    }

    lemma AllPending(start: U32, i: nat, content: map<Key, V>)
      requires IsNumber(start) && i <= NUMBERS
      requires forall j :: 0 <= j < i ==> IntKey(After(start, j)) in content
      ensures i <= |Taken(content)|
    {
      forall j | 0 <= j < i ensures After(start, j) in Taken(content) {
        assert IntKey(After(start, j)) in content;
      }
      CycleCount(start, i, Taken(content));
    }
  }
}
