/**
  Addresses, sequences, maps and whole numbers.

  Several modules seal a predicate `P` as `forall seal: nat :: PUnder(seal)`, where the body
  does not mention the seal.  A proof that only passes the sealed predicate on does not unfold
  it, which keeps it cheap; a proof that needs the contents asks for `PUnder(0)`.
 */
module Basics {

  /** An address; 0 is NULL. */
  type Ptr = nat

  const NULL: Ptr := 0

  ghost predicate Distinct<T>(s: seq<T>) {
    forall i, j :: 0 <= i < j < |s| ==> s[i] != s[j]
  }

  ghost function IndexOf<T>(s: seq<T>, x: T): (i: nat)
    requires x in s
    ensures i < |s| && s[i] == x
  {
    var i: nat :| i < |s| && s[i] == x; i
  }

  lemma IndexOfUnique<T>(s: seq<T>, x: T, i: nat)
    requires Distinct(s) && i < |s| && s[i] == x
    ensures IndexOf(s, x) == i
  {
  }

  ghost function Elems<T>(s: seq<T>): set<T> {
    set x | x in s
  }

  lemma Reassociate<T>(a: seq<T>, b: seq<T>, c: seq<T>)
    ensures a + (b + c) == (a + b) + c
  {
  }

  /** The maps agree on every key of the first but those of `written`. */
  ghost predicate SameBut<V>(m: map<Ptr, V>, m': map<Ptr, V>, written: set<Ptr>) {
    forall x :: x in m && x !in written ==> x in m' && m'[x] == m[x]
  }

  /** The least multiple of 8 that is at least `n`. */
  function AlignUp(n: nat): (r: nat)
    ensures r % 8 == 0 && n <= r < n + 8
  {
    if n % 8 != 0 then n + (8 - n % 8) else n
  }

  /** The rounding both allocators apply to a request. */
  method RoundUp(want: nat) returns (n: nat)
    ensures n == AlignUp(want)
  {
    n := want;
    if n % 8 != 0 {
      var alignReq := 8 - n % 8;
      n := n + alignReq;
    }
  }

  function Pow2(n: nat): (p: nat)
    ensures p > 0
  {
    if n == 0 then 1 else 2 * Pow2(n - 1)
  }

  lemma {:induction false} Pow2Add(a: nat, b: nat)
    ensures Pow2(a + b) == Pow2(a) * Pow2(b)
  {
    if a > 0 {
      Pow2Add(a - 1, b);
      Doubled(Pow2(a - 1), Pow2(b));
    }
  }

  lemma Doubled(x: nat, y: nat)
    ensures 2 * x * y == 2 * (x * y)
  {
  }

  lemma {:induction false} Pow2Monotone(a: nat, b: nat)
    requires a <= b
    ensures Pow2(a) <= Pow2(b)
  {
    if a < b { Pow2Monotone(a, b - 1); }
  }

  lemma SquareMonotone(a: nat, b: nat)
    requires a <= b
    ensures a * a <= b * b
  {
    assert a * a <= a * b;
  }

  lemma Distribute(m: nat, n: nat, q: nat, r: nat)
    ensures m * (n * q + r) == m * n * q + m * r
  {
  }

  lemma Times(m: nat, a: int, b: int)
    requires a <= b
    ensures m * a <= m * b
  {
  }

  lemma Divide(v: int, m: int, r: int, q: int)
    requires 0 <= r < m && v == r + m * q
    ensures v / m == q && v % m == r
  {
    SameQuotient(m, v / m, v % m, q, r);
  }

  lemma SameQuotient(m: int, q: int, r: int, q': int, r': int)
    requires 0 <= r < m && 0 <= r' < m && m * q + r == m * q' + r'
    ensures q == q' && r == r'
  {
    if q > q' {
      Times(m, q' + 1, q);
    } else if q < q' {
      Times(m, q + 1, q');
    }
  }
}
