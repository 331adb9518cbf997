/** The chained hash map of lib/source/hashmap.c. */
module HashMaps {
  import opened Bytes
  import opened Basics

  /** One machine word on a 64-bit target. */
  const WORD: nat := 0x1_0000_0000_0000_0000
  const GOLDEN_RATIO_PRIME: nat := 0x9e37_ffff_fffc_0001

  // ----- powers of two and masks -----

  /** 64 minus the number of leading zeros. */
  function BitLength(x: nat): nat {
    if x == 0 then 0 else 1 + BitLength(x / 2)
  }

  /** `1 << (64 - clz(x - 1))`. */
  function NextPowerOfTwo(x: nat): nat {
    if x <= 1 then 1 else Pow2(BitLength(x - 1))
  }

  lemma {:induction false} BitLengthBounds(x: nat)
    ensures x < Pow2(BitLength(x)) && (x > 0 ==> Pow2(BitLength(x)) <= 2 * x)
  {
    if x > 1 {
      BitLengthBounds(x / 2);
    }
  }

  /** The result is the least power of two that is at least `x`. */
  lemma {:induction false} NextPowerOfTwoLeast(x: nat, n: nat)
    ensures NextPowerOfTwo(x) >= x && exists k :: NextPowerOfTwo(x) == Pow2(k)
    ensures Pow2(n) >= x ==> NextPowerOfTwo(x) <= Pow2(n)
  {
    if x <= 1 {
      assert Pow2(0) == 1;
    } else {
      var k := BitLength(x - 1);
      BitLengthBounds(x - 1);
      if Pow2(n) >= x && n < k {
        Pow2Monotone(n + 1, k);
      } else if n >= k {
        Pow2Monotone(k, n);
      }
    }
  }

  /** Bitwise and. */
  function And(a: nat, b: nat): nat {
    if a == 0 || b == 0 then 0 else a % 2 * (b % 2) + 2 * And(a / 2, b / 2)
  }

  /** Masking with a power of two less one is reduction modulo that power. */
  lemma {:induction false} MaskIsModulo(h: nat, k: nat)
    ensures And(h, Pow2(k) - 1) == h % Pow2(k)
  {
    if k > 0 {
      MaskIsModulo(h / 2, k - 1);
      MaskDoubled(h, Pow2(k - 1));
    }
  }

  lemma {:induction false} MaskDoubled(h: nat, m: nat)
    requires m > 0 && And(h / 2, m - 1) == h / 2 % m
    ensures And(h, 2 * m - 1) == h % (2 * m)
  {
    MaskStep(h, m);
    DoubleModulo(h, m);
  }

  lemma {:induction false} MaskStep(h: nat, m: nat)
    requires m > 0
    ensures And(h, 2 * m - 1) == h % 2 + 2 * And(h / 2, m - 1)
  {
    assert (2 * m - 1) / 2 == m - 1 && (2 * m - 1) % 2 == 1;
    if h == 0 {
      assert And(0, m - 1) == 0;
    }
  }

  lemma DoubleModulo(h: nat, m: nat)
    requires m > 0
    ensures h % (2 * m) == h % 2 + 2 * (h / 2 % m)
  {
    var q, r := h / 2 / m, h / 2 % m;
    Distribute(2, m, q, r);
    Divide(h, 2 * m, h % 2 + 2 * r, q);
  }

  // ----- keys -----

  datatype KeyType = StringKeys | IntKeys

  /** A key as the map compares it: the bytes of a C string, or a machine word. */
  datatype Key = StrKey(s: seq<Byte>) | IntKey(w: nat)

  predicate Suits(t: KeyType, key: Key) {
    match t
    case StringKeys => key.StrKey?
    case IntKeys => key.IntKey? && key.w < WORD
  }

  /** The string hash after the characters of `s`. */
  function StringHash(s: seq<Byte>): (h: nat)
    ensures h < WORD
  {
    if s == [] then 0
    else (StringHash(s[..|s| - 1]) * GOLDEN_RATIO_PRIME + s[|s| - 1]) % WORD
  }

  function Hash(key: Key): (h: nat)
    ensures h < WORD
  {
    match key
    case StrKey(s) => StringHash(s)
    case IntKey(w) => w * GOLDEN_RATIO_PRIME % WORD
  }

  function Power(b: nat, n: nat): nat {
    if n == 0 then 1 else b * Power(b, n - 1)
  }

  /** The polynomial whose coefficients are the characters of `s`, at the golden ratio prime. */
  function Polynomial(s: seq<Byte>): nat {
    if s == [] then 0 else s[0] * Power(0x9e37_ffff_fffc_0001, |s| - 1) + Polynomial(s[1..])
  }

  lemma {:induction false} PolynomialSnoc(s: seq<Byte>, c: Byte)
    ensures Polynomial(s + [c]) == Polynomial(s) * 0x9e37_ffff_fffc_0001 + c
    decreases s
  {
    if s == [] {
      assert (s + [c])[1..] == [];
    } else {
      assert (s + [c])[1..] == s[1..] + [c];
      PolynomialSnoc(s[1..], c);
      RaiseDegree(s[0], 0x9e37_ffff_fffc_0001, Power(0x9e37_ffff_fffc_0001, |s| - 1), Polynomial(s[1..]));
    }
  }

  lemma RaiseDegree(a: nat, x: nat, p: nat, q: nat)
    ensures a * (x * p) + q * x == (a * p + q) * x
  {
  }

  /** A sum is what it is modulo `m` if a factor is reduced first. */
  lemma ReduceFirst(x: nat, y: nat, c: nat, m: nat)
    requires m > 0
    ensures (x % m * y + c) % m == (x * y + c) % m
  {
    SplitProduct(x / m, x % m, y, m);
    assert x == m * (x / m) + x % m;
    AddTurns(x % m * y + c, x / m * y, m);
  }

  lemma SplitProduct(q: nat, r: nat, y: nat, m: nat)
    ensures (m * q + r) * y == r * y + m * (q * y)
  {
  }

  lemma AddTurns(a: nat, k: nat, m: nat)
    requires m > 0
    ensures (a + m * k) % m == a % m
  {
    Divide(a + m * k, m, a % m, a / m + k);
  }

  lemma {:induction false} StringHashIsPolynomial(s: seq<Byte>)
    ensures StringHash(s) == Polynomial(s) % 0x1_0000_0000_0000_0000
    decreases |s|
  {
    if s != [] {
      var p, c := s[..|s| - 1], s[|s| - 1];
      assert s == p + [c];
      StringHashIsPolynomial(p);
      PolynomialSnoc(p, c);
      ReduceFirst(Polynomial(p), 0x9e37_ffff_fffc_0001, c, 0x1_0000_0000_0000_0000);
    }
  }

  /** Strings hash to their polynomial, words to their product with the prime, modulo the word size. */
  lemma HashIsPolynomial(key: Key)
    ensures Hash(key) == match key
      case StrKey(s) => Polynomial(s) % 0x1_0000_0000_0000_0000
      case IntKey(w) => w * 0x9e37_ffff_fffc_0001 % 0x1_0000_0000_0000_0000
  {
    if key.StrKey? {
      StringHashIsPolynomial(key.s);
    }
  }

  method HashOf(key: Key) returns (h: nat)
    ensures h == Hash(key)
  {
    match key
    case StrKey(s) =>
      h := 0;
      var i := 0;
      while i < |s|
        invariant i <= |s| && h == StringHash(s[..i])
      {
        assert s[..i + 1][..i] == s[..i];
        h := (h * GOLDEN_RATIO_PRIME + s[i]) % WORD;
        i := i + 1;
      }
      assert s[..i] == s;
    case IntKey(w) =>
      h := w * GOLDEN_RATIO_PRIME % WORD;
  }

  // ----- buckets -----

  datatype Entry<V> = Entry(key: Key, value: V)

  /** Where a key stands in a bucket; the length of the bucket if it is not there. */
  function Find<V>(b: seq<Entry<V>>, key: Key): (i: nat)
    ensures i <= |b|
    ensures forall j :: 0 <= j < i ==> b[j].key != key
    ensures i < |b| ==> b[i].key == key
  {
    if b == [] || b[0].key == key then 0 else 1 + Find(b[1..], key)
  }

  /** Each key of a bucket occurs once, hashes to this bucket, and has its value in the map. */
  ghost predicate Bucket<V>(b: seq<Entry<V>>, i: nat, n: nat, t: KeyType, content: map<Key, V>)
    requires n > 0
  {
    && (forall j :: 0 <= j < |b| ==> Suits(t, b[j].key) && Hash(b[j].key) % n == i)
    && (forall j :: 0 <= j < |b| ==> b[j].key in content && content[b[j].key] == b[j].value)
    && (forall j, k :: 0 <= j < k < |b| ==> b[j].key != b[k].key)
  }

  ghost predicate InBucket<V>(b: seq<Entry<V>>, key: Key) {
    exists j :: 0 <= j < |b| && b[j].key == key
  }

  /** A change of the map at `key` leaves the buckets that `key` does not hash to alone. */
  lemma {:induction false} BucketFrame<V>(b: seq<Entry<V>>, i: nat, n: nat, t: KeyType, content: map<Key, V>,
                                          content': map<Key, V>, key: Key)
    requires n > 0 && Bucket(b, i, n, t, content) && Hash(key) % n != i
    requires forall k :: k in content && k != key ==> k in content' && content'[k] == content[k]
    ensures Bucket(b, i, n, t, content')
  {
    forall j | 0 <= j < |b| ensures b[j].key in content' && content'[b[j].key] == b[j].value {
      assert b[j].key != key;
    }
  }

  /** The bucket of `key` after `key` was given a value. */
  function PutIn<V>(b: seq<Entry<V>>, key: Key, value: V): (r: seq<Entry<V>>) {
    var j := Find(b, key);
    if j < |b| then b[j := Entry(key, value)] else [Entry(key, value)] + b
  }

  lemma {:induction false} PutInBucket<V>(b: seq<Entry<V>>, i: nat, n: nat, t: KeyType, content: map<Key, V>, key: Key,
                                          value: V)
    requires n > 0 && Bucket(b, i, n, t, content) && Hash(key) % n == i && Suits(t, key)
    ensures Bucket(PutIn(b, key, value), i, n, t, content[key := value])
    ensures InBucket(PutIn(b, key, value), key)
    ensures forall k :: InBucket(b, k) ==> InBucket(PutIn(b, key, value), k)
  {
    var j, r := Find(b, key), PutIn(b, key, value);
    assert r[if j < |b| then j else 0].key == key;
    if j < |b| {
      forall k | InBucket(b, k) ensures InBucket(r, k) {
        var m :| 0 <= m < |b| && b[m].key == k;
        assert r[m].key == k;
      }
    } else {
      forall k | InBucket(b, k) ensures InBucket(r, k) {
        var m :| 0 <= m < |b| && b[m].key == k;
        assert r[m + 1].key == k;
      }
    }
  }

  function RemoveFrom<V>(b: seq<Entry<V>>, key: Key): (r: seq<Entry<V>>)
    requires Find(b, key) < |b|
  {
    b[..Find(b, key)] + b[Find(b, key) + 1..]
  }

  lemma {:induction false} RemoveFromBucket<V>(b: seq<Entry<V>>, i: nat, n: nat, t: KeyType, content: map<Key, V>,
                                               key: Key)
    requires n > 0 && Bucket(b, i, n, t, content) && Find(b, key) < |b|
    ensures Bucket(RemoveFrom(b, key), i, n, t, content - {key})
    ensures forall k :: InBucket(b, k) && k != key ==> InBucket(RemoveFrom(b, key), k)
  {
    var j, r := Find(b, key), RemoveFrom(b, key);
    forall m | 0 <= m < |r| ensures r[m] == b[if m < j then m else m + 1] && r[m].key != key {
    }
    forall k | InBucket(b, k) && k != key ensures InBucket(r, k) {
      var m :| 0 <= m < |b| && b[m].key == k;
      assert r[if m < j then m else m - 1].key == k;
    }
  }

  /** The buckets stand for the map `content`; sealed as `Basics` explains. */
  ghost predicate Stands<V>(buckets: seq<seq<Entry<V>>>, t: KeyType, content: map<Key, V>) {
    buckets != [] && forall seal: nat :: StandsUnder(buckets, t, content, seal)
  }

  ghost predicate StandsUnder<V>(buckets: seq<seq<Entry<V>>>, t: KeyType, content: map<Key, V>, seal: nat)
    requires buckets != []
  {
    && (forall i :: 0 <= i < |buckets| ==> Bucket(buckets[i], i, |buckets|, t, content))
    && (forall key :: key in content ==> Suits(t, key) && InBucket(buckets[Hash(key) % |buckets|], key))
  }

  lemma {:induction false} PutStands<V>(buckets: seq<seq<Entry<V>>>, t: KeyType, content: map<Key, V>, key: Key,
                                        value: V)
    requires Stands(buckets, t, content) && Suits(t, key)
    ensures var i := Hash(key) % |buckets|;
      Stands(buckets[i := PutIn(buckets[i], key, value)], t, content[key := value])
  {
    var n, i := |buckets|, Hash(key) % |buckets|;
    assert StandsUnder(buckets, t, content, 0);
    PutInBucket(buckets[i], i, n, t, content, key, value);
    forall m | 0 <= m < n && m != i ensures Bucket(buckets[m], m, n, t, content[key := value]) {
      BucketFrame(buckets[m], m, n, t, content, content[key := value], key);
    }
  }

  /** Every other key is still found after the bucket of `key` was replaced by one that keeps its other keys. */
  lemma {:induction false} KeysStay<V>(buckets: seq<seq<Entry<V>>>, i: nat, r: seq<Entry<V>>, key: Key, k: Key)
    requires i < |buckets| && InBucket(buckets[Hash(k) % |buckets|], k) && k != key
    requires forall l :: InBucket(buckets[i], l) && l != key ==> InBucket(r, l)
    ensures InBucket(buckets[i := r][Hash(k) % |buckets|], k)
  {
  }

  /** Replacing the bucket of `key` by one without it takes `key` out of the map. */
  lemma {:induction false} BucketReplaced<V>(buckets: seq<seq<Entry<V>>>, t: KeyType, content: map<Key, V>, i: nat,
                                             r: seq<Entry<V>>, key: Key)
    requires Stands(buckets, t, content) && i == Hash(key) % |buckets|
    requires Bucket(r, i, |buckets|, t, content - {key})
    requires forall l :: InBucket(buckets[i], l) && l != key ==> InBucket(r, l)
    ensures Stands(buckets[i := r], t, content - {key})
  {
    var n, less := |buckets|, content - {key};
    assert StandsUnder(buckets, t, content, 0);
    forall m | 0 <= m < n && m != i ensures Bucket(buckets[m], m, n, t, less) {
      BucketFrame(buckets[m], m, n, t, content, less, key);
    }
    forall k | k in less ensures Suits(t, k) && InBucket(buckets[i := r][Hash(k) % n], k) {
      assert k in content;
      KeysStay(buckets, i, r, key, k);
    }
  }

  lemma {:induction false} RemoveStands<V>(buckets: seq<seq<Entry<V>>>, t: KeyType, content: map<Key, V>, key: Key)
    requires Stands(buckets, t, content) && Suits(t, key)
    requires Find(buckets[Hash(key) % |buckets|], key) < |buckets[Hash(key) % |buckets|]|
    ensures var i := Hash(key) % |buckets|;
      Stands(buckets[i := RemoveFrom(buckets[i], key)], t, content - {key})
  {
    var n, i := |buckets|, Hash(key) % |buckets|;
    assert StandsUnder(buckets, t, content, 0);
    RemoveFromBucket(buckets[i], i, n, t, content, key);
    BucketReplaced(buckets, t, content, i, RemoveFrom(buckets[i], key), key);
  }

  /** Looking a key up in its bucket is looking it up in the map. */
  lemma {:induction false} FindStands<V>(buckets: seq<seq<Entry<V>>>, t: KeyType, content: map<Key, V>, key: Key)
    requires Stands(buckets, t, content)
    ensures var b := buckets[Hash(key) % |buckets|];
      && (key in content <==> Find(b, key) < |b|)
      && (key in content ==> content[key] == b[Find(b, key)].value)
  {
    var i := Hash(key) % |buckets|;
    assert StandsUnder(buckets, t, content, 0);
    assert Bucket(buckets[i], i, |buckets|, t, content);
  }

  class HashMap<V> {
    var buckets: seq<seq<Entry<V>>>
    const keyType: KeyType

    /** The map these buckets stand for, and the exponent of their number. */
    ghost var content: map<Key, V>
    ghost var bits: nat

    ghost predicate Valid()
      reads this
    {
      |buckets| == Pow2(bits) && Stands(buckets, keyType, content)
    }

    constructor (bucketCount: nat, keyType: KeyType)
      requires bucketCount <= 0x8000_0000_0000_0000  // larger counts shift by the word size
      ensures Valid() && content == map[] && this.keyType == keyType
      ensures |buckets| == NextPowerOfTwo(bucketCount)
    {
      this.keyType := keyType;
      var count := NextPowerOfTwo(bucketCount);
      buckets := seq(count, _ => []);
      content := map[];
      bits := if bucketCount <= 1 then 0 else BitLength(bucketCount - 1);
      new;
    }

    /** The bucket a key hashes to. */
    method BucketOf(key: Key) returns (i: nat)
      requires Valid()
      ensures i == Hash(key) % |buckets| && i < |buckets|
    {
      var h := HashOf(key);
      MaskIsModulo(h, bits);
      i := And(h, |buckets| - 1);
    }

    /** The loop all four operations run over a bucket list. */
    method Scan(b: seq<Entry<V>>, key: Key) returns (j: nat)
      ensures j == Find(b, key)
    {
      j := 0;
      while j < |b| && b[j].key != key
        invariant j <= |b| && Find(b, key) == j + Find(b[j..], key)
      {
        j := j + 1;
      }
    }

    method Get(key: Key) returns (v: Option<V>)
      requires Valid() && Suits(keyType, key)
      ensures v == if key in content then Some(content[key]) else None
    {
      var i := BucketOf(key);
      var j := Scan(buckets[i], key);
      FindStands(buckets, keyType, content, key);
      if j < |buckets[i]| {
        return Some(buckets[i][j].value);
      }
      return None;
    }

    method Contains(key: Key) returns (r: bool)
      requires Valid() && Suits(keyType, key)
      ensures r <==> key in content
    {
      var i := BucketOf(key);
      var j := Scan(buckets[i], key);
      FindStands(buckets, keyType, content, key);
      r := j < |buckets[i]|;
    }

    method Put(key: Key, value: V)
      requires Valid() && Suits(keyType, key)
      modifies this
      ensures Valid() && content == old(content)[key := value]
    {
      var i := BucketOf(key);
      var b := buckets[i];
      var j := Scan(b, key);
      PutStands(buckets, keyType, content, key, value);
      if j < |b| {
        buckets := buckets[i := b[j := Entry(key, value)]];
      } else {
        buckets := buckets[i := [Entry(key, value)] + b];
      }
      content := content[key := value];
    }

    method Remove(key: Key) returns (r: bool)
      requires Valid() && Suits(keyType, key)
      modifies this
      ensures Valid() && content == old(content) - {key}
      ensures r <==> key in old(content)
    {
      var i := BucketOf(key);
      var b := buckets[i];
      var j := Scan(b, key);
      FindStands(buckets, keyType, content, key);
      if j == |b| {
        assert content - {key} == content;
        return false;
      }
      RemoveStands(buckets, keyType, content, key);
      var rest := b[..j] + b[j + 1..];
      assert rest == RemoveFrom(b, key);
      buckets, content := buckets[i := rest], content - {key};
      r := true;
    }
  }
}
