/**
  The schema-driven TLV codec of ccrpc/source/rpc_gen.c and ccrpc/source/rpc_tlv.c.  A schema is
  the list of field types of a parameter or result struct.
 */
module Codec {
  import opened Bytes

  datatype FieldType = U32Field | StringField | BytesField

  type Schema = seq<FieldType>

  /** A field of a struct; a string is NULL or a C string without its terminator. */
  datatype Value = Num(n: U32) | Str(s: Option<seq<Byte>>) | Raw(data: seq<Byte>)

  const TYPE_U32: Byte := 1
  const TYPE_STRING: Byte := 2
  const TYPE_BYTES: Byte := 3

  ghost predicate NulFree(s: seq<Byte>) {
    forall i :: 0 <= i < |s| ==> s[i] != 0
  }

  /** `v` is a value of type `t`: C strings hold no NUL. */
  ghost predicate HasType(v: Value, t: FieldType) {
    match t
    case U32Field => v.Num?
    case StringField => v.Str? && (v.s.Some? ==> NulFree(v.s.value))
    case BytesField => v.Raw?
  }

  ghost predicate Typed(vs: seq<Value>, schema: Schema) {
    |vs| == |schema| && forall i :: 0 <= i < |vs| ==> HasType(vs[i], schema[i])
  }

  // ----- what the writers put into the buffer -----

  function Tlv(t: Byte, data: seq<Byte>): seq<Byte> {
    [t, |data| % 256, |data| / 256 % 256] + data
  }

  /** One field as emitted; a NULL string is skipped. */
  function Emitted(v: Value): seq<Byte> {
    match v
    case Num(n) => Tlv(TYPE_U32, Store32(n))
    case Str(None) => []
    case Str(Some(s)) => Tlv(TYPE_STRING, s)
    case Raw(d) => Tlv(TYPE_BYTES, d)
  }

  function Encoded(vs: seq<Value>): seq<Byte> {
    if vs == [] then [] else Emitted(vs[0]) + Encoded(vs[1..])
  }

  /** The bytes reserved for one field. */
  function Estimate(v: Value): nat {
    match v
    case Num(_) => 1 + 2 + 4
    case Str(None) => 1 + 2
    case Str(Some(s)) => 1 + 2 + |s|
    case Raw(d) => 1 + 2 + |d|
  }

  function EstimateAll(vs: seq<Value>): nat {
    if vs == [] then 0 else Estimate(vs[0]) + EstimateAll(vs[1..])
  }

  // ----- what the readers take from it -----

  datatype Item = Item(kind: Byte, data: seq<Byte>)

  /** One type-length-value item at the start of `buf`, if it is all there. */
  function ReadItem(buf: seq<Byte>): (r: Option<Item>)
    ensures r.Some? ==> 3 + |r.value.data| <= |buf|
  {
    if |buf| < 3 then None
    else
      var len := Load16([buf[1], buf[2]]);
      if |buf| < 3 + len then None else Some(Item(buf[0], buf[3..3 + len]))
  }

  /** A C string ends at its first NUL. */
  function UpToNul(s: seq<Byte>): (r: seq<Byte>)
    ensures r <= s && NulFree(r) && (|r| < |s| ==> s[|r|] == 0)
    ensures NulFree(s) ==> r == s
  {
    if s == [] || s[0] == 0 then [] else [s[0]] + UpToNul(s[1..])
  }

  /** The value of a field of type `t` in an item, if the item holds one. */
  function FieldOf(t: FieldType, item: Item): Option<Value> {
    match t
    case U32Field =>
      if item.kind == TYPE_U32 && |item.data| == 4 then Some(Num(Load32(item.data))) else None
    case StringField =>
      if item.kind == TYPE_STRING then Some(Str(Some(UpToNul(item.data)))) else None
    case BytesField =>
      if item.kind == TYPE_BYTES then Some(Raw(item.data)) else None
  }

  /** What the generated parser makes of `buf`: nothing, or one value per field. */
  function Parsed(schema: Schema, buf: seq<Byte>): (r: Option<seq<Value>>)
    ensures r.Some? ==> |r.value| == |schema|
    decreases schema
  {
    if schema == [] then Some([])
    else
      var item := ReadItem(buf);
      if item.None? then None
      else
        var v := FieldOf(schema[0], item.value);
        if v.None? then None
        else
          var rest := Parsed(schema[1..], buf[3 + |item.value.data|..]);
          if rest.None? then None else Some([v.value] + rest.value)
  }

  // ----- the round trip -----

  /** A value that a TLV item can carry: not a NULL string, and a length of at most 16 bits. */
  predicate Carried(v: Value) {
    match v
    case Num(_) => true
    case Str(s) => s.Some? && |s.value| < 0x1_0000
    case Raw(d) => |d| < 0x1_0000
  }

  predicate AllCarried(vs: seq<Value>) {
    forall i :: 0 <= i < |vs| ==> Carried(vs[i])
  }

  lemma ReadTlv(t: Byte, data: seq<Byte>, tail: seq<Byte>)
    requires |data| < 0x1_0000
    ensures ReadItem(Tlv(t, data) + tail) == Some(Item(t, data))
  {
    var buf := Tlv(t, data) + tail;
    assert Load16([buf[1], buf[2]]) == |data| by {
      assert |data| / 256 % 256 == |data| / 256;
    }
    assert buf[3..3 + |data|] == data;
  }

  /** A carried field is read back from its own bytes, whatever follows. */
  lemma FieldRoundTrip(v: Value, t: FieldType, tail: seq<Byte>)
    requires HasType(v, t) && Carried(v)
    ensures var item := ReadItem(Emitted(v) + tail);
      && item.Some? && 3 + |item.value.data| == |Emitted(v)|
      && FieldOf(t, item.value) == Some(v)
  {
    match v
    case Num(n) => ReadTlv(TYPE_U32, Store32(n), tail); LoadStore32(n);
    case Str(s) => ReadTlv(TYPE_STRING, s.value, tail);
    case Raw(d) => ReadTlv(TYPE_BYTES, d, tail);
  }

  lemma {:induction false} RoundTrip(schema: Schema, vs: seq<Value>, tail: seq<Byte>)
    requires Typed(vs, schema) && AllCarried(vs)
    ensures Parsed(schema, Encoded(vs) + tail) == Some(vs)
    decreases schema
  {
    if vs != [] {
      var v, rest := vs[0], Encoded(vs[1..]) + tail;
      assert Encoded(vs) + tail == Emitted(v) + rest;
      FieldRoundTrip(v, schema[0], rest);
      assert (Emitted(v) + rest)[|Emitted(v)|..] == rest;
      RoundTrip(schema[1..], vs[1..], tail);
      assert vs == [v] + vs[1..];
    }
  }

  /** The parser never produces a value that an item cannot carry. */
  lemma ParsedIsCarried(schema: Schema, buf: seq<Byte>)
    ensures var r := Parsed(schema, buf);
      r.Some? ==> AllCarried(r.value) && Typed(r.value, schema)
  {
    if Parsed(schema, buf).Some? {
      var ds := ParsedItems(schema, buf);
      var vs := Parsed(schema, buf).value;
      forall i | 0 <= i < |vs| ensures Carried(vs[i]) && HasType(vs[i], schema[i]) {
        assert StandsFor(schema[i], ds[i], vs[i]);
      }
    }
  }

  /** What is parsed from a buffer takes no more room than the buffer has. */
  lemma {:induction false} ParsedFits(schema: Schema, buf: seq<Byte>)
    ensures Parsed(schema, buf).Some? ==> |Encoded(Parsed(schema, buf).value)| <= |buf|
    decreases schema
  {
    if Parsed(schema, buf).Some? && schema != [] {
      var item := ReadItem(buf).value;
      var v, rest := FieldOf(schema[0], item).value, Parsed(schema[1..], buf[3 + |item.data|..]).value;
      ParsedFits(schema[1..], buf[3 + |item.data|..]);
      assert |Emitted(v)| <= 3 + |item.data|;
      assert ([v] + rest)[1..] == rest;
    }
  }

  /**
    Parsing an encoding gives back the values exactly when every string is there and every
    length fits into 16 bits.
   */
  lemma RoundTripIff(schema: Schema, vs: seq<Value>, tail: seq<Byte>)
    requires Typed(vs, schema)
    ensures Parsed(schema, Encoded(vs) + tail) == Some(vs) <==> AllCarried(vs)
  {
    if AllCarried(vs) { RoundTrip(schema, vs, tail); }
    ParsedIsCarried(schema, Encoded(vs) + tail);
  }

  /** The encoder writes at most the estimated number of bytes, and exactly that many without NULLs. */
  lemma {:induction false} EstimateBounds(vs: seq<Value>)
    ensures |Encoded(vs)| <= EstimateAll(vs)
    ensures (forall i :: 0 <= i < |vs| && vs[i].Str? ==> vs[i].s.Some?) <==> |Encoded(vs)| == EstimateAll(vs)
  {
    if vs != [] {
      EstimateBounds(vs[1..]);
      assert vs == [vs[0]] + vs[1..];
    }
  }

  // ----- the wire format, said without writers and readers -----

  function TypeCode(t: FieldType): Byte {
    match t
    case U32Field => 1
    case StringField => 2
    case BytesField => 3
  }

  /** A field of type `t` can be read from `d`: four bytes of an integer, or anything of 16-bit length. */
  predicate Suitable(t: FieldType, d: seq<Byte>) {
    |d| < 0x1_0000 && (t.U32Field? ==> |d| == 4)
  }

  /** A type byte, the length with its low byte first, the data. */
  function ItemBytes(t: FieldType, d: seq<Byte>): seq<Byte>
    requires Suitable(t, d)
  {
    [TypeCode(t), |d| % 0x100, |d| / 0x100] + d
  }

  ghost predicate Fills(schema: Schema, ds: seq<seq<Byte>>) {
    |ds| == |schema| && forall i :: 0 <= i < |ds| ==> Suitable(schema[i], ds[i])
  }

  ghost function WireBytes(schema: Schema, ds: seq<seq<Byte>>): seq<Byte>
    requires Fills(schema, ds)
    decreases schema
  {
    if schema == [] then [] else ItemBytes(schema[0], ds[0]) + WireBytes(schema[1..], ds[1..])
  }

  /** The buffer begins with one whole item for each field. */
  ghost predicate BeginsWithItems(schema: Schema, buf: seq<Byte>) {
    exists ds :: Fills(schema, ds) && WireBytes(schema, ds) <= buf
  }

  /** The data stands for the value: a little-endian number, a string up to its NUL, or itself. */
  ghost predicate StandsFor(t: FieldType, d: seq<Byte>, v: Value)
    requires Suitable(t, d)
  {
    match t
    case U32Field =>
      var a: int, b: int, c: int, e: int := d[0], d[1], d[2], d[3];
      v == Num(a + 0x100 * b + 0x1_0000 * c + 0x100_0000 * e)
    case StringField =>
      && v.Str? && v.s.Some? && NulFree(v.s.value) && v.s.value <= d
      && (|v.s.value| < |d| ==> d[|v.s.value|] == 0)
    case BytesField => v == Raw(d)
  }

  ghost predicate AllStandFor(schema: Schema, ds: seq<seq<Byte>>, vs: seq<Value>)
    requires Fills(schema, ds)
  {
    |vs| == |schema| && forall i :: 0 <= i < |vs| ==> StandsFor(schema[i], ds[i], vs[i])
  }

  /** One item at the start of a buffer, and what is read from it. */
  lemma ReadOneItem(t: FieldType, buf: seq<Byte>)
    ensures var item := ReadItem(buf);
      if item.Some? && FieldOf(t, item.value).Some?
      then && Suitable(t, item.value.data) && ItemBytes(t, item.value.data) <= buf
           && 3 + |item.value.data| == |ItemBytes(t, item.value.data)|
           && StandsFor(t, item.value.data, FieldOf(t, item.value).value)
      else forall d :: Suitable(t, d) ==> !(ItemBytes(t, d) <= buf)
  {
    var item := ReadItem(buf);
    if item.Some? && FieldOf(t, item.value).Some? {
      var d := item.value.data;
      assert ItemBytes(t, d) == buf[..3 + |d|];
    } else {
      forall d | Suitable(t, d) ensures !(ItemBytes(t, d) <= buf) {
        if ItemBytes(t, d) <= buf { ItemIsRead(t, d, buf); }
      }
    }
  }

  lemma ItemIsRead(t: FieldType, d: seq<Byte>, buf: seq<Byte>)
    requires Suitable(t, d) && ItemBytes(t, d) <= buf
    ensures ReadItem(buf) == Some(Item(TypeCode(t), d)) && FieldOf(t, Item(TypeCode(t), d)).Some?
  {
    var head := ItemBytes(t, d);
    assert buf[..|head|] == head && buf[0] == head[0] && buf[1] == head[1] && buf[2] == head[2];
    assert Load16([buf[1], buf[2]]) == |d|;
    assert buf[3..3 + |d|] == head[3..] == d;
  }

  /** A parser that succeeds has read one item for each field, and returns what the items stand for. */
  lemma {:induction false} ParsedItems(schema: Schema, buf: seq<Byte>) returns (ds: seq<seq<Byte>>)
    requires Parsed(schema, buf).Some?
    ensures Fills(schema, ds) && WireBytes(schema, ds) <= buf
    ensures AllStandFor(schema, ds, Parsed(schema, buf).value)
    decreases schema
  {
    ds := [];
    if schema != [] {
      ReadOneItem(schema[0], buf);
      var d := ReadItem(buf).value.data;
      var rest := ParsedItems(schema[1..], buf[3 + |d|..]);
      ds := [d] + rest;
      assert ds[1..] == rest && buf == ItemBytes(schema[0], d) + buf[3 + |d|..];
    }
  }

  /** A buffer that begins with one item for each field is parsed. */
  lemma {:induction false} ItemsParsed(schema: Schema, ds: seq<seq<Byte>>, buf: seq<Byte>)
    requires Fills(schema, ds) && WireBytes(schema, ds) <= buf
    ensures Parsed(schema, buf).Some?
    decreases schema
  {
    if schema != [] {
      var head, rest := ItemBytes(schema[0], ds[0]), WireBytes(schema[1..], ds[1..]);
      assert head <= buf && rest <= buf[|head|..] by { assert head + rest <= buf; }
      ItemIsRead(schema[0], ds[0], buf);
      ItemsParsed(schema[1..], ds[1..], buf[|head|..]);
    }
  }

  /** Parsing succeeds exactly when the buffer begins with one whole item for each field, of its type. */
  lemma ParsedIff(schema: Schema, buf: seq<Byte>)
    ensures Parsed(schema, buf).Some? <==> BeginsWithItems(schema, buf)
  {
    if Parsed(schema, buf).Some? {
      var ds := ParsedItems(schema, buf);
    }
    if BeginsWithItems(schema, buf) {
      var ds :| Fills(schema, ds) && WireBytes(schema, ds) <= buf;
      ItemsParsed(schema, ds, buf);
    }
  }

  /** Data without NUL that stands for a value is what the value is written as. */
  lemma WrittenAs(t: FieldType, d: seq<Byte>, v: Value)
    requires Suitable(t, d) && StandsFor(t, d, v) && (t.StringField? ==> NulFree(d))
    ensures Emitted(v) == ItemBytes(t, d)
  {
    match t
    case U32Field => StoreLoad32(d);
    case StringField =>
    case BytesField =>
  }

  /** Fields are written as items that stand for them, in order and with nothing between. */
  lemma {:induction false} EncodedItems(schema: Schema, ds: seq<seq<Byte>>, vs: seq<Value>)
    requires Fills(schema, ds) && AllStandFor(schema, ds, vs)
    requires forall i :: 0 <= i < |ds| && schema[i].StringField? ==> NulFree(ds[i])
    ensures Encoded(vs) == WireBytes(schema, ds)
    decreases schema
  {
    if schema != [] {
      WrittenAs(schema[0], ds[0], vs[0]);
      EncodedItems(schema[1..], ds[1..], vs[1..]);
    }
  }

  /** The data of the item for a value that can be carried. */
  function DataOf(v: Value): seq<Byte>
    requires Carried(v)
  {
    match v
    case Num(n) => Store32(n)
    case Str(s) => s.value
    case Raw(d) => d
  }

  /** Values that can be carried are written as one item for each field. */
  lemma EncodedWire(schema: Schema, vs: seq<Value>) returns (ds: seq<seq<Byte>>)
    requires Typed(vs, schema) && AllCarried(vs)
    ensures Fills(schema, ds) && AllStandFor(schema, ds, vs) && Encoded(vs) == WireBytes(schema, ds)
  {
    ds := seq(|vs|, i requires 0 <= i < |vs| => DataOf(vs[i]));
    forall i | 0 <= i < |vs| ensures Suitable(schema[i], ds[i]) && StandsFor(schema[i], ds[i], vs[i]) {
      assert Carried(vs[i]) && HasType(vs[i], schema[i]);
      if vs[i].Num? { LoadStore32(vs[i].n); }
    }
    EncodedItems(schema, ds, vs);
  }

  /** What is parsed from items without NUL encodes to the beginning of the buffer. */
  lemma ParsedEncodes(schema: Schema, buf: seq<Byte>) returns (ds: seq<seq<Byte>>)
    requires Parsed(schema, buf).Some?
    ensures Fills(schema, ds) && WireBytes(schema, ds) <= buf
    ensures (forall i :: 0 <= i < |ds| && schema[i].StringField? ==> NulFree(ds[i])) ==>
      Encoded(Parsed(schema, buf).value) == WireBytes(schema, ds)
  {
    ds := ParsedItems(schema, buf);
    if forall i :: 0 <= i < |ds| && schema[i].StringField? ==> NulFree(ds[i]) {
      EncodedItems(schema, ds, Parsed(schema, buf).value);
    }
  }

  /** How many strings are NULL. */
  function NullStrings(vs: seq<Value>): nat {
    if vs == [] then 0 else (if vs[0] == Str(None) then 1 else 0) + NullStrings(vs[1..])
  }

  /** The estimate exceeds what is written by three bytes for each NULL string. */
  lemma {:induction false} EstimateExact(vs: seq<Value>)
    ensures EstimateAll(vs) == |Encoded(vs)| + 3 * NullStrings(vs)
  {
    if vs != [] {
      EstimateExact(vs[1..]);
    }
  }
}
