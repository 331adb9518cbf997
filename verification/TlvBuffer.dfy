/**
  The generated encoders and parsers at work: writers that fill a buffer in place and advance
  an offset, and readers that advance through the remaining bytes.
 */
module TlvBuffer {
  import opened Basics
  import opened Bytes
  import opened Codec

  /** `tlv_write_string` and `tlv_write_bytes`: a type byte, a 16-bit length, the data. */
  method WriteData(buf: array<Byte>, off: nat, kind: Byte, data: seq<Byte>) returns (n: nat)
    requires off + 3 + |data| <= buf.Length
    modifies buf
    ensures n == 3 + |data|
    ensures buf[off..off + n] == Tlv(kind, data)
    ensures buf[..off] == old(buf[..off])
  {
    buf[off] := kind;
    buf[off + 1] := |data| % 256;
    buf[off + 2] := |data| / 256 % 256;
    forall i | 0 <= i < |data| {
      buf[off + 3 + i] := data[i];
    }
    n := 1 + 2 + |data|;
    DataStands(buf[..], off, kind, data);
    assert buf[..][off..off + n] == buf[off..off + n];
  }

  /** An item stands in a buffer if its bytes do. */
  lemma DataStands(s: seq<Byte>, off: nat, kind: Byte, data: seq<Byte>)
    requires off + 3 + |data| <= |s| && s[off] == kind
    requires s[off + 1] == |data| % 256 && s[off + 2] == |data| / 256 % 256
    requires forall i :: 0 <= i < |data| ==> s[off + 3 + i] == data[i]
    ensures s[off..off + 3 + |data|] == Tlv(kind, data)
  {
    var item, tlv := s[off..off + 3 + |data|], Tlv(kind, data);
    forall i | 0 <= i < |item| ensures item[i] == tlv[i] {
      assert i >= 3 ==> tlv[i] == data[i - 3] && s[off + 3 + (i - 3)] == data[i - 3];
    }
  }

  method WriteU32(buf: array<Byte>, off: nat, v: U32) returns (n: nat)
    requires off + 7 <= buf.Length
    modifies buf
    ensures n == 7
    ensures buf[off..off + n] == Tlv(TYPE_U32, Store32(v))
    ensures buf[..off] == old(buf[..off])
  {
    n := WriteData(buf, off, TYPE_U32, Store32(v));
  }

  /** One field of the generated emitter. */
  method EmitField(buf: array<Byte>, off: nat, v: Value) returns (off': nat)
    requires off + |Emitted(v)| <= buf.Length
    modifies buf
    ensures off' == off + |Emitted(v)|
    ensures buf[..off'] == old(buf[..off]) + Emitted(v)
  {
    var n := 0;
    match v {
      case Num(x) => n := WriteU32(buf, off, x);
      case Str(s) =>
        if s.Some? {
          n := WriteData(buf, off, TYPE_STRING, s.value);
        }
      case Raw(d) => n := WriteData(buf, off, TYPE_BYTES, d);
    }
    off' := off + n;
    CutTwice(buf[..], off, off');
    assert buf[..][..off'] == buf[..off'] && buf[..][..off] == buf[..off] && buf[..][off..off'] == buf[off..off'];
  }

  lemma CutTwice(s: seq<Byte>, i: nat, j: nat)
    requires i <= j <= |s|
    ensures s[..j] == s[..i] + s[i..j]
  {
  }

  lemma {:induction false} EncodedSnoc(vs: seq<Value>, i: nat)
    requires i < |vs|
    ensures Encoded(vs[..i + 1]) == Encoded(vs[..i]) + Emitted(vs[i])
    decreases vs
  {
    if i == 0 {
      assert vs[..1] == [vs[0]] && vs[..1][1..] == [] && vs[..0] == [];
    } else {
      EncodedSnoc(vs[1..], i - 1);
      assert vs[..i + 1][1..] == vs[1..][..i] && vs[..i][1..] == vs[1..][..i - 1];
      Reassociate(Emitted(vs[0]), Encoded(vs[1..][..i - 1]), Emitted(vs[i]));
    }
  }

  lemma {:induction false} EncodedPrefix(vs: seq<Value>, i: nat)
    requires i <= |vs|
    ensures |Encoded(vs[..i])| <= |Encoded(vs)|
    decreases |vs| - i
  {
    if i < |vs| {
      EncodedSnoc(vs, i);
      EncodedPrefix(vs, i + 1);
    } else {
      assert vs[..i] == vs;
    }
  }

  /** The field list of a stub or of a result encoder, emitted into a buffer with enough room. */
  method EmitFields(buf: array<Byte>, vs: seq<Value>) returns (off: nat)
    requires |Encoded(vs)| <= buf.Length
    modifies buf
    ensures off == |Encoded(vs)| && buf[..off] == Encoded(vs)
  {
    off := 0;
    var i := 0;
    assert vs[..0] == [];
    while i < |vs|
      invariant i <= |vs| && off == |Encoded(vs[..i])| <= buf.Length && buf[..off] == Encoded(vs[..i])
    {
      EncodedSnoc(vs, i);
      EncodedPrefix(vs, i + 1);
      off := EmitField(buf, off, vs[i]);
      i := i + 1;
    }
    assert vs[..i] == vs;
  }

  method EstimateSize(vs: seq<Value>) returns (sz: nat)
    ensures sz == EstimateAll(vs)
  {
    sz := 0;
    var i := 0;
    while i < |vs|
      invariant i <= |vs| && sz + EstimateAll(vs[i..]) == EstimateAll(vs)
    {
      sz := sz + Estimate(vs[i]);
      i := i + 1;
    }
  }

  /** The first half of a stub: estimate, allocate, emit.  The estimate is always enough. */
  method EncodeParams(vs: seq<Value>) returns (tlv: seq<Byte>)
    ensures tlv == Encoded(vs)
  {
    var size := EstimateSize(vs);
    var buf := new Byte[size](_ => 0);
    EstimateBounds(vs);
    var off := EmitFields(buf, vs);
    tlv := buf[..off];
  }

  function Prepended(out: seq<Value>, rest: Option<seq<Value>>): Option<seq<Value>> {
    if rest.None? then None else Some(out + rest.value)
  }

  lemma PrependedStep(out: seq<Value>, v: Value, rest: Option<seq<Value>>)
    ensures Prepended(out, Prepended([v], rest)) == Prepended(out + [v], rest)
    ensures Prepended([], rest) == rest
  {
    if rest.Some? {
      assert out + ([v] + rest.value) == (out + [v]) + rest.value;
      assert [] + rest.value == rest.value;
    }
  }

  /** Reads field `i` from byte `p` on; parsing goes on behind it. */
  method ParseField(schema: Schema, tlv: seq<Byte>, i: nat, p: nat) returns (v: Option<Value>, used: nat)
    requires i < |schema| && p <= |tlv|
    ensures v.Some? ==> p + used <= |tlv|
    ensures Parsed(schema[i..], tlv[p..])
         == if v.None? then None else Prepended([v.value], Parsed(schema[i + 1..], tlv[p + used..]))
  {
    v, used := None, 0;
    var item := ReadItem(tlv[p..]);
    if item.None? {
      return;
    }
    v := FieldOf(schema[i], item.value);
    used := 3 + |item.value.data|;
    assert tlv[p..][used..] == tlv[p + used..] && schema[i..][1..] == schema[i + 1..];
  }

  /** The generated parser: it succeeds if there is one whole item for each field. */
  method ParseFields(schema: Schema, tlv: seq<Byte>) returns (r: Option<seq<Value>>)
    ensures r == Parsed(schema, tlv)
    ensures r.Some? <==> BeginsWithItems(schema, tlv)
  {
    r := ParseEach(schema, tlv);
    ParsedIff(schema, tlv);
  }

  /** One field after the other, `remain` bytes left from `p` on. */
  method ParseEach(schema: Schema, tlv: seq<Byte>) returns (r: Option<seq<Value>>)
    ensures r == Parsed(schema, tlv)
  {
    var p: nat, remain: nat, i := 0, |tlv|, 0;
    var out: seq<Value> := [];
    ghost var all := Parsed(schema, tlv);
    assert schema[0..] == schema && tlv[0..] == tlv;
    PrependedStep([], Num(0), all);
    while i < |schema|
      invariant i <= |schema| && p + remain == |tlv|
      invariant all == Prepended(out, Parsed(schema[i..], tlv[p..]))
    {
      var v, used := ParseField(schema, tlv, i, p);
      if v.None? {
        return None;
      }
      PrependedStep(out, v.value, Parsed(schema[i + 1..], tlv[p + used..]));
      out := out + [v.value];
      p := p + used;
      remain := remain - used;
      i := i + 1;
    }
    assert out + [] == out;
    r := Some(out);
  }
}
