/** Bytes, and integers as bytes in memory and on the wire. */
module Bytes {
  import opened Basics

  type Byte = b: int | 0 <= b < 256

  type U16 = v: int | 0 <= v < 0x1_0000
  type U32 = v: int | 0 <= v < 0x1_0000_0000

  datatype Option<+T> = None | Some(value: T)

  // ----- integers in the memory of a little-endian host -----

  function Store16(v: U16): (s: seq<Byte>)
    ensures |s| == 2
  {
    [v % 256, v / 256]
  }

  function Load16(s: seq<Byte>): U16
    requires |s| == 2
  {
    var a: int, b: int := s[0], s[1];
    a + 0x100 * b
  }

  function Store32(v: U32): (s: seq<Byte>)
    ensures |s| == 4
  {
    [v % 256, v / 0x100 % 256, v / 0x1_0000 % 256, v / 0x100_0000]
  }

  function Load32(s: seq<Byte>): U32
    requires |s| == 4
  {
    var a: int, b: int, c: int, d: int := s[0], s[1], s[2], s[3];
    a + 0x100 * b + 0x1_0000 * c + 0x100_0000 * d
  }

  lemma LoadStore32(v: U32)
    ensures Load32(Store32(v)) == v
  {
    var q := v / 0x100;
    var r := q / 0x100;
    Divide(v, 0x1_0000, v % 0x100 + 0x100 * (q % 0x100), r);
    Divide(v, 0x100_0000, v % 0x100 + 0x100 * (q % 0x100) + 0x1_0000 * (r % 0x100), r / 0x100);
  }

  lemma StoreLoad32(s: seq<Byte>)
    requires |s| == 4
    ensures Store32(Load32(s)) == s
  {
    var a: int, b: int, c: int, d: int := s[0], s[1], s[2], s[3];
    var v := Load32(s);
    Divide(v, 0x100, a, b + 0x100 * c + 0x1_0000 * d);
    Divide(v, 0x1_0000, a + 0x100 * b, c + 0x100 * d);
    Divide(v, 0x100_0000, a + 0x100 * b + 0x1_0000 * c, d);
    Divide(b + 0x100 * c + 0x1_0000 * d, 0x100, b, c + 0x100 * d);
    Divide(c + 0x100 * d, 0x100, c, d);
  }

  // ----- htons, htonl and back: swap16 and swap32 of common.h -----

  function Swap16(v: U16): U16 {
    var s := Store16(v);
    Load16([s[1], s[0]])
  }

  function Swap32(v: U32): U32 {
    var s := Store32(v);
    Load32([s[3], s[2], s[1], s[0]])
  }

  /** A swapped integer in host memory is the integer in network order, most significant byte first. */
  lemma NetworkOrder(v: U16, w: U32)
    ensures Store16(Swap16(v)) == [v / 0x100, v % 0x100]
    ensures Store32(Swap32(w)) == [w / 0x100_0000, w / 0x1_0000 % 0x100, w / 0x100 % 0x100, w % 0x100]
  {
    var s := Store32(w);
    StoreLoad32([s[3], s[2], s[1], s[0]]);
  }

  /** The number that two bytes from `i` on spell, the most significant first. */
  function Big16(s: seq<Byte>, i: nat): U16
    requires i + 2 <= |s|
  {
    var a: int, b: int := s[i], s[i + 1];
    0x100 * a + b
  }

  /** The number that four bytes from `i` on spell, the most significant first. */
  function Big32(s: seq<Byte>, i: nat): U32
    requires i + 4 <= |s|
  {
    var a: int, b: int, c: int, d: int := s[i], s[i + 1], s[i + 2], s[i + 3];
    0x100_0000 * a + 0x1_0000 * b + 0x100 * c + d
  }

  /** An integer loaded from the wire and swapped is the number its bytes spell. */
  lemma FromNetwork(s: seq<Byte>, i: nat)
    ensures i + 2 <= |s| ==> Swap16(Load16(s[i..i + 2])) == Big16(s, i)
    ensures i + 4 <= |s| ==> Swap32(Load32(s[i..i + 4])) == Big32(s, i)
  {
    if i + 4 <= |s| {
      StoreLoad32(s[i..i + 4]);
    }
  }

  lemma SwapTwice(v: U16, w: U32)
    ensures Swap16(Swap16(v)) == v && Swap32(Swap32(w)) == w
  {
    NetworkOrder(v, w);
    LoadStore32(w);
  }
}
