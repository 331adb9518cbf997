/**
  Message headers and the reassembly of a byte stream into frames, as in ccrpc/source/rpc.c.
  A frame is a 12-byte header followed by the number of payload bytes the header announces.
 */
module Framing {
  import opened Basics
  import opened Bytes

  const HEADER_SIZE: nat := 12

  /** `struct rpc_header`, in host order. */
  datatype Header = Header(status: U16, id: U32, msgLen: U32, methodLen: U16)

  /** The packed header as the sender fills it in: every field through htons or htonl. */
  function HeaderBytes(h: Header): (s: seq<Byte>)
    ensures |s| == HEADER_SIZE
  {
    Store16(Swap16(h.status)) + Store32(Swap32(h.id)) + Store32(Swap32(h.msgLen)) + Store16(Swap16(h.methodLen))
  }

  /** The header a receiver finds, every field through ntohs or ntohl. */
  function HeaderOf(s: seq<Byte>): Header
    requires |s| >= HEADER_SIZE
  {
    Header(Swap16(Load16(s[0..2])), Swap32(Load32(s[2..6])), Swap32(Load32(s[6..10])), Swap16(Load16(s[10..12])))
  }

  /** The header on the wire: status, number, message length, method length, each big-endian. */
  lemma HeaderLayout(h: Header)
    ensures HeaderBytes(h) == [
      h.status / 0x100, h.status % 0x100,
      h.id / 0x100_0000, h.id / 0x1_0000 % 0x100, h.id / 0x100 % 0x100, h.id % 0x100,
      h.msgLen / 0x100_0000, h.msgLen / 0x1_0000 % 0x100, h.msgLen / 0x100 % 0x100, h.msgLen % 0x100,
      h.methodLen / 0x100, h.methodLen % 0x100]
  {
    NetworkOrder(h.status, h.id);
    NetworkOrder(h.methodLen, h.msgLen);
  }

  /** The fields a receiver reads are those numbers again, whatever the bytes. */
  lemma HeaderFields(s: seq<Byte>)
    requires |s| >= HEADER_SIZE
    ensures HeaderOf(s) == Header(Big16(s, 0), Big32(s, 2), Big32(s, 6), Big16(s, 10))
  {
    assert HeaderOf(s).status == Big16(s, 0) by { FromNetwork(s, 0); }
    assert HeaderOf(s).id == Big32(s, 2) by { FromNetwork(s, 2); }
    assert HeaderOf(s).msgLen == Big32(s, 6) by { FromNetwork(s, 6); }
    assert HeaderOf(s).methodLen == Big16(s, 10) by { FromNetwork(s, 10); }
  }

  lemma HeaderRoundTrip(h: Header, payload: seq<Byte>)
    ensures HeaderOf(HeaderBytes(h) + payload) == h
  {
    var s := HeaderBytes(h) + payload;
    assert s[0..2] == Store16(Swap16(h.status)) && s[2..6] == Store32(Swap32(h.id));
    assert s[6..10] == Store32(Swap32(h.msgLen)) && s[10..12] == Store16(Swap16(h.methodLen));
    SwapTwice(h.status, h.id);
    SwapTwice(h.methodLen, h.msgLen);
    LoadStore32(Swap32(h.id));
    LoadStore32(Swap32(h.msgLen));
  }

  // ----- frames of a stream -----

  function Need(s: seq<Byte>): (n: nat)
    requires |s| >= HEADER_SIZE
    ensures n >= HEADER_SIZE
  {
    HEADER_SIZE + HeaderOf(s).msgLen
  }

  /** A whole frame stands at the start of `s`. */
  predicate Complete(s: seq<Byte>) {
    |s| >= HEADER_SIZE && |s| >= Need(s)
  }

  function Frames(s: seq<Byte>): seq<seq<Byte>> {
    if Complete(s) then [s[..Need(s)]] + Frames(s[Need(s)..]) else []
  }

  function Leftover(s: seq<Byte>): (r: seq<Byte>)
    ensures !Complete(r)
  {
    if Complete(s) then Leftover(s[Need(s)..]) else s
  }

  lemma CompletePrefix(a: seq<Byte>, b: seq<Byte>)
    requires Complete(a)
    ensures Complete(a + b) && Need(a + b) == Need(a)
    ensures (a + b)[..Need(a)] == a[..Need(a)] && (a + b)[Need(a)..] == a[Need(a)..] + b
  {
    var s := a + b;
    assert s[0..2] == a[0..2] && s[2..6] == a[2..6] && s[6..10] == a[6..10] && s[10..12] == a[10..12];
  }

  /** What is left over from one stretch of the stream is continued by the next. */
  lemma {:induction false} FramesAppend(a: seq<Byte>, b: seq<Byte>)
    ensures Frames(a + b) == Frames(a) + Frames(Leftover(a) + b)
    ensures Leftover(a + b) == Leftover(Leftover(a) + b)
    decreases |a|
  {
    if Complete(a) {
      CompletePrefix(a, b);
      FramesAppend(a[Need(a)..], b);
    } else {
      assert [] + Frames(a + b) == Frames(a + b);
    }
  }

  /** The leftover of a stream is its unread end: frames and leftover are the whole stream. */
  lemma {:induction false} NothingLost(s: seq<Byte>)
    ensures Flatten(Frames(s)) + Leftover(s) == s
    decreases |s|
  {
    if Complete(s) {
      var f, rest := s[..Need(s)], s[Need(s)..];
      NothingLost(rest);
      FlattenFirst(f, Frames(rest));
      Reassociate(f, Flatten(Frames(rest)), Leftover(rest));
      assert s == f + rest;
    }
  }

  function Flatten(chunks: seq<seq<Byte>>): seq<Byte> {
    if chunks == [] then [] else chunks[0] + Flatten(chunks[1..])
  }

  lemma FlattenFirst(f: seq<Byte>, fs: seq<seq<Byte>>)
    ensures Flatten([f] + fs) == f + Flatten(fs)
  {
    assert ([f] + fs)[1..] == fs;
  }

  lemma {:induction false} FlattenAppend(a: seq<seq<Byte>>, b: seq<seq<Byte>>)
    ensures Flatten(a + b) == Flatten(a) + Flatten(b)
  {
    if a == [] {
      assert a + b == b;
    } else {
      assert (a + b)[1..] == a[1..] + b;
      FlattenAppend(a[1..], b);
    }
  }

  lemma FlattenSnoc(a: seq<seq<Byte>>, f: seq<Byte>)
    ensures Flatten(a + [f]) == Flatten(a) + f
  {
    FlattenAppend(a, [f]);
    assert [f][1..] == [];
    assert f + [] == f;
  }

  // ----- chunking -----

  /** The frames dispatched, and the bytes kept, when a stream arrives in chunks. */
  function Fed(kept: seq<Byte>, chunks: seq<seq<Byte>>): (seq<seq<Byte>>, seq<Byte>)
    decreases chunks
  {
    if chunks == [] then ([], kept)
    else
      var s := kept + chunks[0];
      var rest := Fed(Leftover(s), chunks[1..]);
      (Frames(s) + rest.0, rest.1)
  }

  /** However a stream is cut into chunks, the result is that of the whole stream. */
  lemma {:induction false} ChunkingIndependent(kept: seq<Byte>, chunks: seq<seq<Byte>>)
    requires !Complete(kept)
    ensures Fed(kept, chunks) == (Frames(kept + Flatten(chunks)), Leftover(kept + Flatten(chunks)))
    decreases chunks
  {
    if chunks == [] {
      assert kept + [] == kept;
    } else {
      var s, rest := kept + chunks[0], Flatten(chunks[1..]);
      ChunkingIndependent(Leftover(s), chunks[1..]);
      FramesAppend(s, rest);
      Reassociate(kept, chunks[0], rest);
      Reassociate(Frames(s), Frames(Leftover(s) + rest), []);
    }
  }

  // ----- a chunk that is dropped -----

  /** Every incomplete frame has a continuation that makes it one whole frame. */
  lemma Completion(k: seq<Byte>) returns (r: seq<Byte>)
    requires !Complete(k)
    ensures Complete(k + r) && Need(k + r) == |k + r|
  {
    if |k| >= HEADER_SIZE {
      r := Zeros(Need(k) - |k|);
      SameHeader(k, r);
    } else {
      var h := k + Zeros(HEADER_SIZE - |k|);
      var payload := Zeros(Need(h) - HEADER_SIZE);
      r := Zeros(HEADER_SIZE - |k|) + payload;
      Reassociate(k, Zeros(HEADER_SIZE - |k|), payload);
      SameHeader(h, payload);
    }
  }

  function Zeros(n: nat): (s: seq<Byte>)
    ensures |s| == n
  {
    seq(n, _ => 0)
  }

  /** What a header announces does not depend on the bytes behind it. */
  lemma SameHeader(h: seq<Byte>, more: seq<Byte>)
    requires |h| >= HEADER_SIZE
    ensures HeaderOf(h + more) == HeaderOf(h)
  {
    var s := h + more;
    assert s[0..2] == h[0..2] && s[2..6] == h[2..6] && s[6..10] == h[6..10] && s[10..12] == h[10..12];
  }

  /** Two incomplete frames that the rest of a stream continues differently. */
  lemma ToldApart(k: seq<Byte>, l: seq<Byte>) returns (r: seq<Byte>)
    requires !Complete(k) && |l| <= |k| && l != k
    ensures Frames(k + r) != Frames(l + r)
  {
    r := Completion(k);
    assert Frames(k + r)[0] == k + r;
    if Complete(l + r) {
      OtherStart(k, l, r, Need(l + r));
      assert Frames(l + r)[0] != k + r;
    }
  }

  lemma OtherStart(k: seq<Byte>, l: seq<Byte>, r: seq<Byte>, n: nat)
    requires |l| <= |k| && l != k && n <= |l + r|
    ensures (l + r)[..n] != k + r
  {
    assert (l + r)[..|l|] == l && (k + r)[..|k|] == k;
  }

  /**
    The receiver keeps `k`, and the next chunk `d` is dropped for want of memory.  It goes on in
    step with the stream, losing only the frames that end in `d`, exactly when `d` would have
    left it with what it keeps now.
   */
  lemma DroppedChunk(k: seq<Byte>, d: seq<Byte>)
    requires !Complete(k)
    ensures (forall r :: Frames(k + d + r) == Frames(k + d) + Frames(k + r)) <==> Leftover(k + d) == k
  {
    var l := Leftover(k + d);
    forall r ensures Frames(k + d + r) == Frames(k + d) + Frames(l + r) {
      FramesAppend(k + d, r);
    }
    if l != k {
      var r: seq<Byte>;
      if |l| <= |k| { r := ToldApart(k, l); } else { r := ToldApart(l, k); }
      assert Frames(k + d + r) == Frames(k + d) + Frames(l + r);
      assert Frames(k + d + r) != Frames(k + d) + Frames(k + r) by {
        SameStart(Frames(k + d), Frames(l + r), Frames(k + r));
      }
    }
  }

  lemma SameStart<T>(a: seq<T>, b: seq<T>, c: seq<T>)
    ensures a + b == a + c ==> b == c
  {
    assert (a + b)[|a|..] == b && (a + c)[|a|..] == c;
  }

  // ----- frames that are dropped -----

  /** The frames whose message buffer could be allocated; `ok` says so for each frame in turn. */
  function Delivered(frames: seq<seq<Byte>>, from: nat, ok: nat -> bool): seq<seq<Byte>>
    decreases frames
  {
    if frames == [] then []
    else (if ok(from) then [frames[0]] else []) + Delivered(frames[1..], from + 1, ok)
  }

  lemma {:induction false} DeliveredSnoc(frames: seq<seq<Byte>>, f: seq<Byte>, from: nat, ok: nat -> bool)
    ensures Delivered(frames + [f], from, ok)
         == Delivered(frames, from, ok) + if ok(from + |frames|) then [f] else []
    decreases frames
  {
    if frames == [] {
      assert ([] + [f])[1..] == [];
    } else {
      assert (frames + [f])[1..] == frames[1..] + [f];
      DeliveredSnoc(frames[1..], f, from + 1, ok);
      Reassociate(if ok(from) then [frames[0]] else [], Delivered(frames[1..], from + 1, ok),
                  if ok(from + |frames|) then [f] else []);
    }
  }
}
