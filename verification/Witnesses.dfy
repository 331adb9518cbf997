/**
  Inputs at which the code departs from what a caller may expect, each as a short client of the
  class or codec concerned.  The exact conditions are in the contracts of those.
 */
module Witnesses {
  import opened Basics
  import opened Bytes
  import opened Codec
  import Framing
  import CallProtocol
  import Dispatch
  import TlvBuffer
  import RadixShape
  import RadixSearch
  import RadixTrees
  import HeapView
  import Heaps
  import MemView
  import MemAllocs

  /**
    After one insertion at 0 a lookup of 16 finds that item, the upper-bound search finds it for
    16 although it lies below, and for 1 the search strays onto the root struct.
   */
  method ForgottenDigits(item: Ptr)
    returns (tree: RadixTrees.RadixTree, found: Ptr, above: RadixTrees.Outcome, beyond: RadixTrees.Outcome)
    requires item != NULL
    ensures fresh(tree) && tree.Valid() && tree.content == map[0 := item]
    ensures found == item && above == RadixTrees.Found(item) && beyond == RadixTrees.Stray
  {
    tree := new RadixTrees.RadixTree();
    var r := tree.Insert(0, item);
    assert RadixShape.Capacity(1) == 16 by { assert Pow2(4) == 16; }
    assert RadixShape.Seen(0, 1) == 0 && RadixShape.Seen(16, 1) == 0 && RadixShape.Seen(1, 1) == 1;
    RadixShape.At(tree.Here(), RadixShape.Place(1, 0));
    assert tree.height == 1 && !tree.HasGrown() && tree.rnode != NULL;
    found := tree.Lookup(16);
    assert 0 in tree.content && forall k :: RadixSearch.Least(tree.content, 0, k) ==> k == 0;
    above := tree.UpperBound(16);
    beyond := tree.UpperBound(1);
  }

  /** A fresh pool in an aligned array refuses the request that its only block fits exactly. */
  method ExactFitRefused(base: nat, head: Ptr) returns (pool: MemAllocs.MemAlloc, ret: Ptr)
    requires base > 0 && base % 8 == 0 && head != NULL
    requires head + MemView.LINK <= base || base + MemView.CONFIG_HEAP <= head
    ensures fresh(pool) && pool.Valid() && ret == NULL
    ensures pool.Heap().free == {base} && pool.Heap().size == map[base := MemView.CONFIG_HEAP]
  {
    pool := new MemAllocs.MemAlloc(base, head);
    ghost var a, b;
    ret, a, b := pool.Malloc(MemView.CONFIG_HEAP - MemView.HEADER);
  }

  /** In an aligned array the request for all of it gets a block that covers the sentinel. */
  method SentinelServed(base: nat, head: Ptr) returns (heap: Heaps.Heap, ret: Ptr)
    requires base > 0 && base % 8 == 0 && head != NULL
    requires head + HeapView.HEADER <= base || base + HeapView.CONFIG_HEAP <= head
    ensures fresh(heap) && heap.Valid() && heap.tail == base + HeapView.CONFIG_HEAP - HeapView.HEADER
    ensures ret == base + HeapView.HEADER && heap.live == map[base := HeapView.CONFIG_HEAP]
    ensures !Heaps.ClearOfTail(heap.Here())
  {
    heap := new Heaps.Heap(base, head);
    Heaps.WholeArray(base);
    ret := heap.Malloc(HeapView.CONFIG_HEAP - HeapView.HEADER);
    assert base in heap.live;
  }

  /** Before the first request the statistics report all of the array as left, but none as free. */
  method StatsOfFreshHeap(base: nat, head: Ptr) returns (remain: nat, free: nat)
    requires base > 0 && head != NULL
    requires head + HeapView.HEADER <= base || base + HeapView.CONFIG_HEAP <= head
    ensures remain == HeapView.CONFIG_HEAP && free == 0
  {
    var heap := new Heaps.Heap(base, head);
    var largest, blocks;
    remain, free, largest, blocks := heap.Stats();
  }

  /** A struct whose only string is NULL encodes to nothing and is not parsed back. */
  method NullString() returns (tlv: seq<Byte>, r: Option<seq<Value>>)
    ensures tlv == [] && r == None
  {
    var vs := [Str(None)];
    tlv := TlvBuffer.EncodeParams(vs);
    assert vs[1..] == [] && Encoded(vs) == Emitted(vs[0]) + Encoded(vs[1..]);
    r := TlvBuffer.ParseFields([StringField], tlv);
  }

  /** Inserting NULL into an empty tree succeeds, adds no entry, and leaves a tree that is not valid. */
  method NullItemCounted() returns (tree: RadixTrees.RadixTree, r: int)
    ensures fresh(tree) && r == 0 && !tree.Valid() && tree.content == map[]
  {
    tree := new RadixTrees.RadixTree();
    r := tree.Insert(0, NULL);
  }

  /** A table whose one method returns `size` bytes. */
  function Reader(size: nat): Dispatch.Methods {
    map[[101] := Dispatch.Method([], [BytesField], (now, params) => Some([Raw(seq(size, _ => 7))]))]
  }

  /** A request without parameters makes the encoder overrun its buffer if the method returns 5000 bytes. */
  method ResultOverruns() returns (reply: Option<seq<Byte>>, overrun: bool)
    ensures overrun
  {
    var name: seq<Byte>, tlv: seq<Byte> := [101], [];
    var result: seq<Value> := [Raw(seq(5000, _ => 7))];
    assert result[1..] == [] && Encoded(result) == Emitted(result[0]) + Encoded(result[1..]);
    assert Dispatch.Respond(Reader(5000), 0, name, tlv) == CallProtocol.Answer(CallProtocol.STATUS_OK, Encoded(result));
    Dispatch.RequestAnswered(Reader(5000), 0, 1, name, tlv);
    reply, overrun := Dispatch.Serve(Reader(5000), 0, Dispatch.RequestBytes(1, name, tlv));
  }

  /** One dropped byte at the start of a stream shifts every frame that follows. */
  lemma OneByteDropped() returns (r: seq<Byte>)
    ensures Framing.Frames([] + [0] + r) != Framing.Frames([] + [0]) + Framing.Frames([] + r)
  {
    var k: seq<Byte>, d: seq<Byte> := [], [0];
    assert k + d == d && Framing.Leftover(d) == d;
    Framing.DroppedChunk(k, d);
    r :| Framing.Frames(k + d + r) != Framing.Frames(k + d) + Framing.Frames(k + r);
  }

  /** Two requests for 8 bytes get 24 bytes each, one behind the other. */
  method SmallRequests(head: Ptr) returns (heap: Heaps.Heap, first: Ptr, second: Ptr)
    requires head >= 0x10_1000
    ensures fresh(heap) && heap.Valid() && first == 0x1010 && second == 0x1028
    ensures heap.live == map[0x1000 := 24, 0x1018 := 24]
  {
    heap := new Heaps.Heap(0x1000, head);
    Heaps.LayoutTight(0x1000);
    ghost var v := heap.Now();
    assert v.free == [HeapView.Block(0x1000, 0x10_0000)] && v.live == map[];
    first := heap.Malloc(8);
    second := heap.Malloc(8);
  }

  /** The only free block is split for a request of 3000 bytes. */
  lemma SplitOnce(v: MemView.View, w: MemView.View, x: Ptr, y: Ptr)
    requires v.free == {x} && MemView.Size(v.size, x) > 3216 && MemView.TakenFrom(v, w, y, 3072, 3000)
    ensures y == x && w.asked == v.asked[x := 3000] && w.free == {x + 3072}
    ensures MemView.Size(w.size, x + 3072) == MemView.Size(v.size, x) - 3072
  {
    assert y in v.free;
  }

  /** A request for 3000 bytes leaves enough of a fresh pool for another one. */
  method PoolIsSplit(head: Ptr) returns (pool: MemAllocs.MemAlloc, first: Ptr, second: Ptr)
    requires head >= 0x6800
    ensures fresh(pool) && pool.Valid() && first == 0x4048 && second == 0x4c48
    ensures pool.asked == map[0x4000 := 3000, 0x4c00 := 3000]
  {
    pool := new MemAllocs.MemAlloc(0x4000, head);
    ghost var a, b;
    ghost var v0 := pool.Heap();
    assert v0.free == {0x4000} && MemView.Size(v0.size, 0x4000) == 10240 && v0.asked == map[];
    assert AlignUp(3000 + MemView.HEADER) == 3072;
    first, a, b := pool.Malloc(3000);
    ghost var v1 := pool.Heap();
    SplitOnce(v0, v1, 0x4000, first - MemView.HEADER);
    second, a, b := pool.Malloc(3000);
    SplitOnce(v1, pool.Heap(), 0x4c00, second - MemView.HEADER);
  }

  /** A table whose one method takes an integer. */
  function Taker(): Dispatch.Methods {
    map[[101] := Dispatch.Method([U32Field], [], (now, params) => Some([]))]
  }

  /** A request without that integer, and its answer, as bytes. */
  lemma MissingBytes()
    ensures Dispatch.RequestBytes(1, [101], []) == [0, 0, 0, 0, 0, 1, 0, 0, 0, 1, 0, 1, 101]
    ensures Dispatch.ResponseBytes(1, CallProtocol.Answer(2, [])) == [0, 2, 0, 0, 0, 1, 0, 0, 0, 0, 0, 0]
  {
    Framing.HeaderLayout(Framing.Header(0, 1, 1, 1));
    Framing.HeaderLayout(Framing.Header(2, 1, 0, 0));
    var name: seq<Byte>, tlv: seq<Byte> := [101], [];
    assert name + tlv == name;
  }

  /** It is answered with status 2 and no payload. */
  method ParameterMissing() returns (reply: Option<seq<Byte>>, overrun: bool)
    ensures reply == Some([0, 2, 0, 0, 0, 1, 0, 0, 0, 0, 0, 0]) && !overrun
  {
    var name: seq<Byte>, tlv: seq<Byte> := [101], [];
    MissingBytes();
    assert Dispatch.Respond(Taker(), 0, name, tlv) == CallProtocol.Answer(2, []);
    Dispatch.RequestAnswered(Taker(), 0, 1, name, tlv);
    reply, overrun := Dispatch.Serve(Taker(), 0, [0, 0, 0, 0, 0, 1, 0, 0, 0, 1, 0, 1, 101]);
  }

  /** Four bytes of data are not an integer if their type byte says otherwise. */
  method WrongType() returns (r: Option<seq<Value>>)
    ensures r == None
  {
    var item: seq<Byte> := [3, 4, 0, 1, 2, 3, 4];
    assert Load16([item[1], item[2]]) == 4;
    r := TlvBuffer.ParseFields([U32Field], item);
  }
}
