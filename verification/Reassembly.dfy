/**
  The reassembly buffer of a transport (`struct rpc_reasm`): received chunks in a linked list,
  consumed from the front as whole frames become available.
 */
module Reassemblies {
  import opened Basics
  import opened Bytes
  import opened Framing
  import opened LinkLists

  /** The bytes of the chunks `items`, chunk by chunk. */
  ghost function DataOf(items: seq<Ptr>, data: map<Ptr, seq<Byte>>): seq<seq<Byte>> {
    seq(|items|, i requires 0 <= i < |items| => if items[i] in data then data[items[i]] else [])
  }

  /** Content from chunk `i` on begins with that chunk. */
  lemma ContentFrom(items: seq<Ptr>, data: map<Ptr, seq<Byte>>, i: nat)
    requires i < |items| && items[i] in data
    ensures Flatten(DataOf(items[i..], data)) == data[items[i]] + Flatten(DataOf(items[i + 1..], data))
  {
    FlattenFirst(data[items[i]], DataOf(items[i + 1..], data));
    assert DataOf(items[i..], data) == [data[items[i]]] + DataOf(items[i + 1..], data);
  }

  lemma ContentAppended(items: seq<Ptr>, data: map<Ptr, seq<Byte>>, x: Ptr, d: seq<Byte>)
    requires x !in items
    ensures Flatten(DataOf(items + [x], data[x := d])) == Flatten(DataOf(items, data)) + d
  {
    assert DataOf(items + [x], data[x := d]) == DataOf(items, data) + [d];
    FlattenSnoc(DataOf(items, data), d);
  }

  /** Bytes of other chunks do not matter. */
  lemma ContentFrame(items: seq<Ptr>, data: map<Ptr, seq<Byte>>, data': map<Ptr, seq<Byte>>)
    requires forall x :: x in items ==> x in data && x in data' && data'[x] == data[x]
    ensures DataOf(items, data') == DataOf(items, data)
  {
  }

  class Reassembly {
    /** The list head and the node of each rpc_buf. */
    const list: LinkList
    /** The bytes of each rpc_buf. */
    var data: map<Ptr, seq<Byte>>
    var totalLen: nat

    ghost function Content(): seq<Byte>
      reads this, list
    {
      Flatten(DataOf(list.items, data))
    }

    ghost predicate Valid()
      reads this, list
    {
      list.Valid() && totalLen == |Content()| && forall x :: x in list.items ==> x in data
    }

    constructor (head: Ptr)
      ensures Valid() && Content() == [] && fresh(list)
    {
      var l := new LinkList(head);
      l.Init();
      list, data, totalLen := l, map[], 0;
    }

    /**
      Puts received bytes behind the kept ones.  `b` is the memory allocated for the chunk; if
      there is none the bytes are dropped.
     */
    method Append(bytes: seq<Byte>, b: Ptr)
      requires Valid() && b != list.head && b !in list.items
      modifies `data, `totalLen, list
      ensures Valid() && Content() == old(Content()) + if b != NULL then bytes else []
      ensures list.items == old(list.items) + if b != NULL && bytes != [] then [b] else []
    {
      if |bytes| == 0 || b == NULL {
        return;
      }
      ContentAppended(list.items, data, b, bytes);
      data := data[b := bytes];
      list.AddLast(b);
      totalLen := totalLen + |bytes|;
    }

    /** The node after chunk `i` of the list. */
    lemma Following(i: nat)
      requires list.Valid() && i < |list.items|
      ensures list.items[i] in list.next && list.next[list.items[i]] == (list.items + [list.head])[i + 1]
      ensures list.items[i] != list.head
    {
      var a, b := list.items[..i], list.items[i + 1..];
      assert list.items == a + [list.items[i]] + b;
      assert (list.items + [list.head])[i + 1] == (b + [list.head])[0];
      list.Neighbours(list.items[i], a, b);
      list.ItemsDistinct();
    }

    /** Copies the first header-sized bytes of the list, across chunk borders if need be. */
    method PeekHeader() returns (hdr: Option<seq<Byte>>)
      requires Valid()
      ensures hdr == if totalLen < HEADER_SIZE then None else Some(Content()[..HEADER_SIZE])
    {
      if totalLen < HEADER_SIZE {
        return None;
      }
      var copied: seq<Byte> := [];
      ghost var items, i := list.items, 0;
      assert items[0..] == items;
      list.Ends();
      var pos := list.next[list.head];
      while pos != list.head && |copied| < HEADER_SIZE
        invariant i <= |items| && pos == (items + [list.head])[i] && |copied| <= HEADER_SIZE
        invariant copied <= Content()
        invariant |copied| < HEADER_SIZE ==> Content() == copied + Flatten(DataOf(items[i..], data))
        decreases |items| - i
      {
        var remain := HEADER_SIZE - |copied|;
        var b := data[pos];
        var take := if remain > |b| then |b| else remain;
        ContentFrom(items, data, i);
        CopyStep(Content(), copied, b, Flatten(DataOf(items[i + 1..], data)), take);
        copied := copied + b[..take];
        Following(i);
        pos := list.next[pos];
        i := i + 1;
      }
      if pos == list.head {
        EndReached(i);
      }
      assert i == |items| ==> Flatten(DataOf(items[i..], data)) == [];
      assert Content()[..HEADER_SIZE] == copied;
      hdr := Some(copied);
    }

    lemma EndReached(i: nat)
      requires list.Valid() && i <= |list.items| && (list.items + [list.head])[i] == list.head
      ensures i == |list.items|
    {
      list.ItemsDistinct();
    }

    lemma CopyStep(s: seq<Byte>, copied: seq<Byte>, b: seq<Byte>, rest: seq<Byte>, take: nat)
      requires s == copied + (b + rest) && take <= |b|
      ensures copied + b[..take] <= s
      ensures take == |b| ==> s == copied + b[..take] + rest
      ensures s == (copied + b[..take]) + (b[take..] + rest)
    {
      assert b == b[..take] + b[take..];
      assert s == (copied + b[..take]) + (b[take..] + rest);
    }

    /** Takes `len` bytes off the front of the list; chunks used up are removed and freed. */
    method Consume(len: nat) returns (out: seq<Byte>)
      requires Valid() && len <= totalLen
      modifies `data, `totalLen, list
      ensures Valid() && out == old(Content())[..len] && Content() == old(Content())[len..]
      ensures forall x :: x in list.items ==> x in old(list.items)
    {
      out := [];
      list.Ends();
      var pos := list.next[list.head];
      while pos != list.head && |out| < len
        invariant list.Valid() && pos == (list.items + [list.head])[0]
        invariant forall x :: x in list.items ==> x in data && x in old(list.items)
        invariant |out| <= len && out + Content() == old(Content())
        invariant totalLen == old(totalLen)
        decreases |list.items|
      {
        var remain := len - |out|;
        var b := data[pos];
        var take := if |b| < remain then |b| else remain;
        ghost var rest := Flatten(DataOf(list.items[1..], data));
        FrontChunk();
        CopyStep(old(Content()), out, b, rest, take);
        out := out + b[..take];
        if take == |b| {
          pos := DropFront();
        } else {
          CutFront(b[take..]);
          break;
        }
      }
      if pos == list.head {
        EndReached(0);
      }
      totalLen := totalLen - |out|;
      assert old(Content())[..|out|] == out && old(Content())[|out|..] == Content();
    }

    /** Content begins with the first chunk. */
    lemma FrontChunk()
      requires list.Valid() && list.items != [] && list.items[0] in data
      ensures Content() == data[list.items[0]] + Flatten(DataOf(list.items[1..], data))
    {
      assert list.items[0..] == list.items;
      ContentFrom(list.items, data, 0);
    }

    /** Removes and frees the first chunk; the node after it. */
    method DropFront() returns (next: Ptr)
      requires list.Valid() && list.items != [] && forall x :: x in list.items ==> x in data
      modifies `data, list
      ensures list.Valid() && list.items == old(list.items)[1..] && next == (list.items + [list.head])[0]
      ensures (forall x :: x in list.items ==> x in data)
      ensures Content() == old(Flatten(DataOf(list.items[1..], data)))
    {
      ghost var items, data0 := list.items, data;
      assert items == [] + [items[0]] + items[1..];
      list.ItemsDistinct();
      list.Ends();
      Following(0);
      var pos := list.next[list.head];
      next := list.next[pos];
      list.Remove(pos, [], items[1..]);
      assert list.items == items[1..];
      data := data - {pos};
      ContentFrame(items[1..], data0, data);
    }

    /** Gives the first chunk other bytes. */
    method CutFront(bytes: seq<Byte>)
      requires list.Valid() && list.items != [] && forall x :: x in list.items ==> x in data
      modifies `data
      ensures forall x :: x in list.items ==> x in data
      ensures Content() == bytes + old(Flatten(DataOf(list.items[1..], data)))
    {
      ghost var items, data0 := list.items, data;
      list.ItemsDistinct();
      list.Ends();
      var pos := list.next[list.head];
      data := data[pos := bytes];
      ContentFrame(items[1..], data0, data);
      FrontChunk();
    }

    /**
      Appends received bytes and takes every whole frame off the list.  `b` is the memory for
      the chunk, if there is any; `ok` says for each of the frames whether its message buffer
      can be allocated.  Returns the messages to dispatch.  A frame without a buffer is dropped
      whole: what is kept does not depend on `ok`.
     */
    method OnData(bytes: seq<Byte>, b: Ptr, ok: nat -> bool) returns (dispatched: seq<seq<Byte>>)
      requires Valid() && !Complete(Content()) && b != list.head && b !in list.items
      modifies this, list
      ensures Valid() && !Complete(Content())
      ensures var s := old(Content()) + if b != NULL then bytes else [];
        dispatched == Delivered(Frames(s), 0, ok) && Content() == Leftover(s)
    {
      Append(bytes, b);
      ghost var s := Content();
      ghost var done: seq<seq<Byte>> := [];
      SplitStart(s);
      dispatched := [];
      var n := 0;
      while true
        invariant Valid() && n == |done| && Split(s, done, Content())
        invariant dispatched == Delivered(done, 0, ok)
        decreases totalLen
      {
        ghost var c := Content();
        var msg := TakeFrame();
        SplitStep(s, done, c);
        if msg.None? {
          return;
        }
        DeliveredSnoc(done, msg.value, 0, ok);
        done := done + [msg.value];
        if ok(n) {
          dispatched := dispatched + [msg.value];
        }
        n := n + 1;
      }
    }

    /** The stream is the frames `done`, and what `c` holds; sealed as `Basics` explains. */
    ghost predicate Split(s: seq<Byte>, done: seq<seq<Byte>>, c: seq<Byte>) {
      forall seal: nat :: SplitUnder(s, done, c, seal)
    }

    ghost predicate SplitUnder(s: seq<Byte>, done: seq<seq<Byte>>, c: seq<Byte>, seal: nat) {
      Frames(s) == done + Frames(c) && Leftover(s) == Leftover(c)
    }

    lemma SplitStart(s: seq<Byte>)
      ensures Split(s, [], s)
    {
      assert [] + Frames(s) == Frames(s);
    }

    lemma SplitStep(s: seq<Byte>, done: seq<seq<Byte>>, c: seq<Byte>)
      requires Split(s, done, c)
      ensures Complete(c) ==> Split(s, done + [c[..Need(c)]], c[Need(c)..])
      ensures !Complete(c) ==> Frames(s) == done && Leftover(s) == c
    {
      assert SplitUnder(s, done, c, 0);
      if Complete(c) {
        Reassociate(done, [c[..Need(c)]], Frames(c[Need(c)..]));
      } else {
        assert done + [] == done;
      }
    }

    /** One turn of the dispatch loop: takes the first frame off the list if it is whole. */
    method TakeFrame() returns (msg: Option<seq<Byte>>)
      requires Valid()
      modifies `data, `totalLen, list
      ensures Valid()
      ensures var c := old(Content());
        if Complete(c) then msg == Some(c[..Need(c)]) && Content() == c[Need(c)..] && totalLen < old(totalLen)
        else msg == None && Content() == c
    {
      if totalLen < HEADER_SIZE {
        return None;
      }
      var hdr := PeekHeader();
      if hdr.None? {
        return None;
      }
      assert hdr.value[6..10] == Content()[6..10];
      var msgLen := Swap32(Load32(hdr.value[6..10]));
      var need := HEADER_SIZE + msgLen;
      if totalLen < need {
        return None;
      }
      var out := Consume(need);
      msg := Some(out);
    }
  }
}
