# ccRPC in Dafny

ccRPC is a remote procedure call runtime in C with its own red-black tree, allocators, hash
map, radix tree, byte framing, TLV codec and call protocol. This project models these parts
and proves what callers rely on. Verify it with `dafny verify dfyconfig.toml`.

The parts, from the bottom up:

- **Red-black tree** (`RbShape`, `RbFixup`, `RbTree`). Node memory is a map from addresses to
  records with parent, child and colour fields; a ghost tree says what the memory spells out,
  and a zipper marks the place where a rotation or fix-up loop is at work. Keys live in a map
  of their own, so the frame of a method shows that removal never touches them. Equal keys
  keep their order of insertion; a ghost time stamp per node says so.
- **Block allocator** (`LinkList`, `MemView`, `MemAlloc`). Every block in an address-ordered
  ring, every free block in the red-black tree above. `MemView` holds the heap as a value, what
  allocation and release make of it, and that it is a function of its live blocks; `MemAlloc` is
  the code.
- **First-fit allocator** (`HeapView`, `HeapList`, `Heap`). `HeapView` shows that the free
  list is determined by the live blocks; `Heap` is the code over `next` and `size` fields.
- **Indexes** (`HashMap`, `RadixShape`, `RadixSteps`, `RadixSearch`, `RadixTree`). Both refine
  a finite map. For the radix tree a ghost map gives each (level, prefix) its node.
- **Codec** (`Bytes`, `Codec`, `TlvBuffer`). A schema is a list of field types; encoder, parser
  and size estimate are functions of the schema, the methods that fill a buffer or walk through
  one compute these functions, and the format on the wire is stated apart from both.
- **Framing** (`Framing`, `Reassembly`). A byte stream as frames, and the linked list of chunks
  that puts frames together.
- **Calls** (`Sequence`, `CallProtocol`, `CallRuns`, `CallRuntime`, `Dispatch`, `Network`). The
  number generator; the pending-call table as a state machine whose steps are the critical
  sections, with a log of what the peers executed and answered; the same sections as methods over
  the generator, the hash map and the records, each shown to be such a step; request handling; and
  the whole system on byte streams, which is shown to implement the state machine. The last
  theorem is the one the project's own documentation leads with: a remote call gives what the
  local call gives.
- **Witnesses** (`Witnesses`). Short clients that show inputs at which the code departs from what
  its callers may expect.

What the proofs found out about the code, beyond what it promises:

- `mem_malloc` refuses a block that fits exactly (`MemAllocs.MemAlloc.Malloc`,
  `Witnesses.ExactFitRefused`).
- In `heap.c` live blocks stay clear of the tail sentinel exactly when the array is misaligned
  (`Heaps.SentinelOutside`). In an aligned array one block covers the sentinel, and it is live
  whenever the first byte of the sentinel is not free (`Heaps.Heap.SentinelCovered`,
  `Witnesses.SentinelServed`). Tiling is stated for the range of the first block.
- `heap_get_stats` agrees with `all_size` exactly once the heap was set up, and it counts the
  sentinel as a block (`Heaps.Heap.Stats`, `Witnesses.StatsOfFreshHeap`).
- `radix_tree_lookup` does not look at digits above the height of the tree, so it answers for
  another index exactly when that one is present (`RadixTrees.RadixTree.Lookup`). The
  upper-bound search has the same view of an index, and when no key is left it walks on to the
  root struct unless the tree has grown above its first root. Its answer is right for an index
  exactly when there is a key at or above it, or the search ends in NULL with every key below
  what the tree sees of the index (`RadixTrees.RadixTree.UpperBound`,
  `Witnesses.ForgottenDigits`).
- `radix_tree_insert` counts a NULL item although it fills no slot, and the tree is a valid one
  afterwards exactly when the item is not NULL or the index was taken
  (`RadixTrees.RadixTree.Insert`, `Witnesses.NullItemCounted`).
- The TLV round trip holds exactly when no string is NULL and every length fits into 16 bits
  (`Codec.RoundTripIff`, `Witnesses.NullString`), and the size estimate is exact exactly when no
  string is NULL (`Codec.EstimateBounds`). A remote call therefore gives what the local call gives
  exactly when the result can be carried (`Network.RemoteCallIsLocalCall`).
- The result encoder runs over its buffer exactly when a handler succeeds with a result that
  takes more than 4096 bytes (`Dispatch.Serve`, `Witnesses.ResultOverruns`).
- A received chunk that is dropped for want of memory does no harm beyond the frames that end in
  it exactly when the receiver would have kept the same bytes after it (`Framing.DroppedChunk`,
  `Witnesses.OneByteDropped`).
- A call can take the answer to an abandoned call for its own once the numbers have wrapped around:
  one number more than there are is enough (`CallRuns.WrapAroundIsUnsafe`). Starting a call keeps
  records, results and messages right exactly when no message under way still bears its number
  (`CallProtocol.StepSafeIff`), and a run in which every call does so is safe, however often the
  numbers wrap around (`CallRuns.RunIsSafe`).

Constants are those of a little-endian 64-bit target. A handler may fail and may keep state: what
it returns depends on the moment of the execution, and moments are arbitrary. Transports deliver bytes in order, in chunks of any size. Time-outs, dropped
message buffers and failed sends happen at any point.

## Model

| member | source | states |
|---|---|---|
| RbTrees.RbTree.constructor | lib/source/rbtree.c:408-416 | an initialised root is a valid, ordered, empty tree |
| RbTrees.RbTree.InsertNode | lib/source/rbtree.c:434-464 | the node goes after every node with a key at most its own and before every greater one; links, colours, black height, order and cached ends and count hold afterwards |
| RbTrees.RbTree.RemoveNode | lib/source/rbtree.c:466-481 | exactly that node leaves the in-order sequence; the tree stays red-black with correct cached fields, and it is sorted afterwards even if the removed node's key was out of order |
| RbTrees.RbTree.SetValue | mg/source/memalloc.c:153 | assigning a key in place breaks the order at that node only |
| RbTrees.RbTree.RotateLeft | lib/source/rbtree.c:15-37 | the memory spells out the rotated tree in the same surroundings; only the nodes involved are written |
| RbTrees.RbTree.RotateRight | lib/source/rbtree.c:39-61 | the mirror image |
| RbFixup.RotationKeepsOrder | lib/source/rbtree.c:15-61 | rotations leave the in-order sequence as it is |
| RbTrees.RbTree.InsertColor | lib/source/rbtree.c:64-118 | from one red node below a red node the loop ends with a red-black tree over the same node sequence |
| RbFixup.RedParent | lib/source/rbtree.c:68-69 | a red parent has a black grandparent, so the insert loop never misses one |
| RbTrees.RbTree.EraseColor | lib/source/rbtree.c:121-206 | from one subtree that lacks a black level the loop ends with a red-black tree over the same node sequence |
| RbFixup.SiblingExists | lib/source/rbtree.c:127-131 | next to a subtree that lacks a black level there is always a sibling |
| RbTrees.RbTree.Erase | lib/source/rbtree.c:208-290 | the node is unlinked, or replaced by its successor, and the result is red-black over the sequence without it |
| RbTrees.RbTree.UnlinkSuccessor | lib/source/rbtree.c:221-266 | the node with two children is replaced by its successor, also when that is its own right child |
| RbTrees.RbTree.Next | lib/source/rbtree.c:327-342 | the next node of the in-order sequence, or NULL at its end |
| RbTrees.RbTree.Prev | lib/source/rbtree.c:351-366 | the previous node of the in-order sequence, or NULL at its start |
| RbTrees.RbTree.First | lib/source/rbtree.c:294-305 | the first node in order, which is the cached one |
| RbTrees.RbTree.Last | lib/source/rbtree.c:308-319 | the last node in order, which is the cached one |
| RbTrees.RbTree.FirstGreater | lib/source/rbtree.c:391-406 | the least key strictly greater than the given one, the earliest inserted of several; NULL only if there is none |
| RbTrees.RbTree.HeightBound | lib/source/rbtree.c:434-481 | the height is at most twice the binary logarithm of count + 1 |
| RbShape.RedBlackHeight | lib/source/rbtree.c:64-206 | balance and colouring bound the height of a tree by its number of nodes |
| LinkLists.LinkList.AddNext | lib/source/link_list.c:29-36 | the ring holds the new node right after the given one |
| LinkLists.LinkList.AddLast | lib/source/link_list.c:21-27 | the ring holds the new node last |
| LinkLists.LinkList.Remove | lib/source/link_list.c:40-44 | the ring holds the other nodes in the same order |
| MemAllocs.MemAlloc.Init | mg/source/memalloc.c:37-63 | one free block from the first aligned address to the end of the arena |
| MemAllocs.MemAlloc.Malloc | mg/source/memalloc.c:65-118 | takes the smallest free block strictly larger than the rounded request, the oldest of several; if more than two headers remain, the block is the rounded request and the rest a free block behind it, else the whole block; all other blocks stay; NULL exactly when there is none or nothing is asked for |
| Witnesses.PoolIsSplit | mg/source/memalloc.c:65-118 | a request for 3000 bytes leaves enough of a fresh pool for another one |
| MemAllocs.MemAlloc.FindFree | mg/source/memalloc.c:86-92 | the shortcut over the cached last node loses no block the search would find |
| Witnesses.ExactFitRefused | mg/source/memalloc.c:86-92 | a fresh pool in an aligned array refuses the request that its only block fits exactly |
| MemAllocs.MemAlloc.Free | mg/source/memalloc.c:120-160 | exactly that block is live no more and its size is free again; it is joined with the free blocks on either side, and the heap stays good |
| MemView.HeapFromLive | mg/source/memalloc.c:94-159 | blocks, free blocks and their total are a function of the live blocks |
| MemView.MallocFreeRestores | mg/source/memalloc.c:65-160 | allocating a block and releasing it at once restores the heap |
| MemAllocs.MemAlloc.AllReleased | mg/source/memalloc.c:37-160 | a pool without live blocks is as it was set up |
| MemAllocs.MemAlloc.GrowAndRemove | mg/source/memalloc.c:153-154 | enlarging a key inside the tree and then removing the node leaves a sorted, valid tree |
| MemView.ServedKept | mg/source/memalloc.c:94-114 | allocation keeps the tiling, the two indexes in agreement, no two free neighbours, and all_size the sum of the free sizes |
| MemView.FreedKept | mg/source/memalloc.c:132-159 | release keeps them |
| MemView.LivePayload | mg/source/memalloc.c:65-118 | a live payload lies in the arena, is aligned, and is as large as asked for |
| MemView.LivePayloads | mg/source/memalloc.c:65-118 | of two live blocks the lower ends before the other |
| MemAllocs.MemAlloc.PayloadsApart | mg/source/memalloc.c:65-118 | in every valid pool the live payloads are aligned, lie in the array, and are disjoint |
| Basics.RoundUp | mg/source/heap.c:145-148 | the least multiple of 8 that is at least the request with its header |
| Heaps.Heap.Init | mg/source/heap.c:105-135 | one free block over the initial range, and the sentinel behind it |
| Heaps.LayoutTight | mg/source/heap.c:105-135 | the first block starts at the first aligned address, the sentinel at the last one with room for it; the block ends at the sentinel if the array is misaligned, else at the end of the array |
| Heaps.SentinelOutside | mg/source/heap.c:121-134 | over the array of a given address, the live blocks of every heap stay clear of the sentinel exactly when the address is misaligned |
| Heaps.Heap.SentinelCovered | mg/source/heap.c:121-179 | a live block of a valid heap reaches into the sentinel exactly when the array is aligned and the first byte of the sentinel is not free |
| Witnesses.SentinelServed | mg/source/heap.c:121-179 | the request for all of an aligned array gets the block that covers the sentinel |
| HeapList.NodesApart | mg/source/heap.c:163-222 | no two headers, and no header and the sentinel, share a byte |
| Heaps.Heap.Malloc | mg/source/heap.c:137-179 | takes the block with the lowest address that fits; if more than two headers remain, the block is the rounded request and the bytes behind it a free block, else the whole block; NULL exactly when none fits |
| Witnesses.SmallRequests | mg/source/heap.c:137-179 | two requests for 8 bytes of a fresh heap get 24 bytes each, one behind the other |
| Heaps.Heap.Free | mg/source/heap.c:181-192 | exactly that block is live no more, and the free list afterwards is the old one with the block put in by address and joined on both sides |
| Heaps.Heap.InsertFreeBlock | mg/source/heap.c:194-222 | linking and joining in memory give exactly that list |
| Heaps.Heap.Stats | mg/source/heap.c:224-250 | the walk adds up to remain_size exactly once the heap was set up and finds nothing before; the maximum and the number of blocks |
| Witnesses.StatsOfFreshHeap | mg/source/heap.c:224-250 | before the first request all of the array is reported as left and nothing as free |
| HeapView.ServedGood | mg/source/heap.c:163-176 | allocation keeps the tiling and the ordered list without adjacent entries |
| HeapView.ReleasedGood | mg/source/heap.c:194-222 | release keeps them |
| HeapView.FreeListFromLive | mg/source/heap.c:194-222 | the free list is a function of the live blocks |
| HeapView.MallocFreeRestores | mg/source/heap.c:137-192 | allocating a block and releasing it at once restores the exact heap |
| HeapView.ReleaseOrderIrrelevant | mg/source/heap.c:181-222 | the order in which a set of blocks is released does not matter |
| HeapView.ReleaseEverything | mg/source/heap.c:181-222 | releasing all live blocks leaves one free block over the range |
| Heaps.Heap.AllReleased | mg/source/heap.c:105-222 | releasing all live blocks of a valid heap, in any order, gives the heap as it was set up over its array |
| HashMaps.NextPowerOfTwoLeast | lib/source/hashmap.c:5-10 | the least power of two that is at least the argument |
| HashMaps.MaskIsModulo | lib/source/hashmap.c:59-63 | masking with a power of two less one is reduction modulo that power |
| HashMaps.HashOf | lib/source/hashmap.c:17-33 | the loop over a string computes the polynomial hash modulo the word size |
| HashMaps.HashIsPolynomial | lib/source/hashmap.c:12-33 | a string hashes to the polynomial of its characters at the golden ratio prime, a word to its product with it, modulo the word size |
| HashMaps.HashMap.constructor | lib/source/hashmap.c:48-57 | an empty map with a power-of-two number of buckets |
| HashMaps.HashMap.BucketOf | lib/source/hashmap.c:59-63 | the bucket is the hash modulo the number of buckets |
| HashMaps.HashMap.Put | lib/source/hashmap.c:65-83 | map update; each key has one entry, in the bucket its hash selects |
| HashMaps.HashMap.Get | lib/source/hashmap.c:85-96 | map lookup |
| HashMaps.HashMap.Remove | lib/source/hashmap.c:98-112 | map removal, and whether the key was there |
| HashMaps.HashMap.Contains | lib/source/hashmap.c:114-125 | map membership |
| RadixShape.HeightIsLeast | lib/source/radix.c:5-16 | the computed height is the least one with room for the index |
| RadixTrees.RadixTree.constructor | lib/source/radix.c:19-26 | an initialised root is a valid empty tree of height 0 |
| RadixTrees.RadixTree.Insert | lib/source/radix.c:109-133 | map insertion at an index without an item; a duplicate fails and changes nothing; the resulting height, and when the root is a grown one; a NULL item changes no entry and leaves the count of its leaf one too large |
| RadixTrees.RadixTree.GrowHeight | lib/source/radix.c:56-72 | adding levels on top keeps every entry |
| RadixTrees.RadixTree.GrowNode | lib/source/radix.c:74-106 | the path is completed, counts match the filled slots, and no node is left empty, whether the slot was taken or not |
| RadixTrees.RadixTree.Lookup | lib/source/radix.c:166-188 | the entry at the index modulo the capacity; it agrees with the map exactly when the index fits or that entry is absent |
| RadixTrees.RadixTree.Delete | lib/source/radix.c:220-262 | map removal; an absent index changes nothing; the tree is gone exactly when the map is empty |
| RadixTrees.RadixTree.Prune | lib/source/radix.c:246-259 | the empty nodes on the way up are freed, no others, and none stays |
| RadixTrees.RadixTree.NodeLeft | lib/source/radix.c:191-212 | the item of the least key below a node |
| RadixTrees.RadixTree.UpperBound | lib/source/radix.c:264-313 | the item of the least key at or above what the tree sees of the index; without one, NULL if the tree has grown, else a walk onto the root struct; and exactly when that is right for the index itself |
| Witnesses.NullItemCounted | lib/source/radix.c:99-104 | inserting NULL into an empty tree succeeds, adds nothing, and leaves a count that fits no slot |
| Witnesses.ForgottenDigits | lib/source/radix.c:166-313 | with one item at 0, a lookup and an upper-bound search for 16 find it, and an upper-bound search for 1 strays |
| RadixSteps.AddedBuilt | lib/source/radix.c:83-92 | a node hung into an empty slot leaves a tree whose only empty node is the new one |
| RadixSteps.GrownBuilt | lib/source/radix.c:58-70 | a root put above the root keeps places, parents, counts and entries |
| RadixSteps.PrunedBuilt | lib/source/radix.c:246-253 | taking an empty node out leaves its parent as the only node that may be empty |
| RadixSteps.EmptyRoot | lib/source/radix.c:255-259 | a tree whose root is empty has no other node and no entry |
| TlvBuffer.WriteU32 | ccrpc/source/rpc_tlv.c:5-11 | the buffer holds the item at the offset and is unchanged before it |
| TlvBuffer.WriteData | ccrpc/source/rpc_tlv.c:13-29 | the same for strings and bytes |
| TlvBuffer.EmitFields | ccrpc/source/rpc_gen.c:130-157 | the field list fills exactly the bytes of the encoding |
| TlvBuffer.EstimateSize | ccrpc/source/rpc_gen.c:159-186 | the estimate of a field list |
| TlvBuffer.EncodeParams | ccrpc/source/rpc_gen.c:206-212 | the estimated buffer always has room for the encoding |
| TlvBuffer.ParseFields | ccrpc/source/rpc_gen.c:73-82 | the generated parser computes the parse of the schema, and succeeds exactly when the bytes begin with one whole item for each field, of its type |
| Witnesses.WrongType | ccrpc/source/rpc_tlv.c:64-76 | four bytes under another type byte are not read as an integer |
| Codec.ReadTlv | ccrpc/source/rpc_tlv.c:33-45 | an item is read back from its bytes, whatever follows |
| Codec.FieldRoundTrip | ccrpc/source/rpc_tlv.c:47-110 | a field is read back from its own bytes, whatever follows |
| Codec.RoundTrip | ccrpc/source/rpc_gen.c:20-82 | for every schema, parsing an encoding followed by anything gives back the values |
| Codec.RoundTripIff | ccrpc/source/rpc_gen.c:130-157 | it does so exactly when no string is NULL and every length fits into 16 bits |
| Codec.ParsedIff | ccrpc/source/rpc_tlv.c:33-110 | parsing succeeds exactly when the buffer begins with one whole item for each field: type byte, length with the low byte first, data, and four bytes for an integer |
| Codec.ParsedItems | ccrpc/source/rpc_tlv.c:33-110 | the values parsed are what these items stand for: little-endian numbers, strings up to a NUL, bytes as they are |
| Codec.EncodedWire | ccrpc/source/rpc_tlv.c:5-29 | values that can be carried are written as one such item for each field |
| Codec.ParsedEncodes | ccrpc/source/rpc_tlv.c:5-110 | values parsed from items without NUL encode to the beginning of the buffer |
| Witnesses.NullString | ccrpc/source/rpc_gen.c:130-157 | a struct whose only string is NULL encodes to nothing and is not parsed back |
| Codec.EstimateBounds | ccrpc/source/rpc_gen.c:159-186 | the encoder writes at most the estimate, and exactly that many bytes if and only if no string is NULL |
| Codec.EstimateExact | ccrpc/source/rpc_gen.c:159-186 | the estimate exceeds what is written by three bytes for each NULL string |
| Codec.ParsedFits | ccrpc/source/rpc_tlv.c:33-45 | values parsed from a buffer do not encode to more than its length |
| Bytes.NetworkOrder | ccrpc/source/rpc.c:297-300 | a swapped integer in host memory is the integer in network order |
| Framing.HeaderLayout | ccrpc/source/rpc.c:263-266 | the twelve bytes are status, number, message length and method length, each big-endian |
| Framing.HeaderFields | ccrpc/source/rpc.c:320-322 | a receiver reads these numbers from any twelve bytes |
| Framing.HeaderRoundTrip | ccrpc/source/rpc.c:263-266 | a receiver finds the header fields the sender put in |
| Framing.ChunkingIndependent | ccrpc/source/rpc.c:444-496 | however a stream is cut into chunks, frames and leftover are those of the whole stream |
| Framing.NothingLost | ccrpc/source/rpc.c:471-493 | frames and leftover together are the stream |
| Framing.DroppedChunk | ccrpc/source/rpc.c:142-145 | after a dropped chunk the receiver stays in step, whatever follows, exactly when it would have kept the same bytes after the chunk |
| Witnesses.OneByteDropped | ccrpc/source/rpc.c:142-145 | a dropped first byte changes the frames of some stream that follows |
| Reassemblies.Reassembly.Append | ccrpc/source/rpc.c:135-148 | the received bytes stand behind the kept ones, in a chunk at the end of the list; without memory for the chunk nothing changes |
| Reassemblies.Reassembly.PeekHeader | ccrpc/source/rpc.c:154-186 | the first header-sized bytes, across chunk borders |
| Reassemblies.Reassembly.Consume | ccrpc/source/rpc.c:188-226 | the first bytes are taken off, used-up chunks leave the list, and the rest is kept |
| Reassemblies.Reassembly.OnData | ccrpc/source/rpc.c:444-496 | dispatches the whole frames that got a buffer and keeps an incomplete one, of the kept bytes and the chunk if that could be stored; what is kept does not depend on the buffers |
| Sequence.Generator.Next | ccrpc/source/rpc.c:107-118 | terminates while fewer than 2^32 - 1 calls are pending, with the first number on the cycle that is not pending, never zero |
| Sequence.AfterDistinct | ccrpc/source/rpc.c:111-115 | less than a turn around the cycle meets no number twice |
| Sequence.CycleCount | ccrpc/source/rpc.c:111-115 | a set that holds i successive numbers of the cycle has i members |
| Sequence.FreeNumberExists | ccrpc/source/rpc.c:107-118 | a free number exists exactly when fewer than 2^32 - 1 are taken |
| CallProtocol.StepSane | ccrpc/source/rpc.c:394-605 | every step of callers, peers and receivers keeps table and records one to one and every message and execution that of a call that was started; no request is under way or executed twice |
| CallProtocol.StepSafeIff | ccrpc/source/rpc.c:394-605 | a step keeps every record and result that of an answer to its own call, and every message with a pending number with the pending call, exactly if it does not draw a number that a message under way bears |
| CallProtocol.StepNumbered | ccrpc/source/rpc.c:107-118 | until the numbers wrap around, no step draws such a number |
| CallRuns.RunIsSafe | ccrpc/source/rpc.c:535-605 | in every interleaving in which no call draws a number that a message under way bears, a call whose wait succeeded has the status and payload prefix of an answer the peer gave to this very call, and an ended call left nothing behind; peers may answer equal requests differently |
| CallRuns.CleanBeforeWrapAround | ccrpc/source/rpc.c:107-118 | until the numbers wrap around every run is of that kind, and no two calls share a number |
| CallRuns.ExecutedAtMostOnce | ccrpc/source/rpc.c:277-379 | in every run a call is executed at most once, with its own arguments |
| CallRuns.StaleReplyIsTaken | ccrpc/source/rpc.c:394-424 | a reply with the number of a pending call it does not belong to is returned by that call |
| CallRuns.WrapAroundIsUnsafe | ccrpc/source/rpc.c:107-118 | there is a run with 2^32 drawn numbers on which a call that nobody answered returns the answer to another |
| CallRuns.ReplyTouchesOneCall | ccrpc/source/rpc.c:394-424 | a reply writes and wakes only the call it answers, and only while that is pending; a late reply changes nothing |
| CallRuns.ReplyIsNotLost | ccrpc/source/rpc_port.c:54-87 | a reply handled before or during the wait ends it |
| CallRuns.RunEnded | ccrpc/source/rpc.c:549-604 | in every run a call whose wait failed ends with status 5, and one that could not be started with -3 or -4 |
| CallProtocol.Truncated | ccrpc/source/rpc.c:413-418 | the prefix of a payload that fits: as long as the payload or the buffer, whichever is shorter |
| CallRuns.PromptCallSucceeds | ccrpc/source/rpc.c:549-604 | a call whose request and reply are delivered at once succeeds |
| CallRuntime.CallTable.Start | ccrpc/source/rpc.c:549-584 | draws a number, allocates, enters and sends; the memory afterwards is that of the protocol's step, where a call that could not be sent has taken record and entry out again |
| CallRuntime.CallTable.Register | ccrpc/source/rpc.c:553-582 | a call that cannot be sent leaves table and records as they were |
| CallRuntime.CallTable.HandleResponse | ccrpc/source/rpc.c:394-424 | looks the number up in the hash map and fills in that record only, as the protocol says |
| CallRuntime.CallTable.Wait | ccrpc/source/rpc_port.c:66-78 | entering the wait is that step of the protocol |
| CallRuntime.CallTable.Wake | ccrpc/source/rpc_port.c:68-78 | so is finding the waiter signaled |
| CallRuntime.CallTable.TimeOut | ccrpc/source/rpc_port.c:69-73 | and giving up |
| CallRuntime.CallTable.Finish | ccrpc/source/rpc.c:588-604 | entry and record are gone, and the result is that of the protocol's step |
| CallRuntime.NumberLeft | ccrpc/source/rpc.c:107-118 | before wrap-around the generator always finds a number |
| CallProtocol.NothingSkipped | ccrpc/source/rpc.c:107-118 | before wrap-around the next number is never pending |
| Dispatch.RequestRoundTrip | ccrpc/source/rpc.c:277-340 | a receiver finds number, name and parameters of a request exactly when the name is shorter than 128 bytes |
| Dispatch.ResponseRoundTrip | ccrpc/source/rpc.c:245-275 | a receiver finds number, status and payload of a response |
| Dispatch.Serve | ccrpc/source/rpc.c:312-442 | a request is answered under its number: status 1 for an unknown method, 2 for parameters that do not begin with one item for each field, 3 for a failed handler, 0 and the encoded result otherwise; anything else is ignored; and exactly when the encoder overruns the result buffer |
| Dispatch.StatusOfAnswer | ccrpc/source/rpc.c:342-374 | each of the four statuses is given exactly in its case |
| Witnesses.ParameterMissing | ccrpc/source/rpc.c:353-357 | a request without the parameter of its method, and its answer with status 2, as bytes |
| Dispatch.RequestTakenApart | ccrpc/source/rpc.c:312-340 | which messages are requests, and where their number, name and parameters are |
| Dispatch.ResponseTakenApart | ccrpc/source/rpc.c:394-424 | which messages hold an answer, and where its number, status and payload are |
| Witnesses.ResultOverruns | ccrpc/source/rpc.c:359-374 | a method that returns 5000 bytes overruns the result buffer |
| Dispatch.RemoteEqualsLocal | ccrpc/source/rpc_gen.c:201-260 | the parsed answer of a peer is the outcome of the local call at the same moment exactly when TLV items in the response buffer can carry the result |
| Network.FramesOfPrefix | ccrpc/source/rpc.c:471-493 | a beginning of a stream of frames yields the first few and leaves the rest to come |
| Network.StepMatched | ccrpc/source/rpc.c:426-496 | every step on bytes is matched by steps of the call protocol |
| Network.RunMatched | ccrpc/source/rpc.c:394-605 | every run on byte streams is matched by a run of the call protocol |
| Network.ServedAtMostOnce | ccrpc/source/rpc.c:312-442 | in every run no request is served twice, also if its call gave up, and every request served is that of a call |
| Network.CallIsServedOnce | ccrpc/source/rpc.c:312-605 | in every run a call whose wait succeeded was served exactly once, with its own name and parameters, and returns the answer given then |
| Network.RemoteCallIsLocalCall | README.md:9 | in every run, for a stub whose wait succeeds the peer's handler was executed exactly once, with its parameters, and the stub returns what that execution returned exactly when TLV items can carry it |
| Network.RemoteCallCompletes | ccrpc/source/rpc_gen.c:201-229 | on an idle transport there is, for any moment, a run on which the handler is executed then and the wait of the stub succeeds, and the stub returns the outcome of the local call exactly when TLV items can carry it |
| Network.UnknownMethodIsReported | ccrpc/source/rpc.c:342-346 | a call of a method the peer lacks ends with that status |
| Network.BadParamsAreReported | ccrpc/source/rpc.c:353-357 | a call with parameters that do not parse ends with that status |
| Network.FailedCallIsReported | ccrpc/source/rpc_gen.c:222-228 | in every run the stub of a call whose wait failed returns the time-out status, and that of a call that could not be started its negative status |
| Network.AnsweredStubReturns | ccrpc/source/rpc_gen.c:222-228 | the stub of a call whose wait succeeded returns the status of the answer if that is not 0, else the values its buffer begins with, or -1 exactly when it does not begin with one item for each field |

## Left out

- Sockets, files, demo programs, debug dumps, heap tracking and printing.
- `rb_replace_node` and `search_node`: the first does not maintain the cached ends, and neither is used by the code modelled here.
- 32-bit width of tree keys and counts: the allocator's keys are at most 10240, and no model key is truncated.
- i32 fields: `tlv_write_i32` is not part of the source.
- `mg/source/membit.c`, `mg/source/mg_alloc.c`, `mg/source/mempool.c`, queue and stack: they would only add easier members.
- `hashmap_clear` and `hashmap_destroy`; bucket lists are sequences, the ring operations are in `LinkList`.
- Network.StepMatched: takes every received chunk to be stored; what a dropped one does to a stream is in `Framing.DroppedChunk`.
- The poll path of `rpc_on_data` (ccrpc/source/rpc.c:463-469), which returns without unlocking when nothing was received.
- RadixTrees.RadixTree.Insert: takes node allocations to succeed; a failed growth leaves the height too large.
- HashMaps.HashMap.Put: takes the allocation of an entry to succeed, which the code does not check.
- Dispatch.Serve: what happens after the encoder has run over its buffer. In `Network` a run ends where that would happen; the stub's out-of-memory exits are not modelled.
- A call of an unbound transport returns before it draws a number and is not a step.
- Data written by callers into a live block of `heap.c` that covers the tail sentinel.
