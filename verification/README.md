# Verified models of the server core

The project models the in-memory machinery of the server library and proves what it is for: the balanced
trees of `tree.h`, the streaming packet codec over the growing receive buffer, the asynchronous SQL
pipeline with its connection supervisor, the pooled and the frame allocator, the in-place text splitter,
the SQL string escaping and the reconnect bookkeeping of the service.

Code that changes things in place is modelled in place: nodes, buffers, rings and pools are classes and
arrays, their methods carry the source's branches and loops, and each is proved against a value (a tree,
a byte queue, a sequence, a set) whose laws are proved as lemmas. Threads are a state machine over the
steps that the source makes atomic with its locks.

## Modules

- `RbShape`, `RbTree`, `RbWalk`: red-black trees with parent links. A node's fields spell out a ghost
  tree; a path (a tree with one subtree cut out) says where a fix-up loop stands. Insertion and removal
  are proved for every valid tree: links, order, colours and black heights, and the exact change of the
  in-order sequence.
- `Splay`, `SplayCost`, `SplayRuns`: the top-down splay tree with its sentinel and its two open spines, as
  a finite ordered set; every operation as a function of the tree, and the amortised cost of all runs of
  them by a potential.
- `Define`, `Packet`, `LoopBuf`, `Codec`, `Stream`, `MsgTransform`: the wire format, the receive buffer
  as a byte queue, `packetbuf` and `getmsg2buf`, and the theorem over whole runs: however the bytes are
  cut up and whenever the receiver is asked, the messages are those sent.
- `LoopList`, `SqlPipeline`, `SqlThreads`: the bounded ring, the interleavings of producers, copy thread
  and workers, with what holds in every run and what comes about under every fair schedule, and the thread
  bodies on real rings.
- `ConnPool`: the connection supervisor and its two lists of handles.
- `EasyStrParse`: the lazy splitter that rewrites its own buffer, against a pure split function.
- `EscapeStr`: the escaping against a reader of SQL string expressions, for every source.
- `Lookaside`, `SimpleAllocator`, `FrameAllocator`: the free list, the allocator of any size over six of
  them with its tag byte, and the nested scopes.
- `Wrappers`: an option type and the predicate of distinct elements, shared by the others.
- `Service`: the maps of connected endpoints and of those to connect again, and the events of whole runs.

## What is trusted

- The key schedule and the rounds of the cipher: `Cipher.Inverts` says that decrypting an eight-byte block
  undoes encrypting it. That blocks are worked on one by one is proved from the loop of `encdec_des`.
- zlib: `Zlib.Inverts` says that uncompressing undoes compressing.
- `AddClient` and `AddServer` return object ids of their type that were not used before (parameters of the
  methods of `Service`); what the database, `malloc` and the clock answer is left open.
- Tree keys are integers compared with `<`; a comparison macro is a total order.

## Where the code differs from what it says

- `execSqlAsy` returns the hash code and counts the statement even when the receive ring is full and the
  statement is dropped; statements longer than 4094 characters are cut.
- `getmsg2buf` leaves a complete packet in place when it returns -2 because the packet is too long. The
  next call skips the size test and copies the packet over the end of the caller's buffer, with the same
  room as before: `Codec.Overruns` says exactly when, `Codec.TooLongTwice` after which calls, and
  `Codec.OverrunHappens` gives the bytes. After -3 the packet stays in the buffer too, and the next call
  decrypts it again.
- `decodeMessage` checks the size field before decrypting it, so with a cipher the check hits ciphertext:
  `MsgTransform.DecodeInverts` says exactly which packets come back, `MsgTransform.DecodeRefuses` gives one
  that does not, and `MsgTransform.DecodeOverruns` says when the decrypted size wraps around.
- `decodeMessage` reads the raw length of a compressed packet when only the first block is decrypted; with a
  cipher its upper half is still encrypted then, and makes the room too large or too small
  (`MsgTransform.RoomIs`).
- `escapeStr` copies a high byte and the two bytes after it unseen: `EscapeStr.EscapeMeans` gives the exact
  condition under which the printed text still denotes the source, `EscapeStr.QuoteBreaks` what a quote
  among the three bytes does.
- `packetbuf` tells zlib that there is room for the whole buffer, although it writes behind the header:
  `Codec.PacketBuf` says exactly when up to ten bytes land past the buffer.
- `CSimpleAllocator::allocate` rounds up in `int`: for the last four sizes the block has no byte at all
  (`SimpleAllocator.RoomFor`), and some negative sizes get a tag that leads elsewhere
  (`SimpleAllocator.TagLeadsBack`).
- The header of `tree.h` promises a logarithmic amortised cost for every operation on a splay tree. It is
  proved for all but `SPLAY_NEXT`, which walks without splaying (`SplayRuns.NextUnpaid`); a whole
  `SPLAY_FOREACH` keeps it.
- A quoted field that ends with the escape character is not split off, unless that is the closing quote
  itself: `EasyStrParse.QuotedRoundTrip`. A delimiter that is an opening quote as well stops all splitting
  behind it: `EasyStrParse.OpeningDelimiter`.
- `SPLAY_REMOVE` returns its argument even when it took out another node with the same key.
- `AddConnectionFromBak` spends every attempt on the first sleeping handle until that one opens.
- In `TransMsg` some message types set no event code; the reused event then keeps the one before.

## Model

| member | source | states |
|---|---|---|
| `RbTree.Head.Insert` | publish/deps/libuv/tree.h:598-626 | for every valid tree and any node, in it or not: either the node with that key is returned and no field of any node has changed, or the tree is valid again and its in-order sequence is the old one with the new node at its place |
| `RbTree.Head.Remove` | publish/deps/libuv/tree.h:530-595 | for every valid tree and every node in it: the tree is valid again (links, order, black root, no red-red edge, equal black heights) and its in-order sequence is the old one without exactly that node |
| `RbTree.Head.InsertColor` | publish/deps/libuv/tree.h:407-449 | from a tree whose only flaw may be a red node under a red parent the loop ends in a red-black tree with the same order |
| `RbTree.Head.RemoveColor` | publish/deps/libuv/tree.h:451-528 | from a tree one black node short at a given place the loop ends in a red-black tree with the same order; the shortage moves up or is made up in each turn |
| `RbTree.Head.RotateLeft` | publish/deps/libuv/tree.h:342-360 | the four links a left rotation rewrites spell out the rotated tree anywhere in a larger tree, and the order stays |
| `RbTree.Head.RotateRight` | publish/deps/libuv/tree.h:362-380 | the mirrored rotation |
| `RbTree.Head.Descend` | publish/deps/libuv/tree.h:604-618 | the search ends at the node with the key, or at the one empty place where the key fits in order, with the side of its parent |
| `RbTree.Head.InsertFixLeft` | publish/deps/libuv/tree.h:414-429 | one turn under a left parent: same order, the flaw is gone or two levels up |
| `RbTree.Head.InsertFixRight` | publish/deps/libuv/tree.h:430-446 | one turn under a right parent |
| `RbTree.Head.RemoveFixLeft` | publish/deps/libuv/tree.h:458-490 | one turn for a short left subtree: done with a red-black tree, or a smaller measure with the shortage one level up |
| `RbTree.Head.RemoveFixRight` | publish/deps/libuv/tree.h:491-524 | one turn for a short right subtree |
| `RbTree.Head.Transplant` | publish/deps/libuv/tree.h:559-570 | the successor takes over links and colour of the removed node |
| `RbTree.Head.Successor` | publish/deps/libuv/tree.h:541-543 | the loop to the left finds the node that follows in order, which has no left child |
| `RbTree.Head.RemoveInner` | publish/deps/libuv/tree.h:539-578 | removing a node with two children: the successor is unlinked, put in its place and the colours are repaired |
| `RbShape.InsertRecolored` | publish/deps/libuv/tree.h:416-421 | red uncle: recolouring moves the flaw up and keeps black heights |
| `RbShape.InsertRotated` | publish/deps/libuv/tree.h:422-429 | black uncle: after at most two rotations no flaw is left and black heights are kept |
| `RbShape.RemoveRedSibling` | publish/deps/libuv/tree.h:460-464 | red sibling: after one rotation the sibling is black, the parent red and the shortage the same |
| `RbShape.RemoveBlackNephews` | publish/deps/libuv/tree.h:465-471 | black sibling with black children: colouring it red moves the shortage to the parent |
| `RbShape.RemoveRotated` | publish/deps/libuv/tree.h:473-489 | black sibling with a red child: one or two rotations make up the shortage, the whole tree is red-black |
| `RbShape.SuccessorOrder` | publish/deps/libuv/tree.h:539-569 | putting the successor in the place of the removed node keeps the order of all others |
| `RbWalk.Find` | publish/deps/libuv/tree.h:628-644 | the node with the key, or none when no node has it |
| `RbWalk.NFind` | publish/deps/libuv/tree.h:646-665 | the least node at or above the key, or none when all are below |
| `RbWalk.Next` | publish/deps/libuv/tree.h:667-687 | through parent links: the node at the next place of the in-order sequence, null after the last |
| `RbWalk.Prev` | publish/deps/libuv/tree.h:689-709 | the node at the place before, so it undoes Next |
| `RbWalk.MinMax` | publish/deps/libuv/tree.h:711-724 | the first or the last node of the in-order sequence |
| `RbWalk.ForEach` | publish/deps/libuv/tree.h:738-741 | visits every node exactly once in strictly increasing key order |
| `RbWalk.ForEachReverse` | publish/deps/libuv/tree.h:753-756 | visits the in-order sequence backwards |
| `RbWalk.BlackHeightBounds` | publish/deps/libuv/tree.h:53-58 | a tree of black height b has at least 2^b - 1 nodes and height at most 2b, one more below a red root |
| `RbWalk.HeightBound` | publish/deps/libuv/tree.h:60-61 | 2 to the height is at most (n + 1) squared, the bound 2 lg(n + 1) the header claims |
| `RbWalk.NodeDepth` | publish/deps/libuv/tree.h:60-61 | that height is one no node lies below |
| `RbWalk.DeepestNode` | publish/deps/libuv/tree.h:60-61 | and one that some node reaches |
| `Splay.Head.Splay` | publish/deps/libuv/tree.h:209-242 | ends, keeps the in-order sequence, and leaves a root with all smaller keys left and all larger keys right of the sought one: the key itself or a neighbour; the tree and the number of turns are those of the function on values |
| `Splay.Head.SplayMinMax` | publish/deps/libuv/tree.h:247-278 | keeps the sequence and brings its first or last node to the root |
| `Splay.Head.Insert` | publish/deps/libuv/tree.h:164-186 | for any node, in the tree or not: inserts it at its ordered place and on top, or returns the node with that key and keeps the sequence; tree and turns are those of the function on values |
| `Splay.Head.Remove` | publish/deps/libuv/tree.h:188-207 | takes out exactly the node with that key; returns its argument, or null when there is none; tree and turns are those of the function on values |
| `Splay.Head.Find` | publish/deps/libuv/tree.h:128-137 | the node with the key, at the root, or null exactly when there is none |
| `Splay.Head.Next` | publish/deps/libuv/tree.h:139-151 | the node after the given one in order; the walk to it takes at most twice the turns of splaying that node |
| `Splay.Head.MinMax` | publish/deps/libuv/tree.h:153-158 | the first or last node, null for an empty tree |
| `Splay.Head.ForEach` | publish/deps/libuv/tree.h:292-295 | visits the in-order sequence although every step reshapes the tree; tree and turns are those of the function on values, and so bounded by the nodes times their logarithm, plus what the potential pays |
| `Splay.Head.GoLeft` | publish/deps/libuv/tree.h:219-228 | one turn: the parts keep order and nodes, the middle shrinks or the root is settled |
| `Splay.Head.GoRight` | publish/deps/libuv/tree.h:229-239 | the mirrored turn |
| `Splay.Head.LinkLeft` | publish/deps/libuv/tree.h:100-104 | the root with its right subtree continues the right spine, through the sentinel when that is empty |
| `Splay.Head.LinkRight` | publish/deps/libuv/tree.h:106-110 | the root with its left subtree continues the left spine |
| `Splay.Head.Assemble` | publish/deps/libuv/tree.h:112-117 | the fields spell out the tree put together from both spines and the middle |
| `Splay.AssembledOrder` | publish/deps/libuv/tree.h:112-117 | that tree has the nodes and the order of the three parts |
| `Splay.SettledSplits` | publish/deps/libuv/tree.h:218-241 | when the loop stops, the assembled root separates the keys around the sought one |
| `SplayCost.Amortised` | publish/deps/libuv/tree.h:46-51 | for every tree and key: the turns of a splay plus twice the change of the potential are at most six times the logarithm of the size, plus two |
| `SplayCost.ZigZig` | publish/deps/libuv/tree.h:223-228 | a turn with a rotation pays for itself and for the turn before it |
| `SplayCost.ZigZag` | publish/deps/libuv/tree.h:219-239 | two turns without rotation, to either side in turn, pay for both |
| `SplayCost.RemoveAffordable` | publish/deps/libuv/tree.h:188-207 | both splays of a removal and the join are within twelve times the logarithm, plus four |
| `SplayCost.PotentialBound` | publish/deps/libuv/tree.h:49-51 | the potential of a tree is at most its size times its logarithm, and nothing for an empty one |
| `SplayCost.LgIs` | publish/deps/libuv/tree.h:49-51 | the logarithm of these bounds: two to it is at most n, and twice that is above n |
| `SplayCost.SplayedFacts` | publish/deps/libuv/tree.h:209-242 | the splay as a function keeps the order, and its root separates the keys around the sought one |
| `SplayRuns.AfterFacts` | publish/deps/libuv/tree.h:128-207 | each find, insert, removal, minimum or maximum keeps an ordered tree ordered and costs at most twelve logarithms, and four, above the change of the potential |
| `SplayRuns.RunBound` | publish/deps/libuv/tree.h:49-51 | any run of these operations on any tree: all turns together are at most the number of operations times twelve logarithms of the largest size plus four, plus what the potential at the start pays, which is nothing for an empty tree |
| `Splay.Head.RunAll` | publish/deps/libuv/tree.h:128-207 | on the real nodes any run leaves the tree, and takes the turns, of the function on values, so within that bound |
| `SplayRuns.VisitBound` | publish/deps/libuv/tree.h:292-295 | a whole SPLAY_FOREACH over any tree of n nodes: its turns are at most n and one times eighteen logarithms plus six, plus what the potential pays |
| `SplayRuns.NextUnpaid` | publish/deps/libuv/tree.h:139-151 | any number of calls for the node after the first one of a certain tree leave it as it is, and each walks past half of its nodes |
| `Splay.Head.SlowTree` | publish/deps/libuv/tree.h:128-186 | inserts in increasing order and one find make that tree |
| `Define.RoundNum2Least` | publish/include/define/define.h:46 | the rounded value is the least multiple at or above the argument |
| `Define.MaskRounds` | publish/include/define/define.h:46 | the macro with its bit mask computes that multiple for every power of two, in any width that holds the sum |
| `Packet.SizeRoundTrip` | publish/include/serialize/packet.h:228-231 | the size field read back is the size written |
| `Packet.Cipher.BlocksConcat` | src/encrypt/des/encdec.cpp:41-64 | blocks are worked on independently: a stretch can be cut anywhere between blocks |
| `Packet.Cipher.BlocksInverse` | src/encrypt/des/encdec.cpp:41-64 | decrypting any number of blocks undoes encrypting them |
| `Packet.EncDec` | src/encrypt/des/encdec.cpp:41-64 | the loop in place changes exactly the given blocks, each by itself |
| `LoopBuf.LoopBuf.PutData` | src/mem/loopBuf.cpp:38-60 | appends all bytes to the readable queue, or changes nothing exactly when it would hold more than 20 MiB; capacity never shrinks |
| `LoopBuf.LoopBuf.PutRightData` | src/mem/loopBuf.cpp:62-83 | appends exactly when the room at the end suffices |
| `LoopBuf.LoopBuf.SetReadPtr` | src/mem/loopBuf.cpp:97-122 | drops min(nlen, readable) bytes from the front of the queue |
| `LoopBuf.LoopBuf.RestructuringData` | src/mem/loopBuf.cpp:124-134 | moving the readable bytes to the front keeps the queue and frees all other room |
| `LoopBuf.LoopBuf.ResizeNewAllData` | src/mem/loopBuf.cpp:136-168 | while its size does not overflow an int, the new block holds the same queue and has room for the new bytes or the capped size |
| `Codec.PacketBuf` | src/serialize/msgpack.cpp:140-189 | the code for every argument; exactly which messages are packed, and for which zlib has written up to ten bytes past the buffer; on success every byte before the padding: size, type, flags, the raw length of a compressed message, and the body, encrypted block by block |
| `Codec.PackedFacts` | publish/include/serialize/packet.h:228-289 | header and body written one after the other are read back as that size, flag and body |
| `Codec.AdvancedFull` | src/serialize/msgpack.cpp:89-112 | whenever the packet is full after decrypting, exactly its rounded size is decrypted: no block of the next packet |
| `Codec.Overruns` | src/serialize/msgpack.cpp:74-136 | a call copies a body past the caller's buffer, or hands uncompress a length far beyond the packet, if and only if an earlier call left a complete packet that is plain and too long, or whose 32-bit size wraps around |
| `Codec.TooLongTwice` | src/serialize/msgpack.cpp:74-136 | exactly the calls that return -2 on a complete packet leave that state; after all others the packet at hand is incomplete |
| `Codec.TooLongAtOnce` | src/serialize/msgpack.cpp:70-111 | a call gives -2 exactly when it decrypts or holds an incomplete packet whose header shows a size above the room, the rest being there or not, and -1 exactly for its arguments |
| `Codec.FullCodes` | src/serialize/msgpack.cpp:114-137 | a packet there in full gives its message, or -3 exactly when uncompressing fails or gives too much |
| `Codec.OverrunHappens` | src/serialize/msgpack.cpp:74-136 | sixteen bytes and room for two: -2, and with the same room the next call overruns it |
| `Codec.GetMsg2Buf` | src/serialize/msgpack.cpp:56-138 | for all bytes and any progress: in place on the received bytes, code, message, bytes dropped, progress and buffer are those of the value function GetMsg, and it says whether memory is overrun; bytes outside stay |
| `Codec.PacketGetCmd` | src/serialize/msgpack.cpp:191-221 | the same on a LoopBuf, after any earlier call; a delivered packet leaves the queue, otherwise the queue keeps its length with more of it decrypted |
| `Stream.SendAll` | src/serialize/msgpack.cpp:140-189 | succeeds exactly when packetbuf packs every message; the outputs, put one behind the other, are the wire bytes of packets that carry exactly these messages |
| `Stream.GetPartial` | src/serialize/msgpack.cpp:74-111 | on an incomplete packet every whole block there is gets decrypted, once, and nothing is delivered |
| `Stream.GetFull` | src/serialize/msgpack.cpp:74-137 | on a complete packet the message is delivered exactly when the caller's buffer takes body and message; the bytes behind it are untouched |
| `Stream.RunDelivers` | src/serialize/msgpack.cpp:56-221 | every run delivers a first part of what is owed and owes the rest: the decrypted prefix survives arrival, compaction and growth |
| `Stream.FragmentationIndependence` | src/serialize/msgpack.cpp:56-221 | for every cut into chunks and every interleaving of calls: messages come out as sent and in order, all of them once a call finds nothing, no byte is left and every block was decrypted exactly once, unless the buffer cap refused bytes |
| `Stream.Drive` | src/mem/loopBuf.cpp:38-168 | the same run on a real LoopBuf with packet_getcmd gives the messages and the end of the run on values |
| `MsgTransform.GetPacketHdr` | src/serialize/msgpack.cpp:15-54 | for any progress: size check on the bytes as they came, then one block decrypted unless that was done, and completeness |
| `MsgTransform.DecodeMessage` | src/service/msg_transform.cpp:7-38 | header step and body step together compute Decode, for all bytes, when NewPacketBuffer finds memory; otherwise no message comes back |
| `MsgTransform.EncodeMessage` | src/service/msg_transform.cpp:42-70 | succeeds exactly for the messages packetbuf packs into the send buffer; the copied packet has their bytes and carries the message |
| `MsgTransform.DecodeInverts` | src/service/msg_transform.cpp:7-70 | a packet comes back as its message if and only if the size check passes on the wire bytes and body and message fit the room made |
| `MsgTransform.DecodeRefuses` | src/service/msg_transform.cpp:7-70 | a cipher and the packet of a two-byte message that is refused, although decrypting would give the message back |
| `MsgTransform.DecodeOverruns` | src/service/msg_transform.cpp:7-38 | memory is overrun if and only if the size field passes the check on the wire bytes and, decrypted, wraps around to the first block; never without a cipher |
| `MsgTransform.PlainRoundTrip` | src/service/msg_transform.cpp:7-70 | unencrypted and uncompressed: exactly the messages from 2 bytes to below 10 MiB come back |
| `MsgTransform.CompressedRoundTrip` | src/service/msg_transform.cpp:7-70 | unencrypted and compressed: a message comes back exactly when its compressed form has from 2 bytes to below 10 MiB and fits the room for the message |
| `MsgTransform.RoomIs` | src/service/msg_transform.cpp:22 | the length room is made for, also with a cipher, where the upper half of a raw length is still encrypted |
| `LoopList.LoopList.PushBack` | publish/include/mem/loopBuf.h:103-113 | appends, or refuses exactly when full |
| `LoopList.LoopList.PopFront` | publish/include/mem/loopBuf.h:90-101 | takes the oldest element, none when empty |
| `LoopList.LoopList.Merge` | publish/include/mem/loopBuf.h:136-152 | moves as many elements as there are and fit, in order; true exactly when at least one; also on itself, when that ends |
| `SqlPipeline.StepInv` | src/sql/connPool.cpp:196-287 | every step of every thread keeps the invariant: each accepted operation is in one place, in order |
| `SqlPipeline.RunInv` | src/sql/connPool.cpp:196-287 | so does every run |
| `SqlPipeline.ExecTaken` | src/sql/connPool.cpp:196-209 | a call is taken in, behind all others, exactly when the receive ring has room; it is counted in any case and changes nothing else |
| `SqlPipeline.RunTakes` | src/sql/connPool.cpp:196-224 | in every run the accepted operations are exactly those of the calls that found room, in the order of the calls |
| `SqlPipeline.RefusedOnlyWhenFull` | src/sql/connPool.cpp:196-209 | no call is refused while fewer operations than a ring holds wait |
| `SqlPipeline.Stored` | src/platform/p_linux.cpp:81-91 | the stored text is the statement, cut to 4094 characters |
| `SqlPipeline.Controls` | src/sql/sqlHelper.cpp:1442-1447 | a parked worker goes on exactly when it is made active, a starting one exactly when its pool is set |
| `SqlPipeline.NothingLostOrDoubled` | src/sql/sqlHelper.cpp:1429-1518 | in every interleaving the operations of the calls that found room are exactly those in the receive ring, the issue ring, the workers' rings and executed, each once; a worker waiting for m_Active holds none |
| `SqlPipeline.ExecutedInOrder` | src/sql/sqlHelper.cpp:1462-1497 | each worker executes operations in the order they were accepted, and only its own |
| `SqlPipeline.SingleWorkerIsFifo` | src/sql/sqlHelper.cpp:1429-1518 | with one worker the whole pipeline is one queue |
| `SqlPipeline.Progress` | src/sql/sqlHelper.cpp:1436-1497 | while an operation waits and a worker runs active, some step of copy thread or workers is enabled and brings the end nearer |
| `SqlPipeline.Drainable` | src/sql/connPool.cpp:226-287 | from every reachable state with one active worker, copy thread and workers alone can execute everything accepted: nothing is stranded |
| `SqlPipeline.EachIsExecuted` | src/sql/connPool.cpp:196-287 | in every endless run under a weakly fair scheduler, with any producers and supervisor, every accepted operation is executed at some time, if one worker is running and is not stopped |
| `SqlPipeline.EachCallIsExecuted` | src/sql/connPool.cpp:196-287 | so each call that finds room leads to some worker executing just that operation, later |
| `SqlPipeline.WaitingStep` | src/sql/sqlHelper.cpp:1436-1497 | no step of any thread takes a waiting operation farther from its worker, some one thread that can bring it nearer is ready, and does so with its turn |
| `SqlPipeline.OwnedDistance` | src/sql/sqlHelper.cpp:1462-1497 | an operation taken by a worker is in its ring, and the worker at the test of that ring, until it is executed |
| `SqlPipeline.StrandedUnlessWoken` | src/sql/sqlHelper.cpp:1442-1447 | with every worker parked or returned and none made active, what waits is never executed, however fair the schedule |
| `SqlThreads.Rings.ExecSqlAsy` | src/sql/connPool.cpp:196-209 | on the rings what the call does in the state machine: the statement, cut to its buffer, is appended unless the ring is full; the code is returned and the call counted either way |
| `SqlThreads.Rings.ExecSelectSqlAsy` | src/sql/connPool.cpp:210-224 | the same with a column description, which may not be null |
| `SqlThreads.Rings.CopyTurn` | src/sql/connPool.cpp:226-287 | one turn moves the oldest received operations behind the issued ones, as many as fit: the rings of the state machine after its check and its merge |
| `SqlThreads.SqlWorker.ProcessTurn` | src/sql/sqlHelper.cpp:1438-1503 | a turn executes what the worker held and what it took, in order, and leaves its ring empty |
| `SqlThreads.TurnRuns` | src/sql/sqlHelper.cpp:1438-1497 | a turn without interruption does what the steps of the state machine do |
| `ConnPool.DemandLeast` | src/sql/connPool.cpp:336-341 | the demand is the least number of connections that covers the statements at 1000 each |
| `ConnPool.SqlConnPool.constructor` | src/sql/connPool.cpp:18-37 | every handle created starts active and connected |
| `ConnPool.SqlConnPool.AddConnectionFromBak` | src/sql/connPool.cpp:94-128 | ends even when opening fails; wakes sleeping handles in order, at most one for each attempt; exactly the handles in front that are not connected are opened, as often as attempts were in vain, and once more when woken |
| `ConnPool.SqlConnPool.DelConnectionFromActive` | src/sql/connPool.cpp:145-157 | exactly the first nCount active handles go to sleep behind the others |
| `ConnPool.Handle.ReConnect` | src/sql/sqlHelper.cpp:135-176 | a handle left without connection stops being active; one without connection is never connected here |
| `ConnPool.SqlConnPool.Reconnect` | src/sql/connPool.cpp:302-330 | every handle is asked exactly once; exactly the active ones that stay without a connection go to sleep, in order; the others stay active in their order; no handle is lost or doubled |
| `ConnPool.SqlConnPool.Schedule` | src/sql/connPool.cpp:334-360 | opening never exceeds the demand; closing leaves exactly the larger of demand and half the maximum; otherwise nothing moves |
| `ConnPool.SqlConnPool.CheckTurn` | src/sql/connPool.cpp:291-361 | a whole turn: when due every handle is asked and exactly the active ones that answered no go to sleep, otherwise none is; from these lists the scheduling opens, closes to exactly the larger of demand and half, or moves none |
| `EasyStrParse.CEasyStrParse.SetParseStr` | src/serialize/easyStrParse.cpp:194-248 | refuses null texts and odd quote strings; otherwise the tokens to come are the pure split of the text |
| `EasyStrParse.CEasyStrParse.ParseParam` | src/serialize/easyStrParse.cpp:6-140 | parses until nCount tokens are known or all are; tokens found before keep place and text |
| `EasyStrParse.CEasyStrParse.ParseChar` | src/serialize/easyStrParse.cpp:39-122 | one character: text read, text written and tokens found stay those of the split function, the write cursor at or behind the read cursor |
| `EasyStrParse.CEasyStrParse.Param` | src/serialize/easyStrParse.cpp:254-284 | for every index: shows token i of the full split, whatever was asked before; the empty text beyond the last; the whole text for a negative index and for the largest int, which wraps around |
| `EasyStrParse.CEasyStrParse.ParamCount` | publish/include/serialize/easyStrParse.h:55-59 | the number of tokens of the full split |
| `EasyStrParse.AskAll` | src/serialize/easyStrParse.cpp:254-284 | any sequence of questions shows the tokens of the full split, and every pointer returned still shows its token at the end |
| `EasyStrParse.StepDelim` | src/serialize/easyStrParse.cpp:75-113 | a delimiter closes the token: what is found plus the split of the rest is still the full split, earlier tokens untouched |
| `EasyStrParse.PlainSplit` | src/serialize/easyStrParse.cpp:6-140 | texts without delimiters and opening quotes, with any delimiters that open no quotes between them, split into these texts; empty ones are kept when keepnil says so, the last one never |
| `EasyStrParse.QuotedRoundTrip` | src/serialize/easyStrParse.cpp:59-72 | for any pair of quotes: a quoted and escaped text comes back as one token if and only if the escape character is the closing quote or the text does not end with it |
| `EasyStrParse.UnclosedQuote` | src/serialize/easyStrParse.cpp:33-72 | a quotation that is never closed takes in the rest of the text |
| `EasyStrParse.OpeningDelimiter` | src/serialize/easyStrParse.cpp:33-113 | behind a delimiter that is an opening quote as well nothing splits any more |
| `EasyStrParse.RecordRoundTrip` | src/serialize/easyStrParse.cpp:6-140 | any record splits into its fields: each of any plain and quoted parts, with any pairs of quotes, also with doubled closing quotes, and any delimiters between them |
| `EscapeStr.EscapeStr` | src/sql/sqlHelper.cpp:439-579 | every write stays in the 12 * len + 128 characters its callers allocate; the text left there is the printed form |
| `EscapeStr.PrintedIs` | src/sql/sqlHelper.cpp:462-579 | which characters are copied, alone or three at a time, and which become CHAR terms |
| `EscapeStr.EscapeMeans` | src/sql/sqlHelper.cpp:439-579 | for every source: between quotes, what is printed reads as literals and CHAR(k) terms that denote the source, if and only if each group of three after a high byte is whole: no quote and no early end in it, but for two quotes that are the last of the source |
| `EscapeStr.QuoteBreaks` | src/sql/sqlHelper.cpp:462-486 | for every source: a single quote among the two bytes behind a high one, behind whole groups, makes the whole printed text no expression at all, whatever follows |
| `EscapeStr.Unread` | src/sql/sqlHelper.cpp:439-579 | once a literal is shut where the printer takes it to be open, no reading of the rest succeeds |
| `EscapeStr.ReadChar` | src/sql/sqlHelper.cpp:23-27 | each CHAR term printed is read back as its byte |
| `Lookaside.LookasideAllocator.Allocate` | publish/include/mem/lookaside_alloc.h:244-253 | a node no client holds; a new block only when the free list is empty; the free list stays acyclic and free and held nodes partition all nodes |
| `Lookaside.LookasideAllocator.Deallocate` | publish/include/mem/lookaside_alloc.h:178-184 | the node goes from held to the front of the free list |
| `Lookaside.LookasideAllocator.AddPoolBlock` | publish/include/mem/lookaside_alloc.h:227-242 | the loop threads all nodes of a new block into the free list |
| `Lookaside.LookasideAllocator.FreeAll` | publish/include/mem/lookaside_alloc.h:160-171 | the size counter goes back by the size of all pools |
| `Lookaside.LookasideAllocator.Conserved` | publish/include/mem/lookaside_alloc.h:160-253 | free nodes and held nodes together number blockNodeNum for each pool |
| `SimpleAllocator.CSimpleAllocator.Allocate` | src/mem/lookaside_alloc.cpp:31-81 | for every int whose tag leads back: a block nobody has, handed out by the source for its size, with its tag in the first byte; no other block changes hands; a pool block is fetched exactly when the pool has no free node, and the counter stays the size of all pool blocks |
| `SimpleAllocator.CSimpleAllocator.Deallocate` | src/mem/lookaside_alloc.cpp:83-123 | from the tag alone a block goes back to exactly the source that handed it out, a small one with its own size; no other block changes hands |
| `SimpleAllocator.RunCalls` | src/mem/lookaside_alloc.cpp:31-123 | every history of calls: the blocks clients have are of exactly the sizes asked for and not given back, distinct, and each counted by the source for its size alone; each pool counts the nodes of its sizes and has as many pool blocks as their peak needs and none more, so that every node given back went to its own pool and is used again |
| `SimpleAllocator.CSimpleAllocator.OneSource` | src/mem/lookaside_alloc.cpp:31-123 | no block is with two sources |
| `SimpleAllocator.RoomFor` | src/mem/lookaside_alloc.cpp:33 | there is room for n bytes behind the tag if and only if n is below 0x7ffffffc, where the rounding overflows an int |
| `SimpleAllocator.SourceLeast` | src/mem/lookaside_alloc.cpp:31-81 | the source is the smallest with room: exactly the rounded size up to 128, then the least node size, and the heap only above all of them |
| `SimpleAllocator.TagLeadsBack` | src/mem/lookaside_alloc.cpp:31-123 | for every int the tag leads back to the source if and only if the rounded size is not negative or has a low byte of at most 128 |
| `FrameAllocator.MallocState.Alloc` | src/mem/frameallocator.cpp:80-98 | in the frame a block behind all others and strictly inside the buffer, else a block from malloc |
| `FrameAllocator.MallocState.SetCurSize` | src/mem/frameallocator.cpp:115-121 | every watermark inside the buffer is accepted and gives that cursor; any other changes nothing |
| `FrameAllocator.SetFrameAllocator.Alloc` | publish/include/mem/frameallocator.h:151-166 | exactly when the frame has no room the block is a new one from malloc and noted down, once; otherwise it is at the old cursor, behind all others |
| `FrameAllocator.SetFrameAllocator.Leave` | publish/include/mem/frameallocator.h:129-150 | the cursor is as at entry and exactly the noted blocks are freed, each once and while it is in use |
| `FrameAllocator.RunScope` | publish/include/mem/frameallocator.h:109-168 | for every well-nested program of scopes each request is met where the values say: at the cursor, or by the next answer of malloc, a scope setting back what it used; cursor and blocks are at the end as at the start, and what malloc answered in the run is exactly what was freed, each block once; the high-water mark is that of the run |
| `FrameAllocator.FollowsSound` | publish/include/mem/frameallocator.h:109-168 | in every such run, at every moment, the blocks of all clients are pairwise disjoint, inside the buffer or outside of it |
| `Service.Service.AddConnector` | src/service/service.cpp:36-50 | enters the endpoint under the id AddClient gave, unless that is there; nothing else changes |
| `Service.Added` | src/service/service.cpp:36-50 | a new object keeps every retrying endpoint in exactly one map; a retrying one is added once, under its id |
| `Service.KnownId` | src/service/service.cpp:45-49 | an id that is known keeps its entry |
| `Service.Service.AddReConnect` | src/service/service.cpp:150-169 | exactly a retrying client that is connected moves to the other map |
| `Service.Service.TransMsg` | src/service/service.cpp:81-148 | which event a message becomes; a client given up before gets none |
| `Service.MessageEvent` | src/service/service.cpp:81-148 | one event for a message of a known object that, for data, decodes: its id, the mark of its endpoint and the code of its kind; none for any other |
| `Service.Service.FetchMsg` | src/service/service.cpp:52-70 | maps, time and queue are those of the messages folded over both maps with the reused code, and of the reconnect when its time has come |
| `Service.FetchedKeeps` | src/service/service.cpp:81-169 | over any messages each retrying endpoint stays in exactly one map, a client lost before gets no event, and one reported lost gets none after that |
| `Service.CodesTellAll` | src/service/service.cpp:81-148 | among messages of kinds that set a code, an event has the code for a failed connect or a disconnect if and only if its message reports that |
| `Service.QueueIs` | src/service/service.cpp:52-148 | over any messages the queue has exactly one such event for each message that is heard when its turn comes, in their order |
| `Service.RunKeeps` | src/service/service.cpp:36-183 | any run of connects, listens and fetches: at most one failure or disconnect event for each retrying id in the whole run, none for an id that failed before it, the codes tell which, and each retrying endpoint ever added is in exactly one map, under one id |
| `Service.Serve` | src/service/service.cpp:36-183 | the calls on the object leave the state and queue the events of that run on values |
| `Service.Service.RunReConnect` | src/service/service.cpp:171-183 | when the time has come, all that wait are connected in the order of their old ids, as on values |
| `Service.ReconnectedKeeps` | src/service/service.cpp:171-183 | every waiting endpoint is connected under a new id, none is lost, and none waits any more |
| `Service.FirstReconnected` | src/service/service.cpp:177-180 | the first new id goes to the endpoint with the least old one, with its address, mark and wish to retry |
| `Service.FetchTiming` | src/service/service.cpp:171-183 | when reconnecting is due, and that otherwise only the messages change the maps |

## Left out

- Sockets, the event loop, MySQL and Redis calls, logging, configuration and platform wrappers: foreign code or plumbing.
- The rounds and key schedules of the ciphers and zlib: trusted as said above; the RC5 method does nothing in the source and is modelled as no cipher.
- Real time, sleeps and condition variables: waiting is the guard of a step.
- Result maps of the pool and the row conversion of `GetSqlRestult`: one insert or erase under a lock.
- The SQL string builders, `escapebin2str`, reference counting and cache wrappers: formatting.
- `KeepFrameAllocator`, `reset` and `Uninit` of the frame, `stStackFrameAllocator::init`: one-branch members.
- `ReOpenDB` and `ReConnect`: what the database answers is left open; that each handle is asked is proved.
- `SetParseStrEx`: copies the text, then does what `SetParseStr` does.
- Codec.PacketBuf: what memory holds after zlib wrote past the buffer is not modelled; the outcome says that it did.
- Codec.GetMsg2Buf: what memory holds after an overrun is not modelled; the outcome says that there is one.
- Codec.Overruns: a compressed packet whose size wraps around counts as an overrun, although uncompress may stop inside it.
- LoopList.LoopList.Merge: a ring that is neither empty nor full merged with itself, for which the loop does not end, is excluded.
- SimpleAllocator.CSimpleAllocator.Deallocate: the tag byte in front of a block is taken to be unwritten by the client, and malloc to find memory.
- SimpleAllocator.CSimpleAllocator.Allocate: negative sizes whose tag leads to another source, exactly those `SimpleAllocator.TagLeadsBack` names, are excluded.
- LoopBuf.LoopBuf.PutData: a buffer constructed with more than 20 MiB, which the cap would shrink, is excluded.
- FrameAllocator.RunScope: allocations go through the innermost scope, and sizes do not wrap the cursor around.
- Service.Service.FetchMsg: the new ids a turn may need are supplied in advance, enough of them.
