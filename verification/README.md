# smrender: proofs about its graph, queue, index and codec algorithms

smrender is a rule engine over OSM objects: nodes, ways that refer to nodes, and relations that refer to
objects of any type. This project models the algorithms that work on these objects below the actual drawing,
in the form the C code has (arrays and objects changed in place, loops with invariants, a step system for the
threads), and proves what they are for.

| files | subject |
|---|---|
| `CheckWay`, `CoastLink`, `CoastChains`, `CoastJoining` | joining coastline segments by shared end nodes |
| `CoastTrim`, `CoastConnect`, `CoastClosing`, `CatPoly` | trimming open ways to the page and closing them around its border |
| `SmThread` | the queue between the main thread and the worker threads |
| `BxTree`, `OsmIndex`, `Split`, `Renumber`, `BoundingBox`, `Cache` | the object store, the reverse pointer index, and what is built on them |
| `WebSocket`, `Kap`, `HpXml`, `SmIndex` | codecs: WebSocket frames, KAP rows, XML tags, the binary index |
| `MedianCut`, `Orientation` | colour reduction, and the direction of closed ways |
| `Common`, `Sorting` | shared facts about sequences, and `qsort()` as a sorted rearrangement |

Verify all files together with `dafny verify dfyconfig.toml`.

## Where the code does less than one would expect

Each of these but the last one is proved, where it depends on a condition with the exact condition:

- A way with a missing node before the page, seen from its end, is trimmed at one end only and not counted as
  open. Only as many ways as are counted are closed, the first ones in the list: if a counted way comes behind
  such a way, a good way is left open (`CoastTrim.CloseOpenWays`, `CoastTrim.GoodWayLeftOpen`).
- The middle of the northern side of the page has bearing 0 and is searched for as the last corner: it is
  inserted together with the north-western one and never otherwise (`CoastConnect.NorthGoesWithLast`).
- Every object goes exactly once to its rule in every run without a failing call
  (`SmThread.ExactlyOnceAtBarrier`). If a call fails, objects left in the list of its thread may be passed to the
  next rule; they may also be dropped, or still be passed to their own one (`SmThread.FailureBreaksGuarantee`).
- Splitting keeps the reverse index exact if and only if the nodes of the new part exist and are distinct, and no
  relation names the id that the new way gets (`Split.CutExactIff`).
- `get_depth()` counts from 0 while palette indices count from 1: with 2, 4, 8, 16, 32 or 64 colours the last
  one does not fit (`Kap.EveryRowDecodes`).
- `qc_oldest()` takes a free slot for the oldest one: a tree is freed again exactly if a clean-up finds a slot
  free that has been in use before (`Cache.QCache.Cleanup`, `Cache.CleanupTwice`).
- After renumbering, a reference to an object that does not exist may denote another object
  (`Renumber.FaithfulIff`).
- A role called "n/a" ends the list of roles that is written (`SmIndex.RolesRoundTrip`).
- `index_read_objs()` means to refuse objects that exist already, but passes on the control pointer that every
  put changes: an existing object is refused only if it is the first one, or if the one in front of it existed
  as well (`SmIndex.ReadObjs`, `SmIndex.TwiceAndAgain`).
- The length of a role is written as a short, and the chunks are read with an int for their length: longer roles
  do not come back (`SmIndex.RolesRoundTrip`), and the objects of a chunk of 2 GB or more do not
  (`SmIndex.ObjectsReadIff`), below 4 GB without an error (`SmIndex.LargeChunkLost`).
- A thread that waits for a slot of the cache and is woken by its last release waits again if the clock has not
  gone on by a second (`Cache.ReleaseAndWake`).
- `count_tag()` looks for the end of a comment or CDATA section from the 8th or 13th character on: an empty one,
  `<!---->`, does not end at its end marker (`HpXml.CommentEnds`, `HpXml.CDataEnds`).
- A closing tag or processing instruction without a name keeps the name that was in the structure before
  (`HpXml.ProcessElem`).
- `ws_write()` gets on with the message if and only if a frame has room for more than its header
  (`WebSocket.Progress`). With room for the header only it writes empty frames for ever
  (`WebSocket.WriteEmptyFrames`); with less, the length of the payload becomes negative, which is not modelled.
- The comment of `ws_read_frame()` says that a frame that is too large stays available and that errno becomes
  ENOBUFS; the code returns -1 and has taken bytes from the stream. The comment of `put_object0_ctrl()` names the
  control value -1; the code refuses for any pointer that is not NULL. The models follow the code.

## Model

| member | source | states |
|---|---|---|
| CheckWay.Check | src/smcoast.c:1246-1284 | a way that never leaves its first node is reported and left alone; any other way is the stretch from the last node of the run it begins with to the first node of the run it ends with, and its list of moves between different nodes is unchanged |
| CoastLink.PolyGetNodeIds | src/smcoast.c:161-183 | each way gets exactly one entry for its first and one for its last node |
| CoastLink.PolyFindAdj2 | src/smcoast.c:530-557 | the list is the one that results from linking the neighbouring pairs of the sorted end points in order, and the result is the number of neighbours that are the same node; by CleanLinked these links are exact |
| CoastLink.LinkedIsOk | src/smcoast.c:530-557 | whatever the data, every link stays inside the list and a way that is a successor has a predecessor; nothing but links is changed |
| CoastLink.CleanLinked | src/smcoast.c:530-557 | if no node is the start of two ways or the end of two, way b is followed by way a if and only if b ends where a starts, and prev is the inverse of next |
| CoastChains.WalksAreDistinct | src/smcoast.c:567-592 | on any links that can be produced, the check of the prev pointer alone keeps a walk from meeting a way twice |
| CoastChains.NeverEndless | src/smcoast.c:567-592 | so count_poly_refs() always comes to an end: a walk is open, a loop, or rejected |
| CoastChains.CountPolyRefs | src/smcoast.c:567-592 | tells open chains, loops and rejected chains apart, and counts exactly the nodes that joining is going to write |
| CoastChains.JoinOpenPoly | src/smcoast.c:661-686 | writes the nodes of the chain way by way into exactly the counted length, marks exactly the ways of the chain, and opens nothing else |
| CoastChains.JoinedOnce | src/smcoast.c:731-772 | for any links that can be produced, no way is joined into two new ways |
| CoastChains.LoopHasLead | src/smcoast.c:731-772 | every loop has a first way in the list, from which it is joined |
| CoastChains.LeadTest | src/smcoast.c:731-772 | the tests of the code at a way hold exactly for the ways that begin a new way |
| CoastChains.LoopDetect | src/smcoast.c:731-772 | which new ways there are afterwards, which ways are marked, which new ways are open, and how many of them |
| CoastJoining.EveryWayJoined | src/smcoast.c:731-772 | on exact links every way becomes part of some new way |
| CoastJoining.JoinedEdges | src/smcoast.c:661-686 | where ways meet, overwriting the last node of one with the first node of the next loses no edge |
| CoastJoining.JoinedWaysComplete | src/smcoast.c:731-772 | on exact links the ways of all new ways together are the collected ways, each exactly once |
| CoastJoining.EdgesConserved | src/smcoast.c:731-772 | the multiset of directed edges of the new ways is the one of the collected ways |
| CoastJoining.OpenMaximal | src/smcoast.c:731-772 | a new way is open if and only if its ends differ, and no collected way could extend an open one at either end |
| CoastJoining.CleanPartition | src/smcoast.c:731-772 | on clean data every way is in exactly one new way |
| CoastJoining.JoinWays | src/smcoast.c:1340-1360 | the four steps together: partition, edges and maximality on clean data, at most one new way for each way on any data |
| CoastConnect.AddCorners | src/smcoast.c:913-928 | the given stretch of corners is put in front of the way, one after the other, and nothing else is changed |
| CoastConnect.BridgeIsBetween | src/smcoast.c:901-928 | on a sorted list the inserted corners are exactly those with bearings behind the start and not behind the end, clockwise around the page with the wrap, the last one first; corners that are not in clockwise order count with the largest bearing up to them |
| CoastConnect.NorthGoesWithLast | src/smcoast.c:807-841 | so the middle of the northern side, the last corner, whose bearing is 0, is inserted exactly when the corner before it is |
| CoastConnect.FindEnd | src/smcoast.c:892-899 | the nearest end entry of an open way after a start entry, going around the sorted list once |
| CoastConnect.ConnectOpen | src/smcoast.c:877-985 | the in-place pass over the end points gives the same ways, the same entries and the same count as the pass that is specified step by step |
| CoastClosing.PassKeepsMirror | src/smcoast.c:877-985 | every listed open way keeps exactly one start entry and one end entry with the position and bearing of its ends; the number of open ways falls by exactly the returned count, and no way is opened |
| CoastClosing.PassProgress | src/smcoast.c:877-985 | the pass over the end points returns 0 if and only if no listed way is open |
| CoastClosing.BridgeBound | src/smcoast.c:901-928 | on a sorted list at most NUM_CO corners are inserted for one connection |
| CoastClosing.PassKeepsWoven | src/smcoast.c:877-985 | each open way is a course of whole trimmed ways with, between any two of them, exactly the page corners clockwise from the start of the one to the end of the other; closed ways are rings of this kind, closed in the same manner; every trimmed open way is in exactly one course, and all other fields and ways are as they were; a way that became part of another one keeps the nodes it had by then |
| CoastClosing.BridgeBorders | src/smcoast.c:892-928 | from the sorted list, the corners that are inserted are the ones passed clockwise from the bearing of the start to that of the end; if these are the same, none or all of them |
| CoastClosing.PolyGetBrg | src/smcoast.c:197-216 | two entries with bearing and position for each of the first open ways, up to the counted number |
| CoastClosing.EnteredMirror | src/smcoast.c:197-216 | these entries are one accurate start and end for each listed way |
| CoastClosing.PermutedMirror | src/smcoast.c:797-802 | sorting the entries by bearing does not change that |
| CoastTrim.TrimWay | src/smcoast.c:412-475 | the way is cut at its first node on the page and a border node is put in front of it; -1 and no change without such a node or if a missing node comes first |
| CoastTrim.TrimSymmetric | src/smcoast.c:396-475 | trimming from the back is the mirror image of trimming from the front |
| CoastTrim.TrimmedStretch | src/smcoast.c:412-475 | trimmed on both sides a way is the stretch from its first to its last node on the page with a border node at each side that was cut |
| CoastTrim.SecondTrim | src/smcoast.c:485-516 | after a successful first trimming the second one fails exactly on ways that meet a missing node before the page when seen from the back |
| CoastTrim.TrimmedPolyIs | src/smcoast.c:485-516 | the two trimmings in a row do just that, said in terms of the nodes of the way alone |
| CoastTrim.TrimWays | src/smcoast.c:485-516 | an open way that enters the page from both ends becomes the stretch from its first to its last node on the page, with a border node at each end that was cut; if a missing node comes first from its end it is cut at the front only; if one comes first from its front, or no node is on the page, it is closed and keeps its nodes; the result counts the first kind |
| CoastTrim.OpenAfterTrim | src/smcoast.c:485-516 | open after trimming are the counted ways and, uncounted, the ways on which the second trimming failed |
| CoastTrim.ConnectAll | src/smcoast.c:1364-1384 | the loop of sorting and connecting ends with all listed ways closed and every way woven from the trimmed ones, with exactly the corners between them |
| CoastTrim.CloseOpenWays | src/smcoast.c:1362-1384 | the trimmed ways are what TrimWays says; as many ways are left open as have that defect, none if and only if none has; these are the last ones in the list of open ways, and they are exactly those with the defect if and only if no counted way comes behind one of them |
| CoastTrim.RaggedWay | src/smcoast.c:485-516 | such a way exists: it is not counted, but is still open when the open ways are entered |
| CoastTrim.GoodWayLeftOpen | src/smcoast.c:197-216 | if it comes first in the list, a way without the defect is left open in its place |
| CoastTrim.OneRingEach | src/smcoast.c:1364-1384 | when nothing is open, every trimmed open way is a contiguous stretch of exactly one closed ring, which consists of such ways and of the corners passed clockwise between them |
| CatPoly.CatPolyFini | src/smcoast.c:1340-1388 | all of the above for the whole function, from the collected ways to the closed ones: partition and edges on clean data, what trimming makes of each way, which ways are left open, and what the closed ones are made of |
| SmThread.StepInv | src/smthread.c:190-361 | every step of the main thread or a worker, also a spurious wake-up or a failing call, keeps the invariant of the queue |
| SmThread.RunInv | src/smthread.c:190-361 | the invariant holds in every state of every interleaving |
| SmThread.AskedIsQueued | src/smthread.c:272-338 | as long as no call has failed, every object that obj_queue() was called for is queued or still held by the main thread, which may be waiting for a thread |
| SmThread.AtMostOnce | src/smthread.c:190-233 | with failing calls or not, what was called is among what was queued, and that among what obj_queue() was called for, as multisets with the rules; queued objects are called, buffered or dropped, and never called twice |
| SmThread.ExactlyOnceAtBarrier | src/smthread.c:257-264 | between two rules, if no call has failed, the objects passed to rules are exactly those that obj_queue() was called for, each once and with the rule of this call, and all lists are empty |
| SmThread.BarrierLeftovers | src/smthread.c:240-264 | between two rules an object can be left only in the list of a thread whose last call failed |
| SmThread.ReturnedOnce | src/smthread.c:309-333 | in every interleaving, the failures that obj_queue() has returned and those that threads still keep are not more than have occurred: none is returned twice |
| SmThread.Ownership | src/smthread.c:190-346 | the main thread changes an object list only while its thread waits, a worker only its own list and only while it executes |
| SmThread.NeverStuck | src/smthread.c:272-346 | list indices stay within the list, and neither the main thread nor a worker is held up anywhere but where it waits for a condition |
| SmThread.NoDeadlock | src/smthread.c:240-290 | while the main thread waits for a condition, some executing worker can move |
| SmThread.WaitIsBounded | src/smthread.c:190-290 | and the workers can make only a bounded number of steps before it is woken |
| SmThread.SpuriousHarmless | src/smthread.c:198-290 | a thread that wakes up without a reason waits again, and nothing has changed |
| SmThread.TakesTurns | src/smthread.c:272-290 | get_free_thread() takes the same thread twice in a row only if no other one is waiting |
| SmThread.FailureReachesNextRule | src/smthread.c:190-233 | what a failing call of the first worker leaves in its list is passed to the next rule, if the others are idle and that one queues nothing |
| SmThread.FailureBreaksGuarantee | src/smthread.c:190-361 | from every initial state with at least one worker and for every result but 0 there is a run in which an object is queued by one rule, not passed to it until its end, and then passed to the next rule |
| OsmIndex.GetRevIndex | src/smcore.c:684-694 | position of the pointer, or of the terminating NULL pointer; -1 if there is no list |
| OsmIndex.Index.AddRevPtr | src/smcore.c:703-730 | the lists stay exact, terminated and free of repetitions; 1 if the pointer was there already |
| OsmIndex.Index.RevIndexWayNodes | src/smcore.c:738-754 | exactly the links from existing nodes to the way are added |
| OsmIndex.Index.RevIndexRelNodes | src/smcore.c:762-784 | exactly the links from existing members to the relation are added, and the others are counted |
| OsmIndex.Index.Build | src/smcore.c:738-784 | the index of all ways and relations holds exactly the references between existing objects |
| OsmIndex.AllLinksAre | src/smcore.c:703-784 | a link is in this relation if and only if the object refers to the other one and that one exists |
| OsmIndex.InsertRefs | src/smcore.c:795-812 | inserting nodes into a way keeps the index exact for the changed tree |
| Split.UpdateRevPtr | src/smfunc.c:2319-2372 | what becomes of the list of every node of the new way: replaced by the new way, or extended by it, node by node |
| Split.CutKeepsExact | src/smfunc.c:2319-2372 | cutting a way at an inner node that occurs once keeps the index exact, terminated and free of repetitions for every node |
| Split.CutExactIff | src/smfunc.c:2319-2372 | the index stays exact if and only if the nodes of the new part exist and are distinct and no relation names the new way |
| Split.Osm.SplitAt | src/smfunc.c:2375-2478 | the loop ends although it reloads and extends the list it goes through; every way is as it was or cut at the first occurrence of the node, each new way is the rest of one cut way, no way has its first reference to the node inside any more, ways of different existing nodes stay so, the multiset of edges is the same, and the index is exact, terminated and free of repetitions |
| Split.InteriorIsInside | src/smfunc.c:2398-2418 | in a way of different nodes, but for a closed way, the first reference to the node is inside exactly if some reference is |
| Split.SoundCutsClean | src/smfunc.c:2375-2478 | a tree whose ways all have existing and different nodes, but for closed ways, can be split at any node |
| Split.SplitConservesEdges | src/smfunc.c:2375-2478 | splitting conserves the multiset of directed edges of all ways |
| WebSocket.MaskTwice | smrenderd/websocket.c:56-62 | masking is its own inverse (section 5.3 of RFC 6455) |
| WebSocket.MaskedBit | smrenderd/websocket.c:56-62 | a bit of a masked byte is set if and only if exactly one of the bits of the byte and of its byte of the key is |
| WebSocket.Mask | smrenderd/websocket.c:56-62 | masking in place changes exactly the given stretch, in which each bit is combined with that of byte i % 4 of the key in network order (section 5.3 of RFC 6455) |
| WebSocket.DecodeEncode | smrenderd/websocket.c:111-168 | decoding an encoded frame gives flags, opcode, key and payload back and ends where the frame ends, whatever follows |
| WebSocket.OnTheWire | smrenderd/websocket.c:111-168 | a frame byte by byte and bit by bit, from FIN to the masked payload, as section 5.2 of RFC 6455 has it |
| WebSocket.ShortestHeader | smrenderd/websocket.c:175-199 | no header that announces the same payload length is shorter (section 5.2 of RFC 6455) |
| WebSocket.WriteFrame | smrenderd/websocket.c:111-168 | exactly the encoded frame is put on the stream |
| WebSocket.DecodeLen | smrenderd/websocket.c:226-266 | header and payload length if enough bytes are there, otherwise the number of bytes that are missing |
| WebSocket.ReadFrame | smrenderd/websocket.c:287-354 | for any way the bytes are delivered: succeeds if and only if the stream begins with a complete frame that fits, and then takes exactly this frame; 0 only at the end of the stream, -1 only if the frame does not fit |
| WebSocket.ReceiveFragments | smrenderd/websocket.c:438-488 | the encoded fragments of a message are received as its payloads, and no byte more is taken |
| WebSocket.Read | smrenderd/websocket.c:438-488 | delivers exactly the message that the stream holds for these buffer sizes, and nothing otherwise |
| WebSocket.Write | smrenderd/websocket.c:374-435 | the frames on the stream carry the message; the opcode is in the first one only, FIN in the last one only, none is empty or larger than the frame buffer, and all but the last one take as much as there is room for behind the header of all that remains |
| WebSocket.Progress | smrenderd/websocket.c:382-407 | a round of the loop takes at least one byte of the message if and only if the frame buffer has room for more than the header; then so do all later rounds |
| WebSocket.WriteEmptyFrames | smrenderd/websocket.c:382-432 | with room for exactly the header, any number of rounds has written as many empty frames and nothing of the message |
| WebSocket.RoundTrip | smrenderd/websocket.c:374-488 | what is written is received as the same message by any reader with a frame buffer that is not smaller |
| WebSocket.Transfer | smrenderd/websocket.c:374-488 | writing and then reading any non-empty message gives the message and leaves the stream empty, however it is cut into reads |
| BxTree.PrefixStep | libsmrender/bxtree.h:44 | the digits that the macro takes from an id are the steps of its path |
| BxTree.UnsignedIs | libsmrender/bxtree.h:44 | a 64 bit id counts as itself, or plus 2^64 if it is negative |
| BxTree.SoonerIff | libsmrender/bxtree.h:44 | so ids that are not negative come before negative ones, and increase among themselves |
| BxTree.UnsignedIsInjective | libsmrender/bxtree.c:103-115 | two 64 bit ids have the same path only if they are equal |
| BxTree.BxTree.GetNode | libsmrender/bxtree.c:147-155 | finds the leaf of exactly this id, or NULL if there is none |
| BxTree.BxTree.AddNode | libsmrender/bxtree.c:103-115 | the leaf of this id exists afterwards; no entry of any id changes, and added nodes are new and empty |
| BxTree.BxTree.GetObject0 | libsmrender/smutil.c:204-226 | the entry of the id and slot; nothing for a slot out of range |
| BxTree.BxTree.PutObject0Ctrl | libsmrender/smutil.c:138-171 | changes the entry of this id and slot only; refuses exactly for a slot out of range, or an existing entry of the object tree while the control pointer is not NULL; the control pointer becomes the previous entry |
| BxTree.BxTree.RemObject | libsmrender/smutil.c:253-262 | returns the object and removes its entry only |
| BxTree.BxTree.PutAndRemove | libsmrender/smutil.c:138-262 | removing a new object takes every entry back to what it was |
| BxTree.BxTree.Traverse | src/smcore.c:548-674 | calls the handler for the wanted entries in unsigned order of their ids, each once: all of them, or all up to the first one for which the handler does not return 0 |
| BxTree.BxTree.RootReachesAll | src/smcore.c:548-674 | from the root these are exactly the ids and slots that can be looked up, with the objects found there: first the ids that are not negative, then the negative ones, each in increasing order |
| BxTree.BxTree.FreeTree | libsmrender/bxtree.c:185-197 | every node at or below the given one is freed exactly once |
| BoundingBox.ReachedIsFound | smrenderd/smdb.c:41-99 | visiting the nodes in the box and what the index leads to reaches an object if and only if it belongs to the result as defined by forward references |
| BoundingBox.Query.PutObjRels | smrenderd/smdb.c:24-38 | adds exactly the relations that refer to the object |
| BoundingBox.Query.GetNodeBb | smrenderd/smdb.c:41-90 | adds exactly the objects that belong to the result because of this node |
| BoundingBox.GetObjBb | smrenderd/smdb.c:93-99 | in terms of coordinates: the nodes between the sides of the box, the ways with such a node with all their existing nodes, the relations of any of these, and the relations of relations that have a node in the box; nothing else |
| Cache.QCache.CounterIs | smrenderd/smcache.c:39-70 | the counter of a slot is the number of its outstanding handles, and a slot with a handle is in use |
| Cache.QCache.Lookup | smrenderd/smcache.c:39-57 | a hit is a slot whose tree was stored for exactly this box; a miss only if there is none |
| Cache.QCache.Release | smrenderd/smcache.c:60-70 | takes one handle back and signals when it was the last one |
| Cache.QCache.Oldest | smrenderd/smcache.c:73-86 | the first least recently used slot without a handle, if there is one that is old enough |
| Cache.QCache.Cleanup | smrenderd/smcache.c:89-105 | goes on if and only if some slot without a handle was last used before now; only the tree of such a slot is freed; if it is not the NULL pointer, it has been freed before if and only if some slot was free |
| Cache.QCache.Put | smrenderd/smcache.c:108-128 | uses a free slot, which has no handle, and fails if and only if there is none |
| Cache.ReleaseAndWake | smrenderd/smcache.c:60-105 | the clean-up that the last release of a slot wakes goes on if and only if the time is later than that of the release |
| Cache.CleanupTwice | smrenderd/smcache.c:89-105 | two clean-ups in a row free the same tree twice |
| Kap.CompressNb | src/smkap.c:53-67 | the bytes of a run or line number at the given position |
| Kap.ReadCode | src/smkap.c:53-67 | a number that is encoded can be read again from its bytes |
| Kap.FirstByte | src/smkap.c:53-67 | the first byte of a code shows its pixel and is never the terminating 0 |
| Kap.NoStretch | src/smkap.c:98-105 | with equal widths the 32 and 16 bit arithmetic never stretches a run, even if it overflows |
| Kap.RowLength | src/smkap.c:70-114 | a row never takes more bytes than its width and four |
| Kap.CompressRow | src/smkap.c:70-114 | the code of the row, within the buffer of save_kap(); the 16 bit length wraps only for more than 65535 bytes |
| Kap.ReadRowCode | src/smkap.c:70-114 | decoding a row gives its line number and every pixel, and ends behind the terminator |
| Kap.GetDepth | src/smkap.c:187-193 | the smallest number of bits, at least 1, with at least as many values as there are colours |
| Kap.LastColourLost | src/smkap.c:187-245 | if the number of colours is a power of two, the last colour does not survive |
| Kap.EveryRowDecodes | src/smkap.c:187-245 | every row of palette colours is decoded correctly if and only if the number of colours is not a power of two greater than 1 |
| MedianCut.LongestSideIndex | src/median_cut.c:80-95 | no side of the box is longer than this one, and all sides before it are shorter |
| MedianCut.Shrink | src/median_cut.c:178-189 | the corners are those of the smallest box around the pixels of the block |
| MedianCut.CutHasLargestFirst | src/median_cut.c:98-127 | every side of every block is at most as long as some side of the first one |
| MedianCut.CutFirst | src/median_cut.c:241-261 | the first block, in which no other block has a longer side, is replaced by its two halves, none of whose pixels are on the wrong side along its first longest side; the blocks are a sorted partition with tight corners again |
| MedianCut.NothingToCut | src/median_cut.c:241-264 | if the first block is a single pixel, every block has a single colour |
| MedianCut.Cutting | src/median_cut.c:229-264 | the blocks are disjoint, not empty and cover the image, which is a rearrangement of the input; corners are tight, no side of a block is longer than all sides of the first one, and fewer blocks than desired all have a single colour |
| Renumber.Tree.RenumberObj | src/smfunc.c:263-299 | changes the id of the object in the first pass, the references of a way and, in the second pass, the members of a relation to the ids that their objects have |
| Renumber.Tree.RenumberAll | src/smfunc.c:302-324 | the ids of each type are 1 to n in the order of the traversal; every reference and every member of an existing object denotes exactly this object afterwards, and any other is unchanged |
| Renumber.FaithfulIff | src/smfunc.c:302-324 | a reference leads to the object it led to before, and only to this one, if and only if that object exists or its id is none of the new ones |
| Renumber.RefsFollow | src/smfunc.c:273-288 | every reference of a way to an existing node denotes exactly this node afterwards, and any other is unchanged |
| Renumber.MembersFollow | src/smfunc.c:289-297 | the same for members of relations with their kinds, which are kept |
| Orientation.ReversedShoelace | src/smfunc.c:377-432 | reversing a way changes the sign of its shoelace sum for any positions of its nodes |
| Orientation.ReversedCentroid | src/smfunc.c:377-432 | both directions of a way have the same centre of gravity |
| Orientation.TriangleSum | src/smfunc.c:377-432 | the shoelace sum of a triangle is twice its area, positive if it runs counter-clockwise |
| Orientation.TriangleCentre | src/smfunc.c:377-432 | the centre of gravity of a triangle is the mean of its corners |
| Orientation.TriangleRuns | src/smfunc.c:564-579 | the orientation of a triangle is the side of its first edge on which its third corner is |
| Orientation.PolyArea | src/smfunc.c:377-432 | the shoelace sum in square nautical miles and the centre of gravity, for closed ways with existing nodes only |
| Orientation.ReversedIffClosed | src/smfunc.c:527-538 | reverse_way() is the full reversal if and only if the ends of the way are equal |
| Orientation.ReverseWay | src/smfunc.c:527-538 | all nodes but the first and the last are in reverse order |
| Orientation.SetWayDirection | src/smfunc.c:564-579 | a closed way is reversed exactly if it runs the other way round; other ways are left alone, -1 if a node is missing |
| Orientation.DirectedRuns | src/smfunc.c:564-579 | afterwards it has the requested orientation or area 0, the same nodes and the same centre, and setting the direction again changes nothing |
| HpXml.ParseAttrList | src/libhpxml.c:149-193 | name, value and delimiter of at most the given number of attributes, and where parsing stops |
| HpXml.AttrLexed | src/libhpxml.c:119-193 | an attribute is a name, an equal sign and a value between delimiters, with blanks before and between them; otherwise parsing stops at the end or exactly at the character that does not belong there |
| HpXml.ParsePrintedAttrs | src/libhpxml.c:149-193 | all printed attributes are parsed as they were, and parsing stops right behind them |
| HpXml.FprintfTag | src/libhpxml.c:763-797 | the text of opening, closing and single tags and processing instructions |
| HpXml.CountTag | src/libhpxml.c:375-429 | the first place where the tag, comment, CDATA section or document type ends |
| HpXml.PrintedTagEnds | src/libhpxml.c:375-429 | a printed tag ends exactly with its last character, even if its values contain < or > or the other quote |
| HpXml.CommentEnds | src/libhpxml.c:375-429 | a comment ends with its first end marker, unless it is empty |
| HpXml.CDataEnds | src/libhpxml.c:375-429 | and so does a CDATA section |
| HpXml.DocTypeEnds | src/libhpxml.c:375-429 | a document type in capital or small letters ends with the first > that is not within its internal subset |
| HpXml.SectionIff | src/libhpxml.c:375-393 | what begins with the marker of a comment, a CDATA section or a document type is one if it is long enough, and nothing else is |
| HpXml.ProcessElem | src/libhpxml.c:204-343 | what an element is is decided by its first character that is not a blank: the name, the attributes and the ending that each type has to have, with blanks where they are allowed, else -1 and an invalid type; the text of a printed tag gives the same type, name and attributes; text without < is a literal; comments and CDATA sections give the text up to the first end marker and fail exactly without one; other declarations give their text without the last character |
| HpXml.PrintAndParse | src/libhpxml.c:204-429 | printing, finding the end and parsing gives the tag back, whatever follows it |
| HpXml.CommentAndParse | src/libhpxml.c:204-429 | a comment with some text is cut off at its end and gives this text, whatever follows |
| HpXml.CDataAndParse | src/libhpxml.c:204-429 | and so is a CDATA section |
| HpXml.DocTypeAndParse | src/libhpxml.c:204-429 | a document type is cut off at its end, and all of it is the name of the tag |
| SmIndex.StrRole | libsmrender/osm_func.c:269-295 | the number of a role, and the only one unless the role is called n/a or is an empty string of the table; the table keeps its entries and stays free of repetitions |
| SmIndex.WriteRoles | src/smindex.c:200-233 | the strings of the table up to an entry that is called n/a, each with what a short has of its length; fails exactly if one of these is negative |
| SmIndex.ReadRoles | src/smindex.c:348-376 | adds exactly the strings of the chunk in their order; fails exactly for inconsistent lengths or terminators |
| SmIndex.RolesRoundTrip | src/smindex.c:200-376 | the written roles are read as they are if and only if all their lengths fit into a short; reading them into a table with the same beginning gives the same numbers, and the whole table if and only if none is missing that is called n/a or comes behind it |
| SmIndex.WriteObjects | src/smindex.c:143-278 | the structures, tags, references and members of all objects one after the other, pointers relative to the data |
| SmIndex.ObjRoundTrip | src/smindex.c:422-491 | an object that was written is read as the same object with its tags at the new place of the data |
| SmIndex.ObjsRoundTrip | src/smindex.c:422-491 | and so is the whole chunk |
| SmIndex.ReadObjs | src/smindex.c:422-491 | puts all objects of the chunk into the tree; fails exactly for inconsistent data or if some object exists already when it is put, and it is the first one or the one in front of it existed as well |
| SmIndex.SameObject | libsmrender/smutil.c:138-171 | objects are the same for the tree if and only if their kinds and ids are |
| SmIndex.PutCheckedIs | libsmrender/smutil.c:138-171 | which objects are refused when they are put one after the other is decided by two puts in a row |
| SmIndex.TwiceAndAgain | src/smindex.c:422-491 | objects a, b, a are accepted by an empty tree, a, b, a, b are not |
| SmIndex.WriteAndRead | src/smindex.c:251-491 | a tree that is written and read into an empty one is the same tree with relocated tags |
| SmIndex.IndexRead | src/smindex.c:617-660 | the chunks of the file one after the other, of roles and objects as many bytes as an int has of their length, unknown ones skipped |
| SmIndex.ObjectsReadIff | src/smindex.c:422-491 | the objects of a written chunk get into an empty tree if and only if the chunk is smaller than 2 GB |
| SmIndex.LargeChunkLost | src/smindex.c:422-491 | from 2 GB up to 4 GB nothing is read, without an error |
| SmIndex.IndexRoundTrip | src/smindex.c:289-660 | roles, statistics and objects of the chunks of a written file are read as they were, if the lengths of roles fit into a short and those of the chunks into an int |
| SmIndex.WriteAndReadIndex | src/smindex.c:289-660 | writing the index and reading it into an empty tree gives roles, statistics and objects back, under the same condition |

## Left out

- Drawing, fonts, image formats, projections and other floating point geometry. Bearings and border nodes are functions of the node ids, positions are reals, "inside the page" is a predicate; the almost closed ways that `vcdist` would join are not modelled (`vcdist` is 0).
- Ids and tags of the new ways that joining creates, and objects that only carry tags.
- The signal and timer handling in `traverse()`, logging, and the exits when memory or threads cannot be created.
- The option `remsegment` of splitting, the `zeroway` action, and the averages of median cut (they are recomputed for one half only).
- CatPoly.CatPolyFini: the option `vcdist`, which joins ways whose ends are close to each other, is taken as 0, its default; ids and tags of the new ways are left out.
- Orientation.PolyArea: the longitude of the centre is given in the plane, before it is divided by the cosine of the latitude; there is no centre for area 0, where the source divides by 0.
- Split.Osm.SplitAt: the ways that are cut have existing and different nodes from the cut on (`CutsClean`), no relation names one of the ids of the new ways (`NextUnnamed`), and the ids of ways are above the next free one (`FreshIds`); by `Split.CutExactIff` a cut without the first two leaves the index inexact.
- WebSocket.Write: frame buffers without room for a byte of payload are excluded, because the source does not come to an end with them; `WebSocket.Progress` and `WebSocket.WriteEmptyFrames` state this.
- WebSocket.Transfer: the same condition as for `WebSocket.Write`, which it calls.
- WebSocket.ReadFrame: payload lengths of 2^31 and more, which the source narrows to an `int`, are refused for lack of room here; reads that fail and writes that are cut short are not modelled.
- Kap.CompressRow: only rows that keep their width, which is how `save_kap()` calls it.
- HpXml.ProcessElem: characters behind the end of the element read as NUL; attributes of closing tags are kept from the structure that is passed in, like in the source.
- The refilling of the buffer in `hpx_get_eleml()`, and character escaping, which the printer does not do either.
- SmIndex.WriteRoles: for a role whose length becomes a negative short the source goes on writing from memory behind the string; this is taken as a failing write.
- SmIndex.IndexRead: file header, time stamps and the memory mapping are left out, the statistics are copied as they are; the number of bytes that fields take is any function that grows with every field; negative counts and chunks beyond the end of the file are refused.
- Cache.QCache.Cleanup: one round of its loop; the tree is freed in the same step, while the source frees it right after unlocking. Trees are identities, not addresses that might be used again.
- BxTree.BxTree.Traverse: the handler is any function of the objects it has been called with; it does not change the tree while it is traversed.
- In `BoundingBox` the result tree is a set of objects; `BxTree` shows that repeated puts into a tree have this effect.
- `smrenderd/smdfunc.c`, sockets, HTTP and process control.
