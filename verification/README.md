# Verified model of the hexagonal war game core

This project models four parts of the game in Dafny and proves what they are for.

* **Circular lists** (`util/circList.h`). Every list head and every element is a node with two links. The nodes are
  heap objects of class `Elt`; the abstract state is a value of type `Rings`, which maps each ring's anchor (a list
  head, or a lone element) to the nodes met by following `next`. `Well(m)` says that `m` describes the heap, that no two
  rings share a node, and that `next` and `prev` agree with it. `RingAlgebra` says on plain values what each operation
  does; the methods of `CircList` and `CircListIterator` are proved to do just that to the links. Every operation takes
  the family it works on as a ghost argument, so that several lists, and moves between them, are covered at once.
* **Hexagonal distance** (`core/hexmap.cpp`). The six parity-dependent moves make the grid a graph; the closed formula
  is proved to be that graph's shortest-path distance, on the unbounded grid and inside any map. `line & 1` is Dafny's
  Euclidean `% 2`.
* **Messages over a byte stream** (`MsgSocket.cpp`, `ClientServerRequest.*`, `ClientServerFileTransferRequest.cpp`). A
  sender turns requests, single messages and whole files alike, into length-prefixed frames; a receiver rebuilds the
  messages from whatever pieces it reads; long transfers are cut into positioned blocks, and a file sent through the
  socket arrives as blocks that partition it. How much each read of a file delivers is an arbitrary function. The kernel is a sequence of bytes; a look at the length field sees the
  next four bytes or none, and a read returns any positive number of bytes up to the request. Numbers are laid out in
  memory by a host of either byte order and converted by `htonl` and its relatives.
* **Server bookkeeping and the connection protocol** (`ServerClientConnection.cpp`, `ClientConnection.cpp`). The router
  keeps a map, four bitmaps, a count and a bound in agreement. The asserts in the state machines of client and server
  are proved never to fire when the two are joined by two FIFO channels, and it is proved exactly which calls of the
  application may be made when. The user database, the network and the order of events are arbitrary.

Where the source has an `assert` or throws, the model has a precondition, an outcome (`AssertFails`, `Broken`) or a
result value (`Thrown`, `OutOfRange`). Four results are exact conditions of properties the code has only in part:

* the bound of the router is one above the highest live descriptor except when descriptor 0 alone is left after a
  release (`Router.ServerSocketsRouter.ReleaseClientConnection`, `Router.StrandedByRelease`), because the rescan stops
  before 0 (`ServerClientConnection.cpp:587`);
* the first message of a memory transfer announces a length that fits a message body exactly for transfers of up to
  7912 bytes (`Transfer.SendMemory`), because it adds the header size of a file transfer
  (`ClientServerFileTransferRequest.cpp:176`);
* starting, submitting credentials and stopping are safe exactly in the states `Session.Allowed` names
  (`Session.AllowedIsSafe`); the code itself checks this only for the start;
* a client can still get its connection closed except when it stops once more after its socket is gone
  (`Session.WhenItCanClose`), because nothing answers then (`ClientConnection.cpp:58-72, 307-314`).

Where code and documentation differ, the model follows the code: an accepted login is answered with a registration
confirmation (`ServerClientConnection.cpp:332-366`), a registration is refused when `correct_email` is true
(`ServerClientConnection.cpp:274`), and `hexDist` has no negative result (`core/hexmap.h:121`).

## Model

| member | source | states |
|---|---|---|
| CircList.Elt.constructor | util/circList.h:45 | a new node is a ring of its own |
| CircList.Elt.Empty | util/circList.h:98-111 | of a head or of an element: true exactly when it is alone in its ring |
| CircList.Links | util/circList.h:29-31 | the links of a node are its neighbours in the described ring, cyclically; a node is alone exactly when it points to itself |
| CircList.Elt.Insert | util/circList.h:58-65 | linking between two consecutive nodes puts the node at that place of that ring; no other ring changes |
| CircList.Elt.Link | util/circList.h:74-80 | making the neighbours point to each other takes the node out of its ring; no other ring changes |
| CircList.Elt.Concat | util/circList.h:82-95 | the elements of one list, in order, come to stand between two consecutive nodes of another |
| CircList.Spliced | util/circList.h:82-95 | the four link writes make one ring of two |
| CircList.Elt.InsertAfter | util/circList.h:144-149 | a lone element comes right after the given node of any list |
| CircList.Elt.InsertBefore | util/circList.h:158-163 | a lone element comes right before the given node, at the end when that node is the head |
| CircList.Elt.Extract | util/circList.h:226-237 | the element leaves its ring, ends alone, and its payload is returned; all else keeps its order |
| CircList.Elt.Replace | util/circList.h:241-252 | a lone element takes the place of another, which ends alone; replacing a lone one changes nothing |
| CircList.Elt.ReplaceBy | util/circList.h:254-267 | same from the other side, list heads included: a new head takes over the whole list |
| CircList.Elt.MoveElt | util/circList.h:269-281 | an element, linked or not, moves right after a node of the same or another list |
| CircList.Elt.MoveEltTail | util/circList.h:284-296 | an element moves right before a node of the same or another list |
| RingAlgebra.MovedAfterMeans | util/circList.h:269-281 | after a move, of a linked element or a loose one, it stands right after the target; the rest of both rings keeps its order; no other ring changes |
| RingAlgebra.MovedBeforeMeans | util/circList.h:284-296 | the same right before the target, before the head being the end of the list |
| RingAlgebra.ExtractedMeans | util/circList.h:226-237 | the element is alone, its ring keeps the others in order, no other ring changes |
| RingAlgebra.ExchangedMeans | util/circList.h:241-267 | exactly one place changes its node, for both ways of replacing an element; the replaced one is alone |
| RingAlgebra.HeadReplacedMeans | util/circList.h:254-267 | the new head has the old one's elements, the old one none |
| CircList.Elt.RotateLeft | util/circList.h:298-306 | the first element becomes the last |
| CircList.Elt.Front | util/circList.h:357-378 | payload of the first element, null for an empty list |
| CircList.Elt.Back | util/circList.h:357-378 | payload of the last element, null for an empty list |
| CircList.Elt.IsSingular | util/circList.h:461-466 | true exactly when the list has one element |
| CircList.Elt.Append | util/circList.h:531-538 | the elements of the other list come in front of the list's own, in order; an empty list changes nothing |
| CircList.Elt.AppendBack | util/circList.h:545-552 | the elements of the other list come behind the list's own, in order |
| CircList.Elt.Push | util/circList.h:556-564 | the lone element becomes the first |
| CircList.Elt.PushBack | util/circList.h:566-573 | the lone element becomes the last |
| CircList.Elt.Pop | util/circList.h:576-590 | the first element is returned alone, the others stay in order; null and no change on an empty list |
| CircList.Elt.PopBack | util/circList.h:592-606 | the last element is returned alone, the others stay in order; null and no change on an empty list |
| CircList.Elt.Truncate | util/circList.h:608-633 | cut after element i: the first i elements go to the empty head, the rest stays, both rings well formed; an empty list, or a single other element, changes nothing |
| CircListRuns.EveryNodeOnce | util/circList.h:26-31 | on any well-formed heap `next` and `prev` are inverse, and a node stands at one place of one ring |
| CircListRuns.RingsDetermined | util/circList.h:26-31 | the links determine the lists: no two descriptions of the same nodes fit the same heap |
| CircListRuns.Perform | util/circList.h:144-306 | any of sixteen operations does to the heap what it does to plain sequences |
| CircListRuns.ApplyMeans | util/circList.h:144-633 | what each of the sixteen operations leaves in the lists it names, element by element |
| CircListRuns.NodesKept | util/circList.h:144-306 | no operation loses or duplicates a node; only a non-empty append leaves one behind, the emptied head |
| CircListRuns.OthersKeptStep | util/circList.h:144-306 | an operation leaves every ring unchanged that it does not name |
| CircListRuns.Run | util/circList.h:531-606 | over any run on any number of lists: the heap is what the run makes of plain sequences, and unnamed lists are as they were |
| CircListIterator.Iterator.Next | util/circList.h:726-735 | step to the cached successor without reading the element left behind |
| CircListIterator.Iterator.Prev | util/circList.h:744-752 | step to the cached predecessor without reading the element left behind, and cache the one before |
| CircListIterator.Visit | util/circList.h:726-735 | one turn of a traversal goes on to the old successor, whether or not the element was removed |
| CircListIterator.ForEach | util/circList.h:691-735 | a traversal that removes any chosen elements visits each original element once, in order, ends, and leaves the others in order and the chosen ones alone |
| RingAlgebra.UnchosenMeans | util/circList.h:691-735 | exactly the elements that are not chosen are kept |
| RingAlgebra.UnchosenInOrder | util/circList.h:691-735 | each kept element comes after those kept before it |
| RingAlgebra.SiftedMeans | util/circList.h:691-735 | a traversal leaves the kept elements in the list, each chosen one alone, and every other ring as it was |
| CircListIterator.VisitBack | util/circList.h:744-752 | one turn of a backward traversal goes on to the old predecessor, whether or not the element was removed |
| CircListIterator.ForEachBack | util/circList.h:744-752 | a backward traversal that removes any chosen elements visits each original element once, last to first, ends, and leaves what the forward one leaves |
| RingAlgebra.BackwardsAt | util/circList.h:744-752 | the backward order is the order from the last element to the first |
| RingAlgebra.SiftedBackNext | util/circList.h:744-752 | what one turn of a backward traversal makes of the lists |
| RingAlgebra.SiftedNext | util/circList.h:691-735 | what one turn of such a traversal makes of the lists |
| CircListIterator.Swap | util/circList.h:772-807 | exactly the two positions are exchanged, in one list or between two, adjacent or not; each iterator ends on the other's element with fresh neighbours |
| RingAlgebra.SwitchedMeans | util/circList.h:772-807 | two positions have exchanged their nodes, and every other position of every ring keeps its node |
| RingAlgebra.SwitchedAdjacent | util/circList.h:785-796 | for neighbours, one extraction and one insertion exchange them |
| RingAlgebra.SwitchedDistant | util/circList.h:797-803 | otherwise two extractions and two insertions at the old predecessors exchange them |
| CircListLaws.SwapTwice | util/circList.h:772-807 | a second swap restores the lists and the iterators |
| RingAlgebra.SwitchedTwice | util/circList.h:772-807 | exchanging two positions twice is no change |
| CircListLaws.CutThenJoin | util/circList.h:531-552 | cut parts are a prefix and the rest; joined in front they give the list back, joined behind its rotation |
| CircListLaws.CutAndJoin | util/circList.h:608-633 | the same on the heap: truncate, then append or append_back |
| CircListLaws.RotationsTurn | util/circList.h:298-306 | k rotations turn the list by k modulo its length |
| CircListLaws.FullTurn | util/circList.h:298-306 | as many rotations as elements restore the list |
| CircListLaws.RotateTimes | util/circList.h:298-306 | k calls of rotate_left do k rotations, no other list changes |
| Hexmap.HexDistIsNorm | core/hexmap.cpp:168-209 | in skewed coordinates the parity-dependent formula is one hexagonal norm |
| Hexmap.HexDistIsMetric | core/hexmap.cpp:168-209 | never negative, zero exactly on equal hexes, symmetric, triangle inequality |
| Hexmap.DistanceOneIsAdjacent | core/hexmap.cpp:34-55 | distance one is exactly being neighbours by one of the six moves |
| Hexmap.MoveMeans | core/hexmap.cpp:34-55 | for either parity, what each of the six moves does to the line and along the skewed axis; opposite moves cancel; the eastern diagonal is the western one and a step east |
| Hexmap.NoShorterWalk | core/hexmap.cpp:168-209 | no walk between two hexes has fewer moves than the formula |
| Hexmap.HeadingIsCloser | core/hexmap.cpp:34-55 | the move chosen by line, column and parity is one closer |
| Hexmap.Toward | core/hexmap.cpp:34-55 | from every hex some move comes one closer without leaving the bounding box |
| Hexmap.DirectWalk | core/hexmap.cpp:168-209 | some walk has exactly that many moves, all inside the bounding box |
| Hexmap.HexDistIsShortestWalk | core/hexmap.cpp:168-209 | the formula is the shortest-path length on the whole grid |
| Hexmap.Map.HexDistIsShortestOnMap | core/hexmap.cpp:96-113 | and on every bounded map, with walks confined to it |
| Hexmap.Map.constructor | core/hexmap.cpp:60-84 | every hexagon of the array gets its own coordinates |
| Hexmap.Map.InRangeIsIndex | core/hexmap.cpp:96-113 | the hexes in range are exactly those the array holds |
| Hexmap.Map.GetHex | core/hexmap.cpp:115-128 | returns the hexagon with the given coordinates |
| Wire.ByteOrder16 | MsgSocket.cpp:192 | the most significant byte goes first: the order of ids is the order of their bytes on the wire |
| Wire.ByteOrder32 | MsgSocket.cpp:193 | the same for lengths and positions |
| Wire.HostLayout | MsgSocket.cpp:168-239 | a little-endian host stores the other way round than a big-endian one, and each reads back what it stored |
| Wire.FrameLayout | ClientServerPrtcl.h:241-259 | the first four bytes of a frame are the length of all of it, then id, direction, padding and body |
| Wire.NetworkOrder | MsgSocket.cpp:168-239 | a converted number lies most significant byte first in memory, on either kind of host |
| Wire.HostOrder | MsgSocket.cpp:316-404 | loading and converting such bytes gives the number back, on either kind of host |
| Wire.ParseAppend | MsgSocket.cpp:348-404 | reading in two pieces gives what reading at once gives |
| Wire.WellFormedAppend | MsgSocket.cpp:348-404 | a prefix of a well-formed stream is well formed, and so is what is left over with the rest |
| Wire.RestIsPartial | MsgSocket.cpp:348-404 | what is left over is less than a length field, or less than the frame it announces |
| Wire.FrameFirst | MsgSocket.cpp:168-239 | a frame followed by anything reads as its message, then the rest |
| Wire.FramesRoundTrip | MsgSocket.cpp:168-239 | a stream of frames reads back as the same ids, senders and bodies in order |
| MsgSocketReceiver.Receiver.constructor | MsgSocket.cpp:35-47 | a new receiver has received nothing |
| MsgSocketReceiver.Receiver.SocketReceive | MsgSocket.cpp:293-314 | any positive number of bytes up to the request, in order; none exactly when there are none |
| MsgSocketReceiver.Receiver.RecvBeginNewMsg | MsgSocket.cpp:316-346 | the length field is taken whole or not at all, and read in host order |
| MsgSocketReceiver.Receiver.RecvMore | MsgSocket.cpp:348-404 | the bytes read extend the partial message inside its buffer; none is lost |
| MsgSocketReceiver.Receiver.QueueMessage | MsgSocket.cpp:348-404 | a completed message is queued with id, sender and body as on the wire |
| MsgSocketReceiver.Receiver.RecvLoop | MsgSocket.cpp:348-404 | for any read sizes the loop ends; it queues exactly the complete frames and keeps exactly the partial one; at exit fewer than four bytes wait at a frame boundary, or none inside a frame |
| MsgSocketReceiver.Receiver.RecvNextData | MsgSocket.cpp:406-427 | after any history of arrivals and reads, taken and queued messages are exactly the complete frames that arrived; true exactly when one can be taken |
| MsgSocketReceiver.Receiver.GetNextReceivedMsg | MsgSocket.cpp:429-440 | the oldest queued message, or none |
| MsgSocketReceiver.Receiver.Arrive | MsgSocket.cpp:348-404 | more bytes in the kernel, at any moment, keep everything accounted for |
| MsgSocketReceiver.ArrivalFaithful | MsgSocket.cpp:348-404 | bytes that arrive join what is unparsed, and what was read stands |
| MsgSocketSender.MsgRequest.BuildNextL2Msg | ClientServerRequest.cpp:17-29 | a single message is built once with its whole body, and counts as sent from then on; after that nothing is built |
| MsgSocketSender.Request.BuildNextL2Msg | ClientServerRequest.h:60-61 | a request of either kind builds the first of the messages it still has to send, and has the others left |
| MsgSocketSender.Request.RestSendable | ClientServerRequest.h:54-55 | what a request still has to send fits messages, and is nothing exactly when it has no data left |
| MsgSocketSender.QueueAppend | MsgSocket.cpp:271-284 | a queue with one more request has its messages after those before |
| MsgSocketSender.HeaderFrame | MsgSocket.cpp:168-239 | header and body together are one frame: total length, id, direction |
| MsgSocketSender.Sender.BuildFrame | MsgSocket.cpp:184-195 | header fields in network order and a body that starts with the next message of the request |
| MsgSocketSender.Sender.EmitFrame | MsgSocket.cpp:196-226 | header and body go out as one whole frame, and the transmission state is reset |
| MsgSocketSender.Sender.SendFrame | MsgSocket.cpp:180-226 | the next message of the current request goes out as one frame; the other requests are untouched |
| MsgSocketSender.Sender.TxPopNextRequest | MsgSocket.cpp:150-166 | the oldest request leaves the queue, or null |
| MsgSocketSender.Sender.TxReset | MsgSocket.cpp:56-68 | no frame is under emission, and no id |
| MsgSocketSender.Sender.constructor | MsgSocket.cpp:35-47 | a new sender holds no request and has sent nothing |
| MsgSocketSender.Sender.Submit | MsgSocket.cpp:271-284 | a request of either kind is queued last; wire and pending messages stay what was submitted |
| MsgSocketSender.Sender.SendMsg | MsgSocket.cpp:271-284 | the same for a single message |
| MsgSocketSender.Sender.SendLoop | MsgSocket.cpp:168-239 | exactly the oldest pending message goes out, as one frame, whether its request has one message or many; nothing if nothing is pending; requests with nothing to send are passed over |
| MsgSocketSender.Sender.SendNextData | MsgSocket.cpp:241-266 | wire bytes plus the frames of pending messages are the frames of all submitted, in order; 0 exactly when nothing was pending |
| MsgSocketSender.Drain | MsgSocket.cpp:241-266 | with k messages pending, of single requests and of transfers of many blocks, call k + 1 is the first to return 0, each call before sends one frame, and all are on the wire |
| MsgSocketLink.NothingLost | MsgSocket.cpp:168-404 | every submitted message is taken, queued, under way or pending, exactly once and in order, and no byte is left over |
| MsgSocketLink.PrefixDelivered | MsgSocket.cpp:168-404 | what is taken or queued is always a prefix of what was submitted |
| MsgSocketLink.DeliveredWhen | MsgSocket.cpp:168-404 | it is all that was submitted if and only if nothing is pending, under way or half read |
| MsgSocketLink.Finish | MsgSocket.cpp:168-440 | serving the sender once for each pending message, carrying and reading once delivers everything |
| MsgSocketLink.Perform | MsgSocket.cpp:168-440 | one step of sender, network or receiver keeps the link in order and makes its progress: one message fewer pending, bytes carried, all that arrived read, the oldest message taken |
| MsgSocketLink.Run | MsgSocket.cpp:168-440 | end to end: for any interleaving and any splitting, the receiver gets the submitted messages and transfers in order, and all of them exactly when nothing is pending, under way or half read |
| MsgSocketLink.Exchange | MsgSocket.cpp:35-440 | the same between a new sender and a new receiver, on hosts of any byte order |
| MsgSocketLink.FileArrives | ClientServerFileTransferRequest.cpp:93-143 | a submitted file arrives as one stretch of messages whose blocks, joined, are the file |
| Transfer.PutPosition | ClientServerFileTransferRequest.cpp:129 | the position is stored in network order, modulo 2^32, and nothing else in the body |
| Transfer.AnyReadIsPossible | ClientServerFileTransferRequest.cpp:48-59 | every number of bytes a read can deliver is delivered for some file |
| Transfer.FullReads | ClientServerFileTransferRequest.cpp:93-143 | reads that deliver all they are asked for fill each message, but for the end of the file |
| Transfer.FileTransferRequest.FileReadData | ClientServerFileTransferRequest.cpp:48-59 | any positive short read, placed in the body; the bytes around it stay |
| Transfer.FileTransferRequest.BuildNextL2Msg | ClientServerFileTransferRequest.cpp:93-143 | the next piece of the file with its id, position and exact length in the shared body; nothing happens when all is sent |
| Transfer.MemoryTransferRequest.BuildNextL2Msg | ClientServerFileTransferRequest.cpp:146-205 | the next piece of memory, as large as the body allows, with id, position and the length the code announces; nothing happens when all is sent |
| Transfer.NextMessage | ClientServerFileTransferRequest.cpp:93-143 | building takes the first message off those the transfer still has to send |
| Transfer.BlockOfMessage | ClientServerFileTransferRequest.cpp:93-143 | the block in a built message is the next piece of the file at its position |
| Transfer.TransferCovers | ClientServerFileTransferRequest.cpp:93-143 | for any short reads the messages of a transfer are one descriptor, then blocks, each within 8192 bytes, and partition the file in order |
| Transfer.SendFile | ClientServerFileTransferRequest.cpp:93-143 | building until nothing is left gives exactly those messages |
| Transfer.SendMemory | ClientServerFileTransferRequest.cpp:146-205 | the blocks partition the memory; exactly 1 + ceil(max(0, L - P0) / P1) messages; announced lengths all fit exactly when L is at most 7912 |
| Transfer.PartitionCovers | ClientServerFileTransferRequest.cpp:93-205 | the payloads of a partition, joined, are the source |
| Transfer.PositionOf | ClientServerFileTransferRequest.cpp:93-205 | a block starts where the payloads before it end, and its 32-bit position says so exactly below 4 GiB |
| Transfer.CountIs | ClientServerFileTransferRequest.cpp:146-205 | the number of messages by the two payload capacities |
| FdSet.SetBit | ServerClientConnection.cpp:539 | exactly one descriptor joins the bitmap |
| FdSet.ClearBit | ServerClientConnection.cpp:580-581 | exactly one descriptor leaves the bitmap |
| FdSet.Narrow | ServerClientConnection.cpp:794-799 | pselect may clear any bits and sets none |
| FdSet.Copy | ServerClientConnection.cpp:623-634 | the words the bound covers become those of the source, the higher ones stay stale |
| FdSet.ExtractWord | ServerClientConnection.cpp:651-661 | shifting a word out lists exactly its set bits, the sign bit included |
| FdSet.ExtractList | ServerClientConnection.cpp:639-667 | the shifting scan lists exactly the set bits of the covered words, and counts them |
| FdSet.AscendingSorts | ServerClientConnection.cpp:639-667 | the list is ascending, without repetition, and complete |
| FdSet.AscendingCounts | ServerClientConnection.cpp:639-667 | its length is the number of set bits |
| Router.ServerSocketsRouter.constructor | ServerClientConnection.cpp:512-522 | no connection, whatever the other bitmaps hold |
| Router.ServerSocketsRouter.CreateClientConnection | ServerClientConnection.cpp:524-573 | map, bitmap and count gain the descriptor and the bound covers it; the new connection is EMPTY and of the router's version; a descriptor in use is refused and nothing changes |
| Router.ServerSocketsRouter.ReleaseClientConnection | ServerClientConnection.cpp:575-603 | map, bitmaps and count lose it; the bound is exact afterwards unless only descriptor 0 is left, and then it is not |
| Router.ServerSocketsRouter.OutgoingDataForClient | ServerClientConnection.cpp:605-620 | a live descriptor is flagged; any other is refused and nothing changes |
| Router.ServerSocketsRouter.ReleaseDead | ServerClientConnection.cpp:834-843 | every connection of the dead list is released, and no other |
| Router.ReleasableWhen | ServerClientConnection.cpp:600-601 | the assert on erased entries holds for a dead list exactly when it lists live descriptors, none twice |
| Router.ServerSocketsRouter.Poll | ServerClientConnection.cpp:772-832 | after copy and pselect the lists are the sorted ready live descriptors, each with a map entry; stale words never show |
| Router.ScanIsWhole | ServerClientConnection.cpp:623-667 | the words the bound covers hold all live descriptors |
| Router.BoundAfterCreate | ServerClientConnection.cpp:535-540 | creating makes the bound exact |
| Router.BoundAfterRelease | ServerClientConnection.cpp:583-595 | rescanning below a released top descriptor finds the next highest, except 0 |
| Router.FlagsAreLive | ServerClientConnection.cpp:524-620 | over any run, what is flagged without being live was so from the start |
| Router.LiveWhen | ServerClientConnection.cpp:524-603 | over any run a descriptor is live exactly when it was created and not released since |
| Router.FlaggedWhen | ServerClientConnection.cpp:575-620 | over any run a descriptor is flagged exactly when it was flagged while live, and neither released nor cleared by pselect since |
| Router.NeverStranded | ServerClientConnection.cpp:575-603 | if descriptor 0 is never created, the bound stays exact over any run |
| Router.StrandedByRelease | ServerClientConnection.cpp:583-595 | a run of three steps after which descriptor 0 is live and the bound is 0 |
| Router.Perform | ServerClientConnection.cpp:524-620 | each operation does to live set, flags and bound what the books say |
| Router.Run | ServerClientConnection.cpp:524-620 | over any run: map keys equal bitmap, count equals map size, each connection is of the router's version, the bound is exact if and only if descriptor 0 is not stranded, flags stay live |
| ServerConnection.ServerClientConnection.constructor | ServerClientConnection.cpp:12-22 | a new connection is EMPTY and has sent nothing |
| ServerConnection.ServerClientConnection.HandleConnectionReq | ServerClientConnection.cpp:151-189 | confirmed only when EMPTY and of the same version; else rejected with the remembered or the new cause |
| ServerConnection.ServerClientConnection.HandleRegistrationReq | ServerClientConnection.cpp:254-296 | confirmed if and only if REGISTERING, the user is new and the mail lookup is false; else rejected with the cause that applies first, and the state stays |
| ServerConnection.ServerClientConnection.HandleUserLoginReq | ServerClientConnection.cpp:332-366 | accepted if and only if REGISTERING, the user is known and the password right; else rejected with the cause that applies first, and the state stays |
| ServerConnection.ServerClientConnection.HandleDisconnectionReq | ServerClientConnection.cpp:368-384 | acknowledged and CLOSING |
| ServerConnection.ServerClientConnection.HandleClientMessage | ServerClientConnection.cpp:451-504 | each message goes to its handler; state and replies are those of the reaction function |
| ServerConnection.AssertsWhen | ServerClientConnection.cpp:451-504 | exactly which messages reach an assert |
| ServerConnection.RegisteredWhen | ServerClientConnection.cpp:254-366 | which message, in which state and with which lookups, makes a connection registered |
| ServerConnection.ConfirmedWhen | ServerClientConnection.cpp:151-171 | a connection is confirmed exactly when it is new and of the same version |
| ServerConnection.RankOrders | ServerClientConnection.cpp:151-384 | EMPTY, REGISTERING, REGISTERED, then the states a connection ends in |
| ServerConnection.CauseRemembered | ServerClientConnection.cpp:151-189 | over every run the remembered cause is that of the last rejection sent |
| ServerConnection.RepeatedRejection | ServerClientConnection.cpp:176-181 | after every run a request on a rejected connection is told the cause of the last rejection again |
| ServerConnection.ReactStep | ServerClientConnection.cpp:151-504 | no assert on what a client sends; never backwards; one reply of the right kind to a request |
| ServerConnection.ConfirmedStep | ServerClientConnection.cpp:151-366 | confirmations sent stay in step with the state |
| ServerConnection.OneReplyEach | ServerClientConnection.cpp:151-384 | in every run each request gets exactly one reply of its own kind, each other message none |
| ServerConnection.ConfirmedAlong | ServerClientConnection.cpp:151-366 | along every run state and number of confirmations agree, and a login is never confirmed as such |
| ServerConnection.ConnectionLife | ServerClientConnection.cpp:151-384 | in every run the state only moves forward, each confirmation is sent at most once, and REGISTERED is reached only after both |
| ServerConnection.HandleAll | ServerClientConnection.cpp:451-504 | a connection object carries out any run as the functions say |
| ClientConnection.ClientCnx.SetState | ClientConnection.cpp:373-425 | the state is entered, and the assert that guards it holds |
| ClientConnection.RegisteredOnlyAfter | ClientConnection.cpp:373-425 | in every history the asserts allow, REGISTERED comes after CONNECTING, CONNECTED_NO_CREDENTIALS, CONNECTED and REGISTERING, the last three right before it |
| ClientConnection.AssertsWhen | ClientConnection.cpp:99-371 | exactly which message in which state reaches an assert of the client |
| ClientConnection.ReactMeans | ClientConnection.cpp:99-371 | which messages raise an event, are answered, and change the state, and to what |
| ClientConnection.ClientCnx.StartConnectionToServer | ClientConnection.cpp:44-56 | CONNECTING, and a connection request with the client's version |
| ClientConnection.ClientCnx.StopConnectionToServer | ClientConnection.cpp:58-72 | DISCONNECTING, and a disconnection request |
| ClientConnection.ClientCnx.RegistrationDataFromUserInterface | ClientConnection.cpp:491-515 | credentials are kept, each shortened to leave room for its terminator, and the event is pending |
| ClientConnection.ClientCnx.HandleConnectionCnf | ClientConnection.cpp:99-132 | credentials are asked for, and the built-in ones submitted |
| ClientConnection.ClientCnx.HandleDisconnectionCnf | ClientConnection.cpp:307-314 | CLOSING, and the socket is stopped |
| ClientConnection.ClientCnx.HandleServerMessage | ClientConnection.cpp:317-371 | each message goes to its handler; state, events and what is sent are those of the reaction function |
| ClientConnection.ClientCnx.HandleOneExtEvent | ClientConnection.cpp:454-471 | new credentials send one registration request with them |
| ClientConnection.ClientCnx.HandleExtEvents | ClientConnection.cpp:473-488 | all pending events are served, in any order, and forgotten |
| Session.StepSafe | ClientConnection.cpp:373-488 | one allowed step fires no assert and keeps client, server and channels in step |
| Session.StepInOrder | MsgSocket.cpp:271-284 | one step puts messages behind those that wait, and takes them from the front |
| Session.InOrder | MsgSocket.cpp:271-440 | over every run that throws nothing away, what each side has handled, then what waits for it, is what the other has sent, in that order |
| Session.StopInOrder | ClientConnection.cpp:58-72 | a flush drops only the oldest unhandled and the newest unsent messages; the disconnection comes last |
| Session.StopSafe | ClientConnection.cpp:58-72 | stopping, whatever is flushed, leaves nothing under way the client could not take |
| Session.SessionSafe | ClientConnection.cpp:99-488 | over every run, with any number of rejected credentials: no assert of either side fires, at most one message is under way until the client leaves, client REGISTERED implies server REGISTERED |
| Session.StrayCredentials | ClientConnection.cpp:454-488 | credentials submitted in any other state reach an assert |
| Session.StopTooEarly | ClientConnection.cpp:204-218 | stopping while an answer is to come lets that answer reach an assert |
| Session.AllowedIsSafe | ClientConnection.cpp:44-72 | starting, submitting and stopping are safe, now and on every way on, if and only if they are allowed |
| Session.WhenItCanRegister | ClientConnection.cpp:99-218 | from every reachable point a registration can still be reached, if and only if the versions agree and the client is not leaving: the handshake never gets stuck |
| Session.WhenItCanClose | ClientConnection.cpp:58-72 | from every reachable point the client can still get its connection closed, if and only if it has not stopped once more after the socket was gone |
| SessionObjects.Perform | ClientConnection.cpp:532-571 | the two objects take a step as the session says, with none of the asserts in their methods firing |
| SessionObjects.Run | ClientConnection.cpp:532-571 | any sequence of steps, each taken when allowed, takes the two objects through a run of the session |

## Left out

- Real sockets, `pselect`, `fcntl`, errno classification, mutexes, threads, signals, address lookup, console output and the end of a stream: foreign calls.
- MsgSocketSender.Sender.SendFrame: takes every send to accept its whole buffer. A retry after a partial or blocked send resends a body from its start (`MsgSocket.cpp:210`), and a request counts as sent when it is built.
- MsgSocketReceiver.Receiver.Arrive: asks that every length field is between 8 and 8200, because the code does not check it; malformed lengths are not modelled.
- MsgSocketSender.Sender.Submit: asks for a request that shares no memory with those queued before, which the source's unique_ptr gives. Queueing a file stands for `transferFile`, which is a stub; a memory transfer is not queued, because its first message may announce more than its body holds.
- `getCoordL(h, vect)`, `getHex(h, dir)`: their range test is inverted against its comment (`core/hexmap.cpp:146-150`); adjacency is defined from the move table and `inRange`.
- Hexmap.Map.constructor: sets the coordinates of a hexagon; its terrain, units and wind are not modelled, nor the destructor, nor the packing of coordinates into 16-bit halves of one word.
- CircList.Elt.InsertAfter: asks for a place in a list with a head, as do InsertBefore and the moves; a ring of elements without any head is not modelled.
- CircList.Elt.InsertBefore: asks for the same.
- CircList.Elt.Truncate: asks for an empty receiving head and an entry that is an element; truncating into a list in use, moving or swapping an element with itself, appending a list to itself and using a head after it was appended are misuse of the list.
- The default (null) iterator, the post-increment forms, and the container wrappers over the same operations.
- Transfer.MemoryTransferRequest.BuildNextL2Msg: leaves the announced length of the first message unbounded, because the code does (see above).
- Fields of the transfer headers other than the position, and `transfer_id`, which no constructor sets; signedness of positions on the reading side.
- The encoding of the connection messages into message bodies; the protocol runs on the messages themselves.
- Router.ServerSocketsRouter.CreateClientConnection: asks for a descriptor from 0 to 1022, because with 1023 the inclusive word scan leaves the bitmap (`ServerClientConnection.cpp:629`).
- Router.ServerSocketsRouter.Poll: gives the lists of a round; what serving each listed socket does (errors, receptions, emissions, `ServerClientConnection.cpp:669-768`) is not modelled.
- The count of served descriptors (`nb_act`), which guards the lists of a round, and lost write flags in `ServeClientSockets`; the call of `OutgoingDataForClient` from `sendMsgToClient`.
- ClientConnection.ClientCnx.StopConnectionToServer: leaves the flush of the socket's queues to the session, where any flush is possible.
- Session.SessionSafe: takes a flush to drop any oldest part of what the client has not handled and any newest part of what the server has not handled; socket errors and disconnection exceptions are not part of the session.
- Server-initiated shutdown (unimplemented at `ServerClientConnection.cpp:446-449`), the user database, ciphering, and the copying of credential strings.
- `util/dbleList.h` (disabled), `util/MessageDescr.*`, `ww2navalwg/mp.cc`, the `.orig` files and the main loops.
