# EchoFrame verification

A model, in Dafny, of the parts of the EchoFrame RPC framework that carry state invariants, with proofs about them:

- **The byte stack.** `SKBuffer` models the cursor-based buffer of `net/buffer/MySKBuffer.h` as one heap block (packed
  head, then data) that a class updates in place. `IOBuf` and `Message` put typed reads and writes and the 20-byte
  protocol header on it. `Framing` cuts the stream into packets, for the client loop and for the server loop.
  `Channel` is the write side of the server's UDP and TCP channels.
- **`TimeoutMap`**: the map with one-second buckets from `util/MyTimeoutMap.h`.
- **Requests and threads.** `Client` holds ids, clients, loops and shards, `Sessions` the matching of answers to open
  sessions, `Reconcile` the update of a loop's clients from a new configuration, and `TaskLoop` the hand-off of
  closures to a loop thread.
- **Text and configuration.** `Text` and `Endpoint` cover split, trim, decimal numbers and the endpoint text form;
  `PropertyTree` the tree of linked nodes behind the configuration.

Each class whose fields the framework changes in place is a Dafny class. Its methods are proved against functions or
relations on values (`SKBuffer.Block`, `TimeoutMap.Index`, `PropertyTree.Store`, ...), and the laws are lemmas about
those, over every input and every run. `Bytes`, `Sequences` and `Ordering` hold shared definitions.

## What the proofs found

Each point below is a property that the code does not have in general. For each there is an input on which it fails
and the condition, for all inputs, under which it holds.

- Growing a buffer copies `capacity_` bytes counted from inside the head, so the last 8 data bytes stay behind
  (`net/buffer/MySKBuffer.h:252`). `GrowthKeepsContentsIff` gives the exact condition, `DefaultBufferLosesItsTail` a
  read buffer of the default capacity that has taken 16 full reads of 1024 bytes.
- A request is granted one doubling and no more, so the space handed out can reach beyond the end of the block.
  `PreparedValid` says exactly when it does not; asked for 40000 bytes, an empty buffer of the default capacity hands
  out such space (`LargeRequestLeavesBlock`).
- The datagram queue of a UDP channel lives in such a buffer. `GrowthKeepsQueueIff` says exactly which growths every
  queue survives. `FullQueueGetsStuck` is one that it does not survive, in a block of any size, the default one of
  every channel included: `onWrite` then offers a damaged response, one that nobody sent, and takes the
  encoding-error branch; `FailureRepeats`: from there on it consumes nothing until more bytes arrive.
- `handlePacket` lets the exception of `decode` out, and nothing catches it on the client side. The client loop hands
  over all packets of a stream exactly when each has room for the 20-byte header (`HandlesAllIff`);
  `ShortPacketThrows` is a stream on which a whole frame behind a short packet is never handed over. On the server the
  dispatcher runs in the executor, whose tasks keep their exceptions, so its loop goes on.
- `isPacketComplete` calls 1 to 4 buffered bytes complete, with length 0. The client loop breaks there; the server loop
  neither consumes nor leaves. `ServerReturnsIff` says exactly on which streams `handlePackets` returns,
  `ServerHangsOnOneByte` is one on which it does not.
- Re-inserting a live key of the timeout map leaves the key in its old bucket too (`ExactKeptIff`), so it can expire
  early (`StaleKeyExpiresEarly`). `ExpiryIsFilterIff`: expiries remove just the entries from before their cutoff exactly
  if no bucket lists a live key under an earlier second than its own, and `ListsEarlyIff` says exactly which operations
  bring such a listing about.
- An update of the timeout map can leave an empty bucket (`NoEmptyBucketKeptIff`), and the index that the random pick
  draws below the bucket count can then be past the last entry: at once (`UpdateBreaksPick`) or after an expiry
  (`ExpiryBreaksPick`). `PickKeptIff` says for every operation exactly when the pick stays in range.
- An empty function in a loop's public queue ends the drain and can strand the closures behind it
  (`EmptyTaskStrands`). `CoveredIff`: this is possible exactly if an empty one is pushed that is not the last;
  `RunInThreadOrImmediate` itself never queues one.
- With more than one loop, `initialize` may look for old clients in another loop than the one to which it adds new
  ones. `ReconcilesIff` says exactly for which names and numbers of loops it reconciles, `OtherLoopResult` what happens
  otherwise: clients for addresses that are connected already, several for one address, and all once more at the next
  update.
- The text form of an endpoint gives the endpoint back exactly for the hosts and names of `RoundTripIff`, and not for
  an empty name (`EmptyNameIsLost`).
- A session is found by its response exactly when nothing with its request id happened since it was added
  (`FoundIff`). Two sessions of one client and one second share an id, and the response to the first selects the
  second (`SharedIdHidesSession`).

## Conventions

- Integers are unbounded; where `uint32_t` wrap-around can be reached (the room test of the buffer, the expiry cutoff,
  uids, request ids, array indices) it is written out. The native-order copy of an integer is taken as little-endian.
- The bytes that `malloc` returns and `memset` does not reach are arbitrary.
- The socket takes any number of bytes, or fails, at every call; the clock is a parameter; a mutex-protected operation
  is one step. A thrown `MyException` is an error result.
- Map keys of the timeout map and values are of any type, with the key order as a parameter.

## Model

| member | source | states |
|---|---|---|
| SKBuffer.RunIsQueue | net/buffer/MySKBuffer.h:74-193 | In every run of writes and reads that stay within what was granted and lose nothing in a growth, the bytes inside and written equal the bytes handed out and left, in order: a FIFO queue across rewind, compaction and growth |
| SKBuffer.StepIsQueueStep | net/buffer/MySKBuffer.h:104-184 | One write or read keeps "contents plus input equals output plus contents" |
| SKBuffer.GrowthKeepsContentsIff | net/buffer/MySKBuffer.h:247-261 | A growth keeps the contents, whatever they and the new memory are, if and only if nothing is buffered or the write cursor is at least 8 short of the capacity |
| SKBuffer.GrowthLosesContents | net/buffer/MySKBuffer.h:247-261 | For every block outside that condition there are data whose contents the growth changes |
| SKBuffer.DefaultBufferLosesItsTail | net/client/MyClient.cc:200-222 | A full default buffer that is asked for the next 1024 bytes has its last 8 bytes replaced by zeros |
| SKBuffer.PreparedValid | net/buffer/MySKBuffer.h:131-153 | After a request the capacity is the old one or its double, and the requested bytes fit behind the write cursor exactly under the stated test on the old block, with the uint32_t room test as it wraps |
| SKBuffer.PreparedCursors | net/buffer/MySKBuffer.h:131-153 | Capacity and cursors after a request, from those before it: where they are if the wrapped end of the request is within the capacity (an empty buffer starts over), compacted if all fits that way, and otherwise in a block of double capacity |
| SKBuffer.PreparedKeepsContents | net/buffer/MySKBuffer.h:131-153 | A request under the growth condition leaves the contents as they were |
| SKBuffer.LargeRequestLeavesBlock | net/buffer/MySKBuffer.h:131-153 | 40000 bytes asked of an empty default buffer: the capacity doubles once and the space granted reaches beyond it |
| SKBuffer.CapacityBound | net/buffer/MySKBuffer.h:247-290 | In every run the capacity is the initial one doubled some number of times, and once grown it is below twice the largest buffered-plus-requested amount |
| SKBuffer.MySKBuffer.Readable | net/buffer/MySKBuffer.h:74-87 | Null exactly on an empty buffer; otherwise the pointer shows the oldest bytes, clipped to what is there |
| SKBuffer.MySKBuffer.GetReadableAndMove | net/buffer/MySKBuffer.h:104-122 | The same, and exactly those bytes are consumed |
| SKBuffer.MySKBuffer.Writeable | net/buffer/MySKBuffer.h:131-153 | The block becomes the prepared one; memory is replaced only by a growth |
| SKBuffer.MySKBuffer.GetWriteableAndMove | net/buffer/MySKBuffer.h:162-184 | As writeable, with the write cursor moved behind the granted space |
| SKBuffer.MySKBuffer.Sort | net/buffer/MySKBuffer.h:224-242 | In place: contents to the front and zeros in all of the rest, or nothing when they are in front already |
| SKBuffer.MySKBuffer.Incr | net/buffer/MySKBuffer.h:247-261 | The new block is the transplanted and compacted old one, over memory of which only the memset part is known |
| SKBuffer.MySKBuffer.InitHead | net/buffer/MySKBuffer.h:277-290 | memset clears as many bytes as the capacity counted from the head, so the last 12 data bytes are unset |
| SKBuffer.MySKBuffer.Append | net/buffer/myIOBuf.h:209-219 | Request, copy and move are one write step of a run; without growth they only append in place |
| SKBuffer.MySKBuffer.Reset | net/buffer/MySKBuffer.h:213-217 | Cursors at zero and all data cleared |
| IOBuf.MyIOBuf.WriteLE | net/buffer/myIOBuf.h:183-193 | The little-endian bytes of the value follow the earlier contents |
| IOBuf.MyIOBuf.WriteBytes | net/buffer/myIOBuf.h:209-219 | The bytes follow the earlier contents whenever the request loses nothing |
| IOBuf.MyIOBuf.ReadLE | net/buffer/myIOBuf.h:221-231 | The value of the next n bytes, consumed; a short read fails and uses up what was there |
| IOBuf.MyIOBuf.ReadBytes | net/buffer/myIOBuf.h:245-255 | The next n bytes, consumed; a short read, and any read of an empty buffer, fails and uses up what was there |
| IOBuf.MyIOBuf.PeekLE | net/buffer/myIOBuf.h:233-243 | The same value and the same failures as a read, with nothing consumed |
| Bytes.FromToLE | net/buffer/MyIOWriter.h:28-30 | Reading the bytes of a value that fits gives the value back |
| Bytes.ToFromLE | net/buffer/MyIOReader.h:30-34 | Writing the value of some bytes gives the bytes back |
| Message.DecodeEncode | net/protocol/MyMessage.cc:10-39 | decode of encode returns every field and the payload, for all field values in range |
| Message.EncodeDecode | net/protocol/MyMessage.cc:10-39 | encode of decode returns the packet, for every packet of at least 20 bytes |
| Message.Layout | net/protocol/MyMessage.cc:10-25 | Each field at its bytes: length at 0-3, flag at 4, version at 5-6, the request mark at 7 as a signed byte, request id at 8-15, server number at 16-19, and then the payload |
| Message.MarkedAsAnswer | net/magic/MyMagicDispatcher.cc:36-40 | Decoding a packet, marking it as answer and encoding it again changes byte 7 to 0 and no other byte |
| Message.MyMagicMessage.Encode | net/protocol/MyMessage.cc:10-25 | The encoding fills its buffer to the last byte, without compaction or growth |
| Message.MyMagicMessage.Decode | net/protocol/MyMessage.cc:27-39 | Fails exactly below 20 bytes and then uses the input up; otherwise the fields are set and the rest becomes the payload without being consumed; with no rest an earlier payload stays |
| Framing.FramesIsTheCut | net/client/MyProxy.cc:107-150 | The loop's packets and residual are the only cut of the stream in which each packet has the length read at its start and the residual cannot be cut |
| Framing.FramesConserve | net/client/MyProxy.cc:107-150 | Packets in order and then the residual are the stream |
| Framing.FramesAppend | net/client/MyProxy.cc:107-150 | Bytes that arrive later only add packets: the cut of a longer stream continues from the residual |
| Framing.HandleIs | net/client/MyProxy.cc:107-150 | The loop with its handler, which throws on a packet without a whole header: what it hands over are the stream's packets up to and including the first short one, it ends by exception exactly if there is one, and otherwise it leaves the residual |
| Framing.HandlesAllIff | net/client/MyProxy.cc:107-150 | It hands over all packets of the stream and leaves its residual if and only if every packet that is cut has at least 20 bytes |
| Framing.HandleConserves | net/client/MyProxy.cc:107-150 | With or without an exception, the packets handed over and what is left are the stream |
| Framing.UpToShortEnds | net/client/MyProxy.cc:224-227 | Of the packets handed over only the last can be short, and it is if any packet of the stream is |
| Framing.ShortPacketThrows | net/client/MyProxy.cc:224-227 | Behind a packet of 5 bytes a whole frame is cut from the stream but never handed over |
| Framing.ChunkingInvariance | net/client/MyProxy.cc:107-150 | For every byte stream and any two ways of cutting it into chunks, with the loop after each chunk until one throws: the same packets are handed over, up to the first short one, both throw or neither does, and without a short packet both leave the residual of the whole stream |
| Framing.ReadRunIsFrames | net/client/MyProxy.cc:83-152 | Every run of reads and loops over the read buffer whose requests lose nothing hands over the packets of all bytes that arrived, up to the first short one, throws exactly if there is one, and otherwise holds their residual |
| Framing.ReadRunCuts | net/client/MyProxy.cc:83-152 | In the middle of such a run, packets handed over and the cut of what is buffered are the cut of all bytes so far |
| Framing.RunsJoin | net/client/MyProxy.cc:83-152 | Successive calls, none of which throws but the last, are one run; the bytes that arrived and the packets handed over add up |
| Framing.JoinIs | net/client/MyProxy.cc:83-152 | There is such a run for every two of which the second starts where the first ended |
| Framing.PacketsAreCut | net/protocol/MyMessage.cc:97-111 | Every packet cut from any stream is non-empty and has the length that it shows |
| Framing.FramesOfFrames | net/protocol/MyMessage.cc:97-111 | A concatenation of frames that say their own length, and a residual that cannot be cut, is cut into just these |
| Framing.EndToEnd | net/protocol/MyMessage.cc:10-39 | Any list of well-formed messages, encoded one behind the other and delivered in any chunks, is decoded as the same list with nothing left over |
| Framing.ServerReturnsIff | net/server/MyServant.cc:91-146 | handlePackets returns if and only if the rest behind the last whole packet is empty, or longer than 4 bytes with first four bytes that are not all 0; it then dispatched the packets of the client loop and left the residual |
| Framing.ServerOnFrames | net/server/MyServant.cc:91-146 | On whole frames followed by nothing or by an incomplete frame it returns, having dispatched exactly those frames in order and left exactly the residual |
| Framing.ServerHangsOnOneByte | net/server/MyServant.cc:120-129 | With one byte buffered no number of rounds ends the loop |
| Framing.FewBytesHang | net/protocol/MyMessage.cc:97-111 | With any 1 to 4 bytes buffered no number of rounds ends the server loop, and the client loop breaks with nothing handed over and all of it left |
| Framing.PacketSource.Receive | net/client/MyClient.cc:207-212 | Room for one read, the bytes the socket delivers, and the cursor moved by just these: one write step of a run |
| Framing.PacketSource.Fetch | net/client/MyClient.cc:37-42 | The next bytes, clipped, in an independent buffer, consumed from this one |
| Framing.PacketSource.ClientLoop | net/client/MyProxy.cc:107-150 | Terminates on every buffer; packets handed on, bytes left and the exception are those of the loop function on what was buffered, and only the read cursor moved |
| Framing.PacketSource.ReadAll | net/client/MyClient.cc:200-222 | The read loop, up to and including the request that yields nothing, is a run of write steps over the block |
| Framing.PacketSource.OnRead | net/client/MyProxy.cc:83-152 | All reads until one fails and then the loop, or no loop when the connection failed or was closed, are a run of reads and loops, with just its packets and its exception |
| Framing.PacketSource.ServerPackets | net/server/MyServant.cc:91-118 | On the inputs on which it returns, the same packets and residual as the client loop |
| Channel.MyUdpChannel.SendResponse | net/server/MyChannel.cc:243-256 | Length and response are one write step on the buffer. As long as that loses nothing, which a test on the block guarantees, length and response follow what was buffered, the buffer is the concatenation of the length-prefixed waiting responses, and everything accepted was offered by a send loop of its own or waits, in order |
| Channel.MyUdpChannel.OnWrite | net/server/MyChannel.cc:197-237 | On every buffer: terminates, and what it offers, what it leaves and whether it takes the encoding-error branch is the drain function of the bytes. On a queue that no growth has damaged it never takes that branch and offers all waiting responses in order but for an empty one at the very end, which stays |
| Channel.DrainOfQueue | net/server/MyChannel.cc:197-237 | Draining the encoding of a queue offers its responses in order, never fails, and leaves at most an empty last one |
| Channel.FailureRepeats | net/server/MyChannel.cc:213-216 | After an encoding error the next drain of what is left fails at once and consumes nothing |
| Channel.GrowthKeepsQueueIff | net/server/MyChannel.cc:243-256 | For every block that must grow and can hold a queue: all queues of that size survive, whatever the new memory holds, if and only if nothing waits, the write cursor is at least 8 short of the capacity, or one empty response waits outside the part of the new memory that is unset |
| Channel.GrowthBreaksQueue | net/server/MyChannel.cc:243-256 | Outside that condition there are a queue and a memory with which the growth damages it |
| Channel.FullQueueGetsStuck | net/server/MyChannel.cc:243-256 | A non-empty response of any size and a second one of 3 bytes fill the block, and 5 bytes more are sent: what is drained then is the first with its last byte replaced by zero, an empty response, and the encoding error. With 16373 bytes the block is the default one |
| Channel.DrainFrame | net/server/MyChannel.cc:197-237 | A length-prefixed response in front of other bytes is offered whole, and the drain goes on behind it |
| Channel.MyUdpChannel.OfferNext | net/server/MyChannel.cc:200-235 | One round on any bytes: the encoding error exactly if the length exceeds what is buffered, and then nothing changes; else exactly the bytes of that length are consumed and offered |
| Channel.FrontOfQueue | net/server/MyChannel.cc:209-221 | The first four bytes of the buffer are the length of the oldest response, which follows them, with the other responses behind it |
| Channel.MySocket.WriteAll | net/server/MyChannel.cc:219-231 | The calls made are those of one send loop over the bytes; all bytes count as sent exactly when the calls took all of them |
| Channel.OfferedOnce | net/server/MyChannel.cc:219-231 | A send loop presents the whole response once, first, and less in every later call; no call for an empty response |
| Channel.OfferedInTurn | net/server/MyChannel.cc:200-235 | The calls that offer several responses are one send loop for each of them, in their order, one behind the other |
| Channel.OfferedDelivers | net/server/MyChannel.cc:219-231 | The bytes taken are a prefix of the response, and all of it exactly when no call failed |
| Channel.MyTcpChannel.SendResponse | net/server/MyChannel.cc:134-144 | One write step on the buffer; as long as every onWrite returned 0 and no growth lost a byte, the bytes the socket took followed by the waiting ones are all bytes accepted |
| Channel.MyTcpChannel.OnWrite | net/server/MyChannel.cc:114-132 | The buffer is empty afterwards in any case; 0 is returned exactly when the socket took every byte |
| TimeoutMap.NoOverstay | util/MyTimeoutMap.h:103-261 | After any history, an expiry leaves no entry from before the cutoff |
| TimeoutMap.AlwaysCovered | util/MyTimeoutMap.h:103-261 | In every history each live key is in the bucket of its current timestamp |
| TimeoutMap.EntryIsLastPut | util/MyTimeoutMap.h:103-240 | In every history a live key has the value of the last insert or replace of it and the second of the last insert, touch or replace of it |
| TimeoutMap.ExactKeptIff | util/MyTimeoutMap.h:103-117 | Buckets and timestamps keep agreeing under every operation except an insert over a live key of another second, under which they never do |
| TimeoutMap.ExpiryIsFilterIff | util/MyTimeoutMap.h:220-240 | On every covered index: every expiry removes exactly the entries from before its cutoff, if and only if no bucket lists a live key under a second before its own timestamp |
| TimeoutMap.ListsEarlyIff | util/MyTimeoutMap.h:103-240 | On every covered index without such a listing, for every operation: one comes about exactly when an insert or update puts a key at a second while a bucket before it goes on listing the key, its own bucket counting for an insert only |
| TimeoutMap.FreshRunIsExact | util/MyTimeoutMap.h:103-311 | Runs that insert only absent keys keep buckets and timestamps in agreement in both directions |
| TimeoutMap.ExactExpiry | util/MyTimeoutMap.h:220-240 | Then an expiry removes exactly the entries from before the cutoff and keeps the others as they were |
| TimeoutMap.ExactCalls | util/MyTimeoutMap.h:220-240 | Then the expiry function runs once per removed entry, with that entry's own value, ordered by timestamp and then by key |
| TimeoutMap.CallsPerListing | util/MyTimeoutMap.h:220-240 | On any index an expiry makes as many calls as the buckets before the cutoff list keys |
| TimeoutMap.CallsOverAny | util/MyTimeoutMap.h:220-240 | On any index each listed key gets one call per listing: the first with the value of its entry if it has one, every other without value |
| TimeoutMap.StaleKeyExpiresEarly | util/MyTimeoutMap.h:103-117 | A key inserted at 1 and again at 5 is gone after an expiry up to 3 |
| TimeoutMap.BucketCountBound | util/MyTimeoutMap.h:86-95 | With agreement and no empty bucket there are no more buckets than entries |
| TimeoutMap.NoEmptyBucketKeptIff | util/MyTimeoutMap.h:124-205 | Only an update to another second can leave an empty bucket, and does so exactly when the old bucket held no other key |
| TimeoutMap.PickInRange | util/MyTimeoutMap.h:69-95 | In runs of fresh inserts, erases, first-moves and expiries no bucket is empty and every drawn index is in range |
| TimeoutMap.PickKeptIff | util/MyTimeoutMap.h:69-240 | From every covered index on which each draw is the rank of an entry or nothing is drawn, also with empty buckets and stale keys, and for each of the six operations: that is still so if and only if the stated test on the index before holds, about the bucket of the second, the entry and bucket counts, and what is due |
| TimeoutMap.UpdateBreaksPick | util/MyTimeoutMap.h:124-145 | One entry in its bucket, updated in a second without bucket: the pick is out of range |
| TimeoutMap.ExpiryBreaksPick | util/MyTimeoutMap.h:220-240 | Two entries of second 1 and one touched from 5 to 6: in range, until an expiry removes the two |
| TimeoutMap.MyTimeoutMap.SetTimeout | util/MyTimeoutMap.h:268-270 | Only the timeout of later expiries changes |
| TimeoutMap.MyTimeoutMap.Find | util/MyTimeoutMap.h:53-62 | The value of a live key, none of any other, whatever the buckets list |
| TimeoutMap.MyTimeoutMap.Insert | util/MyTimeoutMap.h:103-117 | The entry under the key becomes the new value and the second, also over a live key, and the key joins the bucket of that second |
| TimeoutMap.MyTimeoutMap.Touch | util/MyTimeoutMap.h:124-145 | An absent key changes nothing; a present one moves to the bucket of now with its value kept |
| TimeoutMap.MyTimeoutMap.Replace | util/MyTimeoutMap.h:153-176 | As touch, and the entry gets the new value; an absent key changes nothing |
| TimeoutMap.MyTimeoutMap.Erase | util/MyTimeoutMap.h:183-205 | The removed value, or none; an emptied bucket goes too |
| TimeoutMap.MyTimeoutMap.MoveFirst | util/MyTimeoutMap.h:69-79 | Removes and returns the entry whose key is below every other key; nothing on an empty map |
| TimeoutMap.MyTimeoutMap.Random | util/MyTimeoutMap.h:86-95 | The entry at the drawn rank; the walk stays inside the map exactly when the draw is below the number of entries, and for every draw when the index is in range |
| TimeoutMap.MyTimeoutMap.DoTimeout | util/MyTimeoutMap.h:220-240 | The nested loops leave what a removal of all keys listed before the cutoff leaves, and call the expiry function for each listed key in bucket and key order, on any index |
| Client.RequestIdNamesClient | net/client/MySession.h:69-75 | The upper half of a request id is the uid of its client, for every 32-bit uid and every second |
| Client.RequestIdsDiffer | net/client/MySession.h:69-75 | The lower half of a request id is the second, and two ids are equal if and only if client and second are, so that sessions of different seconds never share one |
| Client.UidParts | net/client/MyClient.cc:84-87 | The servant id can be read back from every uid; two descriptors give the same uid exactly when they agree modulo 2^16 |
| Client.ClientLoop.FindAt | net/client/ClientLoop.cc:24-35 | The first client in uid order at the host and port, none only if there is none |
| Client.ClientLoopManager.AddClient | net/client/ClientLoop.h:130-147 | The client joins the loop whose index is the low 16 bits of its uid modulo the number of loops, which is where a lookup of it goes, and nothing else changes there |
| Client.ClientLoopManager.FindClient | net/client/ClientLoop.h:130-157 | Finds what that loop has under the uid; nothing without loops |
| Client.ClientLoopManager.RemoveClient | net/client/ClientLoop.h:130-168 | The uid leaves that loop, and the other clients of the loop stay |
| Sessions.AnswerFindsSession | net/client/MyProxy.cc:224-245 | For any registered client with a 32-bit uid and any open session of it, the request, heartbeat or data, framed, answered by the dispatcher and framed again, decodes to an id under which the lookup finds this client and its map this session |
| Sessions.RequestFields | net/client/MyProxy.h:265-293 | The request of a session: whole length, version 1, marked as request, its id and its payload |
| Sessions.AnswerMeaning | net/magic/MyMagicDispatcher.cc:19-61 | The answer to a heartbeat is the request with byte 7 replaced by 0; to anything else a frame with the length of header and payload, flag 0, not a request, the id, version and server number of the request, and the bytes of the handler as payload |
| Sessions.MyMagicDispatcher.DispatchPacket | net/magic/MyMagicDispatcher.cc:19-61 | Throws exactly on a packet without a whole header. A heartbeat (flag 1) returns 0 and is answered; any other request returns what the handler does, and is answered exactly if that is 0 and an answer is needed. The answer is that of `AnswerMeaning`, from the bytes of request and handler |
| Sessions.HandlePacket | net/client/MyProxy.cc:224-272 | Throws exactly on a packet without a whole header, with nothing changed. Else the selected session leaves its client's map and gets the answer if the flag is heartbeat or data: the packet step of the session machine |
| Sessions.OpenSession | net/client/MyProxy.h:233-254 | The upper half of the new session's id is the client's uid and the lower half the second; the session replaces any other under that id. Without a client it belongs to none, and without an encoded payload there is no session and nothing changes |
| Sessions.OnSessionTimer | net/client/MyClient.cc:44-56 | The timer's own session is notified if it still exists, and whatever session has its id leaves the map of the client that still exists |
| Sessions.DeliveredOnce | net/client/MyProxy.cc:237-271 | In every interleaving of adds, packets and timers, also with shared ids, a session's success is handed on at most once and never after its own timer |
| Sessions.NoticesIff | net/client/MyProxy.cc:237-271 | A session is notified of success if and only if a packet with flag 0 or 1 came while it was the one under the id of the packet, and of its timer if and only if that ran |
| Sessions.HolderIsOpen | net/client/MyClient.cc:16-35 | The session under an id is that of the last event with this id, if that was an add |
| Sessions.FoundIff | net/client/MyClient.cc:16-56 | A session can still be found if and only if no event with its request id followed its add |
| Sessions.SharedIdHidesSession | net/client/MySession.h:69-75 | Two sessions of one client in one second: only the second can be found, and gets the response |
| Reconcile.Initialize | net/client/MyProxy.cc:172-221 | The tables of all loops become those of the update function for the searched loop and the home loop, also when the uid of a new socket is taken; every client is a new object or the same as before, and the latter under each old uid if the new ones are fresh |
| Reconcile.SameLoopResult | net/client/MyProxy.cc:181-219 | With one loop for both, afterwards the addresses are the wanted ones already there and the ones it can create; clients at wanted addresses stay, all others are gone, and a new client shares its address with no other however often it is configured |
| Reconcile.SameLoopAddresses | net/client/MyProxy.cc:181-219 | Address by address: with one loop for both it is there afterwards if and only if it is configured, and was there before or has an entry of type 0 (tcp) or 1 (udp); an entry of any other type adds none |
| Reconcile.OtherLoopResult | net/client/MyProxy.cc:181-219 | With two, the searched loop keeps its clients at wanted addresses and gets none; the other one gets a client for every known entry whose address the searched loop lacks, whatever it has itself; a second update creates all of these again |
| Reconcile.OtherLoopResultIff | net/client/MyProxy.cc:181-219 | For each table and configuration, the result of the one-loop case holds with two loops exactly if there was nothing to create |
| Reconcile.ReconcilesIff | net/client/MyProxy.cc:172-178 | For every servant name and number of loops: all updates of all configurations have that result if and only if the two remainders of the name's hash pick the same loop, which they always do with one loop and do not for a hash of 0xFFF with two |
| Reconcile.LoopsAre | net/client/MyProxy.cc:18-37 | The searched loop is the name's hash, as uint32_t, modulo the number of loops; the home loop is the hash modulo 0xFFF modulo that number, and the one to which the lookup of the new client's uid goes |
| Reconcile.JoinedMeaning | net/client/MyProxy.cc:35-37 | The new clients are as many as the lacking entries, one under each new uid, and the old ones are as they were |
| Reconcile.LackingCount | net/client/MyProxy.cc:203-217 | An address gets one new client for each of its entries of type 0 or 1, and none if it is present |
| Reconcile.AllKnownMeansConfigured | net/client/MyProxy.cc:203-218 | If every entry is of type tcp or udp, the addresses of the one-loop case are exactly the configured ones |
| Reconcile.RemoveUnwanted | net/client/MyProxy.cc:183-200 | The clients that stay are exactly those at a configured address, as the same objects |
| Reconcile.AddMissing | net/client/MyProxy.cc:203-217 | A client is created exactly for type tcp or udp and an address that the searched loop does not have; it joins the home loop under the uid of its socket, with the configured host and port |
| TaskLoop.NoLostTask | net/ev/MyLoop.h:40-58 | In every interleaving of pushes, signals and drains of non-empty closures, whatever waits has a signal pending, a drain running or a producer about to signal, and what ran and waits is what was pushed, in order |
| TaskLoop.QuiescentMeansAllRan | net/ev/MyLoop.h:142-155 | When no thread has a step left, every pushed closure ran once and in queue order |
| TaskLoop.BoundedWork | net/ev/MyLoop.h:40-58 | Without further pushes only a bounded number of steps is possible, so that state is reached |
| TaskLoop.CoveredIff | net/ev/MyLoop.h:40-58 | For any pushes from the idle loop: what waits has a wake-up on its way in every interleaving of them with signals and drains, if and only if none but the last is an empty closure |
| TaskLoop.StrandingRun | net/ev/MyLoop.h:40-58 | For all other pushes there is such an interleaving that strands what is behind the first empty closure |
| TaskLoop.EmptyTaskStrands | net/ev/MyLoop.h:42-50 | An empty closure followed by another one leaves the second waiting with no wake-up on its way |
| TaskLoop.DrainIsPops | net/ev/MyLoop.h:42-50 | An uninterrupted drain runs the closures in front of the first empty one and keeps what is behind it |
| TaskLoop.MyLoop.OnQueueSignal | net/ev/MyLoop.h:40-58 | The callback does the same on the loop object, clears the signal, and leaves the loop exactly if it was stopped |
| TaskLoop.MyLoop.RunInThreadOrImmediate | net/ev/MyLoop.h:142-155 | On the loop thread the closure runs now, ahead of the queue; elsewhere it is queued last and signalled |
| TaskLoop.MyLoop.Stop | net/ev/MyLoop.h:125-129 | The exit flag is set and the queue signalled, so that the next callback leaves the loop |
| TaskLoop.MyThreadQueue.PopFront | util/MyQueue.h:99-125 | The oldest element, or false at once on an empty queue |
| TaskLoop.MyThreadQueue.PushFront | util/MyQueue.h:148-155 | The element goes in front of the queue |
| TaskLoop.MyThreadQueue.PushBackAll | util/MyQueue.h:135-146 | A batch goes behind the queue in its own order |
| TaskLoop.MyThreadQueue.PushFrontAll | util/MyQueue.h:157-169 | A batch goes in front of the queue in reverse order |
| Text.Split | util/MyCommon.h:300-326 | The loop returns the tokens of the string |
| Text.TokensAppend | util/MyCommon.h:300-326 | What is left and right of a delimiter is split on its own |
| Text.TokensOfWord | util/MyCommon.h:300-326 | A string without delimiter is one token, the empty string none |
| Text.TrimmedLeftMeaning | util/MyCommon.cc:18-33 | Copies of the pattern are taken off the front until none is left there |
| Text.TrimmedRightMeaning | util/MyCommon.cc:35-50 | Copies of the pattern are taken off the end until none is left there |
| Text.TrimLeft | util/MyCommon.cc:18-33 | The erasing loop computes that string |
| Text.TrimRight | util/MyCommon.cc:35-50 | The erasing loop computes that string |
| Text.TrimmedMeaning | util/MyCommon.cc:18-50 | A string is its trimmed form with copies of the pattern in front and behind, and the trimmed form neither begins nor ends with the pattern |
| Text.LowerIs | util/MyCommon.h:411-416 | Character by character: codes 65 to 90 are raised by 32, all others stay |
| Text.FromToDecimal | util/MyCommon.h:117-121 | The decimal text of a number has that value |
| Text.DecimalDigits | util/MyCommon.h:117-121 | Digit by digit: a number below ten is one of 0123456789, ten times a number plus a digit is its text with that digit behind, and the value of a text goes the same way |
| Text.StrToDecimal | util/MyCommon.h:160-177 | Parsing the decimal text of a number that fits the type gives the number |
| Text.StrToMeaning | util/MyCommon.h:160-177 | Blanks, a sign, digits and anything else behind them: the value of the digits, from 2^64 down behind a minus sign, and 0 where 64 bits or the type cannot hold it |
| Text.StrToNothing | util/MyCommon.h:160-177 | Without a digit behind blanks and sign the result is 0 |
| Endpoint.RoundTripIff | net/MyGlobal.cc:13-69 | StringToEndpoint undoes EndpointToString if and only if host and name are non-empty and free of spaces and the host has no upper-case letter, for every port and timeout in range |
| Endpoint.EmptyNameIsLost | net/MyGlobal.cc:13-69 | An endpoint without a name does not come back |
| Endpoint.TokensReturn | net/MyGlobal.cc:13-69 | With host and name that are non-empty and free of spaces an endpoint comes back with its host in lower case, and otherwise as it was |
| Endpoint.ProtocolInAnyCase | net/MyGlobal.cc:21-34 | The protocol is read in lower case, whatever follows it |
| Endpoint.DefaultStands | net/MyGlobal.cc:16-34 | The empty text, and every text that begins with another token than tcp, udp or unix in any case, give tcp with port 3000 and nothing else set |
| Endpoint.ProtocolAlone | net/MyGlobal.cc:21-34 | A protocol alone gives that protocol, port 3000 and nothing else set |
| Endpoint.LastOptionWins | net/MyGlobal.cc:36-48 | One more option behind others sets its field and no other: h the host in lower case, p and t port and timeout as 16 and 32-bit numbers, n the name as written, a letter in either case the same, any other letter nothing |
| Endpoint.StringToEndpoint | net/MyGlobal.cc:13-51 | The loop sets the options pair by pair, and reads past the tokens exactly when an option has no value |
| Endpoint.EndpointToString | net/MyGlobal.cc:53-69 | The appends build the text form |
| Endpoint.TextIs | net/MyGlobal.cc:53-69 | The text spelled out: protocol, -h host, -p port, -n name, -t timeout, with a blank behind each |
| Endpoint.TextTokens | net/MyGlobal.cc:53-69 | The tokens of any endpoint's text, whatever its host and name are |
| Endpoint.OptionsSettable | net/MyGlobal.cc:36-48 | Parsing fails exactly on an odd number of option tokens, and can only leave a host and a name that are unset or a token |
| PropertyTree.GetAfterSet | util/MyPropertyTree.h:338-368 | What any get returns after a set: the value at the location, the default below it, the value of a trunk where the set created one, and the earlier result everywhere else |
| PropertyTree.SetStores | util/MyPropertyTree.h:443-466 | A set leaves a leaf of the type of its value, for each of the four types |
| PropertyTree.EmptyPath | util/MyPropertyTree.h:338-503 | Of an empty path a get gives the default, set and push_back change nothing, and the array reads fail |
| PropertyTree.SetFrame | util/MyPropertyTree.h:443-466 | No get at a location that is neither above nor below the one that was set notices the set |
| PropertyTree.PushFrame | util/MyPropertyTree.h:477-503 | No get at a location neither above nor below the one pushed to notices a push |
| PropertyTree.ArrayAt | util/MyPropertyTree.h:371-402 | After pushes onto an absent node the i-th value is the i-th pushed, and an index behind the last fails |
| PropertyTree.ArrayErrors | util/MyPropertyTree.h:371-438 | Which error the two array reads give: no node at the path, no child of the key, not an array, exactly then and in this order |
| PropertyTree.LeafTakesNoElement | util/MyPropertyTree.h:100-116 | A push onto a leaf changes nothing, and reading it as an array fails |
| PropertyTree.PushWraps | util/MyPropertyTree.h:100-116 | Behind 2^32 elements the next one takes the place of element 0, with all below it |
| PropertyTree.ArrayContents | util/MyPropertyTree.h:405-438 | get_array then returns the pushed values, each as often as pushed, in the order of their decimal indices as strings |
| PropertyTree.TenBeforeTwo | util/MyPropertyTree.h:142-153 | That order is not the order of pushing: "10" comes before "2" |
| PropertyTree.AddHolds | util/MyPropertyTree.h:100-116 | Adding to a node with children 0 to n-1 adds child n and keeps the others |
| PropertyTree.EnsurePathMeaning | util/MyPropertyTree.h:450-460 | A writing walk changes nothing that was there and adds just the missing nodes on the path, as trunks with an unset value |
| PropertyTree.MyPropertyTree.AddChild | util/MyPropertyTree.h:160-163 | The child is linked to its parent and the parent to it under its key, all links stay consistent, and an earlier child of that key goes with everything below it |
| PropertyTree.MyPropertyTree.LinksAgree | util/MyPropertyTree.h:160-163 | In a consistent tree a node is at a path exactly if its parent is and links to it under the last key, and it has that key and links back to that parent |
| PropertyTree.MyPropertyTree.FindNode | util/MyPropertyTree.h:347-355 | The walk ends at the node of the path, and at none exactly if there is none |
| PropertyTree.MyPropertyTree.MakePath | util/MyPropertyTree.h:450-460 | The creating walk ends at the node of the path in a consistent tree |
| PropertyTree.MyPropertyTree.Get | util/MyPropertyTree.h:338-368 | The value at the normalised path and key, or the default |
| PropertyTree.MyPropertyTree.Set | util/MyPropertyTree.h:443-466 | The tree stays consistent and stands for the store with path and leaf set |
| PropertyTree.MyPropertyTree.PushBack | util/MyPropertyTree.h:477-503 | The tree stays consistent and stands for the store with the element added |
| PropertyTree.MyPropertyTree.At | util/MyPropertyTree.h:371-402 | The element, or the error of the first test that fails |
| PropertyTree.MyPropertyTree.GetArray | util/MyPropertyTree.h:405-438 | The values of all children in key order, or the error of the first test that fails |

## Left out

- Sockets, libev, logging, threads and locks themselves; connecting, reconnecting and disconnecting, which `errno` and descriptors decide.
- The protobuf payloads, the route handlers, the demo protocol and `presistence/`: foreign libraries and fixed strings.
- `MyUniqueTimeoutMap`, which repeats `MyTimeoutMap`; `clear`, `size` and `empty`, which would add easy members.
- `MySingleton`, `MyFactory`, `MyVariant`, `MyRandom`, `MyFilter`, thread-pool start and stop, the XML walk of `MyConfig`.
- What becomes of the process once an exception has left the client loop: a run ends there.
- `MyIOBuf::write` and `read` of `std::string`, `reserve` and `swap`: easy members over the same buffer calls.
- C++ lifetimes: references returned by the readers, the value returned by `erase` and the key passed on by `movefirst` are taken as values.
- A timeout after a success: a session that is still in the executor can have its timer fire, so no such exclusion is claimed.
- The state of a loop after `stop`; `array_size`, `GetAllKeys`, `append` and the shared root of copied property trees.
- SKBuffer.MySKBuffer.Writeable: a growth requires that the doubled capacity is a `uint32_t` and that the length assertion inside it holds; past that the source writes outside its block.
- SKBuffer.MySKBuffer.Incr: the same.
- SKBuffer.MySKBuffer.GetWriteableAndMove: requires that the bytes fit after one doubling, which is all that the source does; a larger request moves the cursor outside the block.
- SKBuffer.MySKBuffer.Append: the same.
- IOBuf.MyIOBuf.WriteLE: the same, through its buffer.
- IOBuf.MyIOBuf.WriteBytes: the same, through its buffer.
- Channel.MyUdpChannel.SendResponse: the same, through its buffer; a growth that damages the queue is covered.
- Channel.MyTcpChannel.SendResponse: the same, through its buffer; a growth that loses bytes is covered.
- Framing.PacketSource.Receive: the same, through its buffer; it is one round of the read loop `ReadAll`.
- Framing.PacketSource.OnRead: the same for every request of its read loop; the reads and the way they end are parameters.
- Framing.PacketSource.ServerPackets: requires that the loop returns, which `ServerReturnsIff` decides; a loop that runs on is described by its rounds.
- Message.MyMagicMessage.Encode: is stated for messages whose length field is right, as all callers set it; a smaller one makes the buffer grow, under the conditions of SKBuffer.
- Message.MyMagicMessage.Decode: requires that the payload fits into the buffer created from the length field, as it does for every packet that the loops cut; else the source writes outside that buffer.
- Sessions.MyMagicDispatcher.DispatchPacket: is stated for packets as the server loop cuts them; the routing inside the handler is a parameter.
- Sessions.HandlePacket: requires, as `Decode`, that the payload fits; what a handed-on success does in the executor is not modelled.
- Reconcile.SameLoopResult: takes the uids of the new sockets as new to the loop; `Initialize` does not.
- TaskLoop.MyLoop.OnQueueSignal: is one uninterrupted callback; interleavings with pushes are runs of the state machine, of which `DrainIsPops` says that it is one.
- TaskLoop.MyThreadQueue.PopFront: is the pop with a wait of 0, the one that the loop uses; a waiting pop depends on the other threads.
- Text.Split: is for a delimiter of one character and the mode that ignores blanks, which all callers use.
- Lower-casing by locale: it is taken as that of ASCII letters.
- PropertyTree.MyPropertyTree.AddChild: requires a child that does not hang in the tree yet; `PushBack` therefore hangs up a missing element before its first value is added rather than after, with the same outcome.
- PropertyTree.MyPropertyTree.PushBack: see `AddChild`.
- Text.TrimLeft: requires a pattern that is not empty, on which the loop of the source does not end.
- Text.TrimRight: the same.
- PropertyTree.MyPropertyTree.At: returns the stored variant, see `Get`.
- PropertyTree.MyPropertyTree.GetArray: returns the stored variants, see `Get`.
- PropertyTree.MyPropertyTree.Get: returns the stored variant, where a get of another type than the stored one returns an unspecified value in the source.
