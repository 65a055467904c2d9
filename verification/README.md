# A verified model of ICon7

ICon7 is an RPC transport over TCP. A message is framed, queued per peer, squeezed through a bounded
staging buffer into a socket that may take any part of a write, cut up by the network, and
reassembled on the far side. Around that path stand the tables of peers, the matching of calls with
returns, the buffers and arenas that hold frames and commands, and a small calendar. This project
models those parts in Dafny and proves what they keep.

`dafny verify dfyconfig.toml` checks all files.

## Layout

| file | models |
|---|---|
| Bits.dfy | `&`, `\|` and remainders on unsigned numbers |
| Framing.dfy, FrameStream.dfy | the frame header codec; what a byte stream of frames means |
| FrameDecoder.dfy | the incremental decoder |
| TcpPeer.dfy | the sender: two queues, staging buffer, partial writes |
| EndToEnd.dfy | sender, network and decoder together, over every run |
| Chains.dfy, FlatHashMap.dfy | the chained hash table |
| RpcCalls.dfy | call ids, pending callbacks, returns and timeouts, on top of that table |
| RemoteCall.dfy | a call from its callback through its frame to the answer |
| PeersToFlush.dfy, PeerTables.dfy | the sparse flush set; slots, versioned handles, per-host arrays |
| FlushLoop.dfy | which peers are flushed; the shrinking backward sweep |
| Lifecycle.dfy | open, close, end, timeout and disconnect events |
| ByteBuffer.dfy, FrameSharing.dfy | growable buffers with headroom; reference-counted frames |
| CommandsBuffer.dfy, CommandsBufferHandler.dfy, CommandExecutionQueue.dfy | the command arena, batching, draining |
| Calendar.dfy | day numbers and dates |

Where the source updates an object, the model is a class whose methods are proved against its
abstract value. Whole runs are compared with a protocol: a relation between plain snapshots of the
state, one event at a time, of which the methods are proved to be steps, and about whose traces the
safety properties are proved. Heavy facts are proved as lemmas on plain values, and methods hide the definitions
they do not need.

The outside world is nondeterministic: `us_socket_write` takes any prefix of the data or fails, the
network delivers the bytes in order but cut anywhere, bulk dequeue returns any number of queued
commands while others are added, the allocator returns at least what was asked for, and the hash and
the random entry of the timeout check are arbitrary. Closing a socket calls its close handler once,
as the socket library does. Numbers are unbounded except where the code relies on 32 bits: header
words, negative lengths, handle versions, call ids, table masks, and arena offsets wrap as in the
source.

## What the code does not promise

These are places where a property one would expect holds only under a condition; each has a lemma
that states the condition exactly.

- The length field of a frame survives the header exactly for bodies of at least one byte: an empty
  body is announced as sixteen bytes (`Framing.BodySizeRoundTrip`).
- `FlatHashMap::Remove` deletes just its key exactly when the removed value gives way to the value of
  the last entry. A callback with a non-empty command handle does not, so removing it directly would
  lose the callback of the last entry (`FlatHashMaps.FlatHashMap.RemovalDeletes`,
  `RpcCalls.VacateNeeded`). Both callers empty the callback first, and then nothing is lost.
- `reserve` asserts requests below 2^30, but rounds twice, so its assertion holds exactly for
  requests up to 2^30 - 32 (`ByteBuffers.RoundedWithinLimit`).
- Writing a header into a buffer keeps its flags beside the buffer only if the header fits the headroom, and loses
  them if not; the bytes are right either way (`ByteBuffers.ByteBufferWritable.WriteHeaderIntoBuffer`).
- A handle released long ago resolves again once its slot has been released a multiple of 2^32 - 1
  times since its issue and is occupied (`PeerTables.PeerManager.Resolution`).
- A call is marked as one on the wire exactly when the flags of the caller leave the other type bit clear;
  otherwise it reads as a control sequence (`RemoteCalls.CallKindValue`).
- The 32-bit test for room in the command arena is exact unless the sum wraps, which takes a command of
  almost 2^32 bytes (`CommandArena.CommandsBuffer.CanAllocateExact`).
- `Rehash` clears heads past the end of its table exactly when it is asked for at most half of the present
  one (`FlatHashMaps.RehashGrows`); its only caller asks for twice.
- The year is guessed and corrected only upwards, so for some days before 1962, the last of 1961 first, the
  result is not a date of the calendar: the first of January minus some days (`Calendar.YMDFromTimestamp`,
  `Calendar.GuessSince1962`). Going back to the timestamp is right even then.
- An answer that comes after its call timed out ends another call if the id has come round to it by then
  (`RemoteCalls.Caller.Answer`).
- Three branches never run: the correction of the predecessor in `Remove`
  (include/icon7/FlatHashMap.hpp:199), the test for a missing block in `prepend`
  (include/icon7/ByteBuffer.hpp:159), and the larger penalty for empty polls in `Execute`
  (src/CommandExecutionQueue.cpp:199), so an idle queue is polled ten times.

## Model

| member | source | states |
|---|---|---|
| EndToEnd.Connection.Run | src/PeerUStcp.cpp:39-170 | For every run of sends, writable events, arrivals of any size, disconnects and closes: the accepted messages are exactly those sent before the first disconnect or close, the delivered ones are a prefix of them, never taken back, equal to them once drained, and no broken-decoder branch is taken |
| EndToEnd.Connection.DeliveredInOrder | src/Peer.cpp:135-149 | In every valid state what was delivered is the first part of what was sent, in order, with the same type bits and body; all of it once nothing is queued, staged or in flight |
| EndToEnd.Connection.Step | src/HostUStcp.cpp:192-225 | Each event keeps the connection valid and changes flags, queue length and accepted messages exactly as it should; no packet is withdrawn; a writable event takes a batch of 384 frames off a willing sender and leaves nothing staged; enough arrival brings the receiver up to the wire |
| EndToEnd.Connection.Settle | src/Peer.cpp:275-358 | With a socket that takes everything, n queued frames are sent by n/384 writable events, rounded up, and once all bytes have arrived every message has been delivered |
| EndToEnd.Transfer | src/Peer.cpp:275-358 | From a new connection: the peer becomes ready, any list of messages is sent, and exactly that list is delivered |
| EndToEnd.Connection.Receive | src/Peer.cpp:204-215 | A chunk cut anywhere brings the decoder to the parse of all bytes arrived so far |
| EndToEnd.ReadEncoded | src/Peer.cpp:223-244 | The receiver reads back from a frame the type and body it was made from |
| TcpPeers.TcpPeer.Send | src/Peer.cpp:135-149 | Accepts a frame at the end of the pending bytes unless the peer is disconnecting, in which case nothing changes |
| TcpPeers.TcpPeer.FlushBufferedSends | src/PeerUStcp.cpp:133-170 | Offers exactly the staged bytes, in one write, and keeps what the socket did not take; true exactly when there were some and none is left; calls with nothing staged write nothing and are counted |
| TcpPeers.TcpPeer.InternalSend | src/PeerUStcp.cpp:39-106 | Taken, staged and unsent bytes keep their order; true only when the whole frame left the queue, false only when something is left; never flushes an empty buffer, never overtakes staged bytes, and its recursion ends |
| TcpPeers.TcpPeer.SendUnsent | src/PeerUStcp.cpp:54-105 | The three ways to send (direct, staged, staged in part and retried) conserve the byte order; the first write offers exactly the bytes the staging rule names, and it succeeds exactly when every write was taken whole |
| TcpPeers.TcpPeer.SendStaged | src/PeerUStcp.cpp:80-88 | A frame whose rest fits the staging buffer goes there whole, and the buffer is offered exactly when it is full or nothing follows |
| TcpPeers.TcpPeer.SendInPieces | src/PeerUStcp.cpp:89-100 | A frame whose rest does not fit fills the staging buffer, which is offered full, and goes on exactly while the buffer is taken whole |
| TcpPeers.TcpPeer.WriteThrough | src/PeerUStcp.cpp:58-79 | A direct write advances the frame by what the socket took; it conserves order when the staging buffer is drained |
| TcpPeers.TcpPeer.DequeueToLocalQueue | src/Peer.cpp:310-323 | Refills the local queue without changing the order of queued frames; afterwards nothing newer is left behind if it was exhausted |
| TcpPeers.TcpPeer.FlushQueuedSends | src/Peer.cpp:325-358 | Conserves all bytes and pops frames from the front, at most the given number; true means the queues are empty or the number was used up, false means the current frame stays; more is announced exactly as the staging rule wants, and when the queues are emptied and the last frame had bytes to send, nothing stays staged |
| TcpPeers.TcpPeer.OnWritable | src/Peer.cpp:275-288 | The wire only grows and stays a prefix of the accepted frames; a peer that is not ready, is disconnecting or is closed writes nothing. A ready, open peer reports success exactly when every write of the event was taken whole, and then nothing is staged and 384 frames, or all, have left the queues; what stays staged is what the last write, an offer of the staging buffer, left behind, and if more frames than that stay, the write before was short as well |
| TcpPeers.TcpPeer.WriteOut | src/Peer.cpp:281-286 | The queues are flushed by one batch, and then whatever is staged is offered last, also after a frame that was held up |
| TcpPeers.TcpPeer.Drained | src/Peer.cpp:303-306 | With nothing queued and nothing staged, the wire holds exactly the accepted frames |
| Framing.BodySizeRoundTrip | src/FramingProtocol.cpp:17-77 | For sizes up to 2^28 the decoded body size equals the encoded one if and only if it is at least 1; size 0 reads as 16 |
| Framing.FirstByteRoundTrip | src/FramingProtocol.cpp:32-54 | The first byte alone gives back the header size and the two type bits, for every length |
| Framing.ShorterHeaderFails | src/FramingProtocol.cpp:17-30 | The chosen header is as short as possible: any shorter one announces too small a body |
| Framing.HeaderFields | src/FramingProtocol.cpp:37-40 | The header word is the sum of three separate bit fields, with the 32-bit wrap for size 0 |
| Framing.WriteHeader | src/FramingProtocol.cpp:32-44 | Writes exactly the little-endian header bytes and leaves the rest of the array alone |
| Framing.GetPacketBodySize | src/FramingProtocol.cpp:56-77 | The fall-through accumulation is the little-endian number of the header bytes; other header sizes give 0 |
| FrameStream.ChunkIndependence | src/FrameDecoder.cpp:34-123 | Parsing a stream in two chunks, cut anywhere, gives the frames and the rest of parsing it whole |
| FrameStream.ParseConserves | src/FrameDecoder.cpp:34-123 | The parsed frames and the rest, put together, are the input |
| FrameStream.EncodedFrame | src/FramingProtocol.cpp:79-89 | An encoded message is one complete frame, and decoding it gives the message |
| FrameStream.ParseFrames | src/FrameDecoder.cpp:34-123 | The stream of any list of messages parses to exactly their frames with nothing left |
| FrameStream.ArrivedPrefix | src/FrameDecoder.cpp:34-123 | Any prefix of a stream of messages yields frames that are a prefix of theirs, all of them when it is complete |
| FrameDecoders.FrameDecoder.PushData | src/FrameDecoder.cpp:19-131 | Pushing a chunk of any 32-bit length, also one that reads as negative, emits exactly the frames of the buffered bytes plus the chunk, keeps the rest, and takes no branch that reports a broken algorithm |
| FrameDecoders.FrameDecoder.Fill | src/FrameDecoder.cpp:53-122 | One pass ends with a complete frame, or with all data used and the sizes fixed by the buffered bytes |
| FrameDecoders.FrameDecoder.Header | src/FrameDecoder.cpp:35-51 | The header size is that of the first byte and header bytes are taken as far as data goes; its two asserts hold |
| FrameDecoders.FrameDecoder.Body | src/FrameDecoder.cpp:78-98 | Body bytes are taken up to the end of the frame and never past it; the broken branch is taken exactly for an overfull buffer |
| FlatHashMaps.RoundCapacity | include/icon7/FlatHashMap.hpp:23-34 | The least power of two from 16 up that covers the request and one and a half times the size plus five |
| FlatHashMaps.PowerOfTwoTest | include/icon7/FlatHashMap.hpp:44-45 | The bit test accepts exactly the powers of two |
| FlatHashMaps.FlatHashMap.BucketIsRemainder | include/icon7/FlatHashMap.hpp:302-306 | In every table the mask gives the remainder of the hash by the number of heads |
| FlatHashMaps.FlatHashMap.constructor | include/icon7/FlatHashMap.hpp:39-48 | A new table is valid and stands for the empty map |
| FlatHashMaps.FlatHashMap.GetElement | include/icon7/FlatHashMap.hpp:312-326 | The walk ends and finds the entry with the key and what points at it, or proves that no linked entry has the key, also while one entry is unlinked |
| FlatHashMaps.FlatHashMap.Get | include/icon7/FlatHashMap.hpp:130-143 | Finds the stored value exactly for the keys of the map |
| FlatHashMaps.FlatHashMap.Has | include/icon7/FlatHashMap.hpp:145-152 | True exactly for the keys of the map |
| FlatHashMaps.FlatHashMap.InsertOrSet | include/icon7/FlatHashMap.hpp:98-114 | The map with the key set, where an existing value decides what assignment over it leaves; the table doubles exactly when it was too full for a new key |
| FlatHashMaps.FlatHashMap.Insert | include/icon7/FlatHashMap.hpp:116-128 | The map with the new key; the other entries keep their places; re-insertion during a rehash never rehashes again |
| FlatHashMaps.FlatHashMap.Remove | include/icon7/FlatHashMap.hpp:154-222 | The map without the key, where the last entry was assigned over the removed one; the chains stay sound when the moved entry is in the same chain or in another |
| FlatHashMaps.FlatHashMap.MoveLast | include/icon7/FlatHashMap.hpp:194-221 | Moving the last entry into the hole relinks the one link to it and keeps all chains; the predecessor is never the removed entry |
| FlatHashMaps.FlatHashMap.RemovalDeletes | include/icon7/FlatHashMap.hpp:203-210 | Removal is deletion of the key if and only if the removed value gives way to the value of the last entry, or no move happens |
| FlatHashMaps.FlatHashMap.Rehash | include/icon7/FlatHashMap.hpp:224-242 | Same entries in the same places, same map, over the least sufficient power of two, and no longer too full, for every request that does not shrink the table |
| FlatHashMaps.RehashGrows | include/icon7/FlatHashMap.hpp:224-232 | The rounded capacity is not below the present one if and only if the present one is 16 or less than twice the request |
| FlatHashMaps.FlatHashMap.Clear | include/icon7/FlatHashMap.hpp:244-253 | The empty map over a table of the same size |
| FlatHashMaps.Run | tests/test_flat_hash_map.cpp:9-101 | Over every sequence of operations, of any length, that inserts only below 2^29 entries, the table agrees with a plain map: contents, size, and the value or absence every lookup reports |
| Chains.UnlinkKeeps | include/icon7/FlatHashMap.hpp:178-186 | Taking an entry out of its chain leaves sound chains for all other entries |
| Chains.RenameKeeps | include/icon7/FlatHashMap.hpp:215-221 | Giving an entry a new place and redirecting the one link to it leaves sound chains |
| Chains.PushKeeps | include/icon7/FlatHashMap.hpp:123-126 | A new entry at the head of its bucket leaves sound chains |
| Chains.ChainsPartition | include/icon7/FlatHashMap.hpp:312-326 | Every chain ends and lists exactly the entries of its bucket, once each |
| RpcCalls.RpcPeer.GetNextValidReturnCallbackId | src/Peer.cpp:360-367 | Ends while fewer than 2^32 - 1 calls are pending; returns the first id after the counter, in wrapping order, that is neither 0 nor pending |
| RpcCalls.RpcPeer.Call | include/icon7/RPCEnvironment.hpp:62-81 | Registers the callback under the first free id after the last one and changes no other pending call |
| RpcCalls.RpcPeer.OnReceiveReturn | src/RPCEnvironment.cpp:99-115 | Fires exactly the callback registered under the id, or none, and removes only that entry |
| RpcCalls.RpcPeer.CheckForTimeoutFunctionCalls | src/Peer.cpp:375-387 | Fires the inspected entry exactly when its deadline has passed, and removes only that entry |
| RpcCalls.RpcPeer.Vacate | src/OnReturnCallback.cpp:19-45 | An emptied callback gives way, so removing its entry deletes it alone |
| RpcCalls.VacateNeeded | include/icon7/Command.hpp:90-101 | With distinct non-empty callbacks, removal without emptying deletes the key alone exactly when the key is absent or stored last |
| RpcCalls.FireAccounted | src/RPCEnvironment.cpp:104-109 | Firing a pending callback moves it from pending to fired, where it had not been |
| RpcCalls.Run | src/RPCEnvironment.cpp:99-129 | Every run, of any length, is a run of the call protocol from the state before to the state after, and stops only before a call that finds 2^29 calls pending: firings and registrations are only added, one registration per call, every new firing answers a return with its id or a timeout check; each callback fires at most once, for its own call, and every other one is still pending under its id |
| RpcCalls.Step | src/RPCEnvironment.cpp:99-129 | Each event is a step of the call protocol: a call takes the next free id, a return fires what is pending under its id, a timeout check fires one pending call exactly when it is overdue |
| RpcCalls.EveryTrace | src/RPCEnvironment.cpp:99-129 | Whatever the call protocol does, callbacks are accounted for: fired once or still pending, nothing withdrawn, every firing caused by an event |
| RemoteCalls.Caller.CallSend | include/icon7/RPCEnvironment.hpp:62-81 | The callback is registered under a fresh id, and the message sent is the body with that id in its first four bytes, marked as a call; a disconnecting peer drops the message but keeps the callback |
| RemoteCalls.CallKindValue | include/icon7/RPCEnvironment.hpp:75 | The type bits are those of a call exactly when the flags of the caller do not claim the other bit |
| RemoteCalls.Caller.CallsArrive | src/RPCEnvironment.cpp:54-61 | Whatever happened on the line, a delivered call carries the id its callback was registered under |
| RemoteCalls.Caller.Answer | src/RPCEnvironment.cpp:99-115 | The answer to a delivered call ends exactly the call pending under its id, if any: its own if and only if that has not fired yet; a late answer ends another call exactly when the id has come round to it |
| FlushSets.PeersToFlush.Insert | src/PeersToFlush.cpp:12-23 | Adds the peer once; the two vectors stay inverse to each other |
| FlushSets.PeersToFlush.Remove | src/PeersToFlush.cpp:25-41 | Removes the peer by moving the last one into its place; the two vectors stay inverse to each other |
| FlushLoops.Loop.Send | src/Peer.cpp:128-149 | Exactly a live peer that is not disconnecting gets the frame, behind its earlier ones, and is scheduled; a stale handle changes nothing at all; no flush is lost |
| FlushLoops.Loop.InsertPeerToFlush | src/Loop.cpp:196-203 | Schedules exactly an idle peer |
| FlushLoops.Loop.Visit | src/Loop.cpp:181-192 | One visit, which is logged, does to its peer what a writable event does: a willing peer whose socket takes everything loses 384 frames, or all, and keeps nothing staged; a peer that is not ready or is disconnecting sends nothing; the peer is dropped from the set exactly when it has nothing left or is gone |
| FlushLoops.Loop.FlushPendingPeers | src/Loop.cpp:177-194 | The visits made are the members of the set in reverse order, once each; exactly the members are served, each as by one writable event, and nobody else sends; exactly the members with something left to send stay; nothing is accepted |
| FlushLoops.SweepRounds | src/Loop.cpp:177-194 | In every run of sweeps, k sweeps take 384 k frames off a peer that may send and whose socket takes everything; as soon as k batches cover the n frames queued at first, it has sent all it accepted and waits no more |
| FlushLoops.Loop.Open | src/HostUStcp.cpp:336-342 | A new peer takes the slot freed last, or a new one exactly when no slot is empty; its handle resolves to it, it is open, not ready and idle, and nothing else changes |
| FlushLoops.Loop.Close | src/PeerManager.cpp:56-71 | A released peer leaves the flush set with its slot, whose version is stepped and which becomes the next to be given out; nothing else changes |
| FlushLoops.Loop.OnWritable | src/HostUStcp.cpp:206-225 | A writable event serves its peer and changes nothing else: a willing peer whose socket takes everything loses 384 frames, or all, and keeps nothing staged; every busy peer stays scheduled |
| FlushLoops.Loop.Mark | src/Peer.cpp:192-196 | Becoming ready or starting to disconnect sets that flag of the peer and changes nothing else |
| FlushLoops.Loop.SendAndFlush | src/Loop.cpp:177-194 | A new ready peer whose socket takes everything has sent any list of n frames after n/384 sweeps, rounded up, and waits no more |
| FlushLoops.Loop.Run | src/Loop.cpp:177-203 | Every run of opening, readiness, sends, sweeps, writable events, disconnects and closing is a run of the loop protocol from the state before to the state after; no accepted frame or sent byte is withdrawn; in every state on the way, every live peer outside the flush set has sent all it accepted |
| FlushLoops.RunNew | src/Loop.cpp:177-203 | The same from an empty loop, so in every reachable state no flush is lost and there are as many slots as peers were ever live at one time |
| FlushLoops.SlotsBound | src/PeerManager.cpp:30-71 | In every run that starts with no slot empty, the number of slots is at every state the largest number of peers that were live at one time so far |
| PeerTables.PeerManager.Alloc | src/PeerManager.cpp:153-159 | The new peer gets the slot released last, or a new one exactly when none is empty, a resolving handle and the last place of its host's array; the tables of all hosts stay consistent |
| PeerTables.PeerManager.ManagerAlloc | src/PeerManager.cpp:30-54 | A new slot, one past the others, if and only if no slot is empty; otherwise the id freed last, which is taken off the free list; all columns grow together and free ids stay exactly the empty slots |
| PeerTables.PeerManager.Release | src/PeerManager.cpp:160-177 | Only the given slot is emptied, its id goes last on the free list, and the hole in the host's array is filled by its last peer; a handle that does not resolve changes nothing; the tables of all hosts stay consistent |
| PeerTables.PeerManager.ManagerRelease | src/PeerManager.cpp:56-71 | Empties the slot, steps its version past zero, frees its id once and takes it out of the flush set |
| PeerTables.ReleaseLinks | src/PeerManager.cpp:167-175 | Swap-removal in one host keeps every live peer of every host at the place its back-index says |
| PeerTables.AllocLinks | src/PeerManager.cpp:155-157 | Appending to one host keeps every live peer of every host at the place its back-index says |
| PeerTables.VersionStep | src/PeerManager.cpp:65-68 | After n releases the version is n modulo 2^32 - 1, plus one |
| PeerTables.PeerManager.Resolution | src/PeerManager.cpp:85-111 | A handle resolves if and only if its slot is occupied and a multiple of 2^32 - 1 releases lie since its issue; before any release, to the peer it was issued for |
| FlushLoops.HandleLife | src/PeerManager.cpp:30-111 | In every run of the loop, a handle names its peer until its slot is emptied and nothing after that, until the slot has been emptied 2^32 - 1 times; it resolves if and only if the slot is occupied and was emptied a multiple of 2^32 - 1 times |
| FlushLoops.VersionsAdvance | src/PeerManager.cpp:56-71 | In every run of the loop, the version of a slot counts modulo 2^32 - 1 how often the slot was emptied |
| Lifecycles.Hosts.Run | src/HostUStcp.cpp:140-312 | Every run of events is a run of that protocol from the state before to the state after, without the missing-peer branches: callbacks are only added, in the order of the events, at most once per peer, and exactly for the peers that were released |
| Lifecycles.RunNew | src/HostUStcp.cpp:140-312 | The same from hosts without connections; a peer is ready if and only if it was accepted or an established socket pointed at it, and disconnecting, and closed, if and only if it got its callback |
| Lifecycles.Hosts.Step | src/HostUStcp.cpp:140-312 | A known host accepts every new socket, which gets the next peer, ready exactly if it was accepted; an established socket makes the peer it points at ready; any other event finishes exactly the peers it is about, with one callback each in order, marks exactly them disconnecting and closed, closes exactly their sockets and the one it names, and leaves every other peer, socket and host array as it was |
| Lifecycles.EveryTrace | src/HostUStcp.cpp:140-312 | In every run of the connection protocol callbacks are never withdrawn, peer numbers never reused, and whoever lost its handle got a callback |
| Lifecycles.ReadyExactly | src/Host.cpp:114-127 | In every run a peer is ready if and only if it was at the start, or was accepted, or an event found its established socket pointing at it |
| Lifecycles.EveryoneGone | src/Host.cpp:129-142 | In every run exactly the peers that got their callback are disconnecting and closed, and exactly those with a socket are shared |
| Lifecycles.Hosts.Attach | src/HostUStcp.cpp:151-154 | A new socket and a new peer point at each other, the peer is last in the array of its host, and nothing else changes |
| Lifecycles.Hosts.OnCloseFinish | src/Host.cpp:129-142 | One callback and one release for the peer, which is marked disconnecting and closed, whose socket then points nowhere and whose host lists it no more; the error branch is taken exactly for a handle that does not resolve |
| Lifecycles.Hosts.ClearOnClose | src/PeerUStcp.cpp:120-126 | The peer is marked closed, and it and its socket forget each other |
| Lifecycles.Hosts.OnClose | src/HostUStcp.cpp:169-190 | The close handler finishes the peer its socket points at, or does nothing; the error branch is not taken |
| Lifecycles.Hosts.InternalDisconnect | src/PeerUStcp.cpp:108-118 | Disconnecting closes the socket of a connected peer and thereby finishes it; on a peer without a socket it sets the flags if the peer is still shared and changes nothing else |
| Lifecycles.Hosts.OnEnd | src/HostUStcp.cpp:291-312 | An end from the other side finishes the peer of the socket once, and touches nobody else, although the socket is closed afterwards |
| Lifecycles.Hosts.OnTimeout | src/HostUStcp.cpp:227-250 | A timeout finishes the peer of the socket once, and touches nobody else, whatever the socket reports |
| Lifecycles.Hosts.OnOpened | src/HostUStcp.cpp:156-166 | The peer of an opened socket is found and becomes ready, and nothing else changes |
| Lifecycles.Hosts.DisconnectAll | src/Host.cpp:54-60 | Leaves the host without peers, with one callback for each in the order of the copied array; the arrays, peers and sockets of the other hosts are as they were |
| FrameSharing.Frames.FromWritable | include/icon7/ByteBuffer.hpp:240-261 | New storage has one handle; an empty buffer gives an empty handle |
| FrameSharing.Frames.Drop | include/icon7/ByteBuffer.hpp:276-282 | Dropping a handle releases its storage exactly when no other handle holds it |
| FrameSharing.Frames.CopyAssign | include/icon7/ByteBuffer.hpp:300-315 | The target holds the storage of the source, what the target held is released exactly if nobody holds it any more, and all counters stay right |
| FrameSharing.Frames.MoveAssign | include/icon7/ByteBuffer.hpp:284-299 | The storage moves and the source is emptied, except that equal handles stay as they are; what the target held is released exactly if nobody holds it any more; all counters stay right |
| FrameSharing.Frames.TryRecycle | include/icon7/ByteBuffer.hpp:341-360 | Succeeds exactly for the sole owner and gives back the block size the storage was made with, otherwise nothing |
| FrameSharing.Run | include/icon7/ByteBuffer.hpp:41-48 | Every interleaving agrees with a reference in which a step releases exactly the storages held before and not after it: same handles, same releases in the same order; counters equal the number of handles, nothing is released twice or withdrawn, and everything unheld was released |
| ByteBuffers.RoundCapacityUp | src/ByteBuffer.cpp:120-132 | The least capacity from the request on whose block is a whole number of granules; nothing underflows |
| ByteBuffers.RoundedIdempotent | src/ByteBuffer.cpp:103-107 | Rounding a rounded capacity changes nothing |
| ByteBuffers.RoundedTight | src/ByteBuffer.cpp:120-132 | From 32 bytes on the rounded block is below three halves of the requested one |
| ByteBuffers.RoundedWithinLimit | src/ByteBuffer.cpp:103-122 | The second rounding passes the limit if and only if the request is at most 2^30 - 32 |
| ByteBuffers.ByteBufferWritable.WithCapacity | src/ByteBuffer.cpp:75-87 | At least the requested capacity behind 32 bytes of headroom, or no block for 0 |
| ByteBuffers.ByteBufferWritable.Recycled | include/icon7/ByteBuffer.hpp:346-355 | A recycled block is an empty buffer with full headroom whose capacity is the rest of the block |
| ByteBuffers.ByteBufferWritable.Clear | include/icon7/ByteBuffer.hpp:117-132 | No bytes, the same block, the full headroom back |
| ByteBuffers.ByteBufferWritable.Append | include/icon7/ByteBuffer.hpp:137-142 | The bytes followed by the new ones; within the capacity the block does not move |
| ByteBuffers.ByteBufferWritable.Prepend | include/icon7/ByteBuffer.hpp:144-174 | The new bytes followed by the old ones, in place, with the flags, exactly while the in-band header still fits in front |
| ByteBuffers.ByteBufferWritable.Resize | include/icon7/ByteBuffer.hpp:191-197 | The requested size with the common part unchanged |
| ByteBuffers.ByteBufferWritable.Reserve | include/icon7/ByteBuffer.hpp:200-218 | The same bytes with the requested capacity, in the same block when it sufficed |
| ByteBuffers.ByteBufferWritable.ReserveOrShrink | src/ByteBuffer.cpp:103-118 | A new block with the bytes that fit |
| ByteBuffers.ByteBufferWritable.WriteStorageHeader | include/icon7/ByteBuffer.hpp:246-252 | Writing the in-band header changes no byte of the frame |
| ByteBuffers.ByteBufferWritable.WriteHeaderIntoBuffer | src/FramingProtocol.cpp:79-89 | The buffer becomes the encoded frame of its bytes; the flags kept beside it are the given ones if the header fits the headroom, and 0 if not |
| CommandArena.NextOffsetAligned | src/CommandsBuffer.cpp:152-159 | The masked 32-bit sum is the first aligned offset from the free end on |
| CommandArena.CommandsBuffer.CanAllocateExact | src/CommandsBuffer.cpp:110-126 | The 32-bit test is the exact comparison if and only if the end of the command does not wrap to a place before the metadata |
| CommandArena.CommandsBuffer.CanAllocateFits | src/CommandsBuffer.cpp:110-126 | For commands up to 2^31 - 4096 bytes the test is the exact comparison |
| CommandArena.PushReachable | src/CommandsBuffer.cpp:133-138 | Writing a command and its metadata overwrites nothing: all commands stay aligned, disjoint and reachable |
| CommandArena.CommandsBuffer.EnqueueCommand | src/CommandsBuffer.cpp:128-139 | Succeeds exactly when the command fits, and then appends it at the first aligned offset |
| CommandArena.CommandsBuffer.GetCommand | src/CommandsBuffer.cpp:161-164 | The metadata word of a command leads to that command |
| CommandArena.CommandsBuffer.ExecuteAll | src/CommandsBuffer.cpp:93-100 | Runs and destroys every remaining command once, in order |
| CommandArena.CommandsBuffer.CallDestructors | src/CommandsBuffer.cpp:102-108 | Destroys exactly the commands that were not run, in order |
| CommandArena.CommandsBuffer.Reset | src/CommandsBuffer.cpp:81-91 | Afterwards every command was destroyed once, whether it ran or not |
| CommandBatches.CommandsBufferHandler.FlushBuffer | src/CommandsBufferHandler.cpp:24-35 | Hands over exactly a non-empty buffer, as the newest batch, and keeps the enqueue order |
| CommandBatches.CommandsBufferHandler.AllocateBuffer | src/CommandsBufferHandler.cpp:37-46 | Leaves an empty buffer with room, after handing over exactly a non-empty one, and keeps the enqueue order |
| CommandBatches.CommandsBufferHandler.EnqueueCommand | include/icon7/CommandsBufferHandler.hpp:26-44 | The current buffer is handed over if and only if it holds commands and either the command does not fit or the deadline has passed; the deadline is 200 milliseconds from now exactly when the command finds an empty buffer, else unchanged; destroyed, flushed and current commands together are the enqueue order; a command that fits an empty buffer is never refused |
| CommandBatches.CommandsBufferHandler.EnqueueCommandAndFlush | include/icon7/CommandsBufferHandler.hpp:46-51 | The command is enqueued as by the plain call, the batch it joined is handed over, and nothing stays in the current buffer |
| CommandBatches.CommandsBufferHandler.Run | include/icon7/CommandsBufferHandler.hpp:26-51 | Every run of enqueues, flushes and taken batches is a run of the batching protocol from the state before to the state after; in every state on the way every batch is prompt |
| CommandBatches.EveryTrace | include/icon7/CommandsBufferHandler.hpp:26-51 | In every run no command joins a batch that was begun more than 200 milliseconds earlier |
| CommandBatches.RunNew | src/CommandsBufferHandler.cpp:12-16 | The same from a new handler |
| CommandBatches.CommandsBufferHandler.TakeFirst | src/CommandExecutionQueue.cpp:69-82 | A batch that is run or dropped has each of its commands destroyed once, in order, and run only if it is run |
| ExecutionQueues.CommandExecutionQueue.Execute | src/CommandExecutionQueue.cpp:170-206 | Runs exactly the dequeued commands in order; each poll asks for the rest of the quota, up to 1024; the call ends at the first poll that uses up the quota, or that is short after the short polls before it cost at least 512 (57 below 13 commands, 1 at or below an eighth of what was asked), and returns less than the quota exactly in the second case; no slot refuses a command |
| ExecutionQueues.CompleteBounds | src/CommandExecutionQueue.cpp:170-206 | However the polls of a call are answered, at most ten are empty, there are at most ten more than commands, and exactly ten when no command comes |
| ExecutionQueues.CommandExecutionQueue.RunSlots | include/icon7/Command.hpp:147-165 | Runs the commands of the slots in order and leaves the slots empty |
| ExecutionQueues.CommandExecutionQueue.EnqueueCommand | src/CommandExecutionQueue.cpp:60-67 | Appends a command; an empty handle is not enqueued |
| Calendar.YMDFromTimestamp | src/Time.cpp:134-167 | For every 64-bit timestamp the result has the day number of the timestamp; it is a date of the calendar if and only if the guessed year does not start after that day; from 1970 on it is the calendar date that many days after the first of January 1970 |
| Calendar.YearFromDays | src/Time.cpp:138-155 | The correcting loop ends in the year that contains the day exactly when the guess is not too late; it never corrects downwards |
| Calendar.GuessBelow | src/Time.cpp:138-141 | The guessed year never starts after the day, and is 1969 exactly for the first five days |
| Calendar.GuessSince1962 | src/Time.cpp:134-141 | The guess is not too late from the first day of 1962 on, and too late for the day before |
| Calendar.MonthFromDays | src/Time.cpp:156-166 | The month and day whose place in the year is the given day, with the month lengths of the calendar; a day of that month exactly for a count that is not negative |
| Calendar.TimestampFromYMD | src/Time.cpp:176-193 | The timestamp of a date is its day number in nanoseconds, also for a day outside its month |
| Calendar.DayNumberStep | src/Time.cpp:118-126 | The day after a date, counted on the calendar, has the next day number |
| Calendar.DaysPerMonth | src/Time.cpp:156-158 | April, June, September and November have 30 days, February 28 or 29, the others 31 |
| Calendar.GregorianYears | src/Time.cpp:118-126 | By the day numbers of the code a century year has 366 days exactly if its century is a multiple of four, any other year exactly if it is, and 365 otherwise |
| Calendar.GregorianCycle | src/Time.cpp:123-126 | The day numbers repeat after 400 years, which have 146097 days |
| Calendar.CenturyYears | src/Time.cpp:118-126 | 2000 and 2096 have 366 days, 1900 and 2100 have 365 |
| Calendar.DayNumberOfDate | src/Time.cpp:118-193 | Date from day number, then day number from date, is the identity for every day number from 0 on |
| Calendar.DateOfDayNumber | src/Time.cpp:118-193 | Day number from date, then date from day number, is the identity for every valid date from 1970 on |
| Calendar.ThereAndBack | src/Time.cpp:134-193 | Date from timestamp, then timestamp from date, is the start of the day, hence the identity on whole days, for every 64-bit timestamp |
| Calendar.BackAndThere | src/Time.cpp:134-193 | Timestamp from date, then date from timestamp, is the identity on a valid date from 1678 on if and only if the guessed year is not too late, and always from 1970 on |

## Left out

- uSockets, SSL, DNS, threads and locks: only their answers and events are modelled.
- FrameDecoders.FrameDecoder.Restart: does not model which block is recycled for the next frame, only the contents.
- EndToEnd.Connection.Run: user callbacks that re-enter the peer while a packet is delivered are not modelled.
- RemoteCalls.Caller.CallSend: the byte order of the stamped id is any four-byte code that can be read back, because the byte library is not part of this model; a call for a peer that is gone does nothing and is left out.
- RpcCalls.RpcPeer.CheckForTimeoutFunctionCalls: a callback that changes the table while it runs inside it is not modelled.
- FlatHashMaps.FlatHashMap.Rehash: requests that would shrink the table, for which the source clears heads past its new end, and tables beyond 2^31 heads are excluded; the only caller doubles.
- Lifecycles.Hosts.Run: failed connection attempts (src/HostUStcp.cpp:269-289) are left out, because their assertion contradicts the handle the peer was given.
- CommandBatches.CommandsBufferHandler.EnqueueCommand: commands under 4 bytes, which no object with virtual methods has, and over 2^31 - 4096 bytes are excluded; the message the source logs above 1 MiB has no effect.
- FrameSharing.Run: counters are unbounded, so fewer than 2^32 handles per storage are taken for granted.
- The text form of timestamps goes through `sprintf` and `sscanf`, which are not part of this model.
- FlatHashMaps.Run: insertions into a table of 2^29 entries or more are excluded, so that doubling stays within 2^31 heads.
- Order between producers of the concurrent command queue: the queue is modelled as one sequence.
- UDP peers, the cuckoo table, the unfinished peer and loop maps, batch writers and loop indices: compiled out or unfinished.
- Statistics and logging do not influence what is sent or run; message registration and argument conversion are tables and templates of the application's types.
