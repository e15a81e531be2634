# Verified model of the media server

A Dafny model of a live streaming server (RTMP in, HTTP-FLV out), and proofs about it. The
model follows one media pipeline: bytes from a publisher become chunks, messages and frames,
frames are fanned out to players, and players are sent FLV tags. Around it stand the thread
pool, the registry of live sources with its ownership token, and the bitstream readers for
parameter sets.

| file | component |
|---|---|
| `Bytes.dfy` | fixed-width integers on the wire |
| `FlatBuffer.dfy` | the growing byte buffer, as a queue |
| `ChunkStream.dfy` | RTMP chunk parser: one step, a whole read, many reads |
| `ChunkWire.dfy` | a reference sender making every choice sections 5.3.1.1 to 5.3.1.3 of RTMP 1.0 allow |
| `ChunkSender.dfy` | the server's own sender, as a special case of the reference sender |
| `RtmpProtocol.dfy` | the session object: handshake, parsing in place, sending |
| `RtmpPacket.dfy` | what the first bytes of an audio or video message say |
| `PacketDispatcher.dfy` | fan-out to readers, step by step |
| `MediaSource.dfy` | a live source: config frames, registration, players joining |
| `JoiningPlayers.dfy` | when a joining player has the right config frames |
| `RegistrationGate.dfy` | which frames a source lets through, and when it is registered |
| `SourceRegistry.dfy` | the four-level registry of sources |
| `Ownership.dfy` | the publisher's token |
| `ThreadPool.dfy` | workers, queue and waiters, step by step |
| `BitReader.dfy` | bit reader and Exp-Golomb codes (section 9.1 of ITU-T H.264) |
| `EmulationPrevention.dfy` | removal of 03 bytes (sections 7.3.1 and 7.4.1 of ITU-T H.264) |
| `RefPicSetSyntax.dfy` | the bits of a reference picture set (section 7.3.7 of ITU-T H.265) |
| `ShortTermRps.dfy` | short-term reference picture sets (section 7.4.8 of ITU-T H.265) |
| `RefPicSetChain.dfy` | all sets of a parameter set against the standard |
| `RefPicSetRoundTrip.dfy` | from the written bits of a set to the set that is read |
| `H264Rtmp.dfy` | length-prefixed NAL units to start codes, composition time |
| `RtmpDemuxer.dfy` | the demuxer, which borrows the packet's buffer |
| `Amf.dfy` | AMF0 encoder and decoder |
| `AmfReference.dfy` | a reader of whole AMF0 values (section 2 of the AMF0 specification) |
| `FlvMuxer.dfy` | FLV tags (sections E.2 to E.4 of the Video File Format Specification 10.1) |

Objects that the server updates in place are classes, and each of their methods is proved
against a function on values; the theorems are about those functions. Concurrent parts are
state machines whose steps are single critical sections or single unlocked accesses; a run is
a list of steps, and "every run" quantifies over all of them. A thrown exception is `None`,
a false result or an absorbing failed state.

Where the code does not do what one would expect, the model does what the code does and the
exact condition is proved:

- `ThreadPools.NoLostWakeupIff`: with two callers of `wait` one can be left behind.
- `PacketDispatchers.LeaveSilencesIff`: `leave` only removes a reader that is still pending.
- `PacketDispatchers.RegisteredTwiceIff`, `PacketDispatchers.RejoinedIff`,
  `PacketDispatchers.MergedIff`: a reader that registers again, at whatever moment, gets the
  whole cache; there is a gap or an overlap exactly if the cache does not start where the
  reader's block ends.
- `JoiningPlayers.JoinRightIff`, `JoiningPlayers.VideoJoinRightIff`,
  `JoiningPlayers.AudioConfigMayBeWrong`: taking the config frames and registering are two
  steps, and audio config frames do not clear the cache. For both kinds of frame, and for a
  player that registers between two packets or while one is being distributed, the exact
  condition is on what the player was sent and on the frame the cache starts or will start
  with.
- `EmulationPrevention.CodeAgreesIff`: 00 00 03 00 03 is read differently from the standard.
- `BitReaders.ExactIff`: the reader gathers up to five bytes into a word of four.
- `ShortTermRefPicSets.PredictionIsStandardIff`, `RefPicSetChains.AllSetsStandardIff`: a
  predicted difference of 0 is kept, and the sets of a parameter set are the standard's exactly
  if there is none.
- `ChunkSender.FrameArrivesIff`: an empty message with an extended timestamp is sent without
  it, and a body of 2^24 bytes or more with a wrong length; every other message arrives.
- `RtmpProtocols.HandshakeThenChunks`: one handshake step per read, so a client that sends
  everything at once is not served before it sends again.
- `FlatBuffers.FlatBuffer.Prepend`: the branch that makes a new array counts the old read
  index into the queue, which the comment there does not say.
- `Amf.ObjectArrivesIff`, `Amf.CommandArrivesIff`: the object decoder reads string values only,
  and lengths of 2^16 and more are cut.
- `FlvMuxers.TagRoundTripIff`: a body of 2^24 bytes or more gets a wrong size.

## Model

| member | source | states |
|---|---|---|
| Bytes.Be24RoundTrip | src/util/util.cpp:23-41 | a 24-bit big-endian store followed by a load gives the value modulo 2^24, whatever follows |
| Bytes.Word32RoundTrip | src/util/util.cpp:17-59 | both 32-bit byte orders load what was stored, modulo 2^32 |
| FlatBuffers.FlatBuffer.Write | include/network/flat_buffer.h:149-154 | the queue grows by exactly the bytes written |
| FlatBuffers.FlatBuffer.EnsureWritableBytes | include/network/flat_buffer.h:437-444 | room for n bytes, queue unchanged; nothing moves when there is room |
| FlatBuffers.FlatBuffer.Grow | include/network/flat_buffer.h:446-471 | queue unchanged, room made, and the new capacity |
| FlatBuffers.FlatBuffer.MoveUnreadToBegin | include/network/flat_buffer.h:473-480 | compaction keeps the queue and the array |
| FlatBuffers.FlatBuffer.ConsumeOrFail | include/network/flat_buffer.h:156-166 | drops a prefix or fails and changes nothing |
| FlatBuffers.FlatBuffer.SafeConsume | include/network/flat_buffer.h:168-178 | drops a prefix, or everything when asked for too much |
| FlatBuffers.FlatBuffer.ReadUint16 | include/network/flat_buffer.h:216-233 | the big-endian number at the front, removed; fails when short |
| FlatBuffers.FlatBuffer.ReadUint32 | include/network/flat_buffer.h:235-252 | the same for four bytes |
| FlatBuffers.FlatBuffer.PeekUint64 | include/network/flat_buffer.h:254-267 | the 64-bit number at the front, with the buffer as it was although it is moved on the way |
| FlatBuffers.FlatBuffer.ReadUint64 | include/network/flat_buffer.h:269-274 | that number, removed |
| FlatBuffers.FlatBuffer.ToString | include/network/flat_buffer.h:276-286 | the first len bytes, removed; fails when short |
| FlatBuffers.FlatBuffer.CaptureSnapshot | include/network/flat_buffer.h:288-293 | the indices are noted |
| FlatBuffers.FlatBuffer.RestoreSnapshot | include/network/flat_buffer.h:295-300 | the noted indices are back |
| FlatBuffers.FlatBuffer.SocketReadLength | include/network/flat_buffer.h:331-358 | queue unchanged, room for n, capacity at most 2 * 4 MiB + n if it grew; and exactly when it fails |
| FlatBuffers.FlatBuffer.SocketConsume | include/network/flat_buffer.h:360-369 | the queue grows by what the socket put there |
| FlatBuffers.FlatBuffer.Prepend | include/network/flat_buffer.h:371-425 | the queue becomes the new bytes and the old queue exactly if it fits in place or nothing was consumed before; otherwise the old read index is added to its length |
| FlatBuffers.Perform | include/network/flat_buffer.h:149-191 | any operation does to the buffer what it does to the abstract queue and gives back what the queue gives; a socket read or a prepend in place is refused exactly if there is no room for it |
| FlatBuffers.Replay | include/network/flat_buffer.h:149-480 | any run of operations leaves exactly the bytes and gives back exactly the numbers of the abstract queue, within the capacity bound, and stops only in front of an operation that the state reached refuses |
| ChunkStream.StepIgnoresTail | src/protocol/rtmp/rtmp_protocol.cpp:92-266 | a chunk is taken the same way whatever follows it |
| ChunkStream.StepResumes | src/protocol/rtmp/rtmp_protocol.cpp:133-230 | a header parsed twice because the chunk was incomplete has the same effect as once |
| ChunkStream.SplitConcat | src/protocol/rtmp/rtmp_protocol.cpp:88-269 | splitting a, then b behind what was left over, equals splitting a + b |
| ChunkStream.SplitIdempotent | src/protocol/rtmp/rtmp_protocol.cpp:88-269 | splitting the leftover again changes nothing |
| ChunkStream.FragmentationIndependence | src/protocol/rtmp/rtmp_protocol.cpp:18-29 | any cut of a byte string into reads gives the messages, contexts and leftover of one read |
| ChunkStream.ControlMessage | src/protocol/rtmp/rtmp_protocol.cpp:272-335 | of the messages acted on at once, type 1 sets the chunk size to the big-endian number in its body, types 1 and 3 fail when shorter than four bytes, and all others are left to their handlers |
| ChunkWire.BasicRoundTrip | src/protocol/rtmp/rtmp_protocol.cpp:98-131 | all three id widths are read back |
| ChunkWire.HeaderRoundTrip | src/protocol/rtmp/rtmp_protocol.cpp:159-208 | all four header formats restore the fields they carry and keep the others |
| ChunkWire.PayloadRoundTrip | src/protocol/rtmp/rtmp_protocol.cpp:210-235 | extended timestamp and piece of the body are taken exactly |
| ChunkWire.AcceptMatches | src/protocol/rtmp/rtmp_protocol.cpp:249-265 | a finished message is delivered with its timestamp and its context is remembered; an unfinished one waits |
| ChunkWire.ChunkStep | src/protocol/rtmp/rtmp_protocol.cpp:92-266 | any legal chunk moves sender and receiver to states that match again, bytes behind it untouched |
| ChunkWire.Reassembly | src/protocol/rtmp/rtmp_protocol.cpp:88-269 | any legal interleaving of compressed chunks over any streams, with chunk size changes, is reassembled into the messages sent |
| ChunkWire.StreamsInOrder | src/protocol/rtmp/rtmp_protocol.cpp:222-265 | per stream the messages come whole and in order, and a partial body is a proper prefix |
| ChunkSender.FrameRun | src/protocol/rtmp/rtmp_protocol.cpp:507-570 | what the server's sender writes is a legal run of chunks of the reference sender |
| ChunkSender.FrameRoundTrip | src/protocol/rtmp/rtmp_protocol.cpp:507-594 | one send or chunk size change is received exactly and the chunk sizes agree afterwards |
| ChunkSender.SendReceive | src/protocol/rtmp/rtmp_protocol.cpp:507-594 | any run of sends and chunk size changes is received exactly, in order, with equal chunk sizes at the end |
| ChunkSender.SendReceiveFromStart | src/protocol/rtmp/rtmp_protocol.cpp:88-269 | the same for a fresh connection |
| ChunkSender.FrameTakenIff | src/protocol/rtmp/rtmp_protocol.cpp:526-570 | of a frame whose length fits, every byte is taken exactly if it has a body or a short timestamp |
| ChunkSender.SplitShort | src/protocol/rtmp/rtmp_protocol.cpp:159-265 | whatever the bytes, a chunk stream hands over no message longer than a 24-bit length |
| ChunkSender.FrameArrivesIff | src/protocol/rtmp/rtmp_protocol.cpp:507-570 | among all messages, of any size, the receiver hands over exactly the one sent if and only if its length fits 24 bits and it has a body or a short timestamp |
| RtmpProtocols.ServeChunks | src/protocol/rtmp/rtmp_protocol.cpp:18-29 | reads after the handshake are one long split |
| RtmpProtocols.HandshakeThenChunks | src/protocol/rtmp/rtmp_protocol.cpp:18-84 | whatever is sent, a session reaches the chunk phase exactly if there are 3073 bytes, the first is 3, and the first 1537 come before the last read; its state is then that of one split of what follows; otherwise it has failed exactly if the first byte of at least 1537 is not 3, and nothing else has happened |
| RtmpProtocols.OneReadStalls | src/protocol/rtmp/rtmp_protocol.cpp:18-65 | everything in one read leaves the session in the handshake |
| RtmpProtocols.GreetingArrives | src/protocol/rtmp/rtmp_protocol.cpp:67-84 | a client in step receives what the server sends after the handshake as exactly three messages, chunk size, acknowledgement and bandwidth, and expects chunks of 4096 bytes from then on |
| RtmpProtocols.RtmpProtocol.SendRtmp | src/protocol/rtmp/rtmp_protocol.cpp:507-579 | refuses ids outside 2 to 63; otherwise appends the frame and counts its exact length |
| RtmpProtocols.RtmpProtocol.SetChunkSize | src/protocol/rtmp/rtmp_protocol.cpp:588-594 | the frame announcing the size is cut with the old size; the new one applies afterwards |
| RtmpProtocols.RtmpProtocol.SendAcknowledgement | src/protocol/rtmp/rtmp_protocol.cpp:581-586 | the frame that is sent |
| RtmpProtocols.RtmpProtocol.SetPeerBandwidth | src/protocol/rtmp/rtmp_protocol.cpp:596-602 | the frame that is sent |
| RtmpProtocols.RtmpProtocol.HandleMessage | src/protocol/rtmp/rtmp_protocol.cpp:272-335 | a delivered message changes the chunk size or fails as the parser's specification says |
| RtmpProtocols.RtmpProtocol.SplitRtmp | src/protocol/rtmp/rtmp_protocol.cpp:88-269 | the in-place loop computes the specified split and returns where the leftover starts |
| RtmpProtocols.RtmpProtocol.HandleC0C1 | src/protocol/rtmp/rtmp_protocol.cpp:31-65 | waits for 1537 bytes, checks the version, answers S0 S1 S2 |
| RtmpProtocols.RtmpProtocol.HandleC2 | src/protocol/rtmp/rtmp_protocol.cpp:67-84 | waits for 1536 bytes, sends the chunk size cut with the old one and two messages cut with 4096, and splits the rest |
| RtmpProtocols.RtmpProtocol.OnParseRtmp | src/protocol/rtmp/rtmp_protocol.cpp:18-29 | one step on the unread bytes, which are then consumed up to the place returned, never past the end; and exactly what is sent |
| RtmpPackets.VideoConfigIff | src/protocol/rtmp/rtmp_packet.cpp:56-145 | which bytes make a video config frame, which make the query throw, and that a config frame is a key frame |
| RtmpPackets.KeyframeIff | src/protocol/rtmp/rtmp_packet.cpp:56-78 | which messages are key frames, by their first byte, and that only an empty video message makes the query throw |
| RtmpPackets.AudioConfigIff | src/protocol/rtmp/rtmp_packet.cpp:81-145 | which bytes make an audio config frame, which make the query throw, and that no other kind of message is one |
| PacketDispatchers.StoreKeepsNewest | include/media/packet_dispatcher.h:201-217 | dropping the oldest, or everything before a key frame, keeps exactly the newest packets |
| PacketDispatchers.MergeReaders | include/media/packet_dispatcher.h:219-246 | a merged reader has got exactly the newest packets, no more than the cache holds, and stays exact |
| PacketDispatchers.AlwaysCacheExact | include/media/packet_dispatcher.h:201-217 | in every run, whoever registers and how often, the cache is the last min(since key frame, maximum) packets, the maximum being at least 32 |
| PacketDispatchers.AlwaysGapFree | include/media/packet_dispatcher.h:152-290 | in every run in which no served reader registers again: pending and active are disjoint, and what each reader got is a gap-free block of the history, up to date while active |
| PacketDispatchers.StepReadership | include/media/packet_dispatcher.h:152-280 | exactly who is pending, active and registered after any step: a reader's own events, merging and detaching change it and nothing else, so no reader drops out because of another |
| PacketDispatchers.RegisteredIsServed | include/media/packet_dispatcher.h:152-246 | in every run a reader that registers when it is not active, and stays, is pending until the next distribution is over, and from then on has got, behind what it had before, every packet distributed since it registered |
| PacketDispatchers.MergedIff | include/media/packet_dispatcher.h:219-246 | at the end of any distribution, whoever registered when and how often, a pending reader with one block of the history has it followed by the cache, and the two are one block exactly if the cache starts where the block ended |
| PacketDispatchers.RegisteredTwiceIff | include/media/packet_dispatcher.h:152-246 | what a reader that registers at any moment has got when the distribution is over: the cache, behind the packet itself exactly if it was active between two |
| PacketDispatchers.RejoinedIff | include/media/packet_dispatcher.h:152-280 | a reader with one block that registers again at any moment has one block exactly if the cache starts where the block has come to; an active one never |
| PacketDispatchers.LeaveSilencesIff | include/media/packet_dispatcher.h:66-79 | after leaving, nothing more is heard in any run exactly if the reader was not active |
| PacketDispatchers.DetachSilences | include/media/packet_dispatcher.h:249-280 | after detaching, no reader hears anything more until it registers again |
| PacketDispatchers.PacketDispatcher.RegistReader | include/media/packet_dispatcher.h:152-165 | any reader becomes pending and registered, everything else unchanged; a reader not served before keeps the blocks exact |
| PacketDispatchers.PacketDispatcher.LeaveReader | include/media/packet_dispatcher.h:167-178 | erased from the pending set only |
| PacketDispatchers.PacketDispatcher.DispatchToActive | include/media/packet_dispatcher.h:182-199 | every active reader gets the packet once, nobody else anything |
| PacketDispatchers.PacketDispatcher.StorePacket | include/media/packet_dispatcher.h:201-217 | the cache after the packet is stored |
| PacketDispatchers.PacketDispatcher.MergeReaders | include/media/packet_dispatcher.h:219-246 | every pending reader gets the whole cache in order and is active afterwards |
| PacketDispatchers.PacketDispatcher.DetachAllReaders | include/media/packet_dispatcher.h:249-280 | both sets empty and their readers unregistered |
| RtmpMediaSources.ServedFromIff | src/protocol/rtmp/rtmp_media_source.cpp:87-97 | for either kind of frame: a player served from some frame on has the right config throughout exactly if that frame is a config frame or it was sent the one in force there |
| RtmpMediaSources.VideoConfigInForce | src/protocol/rtmp/rtmp_media_source.cpp:51-98 | in every run each player that registered with the current video config has, before every frame it gets, the config that was in force when the frame was published |
| RegistrationGates.GateExact | src/protocol/rtmp/rtmp_media_source.cpp:51-98 | in every run from a new source, what it publishes is exactly the frames admitted, in order; it is registered exactly if one of them is no config frame; those before the first such frame are only remembered, and all the others have gone to the dispatcher |
| RegistrationGates.FreeNameAdmitsAll | src/protocol/rtmp/rtmp_media_source.cpp:92-97 | where no other source has the name, every audio and video frame that the demuxer takes and the config query understands is admitted |
| JoiningPlayers.StepOfSource | src/protocol/rtmp/rtmp_media_source.cpp:51-98 | each step of a source does to its dispatcher one event or nothing, and to a player only what the player does itself |
| JoiningPlayers.JoinedIsServed | src/protocol/flv/flv_muxer.cpp:45-86 | in every continuation a player that joins, and neither leaves nor is detached, is pending until the next distribution is over and then has every packet distributed since it joined |
| JoiningPlayers.PromptJoinIsCurrent | src/protocol/flv/flv_muxer.cpp:45-86 | taking the config frames and registering in consecutive steps gives a player the latest of both kinds, whatever the publisher is in the middle of |
| JoiningPlayers.PromptJoinInForce | src/protocol/flv/flv_muxer.cpp:45-86 | in every run such a player has, before every frame it gets, the video config in force when the frame was published |
| JoiningPlayers.PublishedRightIff | src/protocol/rtmp/rtmp_media_source.cpp:74-97 | where in the history a pending player is served from with the next packet, and that reading from there is right exactly under the condition on that frame |
| JoiningPlayers.JoinRightIff | src/protocol/flv/flv_muxer.cpp:45-86 | for video and for audio, at any moment: a player that registers stays right in all continuations exactly if, between packets, it was sent the latest config and the part of the cache that stays starts with a config frame or under the one it was sent; while a packet is under way, exactly if the frame its distribution will start the cache with is a config frame or was published under the one it was sent |
| JoiningPlayers.VideoJoinRightIff | src/protocol/flv/flv_muxer.cpp:45-86 | about video: exactly if it was sent the latest config, or the distribution under way will start the cache with one |
| JoiningPlayers.AudioConfigMayBeWrong | src/protocol/rtmp/rtmp_media_source.cpp:74-97 | about audio it is not: from every state between packets some run gives a player with the current audio config a frame published under an older one |
| RtmpMediaSources.RtmpMediaSource.BeginPacket | src/protocol/rtmp/rtmp_media_source.cpp:51-96 | config map, registration gate and the failures |
| RtmpMediaSources.RtmpMediaSource.ProcessAvPacket | src/protocol/rtmp/rtmp_media_source.cpp:51-98 | the whole call, when nobody comes in between |
| RtmpMediaSources.RtmpMediaSource.TakeConfigFrames | include/protocol/rtmp/rtmp_media_source.h:33-41 | the config frames as held now |
| RtmpMediaSources.RtmpMediaSource.JoinPlayer | src/protocol/flv/flv_muxer.cpp:51-86 | the player becomes pending |
| SourceRegistries.InsertLookup | src/media/media_source.cpp:42-57 | writing through the nested map changes the entry of one key only |
| SourceRegistries.EraseLookup | src/media/media_source.cpp:62-100 | the recursive erase removes the entry exactly if it is expired or the caller's own, and no other |
| SourceRegistries.FlatDetermines | src/media/media_source.cpp:5-12 | without empty inner maps the nested map is determined by the flat map it stands for |
| SourceRegistries.StepTied | src/media/media_source.cpp:34-105 | every step keeps: no empty inner map, entries under their own key, live entries registered and registered live sources entered |
| SourceRegistries.FindIffRegistered | src/media/media_source.cpp:107-141 | in every run find gives a source exactly if it is live and registered under the key, of which there is at most one, and reports exactly whether there is an entry |
| SourceRegistries.RegistIff | src/media/media_source.cpp:34-60 | registering succeeds exactly if no other live source holds the key; other keys are untouched |
| SourceRegistries.StepChanges | src/media/media_source.cpp:14-105 | exactly which sources are made, alive and registered after any step, and exactly which entry it changes |
| SourceRegistries.AliveIff | src/media/media_source.cpp:14-22 | in every run the live sources are those made whose last reference has not gone, each under the key it was made with |
| SourceRegistries.SourceRegistry.MakeSource | src/media/media_source.cpp:14-22 | an incomplete key is refused |
| SourceRegistries.SourceRegistry.RegistSource | src/media/media_source.cpp:34-60 | enters the source, or fails |
| SourceRegistries.SourceRegistry.UnregistSource | src/media/media_source.cpp:91-100 | erases as specified and clears the flag |
| SourceRegistries.SourceRegistry.FindSource | src/media/media_source.cpp:107-141 | level by level, the flat lookup |
| Ownerships.StepKeeps | src/media/media_source.cpp:143-159 | every step of every session keeps: one token per set flag, none otherwise, and a resting session's token is for its own source |
| Ownerships.SinglePublisher | src/protocol/rtmp/rtmp_protocol.cpp:320-329 | in every run a flag is set exactly if one token is live, and a session that may feed a source is the only one |
| Ownerships.OnePublisherPerPath | src/protocol/rtmp/rtmp_protocol.cpp:434-494 | with the registry: at most one session feeds a live registered source of a key |
| Ownerships.ReconnectIff | src/protocol/rtmp/rtmp_protocol.cpp:457-479 | reconnecting succeeds exactly if no token is live when it is asked for; otherwise the session is left with none |
| Ownerships.PublishFoundIff | src/protocol/rtmp/rtmp_protocol.cpp:434-494 | publishing a stream that was found ends with the session feeding that source exactly if no other session holds a token for it; otherwise it keeps its old source and has no token; its token for another source is gone either way |
| Ownerships.StepTouchesOne | src/protocol/rtmp/rtmp_protocol.cpp:434-494 | a step changes its own session only, and sessions are there from connecting to closing |
| Ownerships.NeverStuck | src/protocol/rtmp/rtmp_protocol.cpp:434-494 | a session always has a next step, from every state of publishing |
| Ownerships.CreatePublishes | src/protocol/rtmp/rtmp_protocol.cpp:439-456 | publishing a new source always succeeds and frees the one published before |
| Ownerships.CloseFrees | src/media/media_source.cpp:143-159 | closing the holder frees the source |
| Ownerships.Publishing.GetOwnership | src/media/media_source.cpp:143-159 | test and set |
| Ownerships.Publishing.CreateSource | src/protocol/rtmp/rtmp_protocol.cpp:439-456 | a new source's token is always there |
| Ownerships.Publishing.ResetToken | src/protocol/rtmp/rtmp_protocol.cpp:457-469 | the old token goes before the new one is asked for |
| Ownerships.Publishing.AssignToken | src/protocol/rtmp/rtmp_protocol.cpp:449-471 | the old token goes after the new one is there |
| Ownerships.Publishing.CommitSource | src/protocol/rtmp/rtmp_protocol.cpp:450-479 | the source is set, or the exception leaves it |
| ThreadPools.AlwaysInvariant | include/util/BS_thread_pool.hpp:981-1013 | in every run: the counter is the number of workers that have not taken themselves off it, tasks start in order, no task waits without a notification or a free worker while one sleeps, and a lone waiter is never blocked without somebody about to notify it |
| ThreadPools.ComesToRest | include/util/BS_thread_pool.hpp:981-1013 | left to itself the pool stops within a stated number of steps |
| ThreadPools.RestIsDone | include/util/BS_thread_pool.hpp:835-845 | where it stops every task was started and finished in order, and a lone waiter has returned |
| ThreadPools.WaitReturnsIff | include/util/BS_thread_pool.hpp:835-845 | whenever a caller of wait looks, it returns exactly if every task submitted has been started and no worker is starting up or running one |
| ThreadPools.TasksOfRun | include/util/BS_thread_pool.hpp:488-495 | in every run, the tasks started and those queued are together exactly the tasks pushed, in order, and the pool is open exactly if it was not shut down |
| ThreadPools.StepWorker | include/util/BS_thread_pool.hpp:981-1013 | exactly when a worker sleeps, leaves, starts a task or gets on towards notifying, by any step |
| ThreadPools.StepWaiter | include/util/BS_thread_pool.hpp:835-845 | exactly when a caller of wait blocks and when it is woken, by any step; a notification leaves nobody blocked |
| ThreadPools.NobodyWaits | include/util/BS_thread_pool.hpp:981-1013 | in every run in which nobody waits, no worker ever comes to notify |
| ThreadPools.ClosedRest | include/util/BS_thread_pool.hpp:941-952 | a closed pool stops with every worker out of its loop |
| ThreadPools.NoLostWakeupIff | include/util/BS_thread_pool.hpp:835-845 | no run leaves a waiter behind exactly if there is at most one |
| ThreadPools.ThreadPool.PushTask | include/util/BS_thread_pool.hpp:488-493 | the locked half of submitting |
| ThreadPools.ThreadPool.NotifyOneWorker | include/util/BS_thread_pool.hpp:494-494 | one sleeper wakes, if there is one |
| ThreadPools.ThreadPool.WorkerStep | include/util/BS_thread_pool.hpp:981-1013 | one step of a worker, the three unlocked reads apart |
| ThreadPools.ThreadPool.EnterWait | include/util/BS_thread_pool.hpp:835-845 | the caller returns or blocks |
| ThreadPools.ThreadPool.ResumeWait | include/util/BS_thread_pool.hpp:843-844 | a woken caller looks again |
| ThreadPools.ThreadPool.CloseWorkers | include/util/BS_thread_pool.hpp:941-947 | the flag goes down; the notification is still to come |
| ThreadPools.ThreadPool.NotifyAllWorkers | include/util/BS_thread_pool.hpp:947-947 | nobody sleeps |
| BitReaders.BitReader.GetOneBit | src/codec/h264/SPSParser.c:261-289 | the next bit, or -1 at the end with nothing moved |
| BitReaders.BitReader.GetBits | src/codec/h264/SPSParser.c:301-362 | what the byte-gathering code extracts, or 0 past the end |
| BitReaders.BitReader.ShowBits | src/codec/h264/SPSParser.c:368-428 | the same value without advancing |
| BitReaders.BitReader.BitByBit | src/codec/h264/SPSParser.c:261-289 | n single reads give the number written in n bits |
| BitReaders.ExtractedIsExact | src/codec/h264/SPSParser.c:301-362 | within one word the gathered value is the number the bits write |
| BitReaders.ExactIff | src/codec/h264/SPSParser.c:301-362 | it is exact for every buffer exactly if position in the byte plus length is at most 32 |
| BitReaders.ExtractedBeyond | src/codec/h264/SPSParser.c:301-362 | beyond that, the bits of the first byte are lost and copies of the bit behind them fill their place |
| BitReaders.BitReader.CountZeros | src/codec/h264/SPSParser.c:459-465 | the leading-zero loop ends, also when the data does |
| BitReaders.BitReader.ParseCodenum | src/codec/h264/SPSParser.c:455-470 | the code number that the specification reads, and where it stops |
| BitReaders.BitReader.ParseSe | src/codec/h264/SPSParser.c:491-500 | the signed mapping of that number |
| BitReaders.CodenumRoundTrip | src/codec/h264/SPSParser.c:455-470 | a code is read back whenever its suffix fits the gathered word |
| BitReaders.SmallCodenumRoundTrip | src/codec/h264/SPSParser.c:455-470 | every value below 2^26 - 1 is read back at every position |
| BitReaders.CodeRunsOut | src/codec/h264/SPSParser.c:455-470 | a code that the end of the data cuts off reads as the least value with its number of leading zeros |
| BitReaders.SignedRoundTrip | src/codec/h264/SPSParser.c:491-500 | every signed value of magnitude below 2^25 is read back at every position |
| EmulationPrevention.DeEmulationPrevention | src/codec/h264/SPSParser.c:542-600 | the in-place loop with its fixed bound computes the one-pass scan, with the exact size; the stale tail never matches |
| EmulationPrevention.StandardInvertsEscape | src/codec/h264/SPSParser.c:530-541 | removal as in section 7.3.1 undoes escaping as in section 7.4.1 |
| EmulationPrevention.CodeAgreesIff | src/codec/h264/SPSParser.c:542-600 | the code agrees with section 7.3.1 exactly on inputs without 00 00 03 00 03 |
| EmulationPrevention.CodeInvertsEscapeIff | src/codec/h264/SPSParser.c:542-600 | it recovers a payload exactly if its escaped form has no such bytes |
| EmulationPrevention.ContestedPayload | src/codec/h264/SPSParser.c:542-600 | a payload that is not recovered |
| ShortTermRefPicSets.RefPicSet.SortAscending | src/codec/h264/SPSParser.c:1377-1392 | ascending, and a permutation of the pairs |
| ShortTermRefPicSets.RefPicSet.FlipNegatives | src/codec/h264/SPSParser.c:1393-1406 | the first entries in reverse, the others in place |
| ShortTermRefPicSets.CollectCandidates | src/codec/h264/SPSParser.c:1348-1366 | the used candidates in order, and how many are negative |
| RefPicSetSyntax.ExplicitRoundTrip | src/codec/h264/SPSParser.c:1408-1446 | the gaps and flags of every explicit set within the limits are read back, and reading stops behind them |
| RefPicSetSyntax.DeltaRoundTrip | src/codec/h264/SPSParser.c:1339-1347 | a written difference is read back with its sign, 1 meaning negative, up to a magnitude of 32768, and refused beyond |
| RefPicSetSyntax.WideGapRefused | src/codec/h264/SPSParser.c:1421-1445 | a written gap of more than 32768 is refused |
| RefPicSetSyntax.ManyRefused | src/codec/h264/SPSParser.c:1408-1420 | written counts of 16 and more are refused |
| RefPicSetSyntax.FlagsRunOut | src/codec/h264/SPSParser.c:261-289 | behind the last bit a flag reads as -1 stored in a byte |
| RefPicSetRoundTrips.ExplicitSetRoundTrip | src/codec/h264/SPSParser.c:1407-1447 | from the bits of any explicit set, whether one may be predicted there or not, its entries are read: minus the sums of the negative gaps, then the sums of the positive ones |
| RefPicSetRoundTrips.PredictedSetRoundTrip | src/codec/h264/SPSParser.c:1339-1407 | from the bits of any predicted set, exactly the reference entries and 0 that the flags select are read, moved by the difference and apart from a result of 0, and reading stops behind them; strictly ordered if the reference is |
| RefPicSetRoundTrips.PicksRoundTrip | src/codec/h264/SPSParser.c:1348-1358 | the flags of every entry are read back |
| ShortTermRefPicSets.ReadDeltaRps | src/codec/h264/SPSParser.c:1339-1347 | the signed difference the bits write, refused exactly when its magnitude is out of range |
| ShortTermRefPicSets.DecodePredicted | src/codec/h264/SPSParser.c:1339-1406 | a predicted set is laid out, in range, and a permutation of the candidates that the flags select; refused exactly when there are 32 |
| ShortTermRefPicSets.DecodeGaps | src/codec/h264/SPSParser.c:1421-1445 | the entries are the running sums of the gaps that the bits write, with their flags |
| ShortTermRefPicSets.DecodeExplicit | src/codec/h264/SPSParser.c:1407-1447 | an explicit set holds exactly the sums of its gaps, strictly ordered and in range; and exactly when it is refused |
| ShortTermRefPicSets.DecodeShortTermRps | src/codec/h264/SPSParser.c:1306-1449 | any set is decoded to what its bits say, with at most 31 entries, negatives first, nearest first, within 32768 * (15 + index) |
| ShortTermRefPicSets.DecodeAllSets | src/codec/h264/SPSParser.c:1866-1877 | all sets of a parameter set are decoded to what their bits say, each from where the one before it ends; the whole is refused exactly at a bad count or at the first refused set; no access leaves the arrays |
| ShortTermRefPicSets.PredictionIsStandardIff | src/codec/h264/SPSParser.c:1348-1407 | predicted from a strictly ordered set, the result is the set of equations 7-61 and 7-62 exactly if no used candidate has difference 0 |
| RefPicSetChains.AllSetsStandardIff | src/codec/h264/SPSParser.c:1866-1877 | all sets of a parameter set, each predicted from the one decoded before it, are those of section 7.4.8, bit for bit, exactly if no predicted set has a used candidate of difference 0; then all are strictly ordered |
| H264Rtmp.UnitsOfAvcc | src/protocol/rtmp/h264_rtmp.cpp:55-89 | every list of units is found exactly, and everything consumed |
| H264Rtmp.ConsumedIff | src/protocol/rtmp/h264_rtmp.cpp:55-89 | nothing is left exactly if the payload is such a list, apart from a last non-zero length without a body |
| H264Rtmp.PresentationIsOffset | src/protocol/rtmp/h264_rtmp.cpp:46-49 | the presentation time is the decoding time plus the 24-bit two's complement offset, modulo 2^32 |
| H264Rtmp.SplitNalFrame | src/protocol/rtmp/h264_rtmp.cpp:55-89 | each unit behind 00 00 00 01, in order, and normal return exactly if nothing is left |
| RtmpDemuxers.ConfigRoundTrip | src/codec/h264/h264_track.cpp:33-66 | the parameter sets of any configuration record are found |
| RtmpDemuxers.ConfigIff | src/codec/h264/h264_track.cpp:33-66 | parameter sets are found in exactly the byte strings that are a record with them |
| RtmpDemuxers.ConfigFrames | src/codec/h264/h264_track.cpp:68-89 | a parameter set becomes a frame behind 00 00 00 01 at time 0, an empty one none |
| RtmpDemuxers.PictureArrives | src/protocol/rtmp/h264_rtmp.cpp:11-52 | from the bytes of any picture message every unit becomes a frame behind 00 00 00 01, in order, decoded at the time of the message and presented the signed composition time later |
| RtmpDemuxers.VideoRefusedIff | src/protocol/rtmp/h264_rtmp.cpp:11-52 | exactly which video messages make the decoder throw, and which configuration the others set |
| RtmpDemuxers.AudioArrives | src/protocol/rtmp/aac_rtmp.cpp:8-57 | from the bytes of any AAC message, the configuration it sets, or the payload with its time and the configuration held; and exactly when it throws |
| RtmpDemuxers.H264Track.ParseConfig | src/codec/h264/h264_track.cpp:33-89 | exactly when it fails, and the parameter sets and frames it yields |
| RtmpDemuxers.RtmpDemuxer.DecodeVideo | src/protocol/rtmp/h264_rtmp.cpp:11-52 | configuration or frames, with the timestamps |
| RtmpDemuxers.RtmpDemuxer.DecodeAudio | src/protocol/rtmp/aac_rtmp.cpp:8-57 | configuration or one frame |
| RtmpDemuxers.RtmpDemuxer.InputRtmp | src/protocol/rtmp/rtmp_demuxer.cpp:87-106 | on every normal return the buffer's bytes and indices are as before; exactly when it throws; what is emitted |
| Amf.StringRoundTripIff | src/protocol/rtmp/amf.cpp:176-186 | a string comes back up to its first NUL, and what follows is untouched, exactly if that is shorter than 2^16 |
| Amf.NumberRoundTrip | src/protocol/rtmp/amf.cpp:276-286 | every 64-bit pattern comes back |
| Amf.LoadStringIff | src/protocol/rtmp/amf.cpp:176-186 | a string is loaded from exactly the bytes that have its marker, its length and itself in front |
| Amf.LoadNumberIff | src/protocol/rtmp/amf.cpp:188-199 | a number is loaded from exactly the bytes that encode it |
| Amf.LoadObjectIff | src/protocol/rtmp/amf.cpp:217-242 | an object is loaded from exactly the bytes that have the markers around keys with strings and the empty key |
| Amf.FirstValueWins | src/protocol/rtmp/amf.cpp:224-234 | of a key that comes more than once the first value counts |
| AmfReference.ValueRoundTrip | src/protocol/rtmp/amf.cpp:276-329 | a general reader reads every value written, numbers and objects in objects included, entry by entry and in order, with strings cut at their first NUL |
| Amf.ObjectRoundTripIff | src/protocol/rtmp/amf.cpp:217-242 | an encoded object whose lengths fit is read back up to its end marker if all values are strings, and refused otherwise |
| Amf.ObjectArrivesIff | src/protocol/rtmp/amf.cpp:217-242 | any object is read back, entry by entry and up to its end marker, exactly if all values are strings, no key is empty and every length is below 2^16 |
| Amf.AsMapExact | src/protocol/rtmp/amf.cpp:117-127 | with distinct keys and no NUL in its values the map read is the object |
| Amf.CommandArrivesIff | src/protocol/rtmp/amf.cpp:245-329 | a whole command, loaded item by item, comes back and leaves what follows it untouched, exactly if its strings are shorter than 2^16 and its objects are such that they are read back |
| Amf.AmfEncoder.WriteValue | src/protocol/rtmp/amf.cpp:295-329 | the bytes appended for a value, objects included |
| Amf.AmfEncoder.WriteNumber | src/protocol/rtmp/amf.cpp:276-286 | the bytes appended |
| Amf.AmfDecoder.ReadString | src/protocol/rtmp/amf.cpp:176-186 | the string loaded and what remains, or the failure |
| Amf.AmfDecoder.ReadNumber | src/protocol/rtmp/amf.cpp:188-199 | the pattern loaded and what remains, or the failure |
| Amf.AmfDecoder.ReadEntries | src/protocol/rtmp/amf.cpp:224-234 | the loop over the entries, the first value of a key winning |
| Amf.AmfDecoder.ReadObject | src/protocol/rtmp/amf.cpp:217-242 | the object loaded and what remains, or the failure |
| FlvMuxers.TagRoundTripIff | src/protocol/flv/flv_muxer.cpp:111-126 | a tag is read back exactly if its body is shorter than 2^24 |
| FlvMuxers.ForwardRoundTrip | src/protocol/flv/flv_muxer.cpp:128-145 | read forward, the stream gives the tags written |
| FlvMuxers.BackwardRoundTrip | src/protocol/flv/flv_muxer.cpp:33-43 | walked backward by the size fields it gives them in reverse, down to the first zero size |
| FlvMuxers.FileRoundTrip | src/protocol/flv/flv_muxer.cpp:33-145 | a reader that checks every field finds, in what a player is sent, a file announcing audio and video with exactly the tags written |
| FlvMuxers.FlvMuxer.StartMuxing | src/protocol/flv/flv_muxer.cpp:33-37 | file header and zero size |
| FlvMuxers.FlvMuxer.WriteFlv | src/protocol/flv/flv_muxer.cpp:128-145 | the stream grows by exactly one tag; an empty body is refused |

## Left out

- Sockets, strands, sessions, signals, logging, clocks, bitrate counters, HTTP parsing and responses, ADTS headers, command and metadata handlers: plumbing around the modelled core, or easy members.
- Handlers of whole messages other than the chunk size are one predicate on the history that says whether they throw; `ChunkStream.Env` also stands for the fields a first packet of a chunk stream leaves uninitialised.
- Acknowledgement windows are never set in the source, so their branches are dead and absent; `bytes_recv_` adds a packet's running size to itself and is not a byte count.
- A header in the middle of a message that shortens `msg_length` makes the source subtract below zero; the parser model computes the 64-bit result and nothing more is claimed of it. The reference sender does not write such headers.
- FlatBuffers.FlatBuffer.Prepend: the new array's size in the reallocating branch is a shift by 1 + size; the model asks that it fits 64 bits. Sizes near 2^64 elsewhere are not modelled.
- FlatBuffers.Replay: a prepend that needs a new array ends the run; what it does is stated by `FlatBuffers.FlatBuffer.Prepend` alone.
- A packet that is still referenced as the previous one of its chunk stream is shared with the handler in the source; here it is copied.
- `packet_dispatcher`: null readers, missing callbacks and callbacks that throw; more than one distributing thread; replacing the dispatcher when metadata arrives twice.
- RtmpMediaSources.VideoConfigInForce, and everything in `JoiningPlayers`: `start_pts` is 0, so no packet is filtered out on the way to a player; frames are told apart by their contents.
- `media_info` is shared between a session and its source, so a second publish can change a source's key; here the key is fixed when the source is made.
- Ownerships.SinglePublisher: a token's deleter clears the flag whether or not the source still exists; a flag of a source that is gone is never looked at.
- The thread pool's pause, priority, purge, reset and timed waits; a task that never ends or throws.
- Unlocked reads in `worker` are atomic steps here; the C++ memory model is not part of this model.
- Codes of 32 or more leading zeros shift past the word in the source; `BitReaders.BitReader.ParseCodenum` claims nothing about them, and `RefPicSetSyntax` calls them unknown.
- The other fields of the sequence and video parameter sets, scaling lists, frame rates, and the slice header's use of the reference picture set decoder.
- RtmpDemuxers.H264Track.ParseConfig: whether the sequence parameter set itself parses is an input.
- `resource_pool` never gets anything back, so obtaining is allocating; `buffer_raw` is a byte sequence.
- AMF metadata encoding (it compares names of types by address), AMF3, booleans.
- Amf.ObjectArrivesIff, and commands: the keys of an object are distinct, as in the map it is kept in.
