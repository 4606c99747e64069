# Verified model of the light client core

This project models four parts of a Polkadot light client written in C++20 and proves what they promise.

**Peer connections** (`PeerModel`, `PeerLemmas`, `PeerRuns`, `PeerCap`, `PeerDials`, `PeerEvents`, `PeerHistories`,
`PeerConnections`). The connection manager keeps a table of peers and reacts to events that arrive in any order: a peer
was discovered, identified itself, was dialled, answered a ping or failed to; a 200 ms tick passed; the program is
stopping. `PeerModel` gives the meaning of each event, with the environment choosing the events and the order in which
the unordered map is walked. The class `PeerConnections.PeerManager` does the same step by step and is proved against it. The main results are about every
run: the connection count never exceeds max + 1, is at most max after a tick, and stays within max exactly as long as no
event overshoots; a tick is exact and its numbers do not depend on the walk; dials and disconnects of a peer alternate.
`PeerEvents` says for every event and every field what changes it and which calls it makes, and `PeerHistories` what
follows for runs: who is known, that every disconnect reaches the host, and that live peers are pinged.

**GRANDPA messages** (`Bytes`, `Varints`, `Scale`, `ScaleStreams`, `Grandpa`, `GrandpaCodec`, `Frames`, `Framing`). One
description of each record drives both the encoder and the decoder, as the `serialize` functions do. Encoding follows
section A.2.2 of the Polkadot Protocol Specification; frames carry the unsigned-varint of multiformats. Decoding is
shown to undo encoding exactly, in both directions, from single fields up to streams of frames cut at any byte; the bytes
are also compared with a layout written out independently.

**light2 requests** (`Utf8`, `Protobuf`, `Light2`, `Light2Send`). Requests and responses as proto3 messages and their wire form
(Protocol Buffers Encoding guide, "Base 128 Varints" and "Length-Delimited Records"), and the coroutine that opens a
stream, writes and reads, with any number of sends in flight.

**Hex, chain specification, timer** (`Hex`, `ChainSpec`, `PeriodicTimers`). Base16 (section 8 of RFC 4648) with a `0x`
prefix, loading a raw genesis, finding the genesis runtime, block ids; and the periodic timer whose callback re-arms
itself.

`Outcomes` holds the option and result types and the outcome of calls that may step out of bounds. `dafny verify dfyconfig.toml` checks everything.

## Choices

- The connection limits are parameters with `0 < min <= max`; the program uses 10 and 20.
- The count can pass max by one, because the check before connecting asks for more than max, not for max.
  `PeerCap.CapIsReached` shows that it does, and `PeerCap.StepPassesCapIff` and `PeerCap.RunStaysCappedIff` say exactly
  when: if and only if an uncounted peer turns out to have a live connection while the count is max.
- Where the program reads past the end of a buffer or of a list of children, the result is `OutOfBounds`, with the exact
  inputs on which that happens; what the program then does the language leaves open.
- Errors of the libraries underneath are codes that are handed on.
- What the host, Kademlia, identify and ping do is an event of the environment. Their callbacks are separate later
  events, except the discovery event that Kademlia raises while a connection event is still being handled.
- Map walks and the peers that can be dialled are parameters of the events that need them.
- Peer ids, object ids and stream ids are numbers that are only compared.
- The SCALE library is not part of this model: its decoder is taken to be canonical, refusing lengths written in a
  longer mode than needed and lengths of 2^64 or more; bytes after a decoded value are ignored by `scale::decode`.
- The frame reader follows the multiformats rule: at most nine bytes of length, shortest form only. It reports an empty
  frame as a missing buffer, for which the program returns a default message: the first alternative, all zero.
- Generated protobuf code follows proto3: less than two gigabytes, strings checked for UTF-8 on parsing, groups refused,
  later occurrences of a field replacing, merging or appending.
- Where two steps of one source function are loops, each loop is a method of its own.

## Model

| member | source | states |
|---|---|---|
| PeerConnections.PeerManager.constructor | core/src/network/peer_manager.h:111-114 | a new manager knows no peer, is at tick 0 and stands for the empty run |
| PeerConnections.PeerManager.Deliver | core/src/network/peer_manager.cpp:270-481 | handling any enabled event extends the run the object stands for by exactly that event; afterwards at most max + 1 peers are counted, at most max if the event was a tick, and the local host is not in the table |
| PeerConnections.PeerManager.Handle | core/src/network/peer_manager.cpp:240-262 | each kind of event reaches the handler it is registered for, with the table and calls that go with it |
| PeerConnections.PeerManager.OnDiscoveredPeer | core/src/network/peer_manager.cpp:270-282 | a stranger other than the local host is entered as disconnected, without action, at the current tick and not pinged; anything else leaves table and calls alone |
| PeerConnections.PeerManager.OnConnectedPeer | core/src/network/peer_manager.cpp:284-349 | new table and calls for each branch; a peer that is one too many is disconnected by the host; pinging is started exactly for a peer that becomes live and is not pinged yet |
| PeerConnections.PeerManager.OnPingResult | core/src/network/peer_manager.cpp:309-332 | a result stamps a known peer and records the outcome; an error resets a known peer and has the host disconnect the peer, known or not |
| PeerConnections.PeerManager.UpdateTick | core/src/network/peer_manager.cpp:351-353 | stamps the entry with the current tick and changes nothing else |
| PeerConnections.PeerManager.DisconnectPeer | core/src/network/peer_manager.cpp:355-363 | a known peer becomes Disconnected and None; for any peer but itself the host is told to disconnect it |
| PeerConnections.PeerManager.ConnectPeer | core/src/network/peer_manager.cpp:376-423 | the host is asked to dial only another peer that has addresses and can be connected to; the table is not touched |
| PeerConnections.PeerManager.GetConnectionsCount | core/src/network/peer_manager.cpp:425-435 | whatever the walking order, the result is the number of peers that are Connected or Connecting |
| PeerConnections.PeerManager.UpdateConnections | core/src/network/peer_manager.cpp:437-468 | table and calls after a tick are those of the closed form, for any walking order; both loops keep the local counter equal to a fresh count |
| PeerConnections.PeerManager.DialUpToMax | core/src/network/peer_manager.cpp:443-454 | dials the first idle peers of the walk until the counter meets max or the walk ends |
| PeerConnections.PeerManager.DrainDownToMax | core/src/network/peer_manager.cpp:456-466 | disconnects the first connected peers of the walk until the counter meets max or the walk ends |
| PeerConnections.PeerManager.Stop | core/src/network/peer_manager.cpp:365-374 | every connected peer and no other is marked Disconnecting and the host is told to disconnect it, in walking order |
| PeerConnections.PeerManager.GetPeersInfo | core/src/network/peer_manager.cpp:470-481 | the connected peers, each once, in walking order |
| PeerConnections.DialStep | core/src/network/peer_manager.cpp:444-453 | at each point of the dialling walk the entry reached is still untouched, and the fresh count is the starting count plus the dials so far |
| PeerConnections.DrainStep | core/src/network/peer_manager.cpp:457-465 | the same for the draining walk, counting down |
| PeerConnections.StopStep | core/src/network/peer_manager.cpp:367-373 | at each point of the stopping walk exactly the connected peers passed are marked |
| PeerConnections.DialWalkStopped | core/src/network/peer_manager.cpp:450-452 | leaving the walk at the equality test and leaving it at its end give the same peers as the quota does |
| PeerConnections.DrainWalkStopped | core/src/network/peer_manager.cpp:462-464 | likewise for draining |
| PeerLemmas.FilterCovers | core/src/network/peer_manager.cpp:428-432 | a walk over the map meets each peer of a kind exactly once, so counting along it counts the peers |
| PeerLemmas.ChosenFacts | core/src/network/peer_manager.cpp:442-467 | the peers a tick acts on are distinct, of the right kind, and as many as the quota allows |
| PeerLemmas.DialledCounts | core/src/network/peer_manager.cpp:447-450 | marking idle peers Connecting adds exactly that many to the count and takes them from the idle ones |
| PeerLemmas.DrainedCounts | core/src/network/peer_manager.cpp:459-462 | dropping connected peers takes exactly that many from the count and makes them idle |
| PeerRuns.TickExact | core/src/network/peer_manager.cpp:437-468 | below min a tick brings the count to the smaller of max and count plus idle peers and dials precisely the difference; above max it drops connected peers down to max as far as there are any; in between only the tick number changes |
| PeerRuns.TickOrderIrrelevant | core/src/network/peer_manager.cpp:437-468 | two walking orders may pick different peers but leave the same numbers of counted, idle and connected ones |
| PeerRuns.TickDoesNothingIff | core/src/network/peer_manager.cpp:442-467 | a tick leaves the table alone if and only if the count is in range or nobody it could act on is left |
| PeerRuns.OnlyOwnEntryChanges | core/src/network/peer_manager.cpp:270-363 | every event but the tick and stop touches at most the entry of the peer it is about |
| PeerRuns.ConnectKeepsInv | core/src/network/peer_manager.cpp:298-306 | the only step that may pass max leaves a connected peer behind |
| PeerRuns.OnConnectedKeepsInv | core/src/network/peer_manager.cpp:284-349 | every branch of the connection event keeps the invariant |
| PeerRuns.OnPingKeepsInv | core/src/network/peer_manager.cpp:309-332 | a ping result keeps the invariant |
| PeerRuns.OnStopKeepsInv | core/src/network/peer_manager.cpp:365-374 | stopping keeps the invariant and the set of counted peers |
| PeerRuns.StepKeepsInv | core/src/network/peer_manager.cpp:270-468 | every enabled event keeps: local host absent, stamps not in the future, Disconnecting only when Connected, count at most max + 1, and at max + 1 somebody connected |
| PeerRuns.RunKeepsInv | core/src/network/peer_manager.cpp:270-468 | that invariant holds after every run |
| PeerRuns.TickRestoresCap | core/src/network/peer_manager.cpp:456-466 | from any state satisfying the invariant a tick ends at or below max; if it started above, it started exactly one above, drops one peer and ends at max |
| PeerRuns.RunIsCapped | core/src/network/peer_manager.cpp:298-302 | in every run, for any event order and any walking order, at most max + 1 peers are counted, at most max right after a tick, and the local host is never in the table |
| PeerCap.StepPassesCapIff | core/src/network/peer_manager.cpp:298-306 | from within the cap an event takes the count past max if and only if it overshoots: the count is exactly max and a peer that is neither the local host nor counted identifies itself, or is reached by a dial, with a live connection |
| PeerCap.RunStaysCappedIff | core/src/network/peer_manager.cpp:298-306 | for every run: the count stays within max at every point if and only if no event of the run overshoots where it happens |
| PeerCap.CapIsReached | core/src/network/peer_manager.cpp:298-302 | max + 1 is reached by some run, for every min and max |
| PeerRuns.KnownPeersSplit | core/src/network/peer_manager.cpp:334-339 | in every reachable state the known peers are the disjoint union of counted and idle ones, and Disconnecting implies Connected, so the reset in the no-connection branch never finds anything |
| PeerRuns.TickFillsOrExhausts | core/src/network/peer_manager.cpp:442-455 | after a tick that started below min either max is reached or no idle peer is left |
| PeerRuns.RunGrows | core/src/network/peer_manager.cpp:351-353 | known peers are never forgotten, and neither the tick nor any activity stamp ever decreases |
| PeerRuns.ReAddedPeerIsKnown | core/src/network/peer_manager.cpp:342-348 | whatever event re-adds a peer to Kademlia, from whatever state, the discovery event this raises leaves the table as it is |
| PeerRuns.TicksSettle | core/src/network/peer_manager.cpp:437-468 | a tick right after a tick, on whatever walks, leaves the table alone |
| PeerDials.OnlyIdleDialled | core/src/network/peer_manager.cpp:444-449 | in every run only ticks dial, only idle peers that are not the local host are dialled, and a dial leaves exactly that entry Connecting and stamped |
| PeerDials.BusyUntilDisconnect | core/src/network/peer_manager.cpp:284-374 | apart from ticks only a disconnect of the peer makes a connected or connecting peer idle |
| PeerDials.RunTracks | core/src/network/peer_manager.cpp:437-468 | in every run an unanswered dial means the peer is known and not idle |
| PeerDials.DisconnectBetweenDials | core/src/network/peer_manager.cpp:355-359 | between two dials of one peer there is a disconnect of that peer |
| PeerDials.AlternationBounds | core/src/network/peer_manager.cpp:444-462 | a history whose dials of a peer never overlap holds at most one more dial than disconnects |
| PeerDials.DialsBounded | core/src/network/peer_manager.cpp:355-359 | in every run a peer is dialled at most once more often than it is disconnected |
| PeerDials.StepPays | core/src/network/peer_manager.cpp:270-468 | no event dials more than the rise of the count plus its disconnects |
| PeerDials.TotalDialsBounded | core/src/network/peer_manager.cpp:437-468 | in every run all dials together are at most the counted peers, hence the known peers, plus all disconnects |
| PeerEvents.DisconnectReachesHost | core/src/network/peer_manager.cpp:355-363 | for every event and peer other than the host, each disconnect is followed at once by the host's |
| PeerEvents.DisconnectCalledIff | core/src/network/peer_manager.cpp:298-331 | a peer is disconnected if and only if its ping failed, it connected while not live with the count above max, or a tick dropped it |
| PeerEvents.HostDisconnectIff | core/src/network/peer_manager.cpp:355-374 | the host is told to disconnect a peer if and only if it is disconnected, or the program stops while it is live |
| PeerEvents.BecomesLiveIff | core/src/network/peer_manager.cpp:284-306 | a peer becomes live if and only if it connects, with a live connection, while the count is not above max |
| PeerEvents.StopsLivingIff | core/src/network/peer_manager.cpp:355-363 | a live peer stops being live if and only if it is disconnected, and then the host is told |
| PeerEvents.StartsPingingIff | core/src/network/peer_manager.cpp:307-309 | pinging is started if and only if the peer becomes live and is not pinged yet |
| PeerEvents.AddsToKademliaIff | core/src/network/peer_manager.cpp:342-348 | a peer is added to Kademlia if and only if it becomes live and its addresses are known |
| PeerEvents.DialsIff | core/src/network/peer_manager.cpp:376-423 | a dial is what turns an idle entry into a connecting one, and reaches the host if and only if the peer is another one that can be dialled |
| PeerEvents.KnownIff | core/src/network/peer_manager.cpp:270-293 | an event makes a peer known if and only if it discovers or connects it and it is not the host; only ticks advance the tick number |
| PeerEvents.DiscoveredIsEntered | core/src/network/peer_manager.cpp:266-279 | a discovered stranger is entered as disconnected, without action, at the current tick and not pinged; all other entries and the tick stay |
| PeerEvents.StampedIff | core/src/network/peer_manager.cpp:351-353 | an entry is stamped exactly when entered, when its ping succeeds or fails, and when a tick dials or drops it, with the tick number then current |
| PeerEvents.PingedIff | core/src/network/peer_manager.cpp:309-332 | whether an entry is pinged changes with the result of a ping of it and in no other way |
| PeerEvents.ActionIs | core/src/network/peer_manager.cpp:334-374 | the action of every entry after every event: set by a dial or by stopping, cleared by a disconnect or by finding no connection, otherwise kept |
| PeerEvents.TickEntry | core/src/network/peer_manager.cpp:437-468 | what a tick leaves in an entry it dialled, in one it dropped, and in any other, stamps included |
| PeerHistories.KnownIffHeardOf | core/src/network/peer_manager.cpp:270-293 | in every run the known peers are exactly the others that were discovered or connected |
| PeerHistories.RunReachesHost | core/src/network/peer_manager.cpp:355-363 | in every run each disconnect of another peer is followed at once by the host's |
| PeerHistories.LeavesOnlyWhenTold | core/src/network/peer_manager.cpp:355-374 | in every run, a peer live at one point and not at the end has been disconnected by the host in between |
| PeerHistories.LivePeersArePinged | core/src/network/peer_manager.cpp:307-332 | in every run, a live peer has had its pinging started, unless a ping of it was answered before |
| PeerHistories.OnlyConnectedArePinged | core/src/network/peer_manager.cpp:303-309 | in every run, pinging is started only for peers that connected with a live connection |
| PeerHistories.EachCallOnce | core/src/network/peer_manager.cpp:437-468 | no event makes the same call twice |
| PeerHistories.FirstOfTheWalk | core/src/network/peer_manager.cpp:443-465 | of the peers it could act on, a tick takes the first ones of the walk |
| ScaleStreams.Encoder.Put | core/src/network/scale/streams.h:11-19 | appends exactly the pure encoding of the value to what the stream held |
| ScaleStreams.Encoder.PutFields | core/src/network/scale/streams.h:31-36 | one archive call per field in the order of the description gives the encoding of the record |
| ScaleStreams.Encoder.PutItems | core/src/network/grandpa/messages.h:64-72 | a vector's elements are appended in order |
| ScaleStreams.Encoder.PutCompact | core/src/network/grandpa/messages.h:64-72 | the compact length in the shortest of the four modes |
| ScaleStreams.Decoder.Get | core/src/network/scale/streams.h:21-29 | succeeds exactly when the pure decoder does on the unread bytes, with the same value, and leaves the cursor where its rest begins |
| ScaleStreams.Decoder.GetFields | core/src/network/scale/streams.h:38-44 | likewise field by field in the order of the description |
| ScaleStreams.Decoder.GetItems | core/src/network/grandpa/messages.h:64-72 | likewise for the elements of a vector |
| ScaleStreams.Decoder.GetCompact | core/src/network/grandpa/messages.h:64-72 | likewise for a compact length |
| Scale.CompactRoundTrip | core/src/network/grandpa/messages.h:64-72 | every length below 2^536 is read back from its compact form, whatever follows |
| Scale.CompactSound | core/src/network/grandpa/messages.h:64-72 | the canonical decoder accepts nothing but compact forms |
| Scale.CompactForm | core/src/network/grandpa/messages.h:64-72 | the four modes byte by byte: low two bits, lowest byte first, and no leading zero in the long mode |
| Bytes.LittleEndianAt | core/src/network/grandpa/messages.h:46-56 | the byte at place k of a fixed-width integer counts the 256^k |
| Scale.DecodeEncode | core/src/network/scale/streams.h:31-44 | for every description, conforming value and trailing bytes, decoding what was encoded gives the value and the trailing bytes |
| Scale.DecodeSound | core/src/network/scale/streams.h:31-44 | whatever the decoder accepts conforms to the description and is the encoding of the result followed by the rest |
| Scale.DecodeExact | core/src/network/scale/streams.h:31-44 | both at once, as an if-and-only-if for every description and byte string |
| Scale.PrefixFree | core/src/network/scale/streams.h:31-44 | under one description no encoding is the beginning of another value's stream |
| Scale.TruncationFails | core/src/network/scale/streams.h:31-44 | an encoding cut anywhere before its end is refused |
| Scale.TooLongVectorFails | core/src/network/grandpa/messages.h:64-72 | a vector length of 2^64 or more is refused |
| Grandpa.ToBlockInfo | core/src/network/grandpa/messages.h:17-26 | every value that conforms to the description is some record of this type, and turning that record back gives the value |
| Grandpa.ToVote | core/src/network/grandpa/messages.h:30-41 | every value that conforms to the description is some record of this type, and turning that record back gives the value |
| Grandpa.ToVoteMessage | core/src/network/grandpa/messages.h:46-57 | every value that conforms to the description is some record of this type, and turning that record back gives the value |
| Grandpa.ToCompactCommit | core/src/network/grandpa/messages.h:61-74 | every value that conforms to the description is some record of this type, and turning that record back gives the value |
| Grandpa.ToFullCommit | core/src/network/grandpa/messages.h:78-89 | every value that conforms to the description is some record of this type, and turning that record back gives the value |
| Grandpa.ToNeighbor | core/src/network/grandpa/messages.h:93-106 | every value that conforms to the description is some record of this type, and turning that record back gives the value |
| Grandpa.ToCatchUpRequest | core/src/network/grandpa/messages.h:110-119 | every value that conforms to the description is some record of this type, and turning that record back gives the value |
| Grandpa.ToSignedMessage | core/src/network/grandpa/messages.h:123-134 | every value that conforms to the description is some record of this type, and turning that record back gives the value |
| Grandpa.ToCatchUpResponse | core/src/network/grandpa/messages.h:138-153 | every value that conforms to the description is some record of this type, and turning that record back gives the value |
| Grandpa.ToMessage | core/src/network/grandpa/messages.h:157-165 | likewise for the five alternatives by index |
| GrandpaCodec.ScaleEncode | core/src/network/scale/message_reader_writer.h:50-53 | encoding a message gives bytes that decode to it with nothing left |
| GrandpaCodec.ScaleDecode | core/src/network/scale/message_reader_writer.h:38-42 | yields the message if and only if the bytes begin with its encoding; what follows is not looked at |
| GrandpaCodec.MessageInjective | core/src/network/grandpa/messages.h:157-165 | different messages have different values, down to every nested field and list element |
| GrandpaCodec.DecodeExactly | core/src/network/grandpa/messages.h:17-165 | for every byte string, message and rest: decoding gives exactly these if and only if the bytes are that message's encoding followed by that rest |
| GrandpaCodec.MessagesPrefixFree | core/src/network/grandpa/messages.h:157-165 | across all five alternatives no encoding begins another message's stream, and equal encodings mean equal messages |
| GrandpaCodec.TruncatedMessageFails | core/src/network/grandpa/messages.h:157-165 | a message cut anywhere before its end is refused |
| GrandpaCodec.BlockInfoOnWire | core/src/network/grandpa/messages.h:21-25 | number as four little-endian bytes, then the hash |
| GrandpaCodec.VoteOnWire | core/src/network/grandpa/messages.h:35-40 | block info, signature, id |
| GrandpaCodec.AuthOnWire | core/src/network/grandpa/messages.h:65-65 | signature, then id |
| GrandpaCodec.SignedOnWire | core/src/network/grandpa/messages.h:128-133 | vote, signature, id |
| GrandpaCodec.CommitOnWire | core/src/network/grandpa/messages.h:67-73 | hash, number, then the two lists, each with its own length |
| GrandpaCodec.VoteMessageOnWire | core/src/network/grandpa/messages.h:51-56 | round, set id, vote |
| GrandpaCodec.FullCommitOnWire | core/src/network/grandpa/messages.h:83-88 | round, set id, compact commit |
| GrandpaCodec.ResponseOnWire | core/src/network/grandpa/messages.h:145-152 | set id before round, the two justification lists, the final candidate |
| GrandpaCodec.MessageOnWire | core/src/network/grandpa/messages.h:157-165 | the archive-driven encoding equals a layout written out independently, index byte by alternative and field by field |
| GrandpaCodec.WireSize | core/src/network/grandpa/messages.h:157-165 | the closed-form length of every message: 149, 53 + lists, 22, 17, 53 + lists |
| GrandpaCodec.DecodeConsumes | core/src/network/grandpa/messages.h:157-165 | on any input a successful decode consumes exactly the closed-form size of its result |
| Varints.VarintRoundTrip | core/src/network/scale/message_reader_writer.h:28-31 | a varint reads back, whatever follows, exactly when it is no longer than the reader's limit |
| Varints.VarintAt | core/src/network/scale/message_reader_writer.h:28-31 | each byte of a varint holds seven bits, lowest first, and all but the last are marked |
| Varints.ShortestIff | core/src/network/scale/message_reader_writer.h:28-31 | what a reading consumed is the written form of its number if and only if it is one byte or its last byte is not zero |
| Varints.UvarintExact | core/src/network/scale/message_reader_writer.h:28-31 | the length prefix is accepted, by looking at its last byte only, exactly when it is the written form of a number below 2^63 |
| Frames.FrameExact | core/src/network/scale/message_reader_writer.h:28-31 | a frame is read exactly when the wire begins with it |
| Frames.FrameLayout | core/src/network/scale/message_reader_writer.h:56-59 | the bytes of a frame: the shortest length prefix, seven bits a byte, then the payload |
| Frames.OversizedFrameFails | core/src/network/scale/message_reader_writer.h:56-59 | a payload too long for the length prefix is never read back |
| Frames.FramesPrefixFree | core/src/network/scale/message_reader_writer.h:56-59 | no frame is the beginning of another one |
| Frames.PartialFrameWaits | core/src/network/scale/message_reader_writer.h:28-35 | a frame that has not arrived completely is not taken for one |
| Frames.WholeFramesIsExact | core/src/network/scale/message_reader_writer.h:28-31 | the number of frames within the first k bytes is the largest that fits |
| Frames.PrefixReadsPrefix | core/src/network/scale/message_reader_writer.h:28-35 | however much of a stream has arrived, exactly the complete frames are read, in order, and the rest stays |
| Framing.MessageReadWriter.Write | core/src/network/scale/message_reader_writer.h:48-60 | appends the length-prefixed encoding to the wire and passes on the byte count, or, if the stream breaks, passes on its error with some first part of the frame on the wire |
| Framing.BrokenWriteWaits | core/src/network/scale/message_reader_writer.h:33-35 | a write that broke before the end of its frame is not read as a message; one that broke after it is |
| Framing.MessageReadWriter.Read | core/src/network/scale/message_reader_writer.h:25-46 | for each branch the result and the remaining wire: no complete frame, empty frame, payload that does not decode (an error), payload that does (its message) |
| Framing.PayloadExact | core/src/network/scale/message_reader_writer.h:37-42 | for every non-empty payload and every rest: the read reports an undecodable payload if and only if no message's encoding begins it |
| Framing.MessageReadIff | core/src/network/scale/message_reader_writer.h:37-42 | it yields a given message if and only if that message's encoding begins the payload |
| Framing.NothingReadIff | core/src/network/scale/message_reader_writer.h:33-35 | it fails without consuming anything if and only if the wire does not begin with a complete frame |
| Framing.DefaultIsZeros | core/src/network/scale/message_reader_writer.h:43-45 | the default message is the one encoded as 149 zeros |
| Framing.MessagesNeverEmpty | core/src/network/scale/message_reader_writer.h:49-53 | every message encodes to at least 17 bytes |
| Framing.WrittenReadsBack | core/src/network/scale/message_reader_writer.h:25-60 | what a write adds reads back as that message exactly when it fits the length prefix; otherwise the frame is refused |
| Framing.OnlyEmptyFramesReadAsDefault | core/src/network/scale/message_reader_writer.h:43-45 | an empty frame reads as the default message, and no written message is an empty frame |
| Framing.MessagesFollowFrames | core/src/network/scale/message_reader_writer.h:25-46 | reading messages follows reading frames one for one |
| Framing.ArrivedMessagesRead | core/src/network/scale/message_reader_writer.h:25-46 | however much of a stream of messages has arrived, exactly the messages whose frames are complete are read, in order |
| Framing.OversizedStops | core/src/network/scale/message_reader_writer.h:33-35 | a message too long for its prefix stops the reader |
| Framing.StreamOfMessagesReadsBack | core/src/network/scale/message_reader_writer.h:25-60 | any sequence of messages written one after the other reads back as the same sequence with nothing left over, if and only if each fits its length prefix |
| Protobuf.FieldRoundTrip | core/src/network/light2/protobuf/light.proto:35-42 | one field of any wire type reads back, whatever follows |
| Protobuf.ParseSerialize | core/src/network/light2/protobuf/light.proto:16-23 | any sequence of well-formed fields parses back to itself in order |
| Protobuf.TruncatedChunkFails | core/src/network/light2/protobuf/light.proto:34-73 | a length-delimited field that ends early is refused, wherever it ends |
| Protobuf.OtherWireTypesFail | core/src/network/light2/protobuf/light.proto:3-3 | proto3 has no groups: a field of one, or of an unknown wire type, is refused |
| Utf8.ValidIff | core/src/network/light2/protobuf/light.proto:39-39 | a string passes the check if and only if it is the encoding of some sequence of Unicode scalar values |
| Protobuf.ByteVector.WriteToVec | core/src/network/protobuf/utils.h:31-38 | the bytes already in the buffer stay; below two gigabytes exactly the serialized message follows them, and otherwise as many zeros |
| Protobuf.ByteVector.SerializeToArray | core/src/network/protobuf/utils.h:37-37 | fills the last part of the buffer in place if and only if the message is below two gigabytes |
| Light2.ToProto | core/src/network/light2/messages.h:14-93 | the oneof case and every field of the request, keys in order |
| Light2.RequestOnWire | core/src/network/light2/protobuf/light.proto:16-73 | the bytes of each request with the tag of every field written out; empty fields are absent |
| Light2.CallRoundTrip | core/src/network/light2/messages.h:14-27 | a call request below the size limit parses back if its method is UTF-8 and is refused if not |
| Light2.ReadRoundTrip | core/src/network/light2/messages.h:45-57 | a read request below the size limit parses back with its keys in order |
| Light2.ChildRoundTrip | core/src/network/light2/messages.h:76-93 | a child read request below the size limit parses back with its storage key and keys in order |
| Light2.ProtoRoundTrip | core/src/network/light2/messages.h:14-93 | any request message parses back to itself if and only if it is below the size limit and its method is UTF-8 |
| Light2.RequestsDistinguishable | core/src/network/light2/messages.h:14-93 | different sendable requests never look alike on the wire |
| Light2.AppendRequest | core/src/network/protobuf/utils.h:40-43 | for every request: the prefix is kept; what was appended parses back to the request if and only if the request can be sent, and is its encoding if and only if that is below two gigabytes |
| Light2.FromProto | core/src/network/light2/messages.h:35-42 | a value is returned if and only if the response holds the expected case, and then it is that case's proof; otherwise the error is InvalidResponse |
| Light2.ResponseRoundTrip | core/src/network/light2/protobuf/light.proto:26-32 | any response message parses back to itself if and only if it is below the size limit |
| Light2.ResponseOnWire | core/src/network/light2/protobuf/light.proto:26-62 | the bytes of each response with the tag of every field written out |
| Light2.TruncatedResponseFails | core/src/network/light2/protobuf/light.proto:26-62 | a response cut anywhere before its end is refused |
| Light2.ResponsesMerge | core/src/network/light2/protobuf/light.proto:26-32 | of two responses in one message the later wins, unless it adds nothing |
| Light2.UnknownFieldSkipped | core/src/network/light2/protobuf/light.proto:26-32 | a field of no case is skipped, whatever it is and whatever follows |
| Light2Send.Client.Start | core/src/network/light2/protocol.cpp:23-32 | starting a send opens one stream and suspends |
| Light2Send.Client.OnCallback | core/src/utils/callback_to_coro.h:34-39 | the result is stored before the coroutine resumes, so the resumed step finds it; no other send is touched |
| Light2Send.Client.Resume | core/src/network/light2/protocol.cpp:33-45 | the next action and phase for each awaited result, with the early exits and the error each operation reported |
| Light2Send.AdvanceExplained | core/src/network/light2/protocol.cpp:23-46 | each callback extends the reference script of the send by exactly the action taken |
| Light2Send.SendsAreIndependent | core/src/network/light2/protocol.cpp:23-46 | for any number of sends and any interleaving, what one send did is the reference script of its own callbacks |
| Light2Send.SendIsOrdered | core/src/network/light2/protocol.cpp:23-46 | every send opens once, then writes its request once, then reads once on the same stream, does nothing after a failure, and completes exactly once and last |
| Light2Send.ValuesMatchRequests | core/src/network/light2/messages.h:35-42 | a send yields a value only after all three operations succeeded and the response held the case its request calls for |
| Light2Send.ErrorsArePassedOn | core/src/network/light2/protocol.cpp:33-45 | a send that fails reports the very error of the operation that failed, all earlier ones having succeeded, or InvalidResponse for a response of the wrong case |
| Hex.Unhex | core/src/utils/hex.cpp:24-37 | NonHexInput if and only if some character is not a hex digit, else NotEnoughInput if and only if the length is odd, else the bytes |
| Hex.UnhexWith0x | core/src/utils/hex.cpp:39-46 | Missing0xPrefix if and only if the prefix is missing; otherwise what the rest decodes to |
| Hex.UnhexWith0xToBlockHash | core/src/utils/hex.cpp:49-54 | the first 32 decoded bytes, with the decoding errors passed on; out of bounds if fewer than 32 bytes were decoded |
| Hex.HashOutOfBoundsIff | core/src/utils/hex.cpp:49-54 | the copy runs past the end if and only if the text is, up to case, the printed form of fewer than 32 bytes |
| Hex.ToHex | core/src/utils/hex.cpp:56-62 | fills the buffer with the prefix and two lower-case digits a byte |
| Hex.PairsOfDigits | core/src/utils/hex.cpp:56-62 | digits printed for bytes pair up to the same bytes |
| Hex.DigitsOfPairs | core/src/utils/hex.cpp:24-37 | printing decoded bytes gives the input in lower case |
| Hex.UnhexPrinted | core/src/utils/hex.cpp:39-62 | every byte string decodes from its printed form |
| Hex.UnhexExact | core/src/utils/hex.cpp:24-62 | text decodes to given bytes if and only if it has the prefix and is, up to case, what they print as |
| Hex.HexInjective | core/src/utils/hex.cpp:56-62 | equal printed text means equal bytes |
| Hex.AlphabetExact | core/src/utils/hex.cpp:24-62 | a character is a digit of given value if and only if the alphabet has it there, in either case |
| Hex.PrintedAt | core/src/utils/hex.cpp:56-62 | the prefix, then the high and the low digit of each byte, in lower case |
| ChainSpec.Spec.LoadGenesis | core/src/chain/spec.cpp:120-153 | outcome and both fields for each path: missing entry, failing child tries (top block untouched), failing top block (entries before the failure stay), success; out of bounds if and only if there is neither a "top" entry nor any child, with nothing changed by then |
| ChainSpec.LoadFresh | core/src/chain/spec.cpp:31-46 | any genesis, printed with any child tries of distinct keys, loads into a fresh specification as exactly that genesis and those tries |
| ChainSpec.FirstNamedExact | core/src/chain/spec.cpp:121-128 | a child is found if and only if there is one of that name, and then it is the first |
| ChainSpec.MissingEntryIff | core/src/chain/spec.cpp:121-122 | the entry is missing if and only if there is no "genesis" or the first one has no "raw" |
| ChainSpec.FirstChildIsTop | core/src/chain/spec.cpp:125-129 | without a "top" entry the first child is the top block, whatever its name and whatever follows |
| ChainSpec.Spec.LoadChildren | core/src/chain/spec.cpp:140-148 | child tries are loaded in order up to the first failure; a key already there keeps its data |
| ChainSpec.ReadKeyBlock | core/src/chain/spec.cpp:131-138 | the decoded pairs up to the first failure, and that failure |
| ChainSpec.BlockExact | core/src/chain/spec.cpp:131-138 | a block loads if and only if every key and value is prefixed even-length hex, and then pair by pair |
| ChainSpec.BlockFails | core/src/chain/spec.cpp:131-138 | a block that does not load stops at its first bad entry with that entry's error, having read all entries before it |
| ChainSpec.TriesFail | core/src/chain/spec.cpp:140-148 | child tries that do not all load stop at the first bad one with what is wrong with it, having loaded all before it |
| ChainSpec.PrintedBlockLoads | core/src/chain/spec.cpp:131-138 | any list of byte pairs, printed and loaded, is the same list in the same order |
| ChainSpec.FirstTrieKept | core/src/chain/spec.cpp:142-147 | among child tries whose keys decode to the same bytes the first is kept |
| ChainSpec.OldTriesKept | core/src/chain/spec.cpp:146-146 | a trie that was there before loading stays as it was |
| ChainSpec.TrieKeysComeFromNames | core/src/chain/spec.cpp:142-147 | no child trie appears under a key that no name decodes to |
| ChainSpec.TriesExact | core/src/chain/spec.cpp:140-148 | the child tries load if and only if every name and every block in them does |
| ChainSpec.CodeKeyPrints | core/src/runtime/service.cpp:25-25 | the constant compared against is the printed form of the bytes of ":code" |
| ChainSpec.FindGenesisRuntime | core/src/runtime/service.cpp:36-47 | the value of the first entry whose key is exactly ":code"; none is found if and only if there is no such entry |
| ChainSpec.ParseBlockId | core/src/chain/spec.cpp:173-190 | a hash for prefixed text, a 32-bit number otherwise, with the errors of each branch and the out-of-bounds copy |
| ChainSpec.FromChars | core/src/chain/spec.cpp:180-185 | the longest leading run of digits and its value |
| ChainSpec.NumberIdExact | core/src/chain/spec.cpp:179-188 | without the prefix the result is n if and only if the text is a non-empty maximal digit run of value n below 2^32 and anything after it; every other outcome is ParserError |
| ChainSpec.HashIdExact | core/src/chain/spec.cpp:175-178 | with the prefix: a hash if and only if the text prints, up to case, bytes that begin with it; and the exact texts for each error |
| ChainSpec.LeadingDigit | core/src/chain/spec.cpp:181-183 | digits count by place: a digit in front counts as many tens of tens as there are digits after it |
| ChainSpec.NumbersRoundTrip | core/src/chain/spec.cpp:179-188 | every 32-bit number parses back from its decimal form |
| ChainSpec.HashesRoundTrip | core/src/chain/spec.cpp:175-178 | every 32-byte hash parses back from its printed form |
| PeriodicTimers.TimerState.constructor | core/src/runner/timer.cpp:13-35 | a new timer is running, owned by the object constructed, and has one wait pending |
| PeriodicTimers.TimerState.Deliver | core/src/runner/timer.cpp:13-45 | every enabled event extends the run the state stands for; at most one wait is pending or due afterwards; stopping or destroying the owner leaves the timer not running |
| PeriodicTimers.TimerState.OnExpiry | core/src/runner/timer.cpp:20-31 | the callback runs the handler and re-arms only if the state is alive and running, and releases the state if the handler destroyed its owner |
| PeriodicTimers.TimerState.StopObject | core/src/runner/timer.cpp:37-45 | only an object that still holds the state can stop it |
| PeriodicTimers.HandlerEffects | core/src/runner/timer.cpp:22-27 | whatever the handler does to timer objects, it neither starts nor cancels waits and can only turn running off |
| PeriodicTimers.StepKeepsInv | core/src/runner/timer.cpp:13-45 | every event keeps the invariant on waits, calls and ownership |
| PeriodicTimers.RunKeepsInv | core/src/runner/timer.cpp:13-45 | in every run at most one wait is pending or due, exactly one while running; each handler call re-armed once; and every wait ever started is pending, queued or delivered |
| PeriodicTimers.ExpiryCallsOnce | core/src/runner/timer.cpp:20-31 | an error-free expiry while running calls the handler once and re-arms once, also when the handler stops or destroys the timer; otherwise it does neither |
| PeriodicTimers.StoppedForGood | core/src/runner/timer.cpp:37-45 | once not running at an event boundary, no handler call and no re-arm ever follows |
| PeriodicTimers.OwnerStops | core/src/runner/timer.cpp:37-45 | stopping or destroying the owner stops the timer, and only destroying it frees the state |
| PeriodicTimers.NothingAfterStop | core/src/runner/timer.cpp:20-45 | in every run, after a stop or the destruction of the owner no handler call and no re-arm follows |
| PeriodicTimers.NothingAfterStopInside | core/src/runner/timer.cpp:20-45 | a handler that stops or destroys the owner, whatever else it does, is the last one called, and re-arms once |
| PeriodicTimers.KeepsGoing | core/src/runner/timer.cpp:20-31 | while running the next expiry can be delivered, and then the handler has been called once more and the next wait is pending |
| PeriodicTimers.CallsPerPeriod | core/src/runner/timer.cpp:20-35 | n undisturbed periods call the handler n times |
| PeriodicTimers.MoveHandsOn | core/src/runner/timer.h:30-31 | after a move the new object owns the timer if and only if the old one did |
| PeriodicTimers.MovedFromIsInert | core/src/runner/timer.h:30-31 | stopping or destroying an object that was moved from leaves the timer running as it was |

## Left out

- ScaleStreams.Encoder.PutCompact: requires lengths of at most 67 bytes, the most the compact form can express; vector lengths are far below that.
- Frames.PrefixReadsPrefix: is stated for payloads below 2^63 bytes, the most a length prefix can express; longer ones are covered by `Frames.OversizedFrameFails`.
- Reconnection after a failed dial: the entry stays Connecting, keeps counting and is not dialled again until a disconnect; nothing is claimed about when that happens.
- `is_pinging`: no claim that it follows the connection state.
- The 64-bit tick counter wrapping around: the tick is unbounded.
- Host calls that would call back into the manager before returning, other than the discovery event named above.
- `initProtocols`, host, Kademlia, identify, ping, keys, multiaddresses and base58: third-party wiring.
- GRANDPA handshake, roles and delivery to the observer: nothing turns that protocol on.
- Agreement of the GRANDPA field orders with other clients: the codec is proved as written.
- SCALE input whose compact lengths are not canonical: the library is not part of this model.
- `takeFromPtr` and `takeFromCollection`: they move values out of generated objects.
- The sync2 protocol: its send repeats the light2 one.
- The command line, logging, JSON reading, boot nodes and the remaining fields of the chain specification: input and output.
- The WASM module, executor, runtime pointers and zstd decompression of the runtime found: foreign calls.
- `StopHandler`, the move-on-copy wrapper and the second reader-writer that is not built: they would only add easy members.
- Freeing of timer memory and the clock: expiry is an event that can happen whenever a wait is pending.
