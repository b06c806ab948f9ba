# Verification of Undying Terminal's protocol core

Undying Terminal keeps a terminal session alive over TCP connections that come and go. This project
models the parts of it whose correctness cannot be seen from one function, and proves what they are
for. `dafny verify dfyconfig.toml` checks everything.

## What is modelled

**Reconnect and recovery.** Each side of a connection has a `BackedWriter`, which seals packets under
a nonce counter, keeps the newest 64 MiB of them and writes frames, and a `BackedReader`, which
reassembles frames, counts packets and serves queued catch-up packets first. After an outage the two
sides exchange their counts and what is missing. `BackedWriters`, `BackedReaders`, `Nonces`, `Packets`,
`SocketIo`, `Catchup` and `Connections` hold the classes, each method proved against a function of the
old state; `FrameReading` says what calls of `Read` make of a frame, however it arrives. `Recovery`
joins two endpoints and any number of TCP connections into a step system: a write is accepted, one
`send` moves any number of bytes or fails, one call of `Read` gets any two answers from the operating
system, a side closes, shuts down, or takes one of the four messages of `Recover`, which can fail
before each of them. Closing and failing are always possible.
`RecoveryInvariant` has the global invariant, `RecoverySafety` what it means for every run,
`RecoveryDelivery` that reading on a live connection hands out everything, `RecoveryResync` when an
outage can be survived, `RecoveryMethods` shows that the methods of the class are runs of those steps,
and `RecoveryLimits` that the one assumption about packet lengths is needed.
The locks decide what can come in between: `Write`, `CloseSocket` and `Recover` hold the connection's
mutex, so one starts only when no other is under way; `Recover` also holds both recover mutexes, so no
`Read` comes between its messages, while one may come between the sends of a write. The peer's steps
come in anywhere.

**Port forwarding.** `PortForward` has the handler; `TunnelSystem` joins a client-role and a
server-role handler by two FIFO packet channels, which is what the recovery protocol makes of a
connection; `TunnelInvariant` and `TunnelSafety` prove the pairing of handles, where tunnels lead, the
conservation of bytes and the passing on of closes; `TunnelMethods` shows that the handler's passes are
runs of the steps.

**Configuration and tunnel arguments.** `Globs` has the backtracking host matcher, `HostConfig` the
one-pass reader of the ssh configuration, `LocalForwards` the normaliser of `LocalForward` values and
`TunnelArgs` the parser that reads its output back; `Strings` has their helpers.

**Predictive echo.** `EchoPrediction` has the reconciler of typed and echoed text.

## How to read it

The cipher is a pair of functions and every theorem is about every sound cipher: a box opens under the
nonce it was sealed with. `Authentic` ciphers, whose boxes open under no other nonce, are needed only
where a theorem says that opening fails. The build without libsodium is the identity cipher.

The operating system is a script of answers. Loops that wait on it end when the script does, with an
outcome that says so; every finite behaviour of such a loop is the behaviour under some script.

Theorems about runs say `Reached(c, steps, s)`: s is the end of a run from the start of a session in
which every accepted packet is short enough (below 2^32 bytes once sealed) for the 32-bit length field
of a frame. The bound is exact: `Packets.FrameLengthField` says so of the field,
`BackedReaders.LongFrameIsMisread` of the reader and `RecoveryLimits.LengthBoundIsSharp` of runs.

## Where code and expectations part

The model follows the code. These are results, each proved for all inputs:

- docs/concepts/recovery-protocol.mdx describes checksums, a reorder window and a recovery that skips
  lost packets. None of them exists; a peer that is too far behind makes `Recover` throw
  (src/ut/protocol/BackedWriter.cpp:95). `RecoveryResync.ResyncExactlyIfCovered` gives the exact condition.
- The writer sets no limit on a packet and the reader throws above 128 MiB:
  `BackedReaders.ThrowsExactlyForOversize`.
- A literal star in the text is consumed before the pattern's star is noticed, so the glob matcher is right
  under all patterns exactly for texts without a star: `Globs.RightExactlyWithoutStars`. It errs on one
  side only: `Globs.NeverOverAccepts`.
- A normalised `LocalForward` is read back exactly if no host keeps an inner bracket
  (`LocalForwards.NormalizedIsReadBack`) and requested exactly if, besides, no host has a comma and the
  ports are ints (`LocalForwards.ForwardBecomesRequest`).
- Options are last-wins, unlike in ssh_config(5), and a numeric port that is no int escapes as an
  exception: `HostConfig.LoadForHost`.
- Predictive echo is exact up to 4096 characters without an echo and not beyond:
  `EchoPrediction.TypedStep`.

## Model

| member | source | states |
|---|---|---|
| Packets.ParseSerialize | src/ut/protocol/Packet.hpp:14-41 | Parsing a serialized packet gives the packet back, and `length` is the serialized length. |
| Packets.SerializeParse | src/ut/protocol/Packet.hpp:14-39 | A byte string survives parsing and serializing again exactly if it has a header and a flag byte of 0 or 1. |
| Packets.FrameLengthField | src/ut/protocol/BackedWriter.cpp:46-52 | The length field of a frame names the packet's length exactly if the length fits 32 bits. |
| Packets.FrameBytes | src/ut/protocol/Packet.hpp:33-39 | Byte by byte what a frame is: the length, most significant byte first, the flag, the header and the payload. |
| Packets.FramesAndPart | src/ut/protocol/BackedWriter.cpp:46-72 | Any prefix of a stream of frames is whole frames and at most one cut short. |
| Nonces.CryptoHandler.IncrementNonce | src/ut/protocol/CryptoHandler.cpp:60-67 | The carry loop adds one, modulo 256^24, to the little-endian number in the array. |
| Nonces.CryptoHandler.Encrypt | src/ut/protocol/CryptoHandler.cpp:25-39 | Moves the counter, then seals under the new value. |
| Nonces.CryptoHandler.Decrypt | src/ut/protocol/CryptoHandler.cpp:41-58 | Moves the counter, whether or not the box opens, then opens under the new value. |
| Nonces.CryptoHandler.constructor | src/ut/protocol/CryptoHandler.cpp:7-23 | The counter starts at the direction's top byte times 256^23. |
| Nonces.NonceAtClosedForm | src/ut/protocol/CryptoHandler.cpp:60-67 | After n messages the counter is start + n modulo 256^24. |
| Nonces.NonceReuseWithinDirection | src/ut/protocol/CryptoHandler.cpp:60-67 | Two messages of one direction share a nonce exactly if a multiple of 256^24 lies between them. |
| Nonces.NoncesAcrossDirections | src/ut/protocol/UtConstants.hpp:5-6 | The two directions share no nonce while each has sent at most 256^23 messages, and one more message is enough for a collision. |
| Nonces.NonceReuseAcrossDirections | src/ut/protocol/UtConstants.hpp:5-6 | For all counts, exactly which pairs of messages of the two directions share a nonce. |
| SocketIo.SocketHandler.ReadAll | src/ut/protocol/SocketHandler.cpp:13-39 | For any answers and any readings of the clock, the bytes taken are the next bytes of the stream and of no other, and the call ends as the loop `ReadLoop` does. |
| SocketIo.SocketHandler.WriteAllOrThrow | src/ut/protocol/SocketHandler.cpp:41-63 | For any answers and any readings of the clock, what reaches the stream, and no other, is a prefix of the buffer, and the call ends as the loop `WriteLoop` does. |
| SocketIo.ReadLoopEnd | src/ut/protocol/SocketHandler.cpp:16-38 | While the bytes are there and the clock is calm, a read loop gets exactly what the reads grant before one that ends it, however often the socket is not ready, and throws exactly if one ends it too soon. |
| SocketIo.WriteLoopEnd | src/ut/protocol/SocketHandler.cpp:44-62 | A write loop gets out exactly what is taken before an answer of zero; negative answers only delay it, and it throws exactly if a zero comes too soon. |
| SocketIo.SilenceThrows | src/ut/protocol/SocketHandler.cpp:18-24 | With a timeout, more than 30 seconds without a byte end either loop. |
| SocketIo.SocketHandler.ReadPacket | src/ut/protocol/SocketHandler.cpp:65-79 | A call that returns took exactly one frame and left the bytes behind it; it does return if the frame is there and the socket answers often enough; one that does not took at most the bytes of the frame; other streams are untouched. |
| SocketIo.SocketHandler.WritePacket | src/ut/protocol/SocketHandler.cpp:81-89 | A prefix of one frame reaches the stream, the whole frame exactly if the call returns, and it does return if the socket never ends and answers often enough; a packet over 128 MiB throws with nothing sent; other streams are untouched. |
| SocketIo.TakePacketOfFrame | src/ut/protocol/SocketHandler.cpp:65-89 | Reading a written frame yields an equal packet and the bytes after it untouched. |
| BackedWriters.LongestFittingIsLongest | src/ut/protocol/BackedWriter.cpp:36-43 | The m newest packets fit 64 MiB exactly if m is at most the backlog's length. |
| BackedWriters.PushTrimKeepsLongest | src/ut/protocol/BackedWriter.cpp:36-43 | Push and trim keep the backlog the longest fitting part of the whole history and its size the exact sum, also when one packet alone is over the cap. |
| BackedWriters.AcceptKeepsWriterInv | src/ut/protocol/BackedWriter.cpp:33-52 | Sequence number, nonce count, backlog and history stay in step over each accepted packet; the frame sent is the history's new entry. |
| BackedWriters.RecoverIsHistorySuffix | src/ut/protocol/BackedWriter.cpp:74-96 | Recover(n) replays exactly history[n..], oldest first, if and only if the socket is down and nothing from n on was evicted; it throws otherwise. |
| BackedWriters.BacklogBound | src/ut/protocol/BackedWriter.cpp:40-43 | The backlog never holds more than 2^25 packets. |
| BackedWriters.WrappedHeaderFailsClosed | src/ut/protocol/Connection.cpp:96-102 | For every 64-bit count not ahead of the writer, the int32 header is answered with the missing suffix if it is exact, and refused if it wrapped. |
| BackedWriters.BackedWriter.constructor | src/ut/protocol/BackedWriter.cpp:16-21 | A new writer has accepted nothing. |
| BackedWriters.BackedWriter.Write | src/ut/protocol/BackedWriter.cpp:23-72 | Skipped changes nothing; otherwise the packet is accepted once, and however short the writes, as much of its frame reaches this socket and no other as the socket takes before its first failure, Success being the whole of it. |
| BackedWriters.BackedWriter.Recover | src/ut/protocol/BackedWriter.cpp:74-96 | The replay loop answers as the specification `RecoverFrom` does. |
| BackedWriters.BackedWriter.DropOldest | src/ut/protocol/BackedWriter.cpp:40-43 | The trim loop drops from the old end until the total fits. |
| BackedReaders.BackedReader.Read | src/ut/protocol/BackedReader.cpp:27-75 | One call, in all its branches, on the state and the bytes of this socket. |
| BackedReaders.BackedReader.Revive | src/ut/protocol/BackedReader.cpp:77-82 | Drops the partial frame, queues the catch-up packets behind the queue and counts them. |
| FrameReading.OneRead | src/ut/protocol/BackedReader.cpp:42-75 | One call while a frame is awaited, whatever the answers: nothing yet, the packet with the bytes behind it untouched, or a broken socket, and that only if an answer it needed was missing or no count. |
| FrameReading.FrameIsRead | src/ut/protocol/BackedReader.cpp:42-75 | Calls in a row return nothing until the last, which hands out the packet exactly if the answers complete its frame, and is broken if they do not. |
| FrameReading.EveryCuttingDelivers | src/ut/protocol/BackedReader.cpp:42-75 | However a frame is cut into pieces, calls return nothing until the last piece, and then the packet. |
| BackedReaders.HistoryOpens | src/ut/protocol/BackedReader.cpp:102-116 | Packet n of a history opens, under counter n, to the packet that was written. |
| BackedReaders.UnsealOutOfStep | src/ut/protocol/CryptoHandler.cpp:41-58 | With an authentic cipher a packet opens exactly when the receiver's counter stands where the sender's stood, up to multiples of 256^24. |
| BackedReaders.PartialIsPrefix | src/ut/protocol/BackedReader.cpp:42-75 | The partial message is a prefix of the frame of the packet being waited for. |
| BackedReaders.ReadKeepsInv | src/ut/protocol/BackedReader.cpp:27-75 | For any fragmentation, one Read keeps delivered packets, queue, nonce, count and partial frame in step with the peer's history, hands out the next packet of it or nothing, and throws only for a packet over 128 MiB. |
| BackedReaders.ThrowsExactlyForOversize | src/ut/protocol/BackedReader.cpp:89-100 | With the header read, Read throws exactly if the packet it belongs to is over 128 MiB. |
| BackedReaders.LongFrameIsMisread | src/ut/protocol/BackedWriter.cpp:46-52 | What the reader makes of any packet of 2^32 bytes or more, under every cipher: it throws, or takes the first bytes for the packet. |
| BackedReaders.FragmentationDoesNotMatter | src/ut/protocol/BackedReader.cpp:42-75 | The bytes consumed since revival determine count and partial frame, however they were cut up. |
| Catchup.CatchupRoundTrip | proto/UT.proto:32-34 | A catch-up message decodes to the entries it was made of. |
| Catchup.WireFormat | proto/UT.proto:32-34 | The bytes of an entry: tag 0x0A, its length as a varint, its content. |
| Catchup.EncodeAtMostDoubles | src/ut/protocol/Connection.cpp:101-106 | Tag and varint overhead never exceeds the payload for entries of two bytes or more. |
| Catchup.CatchupFits | src/ut/protocol/SocketHandler.hpp:43-56 | Every catch-up message a writer can build is within the 128 MiB message limit. |
| RecoveryInvariant.DoKeeps | src/ut/protocol/Connection.cpp:39-119 | Every step of either endpoint keeps the global invariant that ties history, backlog, bytes in flight, partial frame, queue and both nonce counters together. |
| RecoveryInvariant.SendCatchupKeeps | src/ut/protocol/Connection.cpp:101-106 | The catch-up sent is exactly what the peer's announced count lacks. |
| RecoveryInvariant.RecvCatchupKeeps | src/ut/protocol/Connection.cpp:108-115 | Reviving from the catch-up puts reader and stream of the new connection in step. |
| RecoverySafety.DeliveryIsPrefix | src/ut/protocol/Connection.cpp:39-119 | In every reachable state, packets handed out followed by what the queue opens to are a prefix of what the peer's writer accepted, of the length the reader counts: no loss, duplication or reordering. |
| RecoverySafety.DrainedMeansAll | src/ut/protocol/Connection.cpp:39-119 | With both sides on one connection, its bytes read and the queue empty, everything ever accepted has been handed out. |
| RecoverySafety.DeliveredAsWritten | src/ut/protocol/BackedReader.cpp:32-39 | Packet number i handed out has the header and payload of packet number i written, in the clear. |
| RecoveryDelivery.ReadsDeliverAll | src/ut/protocol/BackedReader.cpp:27-75 | From every reachable state in which both sides are settled on a live connection, reads alone hand out everything the peer ever accepted. |
| RecoverySafety.LogsOnlyGrow | src/ut/protocol/Connection.cpp:39-119 | No step takes back a delivered or accepted packet. |
| RecoverySafety.CountersInStep | src/ut/protocol/BackedReader.cpp:27-82 | In every reachable state the reader's count is at most the peer writer's, each nonce counter stands where its packets are, and the peer-ahead exception cannot occur. |
| RecoverySafety.StreamsAreFrames | src/ut/protocol/BackedWriter.cpp:46-72 | What was sent on any connection, live or dead, is whole consecutive frames and at most one cut short; on a live one between writes nothing is missing. |
| RecoverySafety.NothingThrows | src/ut/protocol/BackedReader.cpp:89-116 | No decryption or framing exception is raised in any run whose packets stay within 128 MiB, over any number of reconnects. |
| RecoverySafety.FailedRecoverLeavesNoTrace | src/ut/protocol/Connection.cpp:90-119 | A Recover that fails at any of its messages leaves its side as it was, whatever the peer does meanwhile. |
| RecoverySafety.RevivedInSync | src/ut/protocol/Connection.cpp:108-115 | A Recover that succeeds leaves the reader's count equal to the peer writer's at the handshake. |
| RecoveryResync.ReplyExactlyIfCovered | src/ut/protocol/Connection.cpp:99-106 | A side can answer a peer exactly if its backlog reaches back to the peer's count and the count fits an int32, and the answer is then the missing suffix. |
| RecoveryResync.ResyncExactlyIfCovered | src/ut/protocol/Connection.cpp:90-119 | From every reachable state, giving up and meeting on a new connection succeeds exactly if both backlogs cover what the peer lacks; then both readers have counted everything. |
| RecoveryResync.OutageSurvived | src/ut/protocol/Connection.cpp:90-119 | From every reachable state that is covered, a continuation exists after which each side has been handed everything the other accepted, once and in order. |
| Connections.Connection.constructor | src/ut/protocol/ServerClientConnection.cpp:6-18 | A side starts live with nothing accepted or read, sealing under its own direction byte and opening under its peer's. |
| Connections.Connection.CloseSocket | src/ut/protocol/Connection.cpp:74-88 | Invalidates reader, writer and connection together and closes the handle once; idempotent. |
| Connections.Connection.Shutdown | src/ut/protocol/Connection.cpp:121-125 | Marks the connection shut down and closes its handle, if it has one, once. |
| Connections.Connection.Write | src/ut/protocol/Connection.cpp:59-72 | False means nothing happened; true means accepted exactly once, and the socket stays open exactly if it took the whole frame before failing. |
| Connections.Connection.Read | src/ut/protocol/Connection.cpp:39-57 | A broken read closes the connection and its handle and delivers nothing; every other result is the reader's and closes nothing. |
| Connections.Connection.Recover | src/ut/protocol/Connection.cpp:90-119 | Fails without a change, closing the new socket, at whichever message; succeeds with reader and writer revived on it. The header and the catch-up it sends are its reader's count and what the peer lacks. |
| Connections.Connection.WritePacket | src/ut/protocol/Connection.cpp:24-37 | Returns only when the packet was appended exactly once or the connection was shut down, over any closes, recoveries and packets of other threads between attempts; at once on a live connection, and it goes on only while there is no socket. |
| Connections.ClientConnection.PollReconnect | src/ut/protocol/ClientConnection.cpp:87-121 | Any number of failing rounds leaves the endpoint alone and closes each of their sockets once; the first decisive round revives the endpoint or shuts it down. |
| Connections.RoundByStatus | src/ut/protocol/ClientConnection.cpp:99-114 | What each answer of the server leads to: only a rejected key shuts down, only a known client that recovers is revived, and unused sockets are closed. |
| RecoveryMethods.WriteIsSteps | src/ut/protocol/Connection.cpp:59-72 | The method Write is a run of the system's steps, for every count of bytes sent. |
| RecoveryMethods.ReadIsSteps | src/ut/protocol/Connection.cpp:39-57 | The method Read is a run of the system's steps, for every script of answers. |
| RecoveryMethods.TwoAnswersAreEnough | src/ut/protocol/BackedReader.cpp:42-75 | One Read depends on at most two answers of the operating system. |
| RecoveryLimits.LengthBoundIsSharp | src/ut/protocol/BackedWriter.cpp:46-52 | Every packet of 2^32 bytes or more, sent in the clear, gives a run of three steps in which the peer throws or is handed what was never written. |
| RecoveryMethods.RecoverIsSteps | src/ut/protocol/Connection.cpp:90-119 | Every call of Recover, whichever of its messages fails and whatever the peer does between them, is a run of steps ending in the same endpoint and sending the same messages. |
| PortForward.PortForwardHandler.constructor | src/ut/protocol/PortForwardHandler.cpp:12-13 | Ids and request numbers start at 1 with nothing pending or active. |
| PortForward.PortForwardHandler.AddForwardRequest | src/ut/protocol/PortForwardHandler.cpp:15-36 | Only a client-role handler given both endpoints listens, on localhost for an empty name, and only one that could listen gains a listener. |
| PortForward.PortForwardHandler.HandlePacket | src/ut/protocol/PortForwardHandler.cpp:144-229 | Every branch on every packet: new tables, answer, the destination connected to, the one handle written and the one closed. |
| PortForward.AnswersSettleRequests | src/ut/protocol/PortForwardHandler.cpp:145-170 | An answer with an id activates the pending handle, one with an error closes it, and one without an id does nothing. |
| PortForward.PortForwardHandler.PollSockets | src/ut/protocol/PortForwardHandler.cpp:108-142 | One pass over the active sockets sends one packet and at most one close for each that is ready. |
| PortForward.PortForwardHandler.HandleClientData | src/ut/protocol/PortForwardHandler.cpp:46-106 | Accepts on all listeners, then polls; fresh request numbers in order. |
| PortForward.RequestsNameTheirListener | src/ut/protocol/PortForwardHandler.cpp:47-71 | Each request of a pass names the destination of the listener whose accepted handle is pending under its number, and the numbers are consecutive. |
| TunnelInvariant.NextKeeps | src/ut/protocol/PortForwardHandler.cpp:46-229 | Every accept, poll and delivery keeps the invariant of the two-handler system. |
| TunnelInvariant.NewId | src/ut/protocol/PortForwardHandler.cpp:172-200 | A new socket id starts with its registration under way to the client and no data anywhere. |
| TunnelInvariant.RouteUpId | src/ut/protocol/PortForwardHandler.cpp:202-229 | A packet for the server finds its id there with the paired handle. |
| TunnelInvariant.RouteDownId | src/ut/protocol/PortForwardHandler.cpp:144-229 | A packet for the client finds its pending request or its active id with the paired handle. |
| TunnelSafety.IdsPairHandles | src/ut/protocol/PortForwardHandler.cpp:144-229 | In every reachable state an id stands for one accepted handle at the client and one connected handle at the server. |
| TunnelSafety.PairsAreOneToOne | src/ut/protocol/PortForwardHandler.cpp:55-56 | No two ids share a request or a handle on either side. |
| TunnelSafety.RequestsKeepTheirDestination | src/ut/protocol/PortForwardHandler.cpp:64-71 | In every reachable state a request under way names the destination of its listener. |
| TunnelSafety.TunnelsReachTheirDestination | src/ut/protocol/PortForwardHandler.cpp:172-187 | Every tunnel was connected to the destination of the listener its other end came in on. |
| TunnelSafety.ClosingIsPassedOn | src/ut/protocol/PortForwardHandler.cpp:80-91 | When one end of a tunnel is closed the other is, or the packet that closes it is under way. |
| TunnelSafety.RegistrationComesFirst | src/ut/protocol/PortForwardHandler.cpp:166-169 | Data and the end of an id are always behind its registration in the channel. |
| TunnelSafety.NothingIsDropped | src/ut/protocol/PortForwardHandler.cpp:210-213 | The packet at the head of a channel always finds its id or its request. |
| TunnelSafety.BytesAreConserved | src/ut/protocol/PortForwardHandler.cpp:46-229 | For every id and both directions, bytes handed to Write followed by bytes under way are exactly the bytes read at the paired handle. |
| TunnelSafety.HandedIsPrefixOfRead | src/ut/protocol/PortForwardHandler.cpp:46-229 | So the bytes handed over are at all times a prefix of the bytes read. |
| TunnelSafety.QuietMeansEqual | src/ut/protocol/PortForwardHandler.cpp:46-229 | With both channels empty they are equal, and an id missing at one end was closed at the other. |
| TunnelSafety.DeliveryStep | src/ut/protocol/PortForwardHandler.cpp:221-228 | At the server, a data packet is handed to its own handle and to no other. |
| TunnelSafety.DeliveryStepDown | src/ut/protocol/PortForwardHandler.cpp:221-228 | So it is at the client. |
| TunnelMethods.ClientPassIsSteps | src/ut/protocol/PortForwardHandler.cpp:73-105 | A client's pass over its sockets is a run of the system's polls. |
| TunnelMethods.ServerPassIsSteps | src/ut/protocol/PortForwardHandler.cpp:108-142 | So is a server's. |
| TunnelMethods.AcceptsAreSteps | src/ut/protocol/PortForwardHandler.cpp:47-71 | A pass over the listeners is a run of the system's accepts. |
| Globs.MatchGlob | src/ut/SshConfig.cpp:37-64 | The backtracking loop terminates, accepts only what matches, and on a text without a star accepts all that matches. |
| Globs.SearchIsGlob | src/ut/SshConfig.cpp:42-63 | From every state of the loop: going back to the last star alone loses no match. |
| Globs.LastStarSuffices | src/ut/SshConfig.cpp:48-57 | Where a second star follows, the choice made for the first is as good as any. |
| Globs.NeverOverAccepts | src/ut/SshConfig.cpp:37-64 | Whatever the text, a pattern that is accepted matches. |
| Globs.RightExactlyWithoutStars | src/ut/SshConfig.cpp:37-64 | The matcher is right about a text under all patterns if and only if the text has no star. |
| Globs.StarInTextMisleads | src/ut/SshConfig.cpp:43-47 | For every text with a star, a pattern that matches it and is rejected. |
| Globs.HostMatches | src/ut/SshConfig.cpp:66-78 | True only if some pattern, neither empty nor negated, matches regardless of case, and for hosts without a star whenever one does. |
| Strings.Trim | src/ut/SshConfig.cpp:10-20 | The two loops compute the trimmed text. |
| Strings.TrimmedExactly | src/ut/SshConfig.cpp:10-20 | Trimming takes off the spaces around a tight text and nothing else. |
| Strings.IsSpaceExactly | src/ut/SshConfig.cpp:10-20 | The white space of the C locale. |
| Strings.LowerCharExactly | src/ut/SshConfig.cpp:22-25 | Capital letters become small ones, nothing else changes. |
| Strings.DecimalIsReadBack | src/ut/SshConfig.cpp:224-227 | A number written in digits, with or without leading zeros, is read back. |
| Strings.StoiReads | src/ut/protocol/TunnelUtils.cpp:74-78 | White space, a sign or none, and digits are the number, if it is an int, whatever comes behind. |
| Strings.WordsOfJoin | src/ut/SshConfig.cpp:27-35 | Words written with spaces between them are read back. |
| Strings.Split | src/ut/protocol/TunnelUtils.cpp:9-17 | The pieces between delimiters, a delimiter at the end opening none. |
| Strings.LastPiece | src/ut/protocol/TunnelUtils.cpp:9-17 | A text without the delimiter is one piece, and a delimiter at the end opens none. |
| LocalForwards.HostPortExactly | src/ut/SshConfig.cpp:100-127 | ParseHostPort accepts exactly the two spellings `[host]:port` and `host:port` and yields their parts. |
| LocalForwards.FieldsOfSpelled | src/ut/SshConfig.cpp:253-287 | A value spelled in two words is read as spelled, with 127.0.0.1 for an empty bind host. |
| LocalForwards.FieldsOfBarePort | src/ut/SshConfig.cpp:253-287 | A bare port binds the default address; three words name host and port apart. |
| LocalForwards.OthersAreRefused | src/ut/SshConfig.cpp:253-287 | Any other number of words, and ports that are no number, are refused. |
| LocalForwards.BracketsWhereNeeded | src/ut/SshConfig.cpp:141-146 | Only a host with a colon and no bracket in front is given brackets. |
| LocalForwards.WrittenPlainly | src/ut/SshConfig.cpp:289-294 | The argument as it reads for a plain host and the default bind address. |
| LocalForwards.NormalizedIsReadBack | src/ut/protocol/TunnelUtils.cpp:82-117 | For every accepted value, the tunnel parser returns bind host, bind port, destination host without brackets and destination port if and only if neither host keeps a bracket inside its enclosing pair. |
| LocalForwards.FourPartBranchExactly | src/ut/protocol/TunnelUtils.cpp:119-144 | A normalised value takes the four-part branch exactly if no host has a comma. |
| LocalForwards.ForwardBecomesRequest | src/ut/protocol/TunnelUtils.cpp:119-144 | It becomes exactly the request it spells if and only if both hosts are free of commas and inner brackets and both ports are ints. |
| LocalForwards.SpelledForwardIsRequested | src/ut/SshConfig.cpp:253-295 | From the words of the file to the request, IPv6 included. |
| TunnelArgs.ParseSshTunnelArg | src/ut/protocol/TunnelUtils.cpp:82-117 | The character loop computes the scan and both part-count errors. |
| TunnelArgs.FourPartsExactly | src/ut/protocol/TunnelUtils.cpp:107-116 | Parts between colons are taken exactly if there are four; fewer and more are the two errors. |
| TunnelArgs.ScanDropsBrackets | src/ut/protocol/TunnelUtils.cpp:91-104 | No part keeps a bracket, whatever the argument. |
| TunnelArgs.ProcessUtStyleArg | src/ut/protocol/TunnelUtils.cpp:28-79 | Every branch and error of one pair, and the range loop. |
| TunnelArgs.ParseRangesToRequests | src/ut/protocol/TunnelUtils.cpp:119-144 | The requests of a list, a pair or a four-part argument, or the first error. |
| TunnelArgs.RangesPairPortByPort | src/ut/protocol/TunnelUtils.cpp:48-67 | A range a-b:c-d is accepted exactly if both have one length and yields a+i to c+i for every i, nothing if it runs backwards. |
| TunnelArgs.PortsAreForwarded | src/ut/protocol/TunnelUtils.cpp:74-78 | `a:b` forwards port a of localhost to port b, if both are ints, and is refused otherwise. |
| TunnelArgs.NamesAreForwarded | src/ut/protocol/TunnelUtils.cpp:38-44 | A pair of names makes the first the variable and the second the destination. |
| TunnelArgs.BadPairsAreRefused | src/ut/protocol/TunnelUtils.cpp:31-72 | A range against a port, either way round, and a single text are refused. |
| TunnelArgs.ListsKeepTheirOrder | src/ut/protocol/TunnelUtils.cpp:119-128 | A comma list gives the requests of its parts in their order. |
| TunnelArgs.FirstErrorWins | src/ut/protocol/TunnelUtils.cpp:119-128 | The first part that is refused refuses the list. |
| TunnelArgs.PairsNeverNameBoth | src/ut/protocol/TunnelUtils.cpp:28-79 | No request of a list names both a source and a destination host. |
| HostConfig.LoadForHost | src/ut/SshConfig.cpp:165-251 | The one-pass loop computes the declarative reading of the file: each option its last valid occurrence in effect, forwards in order; it throws exactly if a port in effect is numeric and no int, and reports a missing file exactly if it is required and errors are wanted. |
| HostConfig.LineMeans | src/ut/SshConfig.cpp:192-219 | Whatever its white space and comment, a line is read as its word, in any case, and its value. |
| HostConfig.OneLineFile | src/ut/SshConfig.cpp:220-247 | For each of the seven options, the record a file of one such line gives: that option, and the defaults. |
| HostConfig.HostBlock | src/ut/SshConfig.cpp:206-216 | A setting under a Host line counts exactly if one of its patterns selects the host. |
| HostConfig.ForwardsInOrder | src/ut/SshConfig.cpp:242-247 | Later lines add forwards behind the earlier ones. |
| HostConfig.ExpandHomeExactly | src/ut/SshConfig.cpp:80-98 | A leading tilde, alone or before a separator, is the home directory; all else stays. |
| HostConfig.WithoutSpacesExactly | src/ut/SshConfig.cpp:232-238 | Taking out white space keeps everything else, in order. |
| HostConfig.IsYesExactly | src/ut/SshConfig.cpp:239-242 | The words that say yes, in any case. |
| HostConfig.ReadLine | src/ut/SshConfig.cpp:192-248 | One line, from its text to the next state of the loop. |
| HostConfig.LastOfIsLast | src/ut/SshConfig.cpp:220-241 | The value read is given by a line in effect after which no line in effect gives another. |
| HostConfig.HostBeforeIsNearest | src/ut/SshConfig.cpp:205-213 | A line is governed by the nearest Host line before it. |
| HostConfig.ReadingGoesOn | src/ut/SshConfig.cpp:192-248 | One more line keeps the reading of the lines so far. |
| HostConfig.ReadingIsUnique | src/ut/SshConfig.cpp:220-246 | The declarative reading determines the whole options record. |
| EchoPrediction.PredictiveEcho.OnLocalInput | src/ut/main.cpp:129-159 | Pending and displayed text after any keys, with erasing and the cap. |
| EchoPrediction.OneKey | src/ut/main.cpp:137-150 | What each key does, by its code: joins, takes back and rubs out the last, or nothing. |
| EchoPrediction.LocalCat | src/ut/main.cpp:136-150 | Keys in one call do what they do in two. |
| EchoPrediction.ErasingUndoesTyping | src/ut/main.cpp:138-144 | Keys that are all erased again leave pending text and screen as they were. |
| EchoPrediction.PredictiveEcho.OnRemoteOutput | src/ut/main.cpp:161-178 | The agreeing start is swallowed; an output that disagrees at once clears what is pending. |
| EchoPrediction.RemoteExactly | src/ut/main.cpp:165-177 | The common start goes from the output and from what is pending and the rest of each stays; without one, what is pending is given up. |
| EchoPrediction.TypedStep | src/ut/main.cpp:151-153 | Typing keeps pending equal to the text without an echo exactly within 4096 characters. |
| EchoPrediction.FaithfulEchoIsSwallowed | src/ut/main.cpp:129-178 | For every interleaving of typing and faithful echo within the cap, pending is the typed text less the echoed part and every typed character is on the screen once. |
| EchoPrediction.NothingShownExactlyIfFaithful | src/ut/main.cpp:161-178 | Remote output is shown at some time if and only if it was not a faithful echo. |
| EchoPrediction.TailIsShown | src/ut/main.cpp:161-178 | After typing stops, every chunking of the remaining echo and a tail shows exactly the tail. |
| EchoPrediction.PredictionLeavesNoTrace | src/ut/main.cpp:129-178 | The screen ends up with the remote output, as it would without prediction. |
| EchoPrediction.CapBreaksTheEcho | src/ut/main.cpp:151-153 | From every state in step, keys beyond the cap lose the oldest characters; their echo is then shown again unless it agrees with what was kept. |
| EchoPrediction.ScreenShowsPending | src/ut/main.cpp:137-150 | After any keys, erasing included, the cursor stands right behind what is pending. |

## Left out

- RecoverySafety.DeliveryIsPrefix: as all theorems about `Reached` runs, assumes packets below 2^32 bytes once sealed; longer ones break it (`RecoveryLimits.LengthBoundIsSharp`).
- PortForward.PortForwardHandler.HandlePacket: the program ignores the result of the write to a tunnel socket, so the socket may get only a prefix of the bytes handed over; conservation is stated for bytes handed over.
- HostConfig.LoadForHost: a null output record is not modelled, and of the error text only the path.
- TunnelArgs.ProcessUtStyleArg: a range with one end, such as `8080-`, reads past the split result in the source; here it is the error BrokenRange. Integer overflow of a range of 2^31 ports is not modelled.
- Counters are unbounded integers; of the casts, only the int32 sequence header and the 32-bit frame length are modelled, since they are the ones that matter.
- Liveness: that a recovery or a retry loop ever ends. Both sides write their catch-up before reading the other's, and several loops wait on the environment.
- libsodium and the general Protocol Buffers codec; only the encoding of the catch-up message is modelled.
- Sockets, pipes, consoles, processes, services, the registry and the user interface.
- The RETURNING_CLIENT branch of `Connect` (src/ut/protocol/ClientConnection.cpp:55-61): the new writer has a live socket, so its Recover always throws; reconnection is modelled through `PollReconnect`.
- Calls on a connection before `Connect` has made its reader and writer.
- Replacement of a server connection that still looks live (src/utserver/TcpListener.cpp:149-163): theorems are about a fixed pair.
- That each handle is closed once: a failed Recover closes a socket its caller closes again, and tunnels that ended stay in the table of active sockets.
- Forward and reverse tunnels at the same time: data packets go to both handlers, whose ids overlap (src/utserver/TcpListener.cpp:269-271).
- Reuse of operating system handles: the tunnel system assumes that none is handed out twice and that a closed one is never ready.
- Failing serialization of small messages, and packets whose fields are missing.
- Data races: maps used from two threads are modelled as atomic steps.
- Characters are compared as in the C locale.
- `ReconnectionManager`, `Keepalive`, `Config`, `SshCommandBuilder` and `ClientRegistry`: short, and easy members only.
