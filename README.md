# CAN segmentation tools and AllJoyn name-service and security state, in Dafny

This project models two groups of code in the repository.

**The CAN programs.** These tools carry messages and sessions over a SocketCAN bus.
- `WriteCan` and `ReadCan` cut a buffer of up to 224 bytes into at most 32 frames of up to seven payload bytes, and join the frames back together. Control byte 0 of each frame holds the payload size and a sequence number; sequence 31 marks the last frame.
- `CanTx` sends a control frame that announces how many data frames follow, then the numbered data frames. `CanRx` collects such a series into a session. A wrong number or an error frame fails the series, and a new control frame restarts it.
- `ConnectionServer` and `ConnectionClient` run the handshake in which the server answers each client's announcement with a fresh session identifier.

The socket is modelled as a sequence of frames read in order and a sequence of frames written. Running out of input stands for a blocking read, except in `ReadCan`, where it stands for a failing `read` and the result is -1. The number of writes the socket accepts is a parameter.

**Three parts of AllJoyn's core.**
- **`PeerState` (PeerState.cc and PeerState.h).** This is the security state kept for each remote peer:
  - the 64-entry sliding window that rejects replayed or stale message serial numbers;
  - the key-exchange mode bits and the authentication suite;
  - the estimate of the peer's clock offset;
  - the per-message-type authorizations and the session and group keys;
  - the table that maps bus names to peers, which always holds the group-key entry under the empty name.
- **The name-service wire format (router/ns/IpNsProtocol.cc).**
  - The length-prefixed `StringData`.
  - The WHO-HAS and IS-AT records, including their version-0 and version-1 layouts.
  - The `NSPacket` that carries them.
  - The multicast-DNS pieces: domain names with label compression, the 12-byte message header, TXT, A and AAAA record data, and the record lists of `MDNSPacket` with their add, count, lookup (wildcard included) and remove helpers.
  - Every serializer is proved to write the number of bytes its `GetSerializedSize` announces, except the TXT record data, whose size is one byte short when the `txtvers` value is empty (see Findings). Each deserializer is proved to read back what its serializer wrote.
- **`InterfaceDescription` (InterfaceDescription.cc).** This covers the tables of members, properties and annotations that an interface holds until it is activated:
  - the status each adder returns;
  - the property flags that make a property cacheable;
  - the listing of each table in map order.

Loops in the source are methods with invariants, each proved against a specification function, and objects the source updates in place are classes. Integers are unbounded; 8-, 16- and 32-bit truncation and wrap-around are written out where the source relies on them.

## Model

| member | source | states |
|---|---|---|
| WriteCan.WriterFrames | ReadWriteCanImpl/WriteCan.c:57-83 | the writer sends ceil(len / 7) frames, never more than 32, and none for len <= 0 |
| WriteCan.WriteToCan | ReadWriteCanImpl/WriteCan.c:21-84 | when the socket takes every frame, exactly the segmentation frames are sent and the result is `len` up to 224 bytes, 224 beyond, -1 for len <= 0; a refused write stops after the frames already sent and returns -1 |
| WriteCan.FrameShape | ReadWriteCanImpl/WriteCan.c:58-70 | every frame is well formed, has identifier 0x4BA, and its control byte's low three bits are `can_dlc - 1` |
| WriteCan.FullFrame | ReadWriteCanImpl/WriteCan.c:66-69 | a frame sent while more than 7 bytes remain has sequence number k in bits 3-7, size 7, and carries `buffer[7k .. 7k+7]` |
| WriteCan.FinalFrame | ReadWriteCanImpl/WriteCan.c:62-65 | for 0 < len <= 224 the last frame is `0xF8 | rem`, sequence 31, and carries exactly the remaining 1 to 7 bytes |
| WriteCan.PayloadsArePrefix | ReadWriteCanImpl/WriteCan.c:65-71 | the payloads of the frames, concatenated in order, are `buffer[..written]` |
| WriteCan.FramePayload | ReadWriteCanImpl/WriteCan.c:65-71 | frame k carries the buffer bytes from offset 7k up to the bytes sent after it |
| WriteCan.PayloadsUpTo | ReadWriteCanImpl/WriteCan.c:71-81 | the first n frames carry exactly the first bytes the loop has counted as written |
| WriteCan.WrittenIsLen | ReadWriteCanImpl/WriteCan.c:61-84 | for 0 < len <= 224 the result is len; 224 bytes take 32 frames, the last with marker 31 |
| WriteCan.Truncation | ReadWriteCanImpl/WriteCan.c:61-84 | beyond 224 bytes the 32nd frame is a full frame whose control byte is 0xFF, the same as a 7-byte final frame; 224 is returned and only `buffer[..224]` is sent |
| ReadCan.ReadFromCanSpec | ReadWriteCanImpl/ReadCan.c:20-96 | `len <= 0` gives -1 before any frame is read; any other non-error result is positive, at most `len`, and equals the number of bytes copied |
| ReadCan.ReassembleBounds | ReadWriteCanImpl/ReadCan.c:59-94 | the loop only appends to the buffer, reads at least one frame per step, and on success has copied at least one and at most `len` more bytes, which is what it returns |
| ReadCan.ReadFromCan | ReadWriteCanImpl/ReadCan.c:56-95 | the loop copies each accepted payload into the caller's buffer in place, leaving the rest of the buffer as it was, and returns what the reassembly specification gives, also on failure |
| ReadCan.CopyPayload | ReadWriteCanImpl/ReadCan.c:79 | the `memcpy` places the payload right after the bytes already copied |
| ReadCan.RejectsFrame | ReadWriteCanImpl/ReadCan.c:65-93 | a frame whose size field differs from `can_dlc - 1`, is 0, or exceeds the capacity left, or whose sequence number is neither the expected one nor 31, ends the call with -1 |
| ReadCan.AcceptFinal | ReadWriteCanImpl/ReadCan.c:78-88 | a valid frame with sequence 31 adds its `can_dlc - 1` bytes and ends the read |
| ReadCan.AcceptNext | ReadWriteCanImpl/ReadCan.c:78-85 | a valid frame with the expected sequence number adds its bytes, lowers the capacity by as many, and the next sequence number is expected |
| ReadCan.ReadAfterWrite | ReadWriteCanImpl/ReadCan.c:20-96 | for 0 < n <= 224 and capacity at least n, reading the frames `write_to_can(b, n)` sends, whatever follows them, returns n and yields exactly `b[..n]` |
| ReadCan.WriterFrameReads | ReadWriteCanImpl/ReadCan.c:65-78 | every frame the writer sends passes the reader's size checks; the last one carries sequence 31, the others their own index |
| CanTx.SeriesLengthByDivision | CanRxTx/CanTx.c:66-72 | the program's count, `n / 7` plus one when `n % 7 != 0`, is the number of 7-byte blocks the message starts |
| CanTx.SeriesLengthIsCeiling | CanRxTx/CanTx.c:66-72 | the count is ceil(n / 7): the frames hold all n bytes, the last one is not empty, and only the empty message has no data frame |
| CanTx.Transmit | CanRxTx/CanTx.c:66-112 | `main` writes the control frame and then exactly the data frames of the message, in order, and `cutTest` ends up equal to the message |
| CanTx.NextDataFrame | CanRxTx/CanTx.c:94-106 | one turn of the loop builds data frame `iter` and copies its `dlc - 1` bytes, 7 except in a partial last frame |
| CanTx.CopyInto | CanRxTx/CanTx.c:107 | the copy into `cutTest` writes the frame's bytes at the same offset and keeps every other byte |
| CanTx.LastFrameSize | CanRxTx/CanTx.c:94-100 | the last data frame carries `n % 7` bytes, or 7 when 7 divides n |
| CanTx.ControlFrameShape | CanRxTx/CanTx.c:79-81 | the control frame has identifier 0x92e80200 and dlc 1; up to 105 bytes its high nibble is 0xF and its low nibble the count |
| CanTx.CountOverflow | CanRxTx/CanTx.c:74-81 | 106 bytes need 16 frames, and the control byte `0xF0 | 16` cut to 8 bits announces 0 frames; the program only prints a warning |
| CanTx.DataFrameShape | CanRxTx/CanTx.c:94-106 | each data frame is well formed with dlc 8 except a partial last one, and carries the message bytes from offset `7 iter` |
| CanTx.DataFrameNibbles | CanRxTx/CanTx.c:105 | within 16 frames, a data frame has 0xC in its high nibble and its index in the low nibble |
| CanTx.DataFrameSize | CanRxTx/CanTx.c:94-101 | a data frame's dlc is its byte count plus one |
| CanTx.DataFrameControl | CanRxTx/CanTx.c:105 | a data frame's first byte is `(AJ_DATA_FRAME << 4) | iter` cut to 8 bits |
| CanTx.DataFramePayload | CanRxTx/CanTx.c:106 | a data frame carries its 1 to 7 bytes from offset `7 iter` |
| CanTx.PayloadsAreSource | CanRxTx/CanTx.c:93-112 | the data frames' payloads, concatenated in order, are the whole message |
| CanTx.PayloadsUpTo | CanRxTx/CanTx.c:106-108 | the first k data frames carry exactly the message bytes sent so far |
| CanTx.FrameBounds | CanRxTx/CanTx.c:94-108 | a frame carries 1 to 7 bytes; the frames before the last end before the message does, and the last ends with it |
| CanRx.SeriesFrom | CanRxTx/CanRx.c:98-118 | `getSeries` reads at least one frame before a restart, never moves back, and never stores more frames than the series announced |
| CanRx.Verdict | CanRxTx/CanRx.c:104-116 | a frame is stored exactly when its low nibble is the expected index and it is neither an error frame nor a control frame |
| CanRx.SeriesStores | CanRxTx/CanRx.c:98-117 | the frames a series stores are the frames it read, in order, each carrying its own index |
| CanRx.SeriesSucceeds | CanRxTx/CanRx.c:98-118 | a series returns `AJ_SERIES_SUCCESS` exactly when it stored all announced frames and read nothing else |
| CanRx.SeriesStops | CanRxTx/CanRx.c:104-115 | a failed or restarted series stopped at the frame after the stored ones, whose checks gave that result; a series left waiting has read all input |
| CanRx.SeriesOfRun | CanRxTx/CanRx.c:98-118 | conversely, `count` frames in order, each carrying its index, make a successful series storing exactly them |
| CanRx.IdSid | CanRxTx/CanRx.c:71-72 | the session's ID has 11 bits and its SID 18 bits, and together they give back the 29-bit identifier |
| CanRx.Wait | CanRxTx/CanRx.c:51-92 | `waitAndReceiveSession` never moves back in the input and keeps the 10-slot buffer |
| CanRx.SkipsOther | CanRxTx/CanRx.c:68-86 | a frame that is not a control frame is dropped and changes nothing |
| CanRx.StartsSeries | CanRxTx/CanRx.c:68-79 | a control frame whose series succeeds ends the wait with the count, ID and SID it carries and the frames of its series |
| CanRx.RestartReplays | CanRxTx/CanRx.c:58-76 | a control frame that interrupts a series is consumed, and the loop runs the earlier control frame again from the stale `frame` variable: the new frame's count, ID and SID are never used |
| CanRx.WaitDone | CanRxTx/CanRx.c:51-92 | whenever `waitAndReceiveSession` returns, the session holds the last `numberOfFrames` frames read, in order, each carrying its index |
| CanRx.SuccessHolds | CanRxTx/CanRx.c:70-79 | the session a successful control frame sets up holds its series |
| CanRx.Session.constructor | CanRxTx/CanRx.c:42-49 | `session_struct` starts zeroed |
| CanRx.Session.GetSeries | CanRxTx/CanRx.c:93-119 | the loop returns what `getSeries`'s specification gives and writes exactly the accepted frames into `buffer[0..]`, keeping the other slots |
| CanRx.Session.WaitAndReceiveSession | CanRxTx/CanRx.c:51-92 | the loop with its `restart` and `done` counters leaves the session and the input position that `Wait` gives |
| CanRx.Session.CopyOut | CanRxTx/CanRx.c:157-162 | `main`'s reassembly loop writes frame i's payload at offset 7i of `buf` and keeps every other byte |
| CanRx.Layout | CanRxTx/CanRx.c:159-162 | placing the payloads keeps the buffer's length |
| CanRxTx.ControlStarts | CanRxTx/CanTx.c:79-81 | up to 70 bytes, the transmitter's control frame is recognised by the receiver (CanRx.c:68-70) and announces a count that fits its 10 slots |
| CanRxTx.DataAccepted | CanRxTx/CanTx.c:105 | each data frame passes the receiver's checks as frame `iter` of its series (CanRx.c:104-115) and is not taken for a control frame |
| CanRxTx.DataInOrder | CanRxTx/CanTx.c:93-112 | the data frames, wherever they appear in the input, are read in order with their indices |
| CanRxTx.TransmissionFits | CanRxTx/CanTx.c:66-81 | a transmission of at most 70 bytes never announces more frames than the receiver's buffer holds |
| CanRxTx.ReceiveAfterTransmit | CanRxTx/CanRx.c:51-92 | after what CanTx.c sends for at most 70 bytes, `waitAndReceiveSession` returns at once with the data frames in the first slots, their number as the count, ID 0x4BA and SID 0x200 taken from `client_id` 0x92e80200, and exactly the transmission read |
| CanRxTx.ReassemblesSource | CanRxTx/CanRx.c:157-162 | up to 21 bytes, the received frames fit `buf` and `main` lays their payloads back into the message |
| CanRxTx.LayoutFrom | CanRxTx/CanRx.c:159-162 | copying frames i onwards keeps `buf` below the bytes of the first i frames and puts the message in the rest |
| CanRxTx.MessageOverflowsBuf | CanRxTx/CanRx.c:130-162 | the 46-byte message CanTx.c sends takes 7 frames, which a 21-byte `buf` cannot hold: frame 3 would end at byte 28 |
| CanRxTx.DataFramesAccepted | CanRxTx/CanRx.c:104-115 | in a series of fewer than 16 frames, every data frame CanTx.c builds passes the receiver's checks at its own index |
| CanRxTx.DataFramesFit | CanRxTx/CanRx.c:157-162 | when the message fits a buffer, every data frame is well formed, carries at least its control byte, and its payload placed at `7 k` ends inside the buffer |
| ConnectionServer.ServeStep | CanConnection/ConnectionServer.c:70-112 | each turn of the loop appends to the output exactly what that frame brings, and counts one more session only for an announcement |
| ConnectionServer.AllocatedInOrder | CanConnection/ConnectionServer.c:86-99 | session IDs run up from 0x200 by exactly one per announcement: the k-th client gets `0x200 + k`, so no ID is given twice |
| ConnectionServer.AnnouncementReply | CanConnection/ConnectionServer.c:86-99 | in `Replies`, the reply to the j-th announcement is the next frame written and its identifier carries the j-th session ID handed out, `first + j` |
| ConnectionServer.ReplyFields | CanConnection/ConnectionServer.c:83-94 | the reply is well formed with dlc 6, starts with four 0xFF bytes, and bytes 4-5 give back the client's tag from identifier bits 18-28 |
| ConnectionServer.TagBytes | CanConnection/ConnectionServer.c:93-94 | the two tag bytes, put back together, are identifier bits 18-28 |
| ConnectionServer.ReplyIdFields | CanConnection/ConnectionServer.c:96 | while the session ID is below 2^18, the reply identifier has the extended-frame flag, the server ID 0x112 in bits 18-28 and the session ID in bits 0-17 |
| ConnectionServer.Server.constructor | CanConnection/ConnectionServer.c:26-44 | the counter starts at 0x200 and `sData` zeroed |
| ConnectionServer.Server.Handle | CanConnection/ConnectionServer.c:71-111 | a frame with all ten mask bits set and the 8-byte magic payload is answered with a reply and a new session, recorded in `sData`; one with the mask but another payload is written back unchanged; any other frame is ignored |
| ConnectionServer.Server.Serve | CanConnection/ConnectionServer.c:70-112 | over a run of frames the server writes `Replies(input, first)`, where `first` is the counter on entry, and hands out one session ID per announcement |
| ConnectionClient.SessionBytes | CanConnection/ConnectionClient.c:73-74 | the session ID read from a reply is 16 bits: byte 0 its low half and byte 1 its high half |
| ConnectionClient.Run | CanConnection/ConnectionClient.c:55-85 | the client writes an announcement and a confirmation for each of its three turns; a missing reply leaves it waiting after the announcement |
| ConnectionClient.AnnouncementFields | CanConnection/ConnectionClient.c:56-58 | the announcement has the client tag 0x4BA in bits 0-10, 0x3FF in bits 11-20, bit 27 set, and the single byte 0x0B |
| ConnectionClient.NewIdFields | CanConnection/ConnectionClient.c:73 | the new identifier has the client tag in bits 0-10, the 16-bit session ID in bits 11-26, and the extended-frame flag |
| ConnectionClient.SessionRoundTrip | CanConnection/ConnectionClient.c:73 | a session ID written little-endian into bytes 0-1 is read back |
| ConnectionClient.ReplyUnchecked | CanConnection/ConnectionClient.c:66-77 | only bytes 0-1 of the reply matter: its identifier and any tag it echoes are never checked |
| ConnectionClient.ThreeRounds | CanConnection/ConnectionClient.c:55 | with three replies the client writes six frames, announcements and confirmations alternating |
| ConnectionClient.ServerIgnoresAnnouncement | CanConnection/ConnectionClient.c:56-58 | the client's announcement is not one ConnectionServer.c answers: its low ten identifier bits are not all set and its payload is not the 8-byte magic |
| PeerState.WrappedOffsetIsDifference | alljoyn/alljoyn_core/src/PeerState.cc:101-111 | both branches of `wrapped_offset(a, b)` give `(a - b) mod 2^32` |
| PeerState.WrappedOffsetZero | alljoyn/alljoyn_core/src/PeerState.cc:101-132 | the offset is zero exactly between equal serials, which is how a repeat of the newest serial is recognised |
| PeerState.ShiftedAt | alljoyn/alljoyn_core/src/PeerState.cc:154-155 | bit k of `flagWindow << n` is bit k - n of the old window, and the low n bits are clear |
| PeerState.ShiftedOut | alljoyn/alljoyn_core/src/PeerState.cc:154-158 | shifting by 64 or more would clear the window, which is what the explicit `flagWindow = 0` branch does |
| PeerState.ZeroRejected | alljoyn/alljoyn_core/src/PeerState.cc:121-125 | serial 0 is rejected and the window is unchanged |
| PeerState.RepeatRejected | alljoyn/alljoyn_core/src/PeerState.cc:131-135 | once a serial has been seen, a repeat of the newest one is rejected and the window is unchanged |
| PeerState.FirstAccepted | alljoyn/alljoyn_core/src/PeerState.cc:127-163 | with no serial seen yet, every nonzero serial is accepted; it becomes `prevSerial` and `flagWindow` becomes 1 |
| PeerState.RecentChecked | alljoyn/alljoyn_core/src/PeerState.cc:136-146 | a serial 1 to 63 behind the newest is accepted exactly when its bit is clear; acceptance sets that bit and keeps `prevSerial` |
| PeerState.TooOldRejected | alljoyn/alljoyn_core/src/PeerState.cc:147-151 | a serial 64 to 2^31 behind the newest is rejected and the window is unchanged |
| PeerState.AheadAccepted | alljoyn/alljoyn_core/src/PeerState.cc:153-163 | a serial 1 to 2^31 - 1 ahead is accepted: the window shifts left by the distance (cleared from 64 on), `prevSerial` becomes the serial and bit 0 is set |
| PeerState.AcceptedIsSeen | alljoyn/alljoyn_core/src/PeerState.cc:113-165 | every accepted serial is afterwards recorded in the window |
| PeerState.SeenRejected | alljoyn/alljoyn_core/src/PeerState.cc:131-146 | a serial the window records is rejected and changes nothing, so no serial is accepted twice while it stays in the window |
| PeerState.SeenKept | alljoyn/alljoyn_core/src/PeerState.cc:113-165 | checking any other serial never forgets a seen one unless the window has moved 64 or more past it |
| PeerState.SeenMoved | alljoyn/alljoyn_core/src/PeerState.cc:153-163 | moving the window forward carries every seen serial's bit along with it |
| PeerState.Peer.IsValidSerial | alljoyn/alljoyn_core/src/PeerState.cc:113-165 | the method's verdict and its new `prevSerial`/`flagWindow` are those of the window function `Check`, and no other field changes |
| PeerState.InModeBits | alljoyn/alljoyn_core/src/PeerState.cc:462-465 | `IsInKeyExchangeMode(mask)` holds exactly when every bit of the mask is set in the mode |
| PeerState.LowestMissing | alljoyn/alljoyn_core/src/PeerState.cc:462-465 | when the mode does not cover the mask, some bit of the mask is missing from the mode |
| PeerState.AddedMask | alljoyn/alljoyn_core/src/PeerState.cc:467-470 | after adding a mask the mode covers it, and the bits outside the mask are unchanged |
| PeerState.ClearedMask | alljoyn/alljoyn_core/src/PeerState.cc:472-475 | after clearing a mask none of its bits is set, the bits outside it are unchanged, and a nonzero mask is no longer covered |
| PeerState.Peer.SetKeyExchangeMode | alljoyn/alljoyn_core/src/PeerState.cc:457-460 | the mode becomes the argument; no other field changes |
| PeerState.Peer.AddKeyExchangeModeMask | alljoyn/alljoyn_core/src/PeerState.cc:467-470 | the mode becomes `mode | mask`, covers the mask and keeps every other bit; no other field changes |
| PeerState.Peer.ClearKeyExchangeModeMask | alljoyn/alljoyn_core/src/PeerState.cc:472-475 | the mode becomes `mode & ~mask`, holds no bit of the mask and keeps every other bit; no other field changes |
| PeerState.NineSuites | alljoyn/alljoyn_core/src/PeerState.h:69-79 | the nine `AUTH_SUITE_*` values are distinct |
| PeerState.AuthSuitesShape | alljoyn/alljoyn_core/src/PeerState.h:69-79 | each suite is a key exchange in the upper 16 bits, and only the ECDHE suites carry bits in the lower 16 |
| PeerState.Peer.SetAuthSuite | alljoyn/alljoyn_core/src/PeerState.cc:498-517 | exactly the nine suites are stored with `ER_OK`; any other value returns `ER_BAD_ARG_1` with `m_authSuite` unchanged |
| PeerState.SuiteNamesShape | alljoyn/alljoyn_core/src/PeerState.cc:519-542 | exactly the seven names map to a suite, each to a valid one, no two to the same, and none to the anonymous or external suite |
| PeerState.SevenNames | alljoyn/alljoyn_core/src/PeerState.cc:525-538 | the seven names are distinct |
| PeerState.Peer.SetAuthSuiteNamed | alljoyn/alljoyn_core/src/PeerState.cc:519-542 | one of the seven names stores its suite with `ER_OK`; any other name returns `ER_BAD_ARG_1` with the suite unchanged |
| PeerState.ConversationVersions | alljoyn/alljoyn_core/src/PeerState.cc:212-221 | major authentication versions below 4 use the V1 conversation hash, major version 4 uses the V4 one, and later versions use neither |
| PeerState.UnsignedSigned | alljoyn/alljoyn_core/src/PeerState.cc:80-98 | casting a 32-bit value to signed and back gives it back |
| PeerState.DeltaIsLocal | alljoyn/alljoyn_core/src/PeerState.cc:80-98 | `remote + (local - remote)` in 32-bit arithmetic is the local time |
| PeerState.EstimateResets | alljoyn/alljoyn_core/src/PeerState.cc:92-98 | on the first call, or when `oldOffset - delta` is positive, the offset becomes `delta`, the first flag clears and the estimate is the local time |
| PeerState.EstimateCreeps | alljoyn/alljoyn_core/src/PeerState.cc:87-98 | otherwise the offset stays, or goes up by one when more than 10000 ms have passed since the last drift step, and the estimate is the remote time plus the offset |
| PeerState.CompareWithoutOverflow | alljoyn/alljoyn_core/src/PeerState.cc:92 | when `oldOffset - delta` does not overflow, the test means `oldOffset > delta` |
| PeerState.Peer.EstimateTimestamp | alljoyn/alljoyn_core/src/PeerState.cc:77-99 | the new clock fields and the returned estimate are those of the function `Estimate`, and nothing else changes |
| PeerState.Peer.constructor | alljoyn/alljoyn_core/src/PeerState.h:151-174 | the offset starts at `INT32_MAX` with the first-adjust flag set; not secure, no serial seen, no key-exchange mode, no suite, no authorization, both keys erased |
| PeerState.AuthorizedCases | alljoyn/alljoyn_core/src/PeerState.h:323-329 | `MESSAGE_INVALID` is never authorized, and every other type is authorized while the peer is not secure |
| PeerState.AuthorizedBits | alljoyn/alljoyn_core/src/PeerState.h:327 | while secure, a valid type is authorized for an access exactly when its entry holds every bit of that access |
| PeerState.GrantAuthorizes | alljoyn/alljoyn_core/src/PeerState.h:337-345 | a nonzero grant authorizes that access while secure, keeps what the entry already granted, and leaves the other entries alone |
| PeerState.RevokeClears | alljoyn/alljoyn_core/src/PeerState.h:341-342 | setting access 0 revokes every nonzero access for that type |
| PeerState.InvalidUnchanged | alljoyn/alljoyn_core/src/PeerState.h:338 | `SetAuthorization(MESSAGE_INVALID, _)` changes no entry |
| PeerState.Peer.SetAuthorization | alljoyn/alljoyn_core/src/PeerState.h:337-345 | the four entries become `Authorize` of the old ones |
| PeerState.Peer.SetKey | alljoyn/alljoyn_core/src/PeerState.h:228-231 | the key is stored in its slot, the other slot is kept, and the peer is secure exactly when the key is valid |
| PeerState.Peer.ClearKeys | alljoyn/alljoyn_core/src/PeerState.h:259-264 | both keys are erased, the peer is not secure and the suite is 0 |
| PeerState.Peer.GetKey | alljoyn/alljoyn_core/src/PeerState.h:242-256 | when not secure, `ER_BUS_KEY_UNAVAILABLE` and nothing changes; otherwise the key is handed out, and an expired one clears the keys and returns `ER_BUS_KEY_EXPIRED` |
| PeerState.PeerStateTable.constructor | alljoyn/alljoyn_core/src/PeerState.cc:316-319 | the table starts with only the empty name, mapped to a new secure peer holding the group key |
| PeerState.PeerStateTable.Clear | alljoyn/alljoyn_core/src/PeerState.cc:380-392 | every name is forgotten and the empty name maps to a new peer with the group key as its session key |
| PeerState.PeerStateTable.GetPeerState | alljoyn/alljoyn_core/src/PeerState.cc:321-336 | a known name returns its peer with the map unchanged; an unknown one returns a new peer, entered under the name only when `createIfUnknown` |
| PeerState.PeerStateTable.GetPeerStateFor | alljoyn/alljoyn_core/src/PeerState.cc:338-357 | afterwards both names map to the result, which is the unique name's peer, else the alias's, else a new one; the other names keep their peers |
| PeerState.PeerStateTable.IsAlias | alljoyn/alljoyn_core/src/PeerState.h:841-843 | true exactly when the names are equal or already map to the same peer; unknown names are entered, and no known name changes its peer |
| NsWire.LowByteSmall | alljoyn/alljoyn_core/router/ns/IpNsProtocol.cc:90 | the byte cast keeps a length or count below 256 (also lines 1289) |
| NsWire.BigEndianRoundTrip | alljoyn/alljoyn_core/router/ns/IpNsProtocol.cc:561-562 | a 16-bit field written high byte first is read back unchanged (also lines 846) |
| NsWire.StringSizeCoherent | alljoyn/alljoyn_core/router/ns/IpNsProtocol.cc:78-94 | `StringData::GetSerializedSize` is the number of bytes `Serialize` writes |
| NsWire.StringRoundTrip | alljoyn/alljoyn_core/router/ns/IpNsProtocol.cc:84-131 | a string below 256 bytes is read back whole by `Deserialize`, which reports `1 + size` bytes read, whatever follows it |
| NsWire.ParseStringCases | alljoyn/alljoyn_core/router/ns/IpNsProtocol.cc:96-131 | reading fails exactly on an empty buffer or a length byte larger than the rest; otherwise it reads the announced bytes |
| NsWire.LongStringCut | alljoyn/alljoyn_core/router/ns/IpNsProtocol.cc:90-91 | a string of 256 bytes or more gets its length cut to a byte, so it is read back as its first `length mod 256` bytes |
| NsWire.NamesSizeCoherent | alljoyn/alljoyn_core/router/ns/IpNsProtocol.cc:1221-1309 | the name loop of `GetSerializedSize` adds up what the name loop of `Serialize` writes |
| NsWire.NamesRoundTrip | alljoyn/alljoyn_core/router/ns/IpNsProtocol.cc:1302-1427 | the name loop of `Deserialize` reads back, in order, the names the name loop of `Serialize` wrote, and reads exactly their bytes |
| NsWire.SerializeNames | alljoyn/alljoyn_core/router/ns/IpNsProtocol.cc:1302-1309 | the loop writes every name as a `StringData`, in order |
| NsWire.MeasureNames | alljoyn/alljoyn_core/router/ns/IpNsProtocol.cc:1221-1225 | the loop sums the names' serialized sizes |
| NsWire.DeserializeNames | alljoyn/alljoyn_core/router/ns/IpNsProtocol.cc:1408-1427 | the loop fails exactly when some announced name cannot be read; otherwise it adds the names read and counts the bytes |
| NsRecords.NibbleRead | alljoyn/alljoyn_core/router/ns/IpNsProtocol.cc:1261-1378 | the four low flags set by `Serialize` are the ones `Deserialize` tests with masks 8, 4, 2 and 1 |
| NsRecords.LowNibble | alljoyn/alljoyn_core/router/ns/IpNsProtocol.cc:1366-1378 | the type bits above do not disturb the four low flags |
| NsRecords.WhoHasFlagsRead | alljoyn/alljoyn_core/router/ns/IpNsProtocol.cc:1250-1282 | the type-and-flags byte has message type 2; version 0 carries T, U, S and F, any other version the U bit alone |
| NsRecords.WhoHasRoundTrip | alljoyn/alljoyn_core/router/ns/IpNsProtocol.cc:1236-1430 | `Deserialize` of what `Serialize` wrote succeeds for a record of the same version, reads exactly that many bytes and gives the flags and names sent; the transport mask is reset |
| NsRecords.WhoHasRestored | alljoyn/alljoyn_core/router/ns/IpNsProtocol.cc:1236-1430 | a version-0 question without a transport mask comes back equal to itself |
| NsRecords.WhoHasRejected | alljoyn/alljoyn_core/router/ns/IpNsProtocol.cc:1323-1348 | a buffer under two bytes or whose type bits are not WHO-HAS is refused |
| NsRecords.WhoHasWithin | alljoyn/alljoyn_core/router/ns/IpNsProtocol.cc:1310-1430 | a successful read reports between 2 and `bufsize` bytes |
| NsRecords.WhoHasSizeCoherent | alljoyn/alljoyn_core/router/ns/IpNsProtocol.cc:1194-1312 | for versions 0 and 1 `GetSerializedSize` is the size `Serialize` writes; for any other version it is 0 |
| NsRecords.WhoHasSerializedSize | alljoyn/alljoyn_core/router/ns/IpNsProtocol.cc:1194-1234 | the method computes the size function |
| NsRecords.SerializeWhoHas | alljoyn/alljoyn_core/router/ns/IpNsProtocol.cc:1236-1312 | the method writes the record's bytes and returns their number |
| NsRecords.DeserializeWhoHas | alljoyn/alljoyn_core/router/ns/IpNsProtocol.cc:1310-1430 | 0 exactly when the reader function refuses the buffer; otherwise the record and size it gives |
| NsRecords.ParseNamesAtLeast | alljoyn/alljoyn_core/router/ns/IpNsProtocol.cc:915-933 | the running byte count only grows as names are read |
| NsRecords.ParseNamesShift | alljoyn/alljoyn_core/router/ns/IpNsProtocol.cc:915-933 | starting the byte count higher shifts the result by as much |
| NsRecords.ParseNamesWithin | alljoyn/alljoyn_core/router/ns/IpNsProtocol.cc:915-933 | reading names never reports more bytes than the buffer holds |
| NsRecords.HighRead | alljoyn/alljoyn_core/router/ns/IpNsProtocol.cc:519-528 | the IS-AT type bits and the G and C flags written are the ones read (also lines 811-820) |
| NsRecords.IsAtFlagByteRead | alljoyn/alljoyn_core/router/ns/IpNsProtocol.cc:519-546 | each of the six flags of the type-and-flags byte is read back as written (also lines 805-832) |
| NsRecords.IsAtFlagsRead | alljoyn/alljoyn_core/router/ns/IpNsProtocol.cc:515-646 | version 0 puts G, C, T, U, S, F in the byte and version 1 puts G, C, R4, U4, R6, U6, each read back as written (also lines 817-832, 969-984) |
| NsRecords.IsAtTypeRead | alljoyn/alljoyn_core/router/ns/IpNsProtocol.cc:519-619 | the byte written has the IS-AT message type |
| NsRecords.IsAtNamesRoundTrip | alljoyn/alljoyn_core/router/ns/IpNsProtocol.cc:605-612 | the IS-AT name loop reads back the names written and adds them (also lines 915-933) |
| NsRecords.GuidRoundTrip | alljoyn/alljoyn_core/router/ns/IpNsProtocol.cc:596-612 | with the G flag, the GUID and then the names are read back (also lines 891-933) |
| NsRecords.IsAtTailRoundTrip | alljoyn/alljoyn_core/router/ns/IpNsProtocol.cc:596-612 | the optional GUID and the names are read back, and exactly their bytes are read (also lines 891-933) |
| NsRecords.ParseIsAtUsed | alljoyn/alljoyn_core/router/ns/IpNsProtocol.cc:891-933 | the byte count never goes down while the GUID and names are read |
| NsRecords.EndpointRoundTrip | alljoyn/alljoyn_core/router/ns/IpNsProtocol.cc:675-685 | an address and port written are read back, and the read stops right after them (also lines 1008-1026) |
| NsRecords.EndpointsReadReceived | alljoyn/alljoyn_core/router/ns/IpNsProtocol.cc:1008-1122 | reading the four version-1 endpoints in turn gives the record the answer describes |
| NsRecords.EndpointsRoundTrip | alljoyn/alljoyn_core/router/ns/IpNsProtocol.cc:675-756 | the version-1 endpoints, GUID and names are read back as written, with exactly their bytes (also lines 1008-1145) |
| NsRecords.AddressesReadReceived | alljoyn/alljoyn_core/router/ns/IpNsProtocol.cc:860-886 | reading the optional IPv4 and IPv6 addresses gives the record the answer describes |
| NsRecords.AddressesRoundTrip | alljoyn/alljoyn_core/router/ns/IpNsProtocol.cc:574-612 | the version-0 addresses, GUID and names are read back as written, with exactly their bytes (also lines 860-933) |
| NsRecords.FixedPart | alljoyn/alljoyn_core/router/ns/IpNsProtocol.cc:546-569 | the type byte, the name count and the 16-bit field stand in the first four bytes and the body follows (also lines 805-853) |
| NsRecords.IsAtRoundTrip | alljoyn/alljoyn_core/router/ns/IpNsProtocol.cc:495-1153 | `IsAt::Deserialize` of what `Serialize` wrote for version 0 or 1 succeeds, reads exactly those bytes and gives the answer sent |
| NsRecords.AddressesSelf | alljoyn/alljoyn_core/router/ns/IpNsProtocol.cc:860-933 | reading a version-0 answer into a copy of itself without names restores it |
| NsRecords.EndpointsSelf | alljoyn/alljoyn_core/router/ns/IpNsProtocol.cc:1008-1145 | reading a version-1 answer into a copy of itself without names restores it |
| NsRecords.ReceivedSelf | alljoyn/alljoyn_core/router/ns/IpNsProtocol.cc:767-1153 | what an answer comes back as, read into a copy of itself without names, is itself |
| NsRecords.IsAtRestored | alljoyn/alljoyn_core/router/ns/IpNsProtocol.cc:495-1153 | an encodable answer of version 0 or 1 comes back equal to itself |
| NsRecords.IsAtRejected | alljoyn/alljoyn_core/router/ns/IpNsProtocol.cc:789-815 | an unknown version, a buffer under four bytes or type bits other than IS-AT are refused (also lines 936-967, 1146-1150) |
| NsRecords.IsAtWithin | alljoyn/alljoyn_core/router/ns/IpNsProtocol.cc:767-1153 | a successful read reports between 4 and `bufsize` bytes |
| NsRecords.IsAtTailSize | alljoyn/alljoyn_core/router/ns/IpNsProtocol.cc:415-482 | the GUID and names take the size `GetSerializedSize` adds for them |
| NsRecords.IsAtEndpointsSize | alljoyn/alljoyn_core/router/ns/IpNsProtocol.cc:439-482 | each version-1 endpoint the flags announce takes 6 or 18 bytes, as `GetSerializedSize` counts, when its address has its family's length (4 or 16 bytes, as `qcc::IPAddress` gives) |
| NsRecords.IsAtSizeCoherent | alljoyn/alljoyn_core/router/ns/IpNsProtocol.cc:376-493 | `GetSerializedSize` is what `Serialize` writes: always for version 0, and for version 1 when every endpoint the flags announce has its family's address length; absent endpoints may hold anything (also lines 495-765) |
| NsRecords.FreshIsAtFits | alljoyn/alljoyn_core/router/ns/IpNsProtocol.cc:133-141 | the answer the constructor builds announces no endpoint, so its `GetSerializedSize` is what `Serialize` writes (sizes at lines 376-765) |
| NsRecords.ReadIsAtFits | alljoyn/alljoyn_core/router/ns/IpNsProtocol.cc:1008-1100 | `Deserialize` keeps the version read, and for version 1 every endpoint it reads has a 4- or 16-byte address |
| NsRecords.ReadIsAtSizeCoherent | alljoyn/alljoyn_core/router/ns/IpNsProtocol.cc:767-1153 | for any answer `Deserialize` reads, `GetSerializedSize` is what `Serialize` writes back |
| NsRecords.IsAtSerializedSize | alljoyn/alljoyn_core/router/ns/IpNsProtocol.cc:376-493 | the method computes the size function |
| NsRecords.IsAtTypeAndFlags | alljoyn/alljoyn_core/router/ns/IpNsProtocol.cc:515-546 | the flags are set one at a time into the type-and-flags byte of the version (also lines 615-646) |
| NsRecords.SerializeIsAt | alljoyn/alljoyn_core/router/ns/IpNsProtocol.cc:495-765 | the method writes the answer's bytes and returns their number |
| NsRecords.ReadEndpoint | alljoyn/alljoyn_core/router/ns/IpNsProtocol.cc:1008-1026 | an endpoint is read exactly when address and port fit in the buffer |
| NsRecords.DeserializeIsAtTail | alljoyn/alljoyn_core/router/ns/IpNsProtocol.cc:891-933 | the loop reads the GUID and names as the reader function does, failing exactly when it does |
| NsRecords.DeserializeAddresses | alljoyn/alljoyn_core/router/ns/IpNsProtocol.cc:860-886 | the optional addresses are read as the reader function does, and reading moves forward within the buffer |
| NsRecords.DeserializeEndpoints4 | alljoyn/alljoyn_core/router/ns/IpNsProtocol.cc:1008-1050 | the two IPv4 endpoints are read as the reader function does |
| NsRecords.DeserializeEndpoints6 | alljoyn/alljoyn_core/router/ns/IpNsProtocol.cc:1056-1098 | the two IPv6 endpoints are read as the reader function does |
| NsRecords.DeserializeEndpoints | alljoyn/alljoyn_core/router/ns/IpNsProtocol.cc:1008-1098 | all four endpoints are read as the reader function does |
| NsRecords.DeserializeIsAt | alljoyn/alljoyn_core/router/ns/IpNsProtocol.cc:767-1153 | 0 exactly when the reader function refuses the buffer; otherwise the answer and size it gives |
| NsList.Map | alljoyn/alljoyn_core/router/ns/IpNsProtocol.cc:1696-1740 | one received record per record sent |
| NsList.ReadAll | alljoyn/alljoyn_core/router/ns/IpNsProtocol.cc:1696-1740 | a reading loop stays within the buffer, reads at most the announced count, and is complete exactly when it reads all of them |
| NsList.ReadNext | alljoyn/alljoyn_core/router/ns/IpNsProtocol.cc:1705-1714 | one turn of the loop keeps those bounds |
| NsList.ReadAllStep | alljoyn/alljoyn_core/router/ns/IpNsProtocol.cc:1705-1714 | a record read moves the loop past it with one fewer to go |
| NsList.ReadAllStops | alljoyn/alljoyn_core/router/ns/IpNsProtocol.cc:1706-1710 | a record that cannot be read ends the loop there, incomplete |
| NsList.ReadLoop | alljoyn/alljoyn_core/router/ns/IpNsProtocol.cc:1696-1715 | the loop computes the reading function |
| NsList.ReadAllRoundTrip | alljoyn/alljoyn_core/router/ns/IpNsProtocol.cc:1608-1625 | the reading loop reads back every record the writing loop wrote, and stops right after them (also lines 1696-1740) |
| NsList.ConcatSnoc | alljoyn/alljoyn_core/router/ns/IpNsProtocol.cc:1608-1614 | writing one more record appends its bytes |
| NsList.TotalSnoc | alljoyn/alljoyn_core/router/ns/IpNsProtocol.cc:1545-1548 | measuring one more record adds its size |
| NsList.TotalCoherent | alljoyn/alljoyn_core/router/ns/IpNsProtocol.cc:1545-1625 | when each record's size is right, so is the sum |
| NsPacket.QuestionParserConsumes | alljoyn/alljoyn_core/router/ns/IpNsProtocol.cc:1705 | `WhoHas::Deserialize` never claims more bytes than it was given |
| NsPacket.AnswerParserConsumes | alljoyn/alljoyn_core/router/ns/IpNsProtocol.cc:1730 | `IsAt::Deserialize` never claims more bytes than it was given |
| NsPacket.DecodePacket | alljoyn/alljoyn_core/router/ns/IpNsProtocol.cc:1630-1744 | rejected exactly below four bytes or for a version other than 0 and 1; otherwise version and timer from the header, at most the announced counts read, and a nonzero size only when all of them were |
| NsPacket.QuestionsEncodableTail | alljoyn/alljoyn_core/router/ns/IpNsProtocol.cc:1608-1614 | the questions after the first are as encodable as the list |
| NsPacket.AnswersEncodableTail | alljoyn/alljoyn_core/router/ns/IpNsProtocol.cc:1619-1625 | the answers after the first are as encodable as the list |
| NsPacket.QuestionsReadBack | alljoyn/alljoyn_core/router/ns/IpNsProtocol.cc:1608-1705 | each question written is read back where it stands |
| NsPacket.AnswersReadBack | alljoyn/alljoyn_core/router/ns/IpNsProtocol.cc:1619-1730 | each answer written is read back where it stands |
| NsPacket.QuestionsRoundTrip | alljoyn/alljoyn_core/router/ns/IpNsProtocol.cc:1608-1715 | the question loop of `Deserialize` reads back every question written, and stops right after them |
| NsPacket.AnswersRoundTrip | alljoyn/alljoyn_core/router/ns/IpNsProtocol.cc:1619-1740 | the answer loop of `Deserialize` reads back every answer written, and stops right after them |
| NsPacket.PacketLayout | alljoyn/alljoyn_core/router/ns/IpNsProtocol.cc:1575-1603 | the four header bytes are version, question count, answer count and timer, and the records follow |
| NsPacket.Split | alljoyn/alljoyn_core/router/ns/IpNsProtocol.cc:1603-1689 | the questions start at offset 4 and the answers right after them |
| NsPacket.PacketRoundTrip | alljoyn/alljoyn_core/router/ns/IpNsProtocol.cc:1562-1744 | `Deserialize` of what `Serialize` wrote gives the version, timer, questions and answers, and the size written, whatever follows |
| NsPacket.DecodeComplete | alljoyn/alljoyn_core/router/ns/IpNsProtocol.cc:1696-1743 | when both loops read all their records, the packet decodes to them and its size is where the answers end |
| NsPacket.PacketSizeCoherent | alljoyn/alljoyn_core/router/ns/IpNsProtocol.cc:1532-1628 | `GetSerializedSize` is what `Serialize` writes when every question has version 0 or 1 and every endpoint an answer announces has its family's address length |
| NsPacket.EraseShifts | alljoyn/alljoyn_core/router/ns/IpNsProtocol.cc:1501-1508 | removing the answer at an index keeps the others in order and drops exactly that one |
| NsPacket.MeasureQuestions | alljoyn/alljoyn_core/router/ns/IpNsProtocol.cc:1545-1548 | the loop sums the questions' sizes |
| NsPacket.MeasureAnswers | alljoyn/alljoyn_core/router/ns/IpNsProtocol.cc:1554-1557 | the loop sums the answers' sizes |
| NsPacket.WriteQuestions | alljoyn/alljoyn_core/router/ns/IpNsProtocol.cc:1608-1614 | the loop writes every question, in order |
| NsPacket.WriteAnswers | alljoyn/alljoyn_core/router/ns/IpNsProtocol.cc:1619-1625 | the loop writes every answer, in order |
| NsPacket.DeserializeQuestions | alljoyn/alljoyn_core/router/ns/IpNsProtocol.cc:1696-1715 | the loop computes the question-reading function |
| NsPacket.DeserializeAnswers | alljoyn/alljoyn_core/router/ns/IpNsProtocol.cc:1721-1740 | the loop computes the answer-reading function |
| NsPacket.NSPacket.constructor | alljoyn/alljoyn_core/router/ns/IpNsProtocol.cc:1423-1425 | a new packet holds no questions or answers |
| NsPacket.NSPacket.Reset | alljoyn/alljoyn_core/router/ns/IpNsProtocol.cc:1455-1461 | questions and answers dropped, version and timer kept |
| NsPacket.NSPacket.AddQuestion | alljoyn/alljoyn_core/router/ns/IpNsProtocol.cc:1463-1468 | the question is appended and nothing else changes |
| NsPacket.NSPacket.AddAnswer | alljoyn/alljoyn_core/router/ns/IpNsProtocol.cc:1494-1499 | the answer is appended and nothing else changes |
| NsPacket.NSPacket.RemoveAnswer | alljoyn/alljoyn_core/router/ns/IpNsProtocol.cc:1501-1508 | the answer at the index is removed, and an index past the end removes nothing |
| NsPacket.NSPacket.SerializedSize | alljoyn/alljoyn_core/router/ns/IpNsProtocol.cc:1532-1560 | the method computes the packet size function |
| NsPacket.NSPacket.Serialize | alljoyn/alljoyn_core/router/ns/IpNsProtocol.cc:1562-1628 | the method writes the packet's bytes and returns their number |
| NsPacket.NSPacket.Deserialize | alljoyn/alljoyn_core/router/ns/IpNsProtocol.cc:1630-1744 | a rejected buffer changes nothing and returns 0; otherwise version and timer are set, the records read are appended, and the size is that of the decoding |
| MdnsName.FirstDot | alljoyn/alljoyn_core/router/ns/IpNsProtocol.cc:1785-1812 | `find_first_of('.')` gives a position within the name, its length when there is no dot |
| MdnsName.FirstDotFound | alljoyn/alljoyn_core/router/ns/IpNsProtocol.cc:1785-1812 | a position found inside the name holds a dot |
| MdnsName.FirstDotIsFirst | alljoyn/alljoyn_core/router/ns/IpNsProtocol.cc:1785-1812 | no dot comes before the one found |
| MdnsName.Remainder | alljoyn/alljoyn_core/router/ns/IpNsProtocol.cc:1789-1818 | what follows the first label is shorter than the name, so the writing loops end |
| MdnsName.LabelSplit | alljoyn/alljoyn_core/router/ns/IpNsProtocol.cc:1785-1790 | a name with a dot is its first label, the dot, and the rest |
| MdnsName.QualifiedStep | alljoyn/alljoyn_core/router/ns/IpNsProtocol.cc:1810-1818 | a fully qualified name splits into a label of 1 to 63 bytes, a dot and a fully qualified rest |
| MdnsName.ReadLabels | alljoyn/alljoyn_core/router/ns/IpNsProtocol.cc:1837-1874 | the label loop never reports more bytes than remain, and reports 0 when it fails |
| MdnsName.ReadStep | alljoyn/alljoyn_core/router/ns/IpNsProtocol.cc:1838-1872 | one turn of the loop reads at least one byte when it succeeds |
| MdnsName.ReadName | alljoyn/alljoyn_core/router/ns/IpNsProtocol.cc:1825-1881 | a successful read reports between 1 and `bufsize` bytes; an empty buffer is refused |
| MdnsName.MeasureMatchesWrite | alljoyn/alljoyn_core/router/ns/IpNsProtocol.cc:1770-1823 | with the same names known, `GetSerializedSize` is the number of bytes `Serialize` writes, and both enter the same names |
| MdnsName.PointerRead | alljoyn/alljoyn_core/router/ns/IpNsProtocol.cc:1807-1839 | a pointer's first byte has its top two bits set, and the two bytes give back the offset's low 14 bits |
| MdnsName.LowBits | alljoyn/alljoyn_core/router/ns/IpNsProtocol.cc:1839 | the `& 0x3FFF` of a pointer is the offset modulo 2^14 |
| MdnsName.WrittenEnd | alljoyn/alljoyn_core/router/ns/IpNsProtocol.cc:1802-1820 | what `Serialize` writes ends in a zero byte or in a pointer |
| MdnsName.SameEnd | alljoyn/alljoyn_core/router/ns/IpNsProtocol.cc:1814-1816 | labels written before the end keep it the end |
| MdnsName.ReadEnd | alljoyn/alljoyn_core/router/ns/IpNsProtocol.cc:1852-1872 | a zero length ends the name read so far |
| MdnsName.ReadPointer | alljoyn/alljoyn_core/router/ns/IpNsProtocol.cc:1838-1846 | a pointer to a recorded offset ends the name with the name recorded there |
| MdnsName.ReadLabel | alljoyn/alljoyn_core/router/ns/IpNsProtocol.cc:1852-1869 | a label of 1 to 63 bytes joins the name, its position is recorded, and reading goes on after it |
| MdnsName.AgreeShorter | alljoyn/alljoyn_core/router/ns/IpNsProtocol.cc:1811-1877 | entering a name in the writer's map keeps it agreeing with the reader's on shorter names |
| MdnsName.WriteStep | alljoyn/alljoyn_core/router/ns/IpNsProtocol.cc:1810-1818 | a name not written before is written as its first label, then the rest of it, with that position entered |
| MdnsName.LabelsRoundTrip | alljoyn/alljoyn_core/router/ns/IpNsProtocol.cc:1802-1874 | the label loop reads back a fully qualified name as written, stops right after it, and records where its labels were |
| MdnsName.LabelRoundTrip | alljoyn/alljoyn_core/router/ns/IpNsProtocol.cc:1810-1869 | the case of a new name: its first label, then the rest read back by the same loop |
| MdnsName.LabelCase | alljoyn/alljoyn_core/router/ns/IpNsProtocol.cc:1852-1869 | once the rest reads back after a label, the whole name does |
| MdnsName.NameRoundTrip | alljoyn/alljoyn_core/router/ns/IpNsProtocol.cc:1797-1881 | when the reader's offsets agree with the writer's, `Deserialize` reads back a fully qualified name as `Serialize` wrote it, the same number of bytes, and the positions of the labels written out, whatever follows |
| MdnsName.WritesOnStart | alljoyn/alljoyn_core/router/ns/IpNsProtocol.cc:1800-1801 | before the loop the whole name is left to write |
| MdnsName.WritesOnEnd | alljoyn/alljoyn_core/router/ns/IpNsProtocol.cc:1803-1805 | the empty name is written as the zero byte |
| MdnsName.WritesOnPointer | alljoyn/alljoyn_core/router/ns/IpNsProtocol.cc:1806-1809 | a suffix written before is written as a pointer to it |
| MdnsName.WritesOnLabel | alljoyn/alljoyn_core/router/ns/IpNsProtocol.cc:1810-1818 | a new suffix has its position entered and its first label written, and the rest is left |
| MdnsName.ReadsOnStart | alljoyn/alljoyn_core/router/ns/IpNsProtocol.cc:1828-1837 | before the loop nothing has been read |
| MdnsName.ReadsOnEmpty | alljoyn/alljoyn_core/router/ns/IpNsProtocol.cc:1837 | a buffer that runs out after a label ends the name there |
| MdnsName.ReadsOnPointer | alljoyn/alljoyn_core/router/ns/IpNsProtocol.cc:1838-1851 | a pointer ends the name with the recorded one, or fails when none is recorded |
| MdnsName.ReadsOnShort | alljoyn/alljoyn_core/router/ns/IpNsProtocol.cc:1852-1861 | a length larger than what is left fails |
| MdnsName.ReadsOnZero | alljoyn/alljoyn_core/router/ns/IpNsProtocol.cc:1862-1872 | a zero length ends the name, after a dot when the name is not empty |
| MdnsName.ReadsOnLabel | alljoyn/alljoyn_core/router/ns/IpNsProtocol.cc:1862-1869 | a label that fits is marked and added to the name, and reading goes on after it |
| MdnsName.DomainName.constructor | alljoyn/alljoyn_core/router/ns/IpNsProtocol.cc:1760-1763 | a new domain name is empty |
| MdnsName.DomainName.SetName | alljoyn/alljoyn_core/router/ns/IpNsProtocol.cc:1747-1752 | the name becomes the argument |
| MdnsName.DomainName.GetName | alljoyn/alljoyn_core/router/ns/IpNsProtocol.cc:1754-1758 | returns the name held |
| MdnsName.DomainName.GetSerializedSize | alljoyn/alljoyn_core/router/ns/IpNsProtocol.cc:1770-1795 | the loop computes the measuring function: size and the suffixes entered with placeholder 0 |
| MdnsName.DomainName.Serialize | alljoyn/alljoyn_core/router/ns/IpNsProtocol.cc:1797-1823 | the loop writes the bytes of the writing function, labels then a zero byte or a pointer, entering each suffix at its position |
| MdnsName.DomainName.Deserialize | alljoyn/alljoyn_core/router/ns/IpNsProtocol.cc:1825-1881 | the loop gives the reading function's size and name, and on success records the position of each label read with the name from there on |
| MdnsRData.HeaderBytes | alljoyn/alljoyn_core/router/ns/IpNsProtocol.cc:3487-3562 | `Serialize` writes exactly the 12 bytes `GetSerializedSize` announces (also lines 3643-3650) |
| MdnsRData.HeaderRoundTrip | alljoyn/alljoyn_core/router/ns/IpNsProtocol.cc:3487-3641 | reading back a written header gives the ID, the QR bit, NSCOUNT and ARCOUNT, QDCOUNT and ANCOUNT cut to their low byte, and the response code cut to four bits |
| MdnsRData.HeaderRoundTripExact | alljoyn/alljoyn_core/router/ns/IpNsProtocol.cc:3487-3641 | a header whose two counts are below 256 and whose response code fits four bits is read back exactly |
| MdnsRData.MDNSHeader.constructor | alljoyn/alljoyn_core/router/ns/IpNsProtocol.cc:3381-3392 | the fields are the arguments, with response code `NOT_ERROR` and no authoritative-answer bit |
| MdnsRData.MDNSHeader.SetQDCount | alljoyn/alljoyn_core/router/ns/IpNsProtocol.cc:3438-3443 | only QDCOUNT changes |
| MdnsRData.MDNSHeader.SetANCount | alljoyn/alljoyn_core/router/ns/IpNsProtocol.cc:3450-3455 | only ANCOUNT changes |
| MdnsRData.MDNSHeader.SetNSCount | alljoyn/alljoyn_core/router/ns/IpNsProtocol.cc:3462-3467 | only NSCOUNT changes |
| MdnsRData.MDNSHeader.SetARCount | alljoyn/alljoyn_core/router/ns/IpNsProtocol.cc:3474-3479 | only ARCOUNT changes |
| MdnsRData.MDNSHeader.Serialize | alljoyn/alljoyn_core/router/ns/IpNsProtocol.cc:3487-3562 | the twelve header bytes of the fields, and size 12 |
| MdnsRData.MDNSHeader.Deserialize | alljoyn/alljoyn_core/router/ns/IpNsProtocol.cc:3564-3641 | a buffer under 12 bytes returns 0 and changes nothing; otherwise 12 and the fields the reading function gives |
| MdnsRData.FirstEquals | alljoyn/alljoyn_core/router/ns/IpNsProtocol.cc:2536 | `find_first_of('=')` gives a position within the string |
| MdnsRData.FirstEqualsAfter | alljoyn/alljoyn_core/router/ns/IpNsProtocol.cc:2536 | in `key=value` with no `=` in the key, the first `=` is right after the key |
| MdnsRData.FirstEqualsNone | alljoyn/alljoyn_core/router/ns/IpNsProtocol.cc:2536-2541 | a string without `=` is a key with an empty value |
| MdnsRData.SplitField | alljoyn/alljoyn_core/router/ns/IpNsProtocol.cc:2479-2541 | a field string written by the loop of `Serialize` is cut back into its key and value |
| MdnsRData.SplitVersion | alljoyn/alljoyn_core/router/ns/IpNsProtocol.cc:2465-2541 | the `txtvers=value` string is cut back into `txtvers` and its value, even when the value is empty |
| MdnsRData.AllStringsSize | alljoyn/alljoyn_core/router/ns/IpNsProtocol.cc:2439-2487 | the loop of `GetSerializedSize` counts every field other than `txtvers` as the loop of `Serialize` writes it |
| MdnsRData.AllStringsRestrict | alljoyn/alljoyn_core/router/ns/IpNsProtocol.cc:2439-2446 | a key the iteration order does not visit changes none of the strings |
| MdnsRData.TextSizeCoherent | alljoyn/alljoyn_core/router/ns/IpNsProtocol.cc:2432-2494 | `GetSerializedSize` is the size `Serialize` writes, except one byte short when the `txtvers` value is empty, since `Serialize` always writes its `=` |
| MdnsRData.TextSizeShortByOne | alljoyn/alljoyn_core/router/ns/IpNsProtocol.cc:2432-2449 | for the record holding only an empty `txtvers`, `GetSerializedSize` gives 10 bytes where `Serialize` writes 11 |
| MdnsRData.TextSizeIntendedCoherent | alljoyn/alljoyn_core/router/ns/IpNsProtocol.cc:2432-2494 | with the `=` of an empty `txtvers` counted, the size is exactly what `Serialize` writes, for every set of fields |
| MdnsRData.ReadText | alljoyn/alljoyn_core/router/ns/IpNsProtocol.cc:2496-2554 | a successful read reports between 2 and `bufsize` bytes |
| MdnsRData.TextLoopStep | alljoyn/alljoyn_core/router/ns/IpNsProtocol.cc:2524-2545 | one string that fits is read, entered under its key, and RDLENGTH goes down by its length byte and bytes |
| MdnsRData.TextLoopRoundTrip | alljoyn/alljoyn_core/router/ns/IpNsProtocol.cc:2466-2551 | the loop of `Deserialize` reads back the strings written and ends with RDLENGTH at exactly 0, whatever follows |
| MdnsRData.OtherFieldsSkip | alljoyn/alljoyn_core/router/ns/IpNsProtocol.cc:2476-2478 | the `txtvers` key is skipped by the loop of `Serialize` |
| MdnsRData.OtherFieldsAdd | alljoyn/alljoyn_core/router/ns/IpNsProtocol.cc:2479-2486 | every other key is written in iteration order |
| MdnsRData.EnterOthers | alljoyn/alljoyn_core/router/ns/IpNsProtocol.cc:2475-2541 | entering the other strings read enters the other fields |
| MdnsRData.OtherStringsShort | alljoyn/alljoyn_core/router/ns/IpNsProtocol.cc:2483 | when every field fits a length byte, so do the other strings written |
| MdnsRData.TextStringsShort | alljoyn/alljoyn_core/router/ns/IpNsProtocol.cc:2466-2483 | when every field fits a length byte, so do all strings written |
| MdnsRData.EnterText | alljoyn/alljoyn_core/router/ns/IpNsProtocol.cc:2538-2540 | entering all strings written gives back every field |
| MdnsRData.TextRoundTrip | alljoyn/alljoyn_core/router/ns/IpNsProtocol.cc:2451-2554 | a TXT record whose keys hold no `=` and whose strings fit their length bytes and RDLENGTH is read back with all its fields and the size written, whatever follows |
| MdnsRData.StringsFrom | alljoyn/alljoyn_core/router/ns/IpNsProtocol.cc:2439-2487 | the strings from a key on are that key's string, then the strings after it |
| MdnsRData.NamesCons | alljoyn/alljoyn_core/router/ns/IpNsProtocol.cc:2466-2469 | a string before others adds its length byte and its bytes |
| MdnsRData.LoopsToNext | alljoyn/alljoyn_core/router/ns/IpNsProtocol.cc:2524-2545 | a string that fits is entered and the loop goes on after it |
| MdnsRData.LoopsToShort | alljoyn/alljoyn_core/router/ns/IpNsProtocol.cc:2528-2532 | a string longer than what is left fails |
| MdnsRData.LoopsToEnd | alljoyn/alljoyn_core/router/ns/IpNsProtocol.cc:2524-2551 | with RDLENGTH at 0 or the buffer used up the loop ends, successfully only in the first case |
| MdnsRData.WritesToSkip | alljoyn/alljoyn_core/router/ns/IpNsProtocol.cc:2476-2478 | skipping `txtvers` in the loop leaves what is written unchanged |
| MdnsRData.WritesToField | alljoyn/alljoyn_core/router/ns/IpNsProtocol.cc:2479-2486 | another field is written with its length byte, and RDLENGTH grows by both |
| MdnsRData.WritesToStart | alljoyn/alljoyn_core/router/ns/IpNsProtocol.cc:2463-2469 | the version string is written first and the other fields are left |
| MdnsRData.TextRData.constructor | alljoyn/alljoyn_core/router/ns/IpNsProtocol.cc:2289-2295 | a new record holds only `txtvers`, set to the version |
| MdnsRData.TextRData.GetSerializedSize | alljoyn/alljoyn_core/router/ns/IpNsProtocol.cc:2432-2449 | the loop computes the size function |
| MdnsRData.TextRData.Serialize | alljoyn/alljoyn_core/router/ns/IpNsProtocol.cc:2451-2494 | RDLENGTH, then the version string, then the other fields in order; the size is what was written |
| MdnsRData.TextRData.Deserialize | alljoyn/alljoyn_core/router/ns/IpNsProtocol.cc:2496-2554 | the size and the fields are those of the reading function, with the strings read entered even on failure |
| MdnsRData.AddrBytes | alljoyn/alljoyn_core/router/ns/IpNsProtocol.cc:2585-2656 | an address record is RDLENGTH and the address, two bytes longer than the address |
| MdnsRData.ParseAddr | alljoyn/alljoyn_core/router/ns/IpNsProtocol.cc:2604-2677 | an address read has the record's length |
| MdnsRData.AddrRoundTrip | alljoyn/alljoyn_core/router/ns/IpNsProtocol.cc:2579-2678 | an address written is read back, whatever follows |
| MdnsRData.ParseAddrFails | alljoyn/alljoyn_core/router/ns/IpNsProtocol.cc:2604-2672 | reading fails exactly on a short buffer or a wrong RDLENGTH |
| MdnsRData.ARData.constructor | alljoyn/alljoyn_core/router/ns/IpNsProtocol.cc:2557-2562 | the record holds the address given |
| MdnsRData.ARData.GetSerializedSize | alljoyn/alljoyn_core/router/ns/IpNsProtocol.cc:2570-2577 | 6, the size `Serialize` writes |
| MdnsRData.ARData.Serialize | alljoyn/alljoyn_core/router/ns/IpNsProtocol.cc:2579-2596 | RDLENGTH 4 and the four address bytes |
| MdnsRData.ARData.Deserialize | alljoyn/alljoyn_core/router/ns/IpNsProtocol.cc:2598-2620 | 6 and the address read, or 0 with the address unchanged |
| MdnsRData.AAAARData.constructor | alljoyn/alljoyn_core/router/ns/IpNsProtocol.cc:2623-2628 | the record holds the address given |
| MdnsRData.AAAARData.GetSerializedSize | alljoyn/alljoyn_core/router/ns/IpNsProtocol.cc:2636-2643 | 18, the size `Serialize` writes |
| MdnsRData.AAAARData.Serialize | alljoyn/alljoyn_core/router/ns/IpNsProtocol.cc:2645-2657 | RDLENGTH 16 and the sixteen address bytes |
| MdnsRData.AAAARData.Deserialize | alljoyn/alljoyn_core/router/ns/IpNsProtocol.cc:2659-2678 | 18 and the address read, or 0 with the address unchanged |
| MdnsPacket.FirstFrom | alljoyn/alljoyn_core/router/ns/IpNsProtocol.cc:3779-3789 | the index found is in range, accepted, and no earlier element from the start is accepted; with none found, no element from the start is accepted |
| MdnsPacket.CountFrom | alljoyn/alljoyn_core/router/ns/IpNsProtocol.cc:3826-3840 | the number of matches never exceeds the number of records looked at |
| MdnsPacket.NthFrom | alljoyn/alljoyn_core/router/ns/IpNsProtocol.cc:3852-3868 | the `index`-th match found is in range and accepted |
| MdnsPacket.NthExists | alljoyn/alljoyn_core/router/ns/IpNsProtocol.cc:3819-3869 | `GetAdditionalRecordAt` with `index` finds a record exactly when `index` is below what `GetNumMatches` counts |
| MdnsPacket.NthFirst | alljoyn/alljoyn_core/router/ns/IpNsProtocol.cc:3794-3869 | `GetAdditionalRecordAt` with index 0 finds the record the versioned `GetAdditionalRecord` finds |
| MdnsPacket.NthOrdered | alljoyn/alljoyn_core/router/ns/IpNsProtocol.cc:3852-3868 | the match with index `k + 1` lies after the one with index `k` |
| MdnsPacket.RemoveFirstCount | alljoyn/alljoyn_core/router/ns/IpNsProtocol.cc:4143-4172 | erasing the first match removes exactly one element, and one of the matches; with no match the vector is unchanged |
| MdnsPacket.FindFirst | alljoyn/alljoyn_core/router/ns/IpNsProtocol.cc:3779-3791 | the lookup loop returns the first matching index, or none |
| MdnsPacket.CountMatching | alljoyn/alljoyn_core/router/ns/IpNsProtocol.cc:3826-3840 | the counting loop returns the number of matches |
| MdnsPacket.FindNth | alljoyn/alljoyn_core/router/ns/IpNsProtocol.cc:3852-3868 | the loop with its `i++ == index` test returns the `index`-th match |
| MdnsPacket.LastStar | alljoyn/alljoyn_core/router/ns/IpNsProtocol.cc:3777 | `find_last_of('*')`: the position holds `*` and no later one does; `npos` when there is no `*` |
| MdnsPacket.NameMatchesExact | alljoyn/alljoyn_core/router/ns/IpNsProtocol.cc:3777-3782 | a name with no `*` matches a domain name exactly when the two are equal |
| MdnsPacket.NameMatchesPrefix | alljoyn/alljoyn_core/router/ns/IpNsProtocol.cc:3777-3782 | a name with a `*` matches exactly the domain names that start with what comes before its last `*` |
| MdnsPacket.MDNSPacket.constructor | alljoyn/alljoyn_core/router/ns/IpNsProtocol.cc:3653-3660 | the packet is empty, with the default header, so the counts agree with the lists |
| MdnsPacket.MDNSPacket.Clear | alljoyn/alljoyn_core/router/ns/IpNsProtocol.cc:3666-3674 | the four lists are emptied and the header is left as it was |
| MdnsPacket.MDNSPacket.SetHeader | alljoyn/alljoyn_core/router/ns/IpNsProtocol.cc:3676-3681 | the header is replaced and the lists are untouched |
| MdnsPacket.MDNSPacket.AddQuestion | alljoyn/alljoyn_core/router/ns/IpNsProtocol.cc:3689-3696 | the question is appended, QDCOUNT becomes the new count cut to 16 bits, nothing else changes, and counts that agreed still agree |
| MdnsPacket.MDNSPacket.AddAnswer | alljoyn/alljoyn_core/router/ns/IpNsProtocol.cc:3908-3915 | the record is appended, ANCOUNT becomes the new count cut to 16 bits, nothing else changes, and counts that agreed still agree |
| MdnsPacket.MDNSPacket.AddAdditionalRecord | alljoyn/alljoyn_core/router/ns/IpNsProtocol.cc:3730-3738 | the record is appended, ARCOUNT becomes the new count cut to 16 bits, nothing else changes, and counts that agreed still agree |
| MdnsPacket.MDNSPacket.GetNumQuestions | alljoyn/alljoyn_core/router/ns/IpNsProtocol.cc:3724-3728 | equals QDCOUNT while the counts agree with the lists |
| MdnsPacket.MDNSPacket.GetNumAnswers | alljoyn/alljoyn_core/router/ns/IpNsProtocol.cc:3929-3933 | equals ANCOUNT while the counts agree with the lists |
| MdnsPacket.MDNSPacket.GetNumAdditionalRecords | alljoyn/alljoyn_core/router/ns/IpNsProtocol.cc:3752-3756 | equals ARCOUNT while the counts agree with the lists |
| MdnsPacket.MDNSPacket.GetQuestionAt | alljoyn/alljoyn_core/router/ns/IpNsProtocol.cc:3698-3708 | succeeds exactly for an index in range, and then gives that question |
| MdnsPacket.MDNSPacket.GetAnswerAt | alljoyn/alljoyn_core/router/ns/IpNsProtocol.cc:3917-3927 | succeeds exactly for an index in range, and then gives that answer |
| MdnsPacket.MDNSPacket.GetAdditionalRecordAt | alljoyn/alljoyn_core/router/ns/IpNsProtocol.cc:3740-3750 | succeeds exactly for an index in range, and then gives that record |
| MdnsPacket.MDNSPacket.GetQuestion | alljoyn/alljoyn_core/router/ns/IpNsProtocol.cc:3709-3723 | the first question whose name equals `str`, or none |
| MdnsPacket.MDNSPacket.GetAnswer | alljoyn/alljoyn_core/router/ns/IpNsProtocol.cc:3871-3885 | the first answer with that name and type, or none |
| MdnsPacket.MDNSPacket.GetVersionedAnswer | alljoyn/alljoyn_core/router/ns/IpNsProtocol.cc:3887-3906 | none for a type other than TXT; otherwise the first answer with that name, type and `txtvers` |
| MdnsPacket.MDNSPacket.GetAdditionalRecord | alljoyn/alljoyn_core/router/ns/IpNsProtocol.cc:3774-3792 | the first additional record whose name matches `str`, wildcard included, of that type |
| MdnsPacket.MDNSPacket.GetVersionedAdditionalRecord | alljoyn/alljoyn_core/router/ns/IpNsProtocol.cc:3794-3817 | none for a type other than TXT; otherwise the first matching additional record of that `txtvers` |
| MdnsPacket.MDNSPacket.GetNumMatches | alljoyn/alljoyn_core/router/ns/IpNsProtocol.cc:3819-3841 | 0 for a type other than TXT; otherwise the number of additional records the versioned lookup accepts |
| MdnsPacket.MDNSPacket.GetMatchAt | alljoyn/alljoyn_core/router/ns/IpNsProtocol.cc:3843-3869 | none for a type other than TXT; otherwise the `index`-th accepted additional record |
| MdnsPacket.MDNSPacket.RemoveQuestion | alljoyn/alljoyn_core/router/ns/IpNsProtocol.cc:4159-4172 | the first question about `str` is erased and QDCOUNT set to the new count; with none, nothing changes |
| MdnsPacket.MDNSPacket.RemoveAnswer | alljoyn/alljoyn_core/router/ns/IpNsProtocol.cc:4143-4157 | the first answer with that name and type is erased and ANCOUNT set to the new count; with none, nothing changes |
| MdnsPacket.MDNSPacket.RemoveAdditionalRecord | alljoyn/alljoyn_core/router/ns/IpNsProtocol.cc:3758-3772 | the first additional record with exactly that name and type is erased and ARCOUNT set to the new count; with none, nothing changes |
| InterfaceDesc.Insert | alljoyn/alljoyn_core/src/InterfaceDescription.cc:670-684 | `std::map::insert`: the key is in the result; an existing key keeps its entry and the map is unchanged; a new key gets the value and every other entry stays |
| InterfaceDesc.InsertIdempotent | alljoyn/alljoyn_core/src/InterfaceDescription.cc:753-761 | adding an annotation that was accepted a second time changes nothing and is accepted again, and the stored value is the one given |
| InterfaceDesc.InsertConflict | alljoyn/alljoyn_core/src/InterfaceDescription.cc:753-761 | an annotation already there with another value is refused with `ER_BUS_ANNOTATION_ALREADY_EXISTS` and the stored value is kept |
| InterfaceDesc.ArgInsertAlwaysOk | alljoyn/alljoyn_core/src/InterfaceDescription.cc:976-979 | as written, the status test of `AddArgAnnotation` accepts every argument annotation, whatever value is already stored |
| InterfaceDesc.ArgAnnotationConflictAccepted | alljoyn/alljoyn_core/src/InterfaceDescription.cc:976-979 | as written, a stored value `"a"` and a new value `"b"` give `ER_OK` while `"a"` stays stored; the other adders give `ER_BUS_ANNOTATION_ALREADY_EXISTS` |
| InterfaceDesc.NewMember | alljoyn/alljoyn_core/src/InterfaceDescription.cc:151-198 | the member has the given type and name, null signatures become empty, the deprecated and no-reply bits become exactly the annotations with value `"true"`, the four signal bits become the signal flags, and no description or argument annotations |
| InterfaceDesc.PlainProperty | alljoyn/alljoyn_core/src/InterfaceDescription.cc:287-295 | the property has the given name, signature and access, no annotations, no description and is not cacheable |
| InterfaceDesc.NewProperty | alljoyn/alljoyn_core/src/InterfaceDescription.cc:298-318 | the property is cacheable exactly when an emits-changed bit is set, which is exactly when it gets the emits-changed annotation; `invalidates` wins over `const`, which wins over `true` |
| InterfaceDesc.ListEntries | alljoyn/alljoyn_core/src/InterfaceDescription.cc:40-59 | without output arrays the count is the size of the map and nothing is written; with arrays of `size` entries the first `min(count, size)` entries are written in map order, key with its value |
| InterfaceDesc.GetAnnotationsWithValues | alljoyn/alljoyn_core/src/InterfaceDescription.cc:40-59 | without arrays the number of annotations; with arrays the first `min` names in map order and their values |
| InterfaceDesc.InterfaceDescription.constructor | alljoyn/alljoyn_core/src/InterfaceDescription.cc:430-446 | empty tables, not activated, no description; the secure annotation is added, `true` for a required policy and `off` for an off policy, except with an inherited policy or on the three standard D-Bus interfaces |
| InterfaceDesc.InterfaceDescription.Activate | alljoyn/alljoyn_core/src/InterfaceDescription.cc:658-660 | the interface is activated, so the `isActivated` guard of every adder and setter refuses from now on, and the tables are unchanged |
| InterfaceDesc.InterfaceDescription.AddMember | alljoyn/alljoyn_core/src/InterfaceDescription.cc:651-668 | activated: `ER_BUS_INTERFACE_ACTIVATED` and no change; otherwise `ER_OK` exactly when the name is new, the member table is the insert of the new member, and an added member is then found by `HasMember` with its signatures |
| InterfaceDesc.InterfaceDescription.AddMemberAnnotation | alljoyn/alljoyn_core/src/InterfaceDescription.cc:670-684 | activated: refused; an unknown member: `ER_BUS_INTERFACE_NO_SUCH_MEMBER`; otherwise the annotation is inserted into that member's map with the status of the insert |
| InterfaceDesc.InterfaceDescription.GetMemberAnnotation | alljoyn/alljoyn_core/src/InterfaceDescription.cc:686-696 | found exactly when the member and the annotation exist, and then gives the stored value |
| InterfaceDesc.InterfaceDescription.AddProperty | alljoyn/alljoyn_core/src/InterfaceDescription.cc:699-710 | activated: refused; otherwise `ER_OK` exactly when the name is new, and the property table is the insert of a plain property |
| InterfaceDesc.InterfaceDescription.AddPropertyAnnotation | alljoyn/alljoyn_core/src/InterfaceDescription.cc:712-739 | activated: refused; an unknown property: `ER_BUS_NO_SUCH_PROPERTY`; otherwise the insert with its status, and an accepted emits-changed annotation other than `false` or one of the six type annotations makes the property cacheable |
| InterfaceDesc.InterfaceDescription.GetPropertyAnnotation | alljoyn/alljoyn_core/src/InterfaceDescription.cc:741-751 | found exactly when the property and the annotation exist, and then gives the stored value |
| InterfaceDesc.InterfaceDescription.AddAnnotation | alljoyn/alljoyn_core/src/InterfaceDescription.cc:753-761 | activated: refused; otherwise the insert into the interface's annotations with its status, and after `ER_OK` the annotation reads back with that value |
| InterfaceDesc.InterfaceDescription.GetAnnotation | alljoyn/alljoyn_core/src/InterfaceDescription.cc:763-767 | found exactly when the annotation exists, and then gives the stored value |
| InterfaceDesc.InterfaceDescription.AddArgAnnotation | alljoyn/alljoyn_core/src/InterfaceDescription.cc:965-980 | corrected: activated or unknown member as the other adders; otherwise the insert into the member's argument annotations, `ER_OK` exactly when the key is new or holds the same value |
| InterfaceDesc.InterfaceDescription.HasMember | alljoyn/alljoyn_core/src/InterfaceDescription.cc:838-855 | false for an unknown name, true with no signatures given; a given input signature must equal the member's, and a given output signature is compared only for a method call |
| InterfaceDesc.InterfaceDescription.SetMemberDescription | alljoyn/alljoyn_core/src/InterfaceDescription.cc:873-890 | activated or unknown member: refused and nothing changes; otherwise the member's description is set and the interface has a description |
| InterfaceDesc.InterfaceDescription.SetMemberDescriptionSessionless | alljoyn/alljoyn_core/src/InterfaceDescription.cc:892-921 | asking for sessionless on a member already marked sessioncast, unicast or global broadcast is refused with `ER_INVALID_SIGNAL_EMISSION_TYPE` and nothing changes; otherwise the description is set and the sessionless flag is added when asked |
| InterfaceDesc.InterfaceDescription.HasCacheableProperties | alljoyn/alljoyn_core/src/InterfaceDescription.cc:789-798 | true exactly when some property is cacheable |
| InterfaceDesc.InterfaceDescription.GetMembers | alljoyn/alljoyn_core/src/InterfaceDescription.cc:819-830 | without an array the number of members; with one the first `min` members in map order |
| InterfaceDesc.InterfaceDescription.GetProperties | alljoyn/alljoyn_core/src/InterfaceDescription.cc:800-811 | without an array the number of properties; with one the first `min` properties in map order |
| InterfaceDesc.InterfaceDescription.GetAnnotations | alljoyn/alljoyn_core/src/InterfaceDescription.cc:769-772 | without arrays the number of the interface's annotations; with arrays the first `min` names in map order and their values |

## Left out

- Sockets, `bind`, `ioctl`, `read`, `write`, `printf`, `sleep` and `exit` in the CAN programs, and the `printf` logging on entry to and exit from the functions of IpNsProtocol.cc. The socket is an input sequence of frames consumed by index and an output sequence of frames written. A write the socket refuses is modelled by a count of accepted writes.
- An end-to-end handshake between ConnectionClient.c and ConnectionServer.c is not modelled. The two files disagree on the identifier test and on the announcement payload. Each side is modelled on its own, and `ConnectionClient` proves that its announcement is not one the server looks at.
- `client.c`, `server.c` and the AllJoyn files outside the four named above are not part of this model. They hold socket demos, threads, sample programs and test harnesses.
- CanRx.Session.WaitAndReceiveSession: a failed `read` is only reported with `perror`, and the source goes on to examine the frame left from the previous read. Not modelled: the model stops at the end of its input.
- CanRx.Session.GetSeries: the same; a failed `read` of a data frame re-examines the previous frame. Not modelled.
- ConnectionServer.Server.Serve: the same; a failed `read` re-examines the previous frame. Not modelled.
- ConnectionClient.Run: the same; a failed `read` re-examines the previous frame. Not modelled.
- CanRx: a start frame announcing more than 10 data frames would overflow the 10-slot `buffer` of `struct Session` in the source. The model requires every announced count to fit.
- CanRx: the final layout into the 21-byte `buf` requires the frames to fit it. The source writes past `buf` otherwise.
- PeerState: `prevSerial` and `flagWindow` are an unbounded integer kept below 2^32 and a sequence of 64 booleans, not `uint32_t` and `uint64_t` bit-vectors. The shifts and bit tests of the window are stated on the booleans.
- PeerState: the conversation hash (SHA-256), the mutexes, `NotifyAuthEvent`, manifests and guild metadata are not modelled.
- PeerState: `KeyBlob` is reduced to whether it is valid and whether it has expired.
- PeerState.PeerStateTable.Clear: the group key is a fresh random AES key in the source; the model gives it a fixed valid, unexpired key.
- PeerState.EstimateTimestamp: the local clock (`qcc::GetTimestamp`) is a parameter.
- The name service's `qcc::IPAddress` conversions (`StringToIPv4`, `StringToIPv6`, `U32ToString`) are not modelled. Addresses are opaque 4- or 16-byte values. `MDNSAAAARData::Serialize` ignores the status of the conversion, so the model writes the stored bytes.
- MdnsRData: the iteration order of the TXT record's `std::map` is a parameter of the methods that walk it.
- MdnsPacket: the whole-packet `GetSerializedSize`, `Serialize` and `Deserialize` of `_MDNSPacket`, and `GetTransportMask`, are not modelled. Only the record lists and their helpers are.
- MdnsPacket: a resource record is reduced to its domain name, its type and the `txtvers` value of its TXT data. Lookups that return a pointer into a vector return the index of the record.
- MdnsPacket.MDNSPacket.Clear: the source empties the lists but keeps the header, so the header counts go stale. The model keeps that behaviour and does not promise that counts agree afterwards.
- MdnsPacket: the `QCC_ASSERT` on `MIN_RESERVE` only fires in debug builds and is not modelled.
- InterfaceDescription: `Introspect`, `NextArg` and the XML description output, `Translate` and the description translators are not modelled. They depend on `SignatureUtils`, `Translator` and `XmlElement`, which are not part of this model.
- InterfaceDescription: `SetArgDescription`, `SetPropertyDescription`, `SetDescription`, `GetArgAnnotation` and the getters for single members and properties are not modelled.
- InterfaceDescription: the copy constructors, the assignment operators and `operator==` are not modelled. That includes `Property::operator=`, which does not copy `cacheable`.
- InterfaceDescription: `Member::GetArgAnnotations` and `Member::GetAnnotations` are not modelled. The interface-level listing they share is.
- InterfaceDescription: the `MEMBER_ANNOTATE_*` and `PROP_ANNOTATE_*` bits are sets of flags, not their numeric values. InterfaceDescription.h and AllJoynStd.h, where the numeric values and standard names are defined, are not part of this model.
- InterfaceDescription: output arrays of `GetMembers`, `GetProperties` and `GetAnnotations` are returned as sequences of the entries written. The order in which a `std::map` walks its keys is a parameter.

## Findings

| source | as written | input that shows it | evidently intended | confidence | as-written member | corrected member |
|---|---|---|---|---|---|---|
| alljoyn/alljoyn_core/src/InterfaceDescription.cc:976-979 | when the insert finds the key already there, the status compares the found key with the key looked up, which always match, so any value is accepted with `ER_OK` and the old value stays | member `m` whose argument `"x"` already has annotation `"n"` = `"a"`; `AddArgAnnotation("m", "x", "n", "b")` | `ER_BUS_ANNOTATION_ALREADY_EXISTS` for a different value, as `AddMemberAnnotation`, `AddPropertyAnnotation` and `AddAnnotation` give | not executed | InterfaceDesc.ArgAnnotationConflictAccepted | InterfaceDesc.InterfaceDescription.AddArgAnnotation |
| alljoyn/alljoyn_core/router/ns/IpNsProtocol.cc:2441-2443 | `GetSerializedSize` leaves out the `=` of a field with an empty value, `txtvers` included, while `Serialize` always writes `txtvers=` (line 2464); a caller that sizes its buffer from the size overruns it by one byte | `MDNSTextRData` whose `txtvers` value is empty: size 10, 11 bytes written | count the `=` after `txtvers` whatever its value | not executed | MdnsRData.TextSizeShortByOne | MdnsRData.TextSizeIntendedCoherent |
