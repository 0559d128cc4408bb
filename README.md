# UDP streaming receivers in Dafny

This project models the receive side of the java-udp-streaming project. It has two independent receivers, and the model proves properties of both.

- **The file receiver** is `server.ServerHandler`. Each datagram carries one chunk of a file:
  - an 18-byte big-endian header (fileId, totalChunks, chunkIndex, nameLen);
  - the file name;
  - the chunk payload.

  The receiver keeps one `FileAssembly` per fileId. It stores chunks in a slot array with a `BitSet` of received indices, and sends a 13-byte ACK for every chunk. When a file is complete, it writes the file under a sanitised name and drops the entry.
- **The frame receiver** is `client.ClientHandler`. Each datagram carries one part of a video frame:
  - an 8-byte header (frameId, then two unsigned 16-bit fields, totalParts and partNumber);
  - the part's payload.

  The receiver keeps one `FrameBuffer` per frameId: a slot array and a `receivedParts` counter. When the counter reaches the packet's totalParts, `assembleFrame` concatenates the parts and the buffer is removed.
- **`protocol.Protocol`** holds the frame receiver's size constants.

## Files

- `byte_order.dfy`:
  - Java's fixed-width integers as subset types;
  - big-endian two's-complement reading and writing.
- `datagrams.dfy` (module `Datagrams`): the truncation of a datagram to the receive buffer.
- `chunks.dfy`: slot arrays with `None` for Java's `null`, the concatenation of parts in index order, the count of filled slots, and the slot array after a given set of indices has arrived.
- `maps.dfy`: map equalities used by the table proofs.
- `protocol.dfy`: `PACKET_SIZE`, `HEADER_SIZE`, `PAYLOAD_SIZE`.
- `file_codec.dfy`: the chunk-packet parse, its inverse, and the ACK layout.
- `file_names.dfy`: `sanitizeFilename`.
- `file_assembly.dfy`:
  - the value `Assembly`, with `Insert` and `Complete` defined on it;
  - the class `FileAssembly`, whose arrays are updated in place and whose methods are proved against those functions.
- `file_receiver.dfy`:
  - the receive-loop step `ServerStep` as a function on a map of `Assembly` values, and `Run`, the loop over a sequence of datagrams;
  - the class `ServerHandler`, whose `HandlePacket` is proved to perform that step on `FileAssembly` objects, and whose `Serve` is proved to perform `Run`.
- `frame_codec.dfy`: the frame header decode and its inverse.
- `frame_buffer.dfy`:
  - the value `FrameState` with `StorePart`;
  - the class `FrameBuffer`;
  - `ArrayCopy` (System.arraycopy);
  - the two-loop `AssembleFrame`.
- `frame_receiver.dfy`:
  - the receive-loop step `ClientStep` on a map of `FrameState` values, and `Run`, the loop over a sequence of datagrams;
  - the class `ClientHandler`, whose `Receive` is proved to perform that step on `FrameBuffer` objects, and whose `ReceiveAll` is proved to perform `Run`.
- `file_transfers.dfy`: one file's chunks through the file receiver's loop, from the first datagram to the write.
- `frame_transfers.dfy`: one frame's parts through the frame receiver's loop, from the first datagram to the display.

### How each loop is modelled

Each receive loop is modelled in two layers:

- a pure step function, from the table and one datagram to the new table and the outcome;
- a class method that changes the objects in place. Its postcondition says the new state and outcome are exactly what the step function gives for the old state.

The properties of the loops are lemmas about the step functions.

An exception that escapes the loop ends the receiver, and the model makes it an explicit outcome:

- `Stopped` on the file receiver;
- `Crashed` on the frame receiver.

Points of the code's behaviour that the model keeps:

- **A malformed datagram ends the file receiver.** `EOFException` and `NegativeArraySizeException` from the parse in ServerHandler.java:52-57 are not caught in `start()`, and neither is `NegativeArraySizeException` from `new byte[totalChunks][]` for a first packet with a negative totalChunks. The model returns `Stopped`.
- **totalChunks = 0 is accepted.** The new entry is complete at once, and an empty file is written.
- **Completion can happen more than once.** A copy of a chunk that arrives after its file or frame was completed creates a new entry:
  - for a one-chunk file or frame, it is written or displayed again (`FrameReceiver.LateCopyReopensFrame`);
  - otherwise, a one-part entry is left that nothing removes.
- **Frame completion uses the packet's count.** The frame receiver compares `receivedParts` with the *packet's* totalParts, not the buffer's. A packet whose totalParts disagrees with the frame's first packet can make `assembleFrame` read a `null` part (`FrameReceiver.MissingPartExample`). When the counts agree this cannot happen (`FrameReceiver.ConsistentFrameCompletes`, `FrameTransfers.Transfer`).

### Whole transfers

`FileReceiver.Run` and `FrameReceiver.Run` feed a sequence of datagrams through the loop, one step per datagram, until an exception ends it. `FileTransfers.Transfer` follows one file from an empty entry, with its chunks arriving in any order and with repeats. Every step before the last missing chunk is ACKed and writes nothing. The step that brings the last missing chunk writes the sanitised name with the chunks in index order, and evicts the entry. `FrameTransfers.Transfer` proves the same for a frame whose packets agree on totalParts: every step before the last missing part leaves the frame pending, and the last one displays the parts in index order and removes the buffer.

## Model

Paths are relative to the repository root.

| member | source | states |
|---|---|---|
| Datagrams.ReceiveInto | src/main/java/server/ServerHandler.java:43-51 | The bytes the loop sees are a prefix of the datagram. They are the whole datagram when it fits the buffer, and exactly the buffer's size when it does not. |
| FilePacketCodec.Decode | src/main/java/server/ServerHandler.java:51-60 | Fewer than 18 bytes is `Truncated`. A negative nameLen is `NegativeNameLength`, and only then. A nameLen beyond the remaining bytes is `Truncated`, and only then. On success the name has nameLen bytes, and name followed by payload is everything after the header. |
| FilePacketCodec.DecodeEncode | src/main/java/server/ServerHandler.java:51-60 | Every packet whose name length fits a signed short decodes back to the same fields. |
| FilePacketCodec.EncodeDecode | src/main/java/server/ServerHandler.java:51-60 | Every datagram that parses is reproduced byte for byte by re-encoding its fields, so the parse loses nothing. |
| FilePacketCodec.EncodeAck | src/main/java/server/ServerHandler.java:84-90 | The ACK is exactly 13 bytes. |
| FilePacketCodec.AckRoundTrip | src/main/java/server/ServerHandler.java:84-90 | The ACK reads back as the acknowledged fileId, the chunkIndex and status 0. |
| FilePacketCodec.AckUnique | src/main/java/server/ServerHandler.java:84-90 | The only bytes that read as an OK ACK for (fileId, chunkIndex) are that ACK's bytes. |
| FileNames.RemoveDotDot | src/main/java/server/ServerHandler.java:155 | The left-to-right `replace("..", "")` leaves no "..". It removes bytes only in pairs, never grows the name, and keeps a leading non-dot byte. |
| FileNames.RemoveDotDotKeepsOtherBytes | src/main/java/server/ServerHandler.java:155 | The ".." removal deletes only dots: the non-dot bytes survive in order. |
| FileNames.RemoveDotDotFixedPoints | src/main/java/server/ServerHandler.java:155 | The removal leaves a name unchanged if and only if the name has no "..". |
| FileNames.SanitizeFilename | src/main/java/server/ServerHandler.java:153-157 | The sanitised name contains no "..", no '/' and no '\\', and is never longer than the received name. |
| FileNames.SanitizeLeavesSafeNames | src/main/java/server/ServerHandler.java:153-157 | A name with no "..", '/' or '\\' is kept as it is. |
| FileNames.SanitizeIdempotent | src/main/java/server/ServerHandler.java:153-157 | Sanitising twice gives the same name as sanitising once. |
| FileReassembly.CardinalityFull | src/main/java/server/ServerHandler.java:138-140 | `BitSet.cardinality` never exceeds the number of bits, and equals it exactly when every bit is set. |
| FileReassembly.NewAssembly | src/main/java/server/ServerHandler.java:116-122 | A new entry has the sanitised name, which contains no "..", '/' or '\\', totalChunks empty slots and no bit set. It is consistent: bit i is set exactly when slot i holds a chunk. |
| FileReassembly.Insert | src/main/java/server/ServerHandler.java:126-136 | Insertion succeeds exactly when the index is in [0, totalChunks) and the slot is empty. On success only that slot and its bit change, and the count rises by one. Otherwise nothing changes, so an out-of-range index or a duplicate never overwrites. |
| FileReassembly.CompleteIffAllPresent | src/main/java/server/ServerHandler.java:138-140 | `isComplete` (cardinality == totalChunks) holds exactly when every slot holds a chunk. |
| FileReassembly.InsertIdempotent | src/main/java/server/ServerHandler.java:126-136 | A second insert at the same index is refused and leaves the first insert's result. |
| FileReassembly.FileAssembly.constructor | src/main/java/server/ServerHandler.java:116-122 | The object's state is `NewAssembly` of the arguments, in fresh arrays. |
| FileReassembly.FileAssembly.InsertChunk | src/main/java/server/ServerHandler.java:126-136 | The in-place update of `parts` and `received` yields exactly `Insert` of the old state, and returns whether it inserted. |
| FileReassembly.FileAssembly.IsComplete | src/main/java/server/ServerHandler.java:138-140 | The result is `Complete` of the state, which holds exactly when no slot is empty. |
| FileReassembly.FileAssembly.Assemble | src/main/java/server/ServerHandler.java:142-151 | When every slot holds a chunk, the result is the chunks in index order 0..totalChunks-1, and its length is the sum of their lengths. |
| FileReceiver.EntryOf | src/main/java/server/ServerHandler.java:67 | computeIfAbsent returns the existing entry, or a new one sized by this packet. Either way the entry is consistent, keyed by the packet's fileId, and its name contains no "..", '/' or '\\'. |
| FileReceiver.Accept | src/main/java/server/ServerHandler.java:67-77 | Insert, ACK, and on completion write and evict. The table invariant is kept: entries are keyed by their own fileId, consistent, under safe names, and none is complete. |
| FileReceiver.ServerStep | src/main/java/server/ServerHandler.java:46-79 | One loop iteration on a table that keeps the invariant yields a table that keeps it. |
| FileReceiver.StepAcksEveryPacket | src/main/java/server/ServerHandler.java:67-71 | Every parsed packet is ACKed with (fileId, chunkIndex), whether it was inserted, a duplicate or out of range. The loop stops exactly on a parse error or a negative count in a file's first packet, and then the table is unchanged. |
| FileReceiver.FirstPacketFixesEntry | src/main/java/server/ServerHandler.java:67 | The first packet of a file fixes its sanitised name and its chunk count, and later packets never change them. |
| FileReceiver.OtherFilesUntouched | src/main/java/server/ServerHandler.java:67-76 | Entries of other files keep their keys and their states. |
| FileReceiver.CompletionWritesAndEvicts | src/main/java/server/ServerHandler.java:73-76 | A file is written exactly when its entry leaves the table. What is written is the entry's sanitised name, which contains no "..", '/' or '\\', and its chunks in index order, all present. |
| FileReceiver.RedeliveryIdempotent | src/main/java/server/ServerHandler.java:67-73 | A datagram delivered again after a step that did not complete its file changes nothing and yields the same ACK. |
| FileReceiver.ServerHandler.constructor | src/main/java/server/ServerHandler.java:25 | The receiver starts with an empty table. |
| FileReceiver.ServerHandler.Add | src/main/java/server/ServerHandler.java:67 | Adding a new entry maps its fileId to the new entry's state and leaves the other entries as they were. |
| FileReceiver.ServerHandler.EntryFor | src/main/java/server/ServerHandler.java:67 | computeIfAbsent leaves the table as it was when the file has an entry. Otherwise it adds `NewAssembly` from this packet. It returns the entry now in the table. |
| FileReceiver.ServerHandler.InsertInto | src/main/java/server/ServerHandler.java:68 | insertChunk changes only this file's entry, and changes it to `Insert` of its old state. |
| FileReceiver.ServerHandler.Store | src/main/java/server/ServerHandler.java:67-68 | computeIfAbsent then insertChunk: the file's entry becomes `Insert` of `EntryOf`, and the other entries are unchanged. |
| FileReceiver.ServerHandler.Evict | src/main/java/server/ServerHandler.java:76 | `assemblies.remove` removes exactly that key. |
| FileReceiver.ServerHandler.Finish | src/main/java/server/ServerHandler.java:73-76 | A complete entry is assembled into (name, chunks in index order) and then removed from the table. |
| FileReceiver.ServerHandler.AcceptPacket | src/main/java/server/ServerHandler.java:67-77 | The in-place step on an accepted packet yields exactly `Accept` of the old table. |
| FileReceiver.ServerHandler.HandlePacket | src/main/java/server/ServerHandler.java:46-79 | The in-place loop body yields exactly `ServerStep` of the old table: same new table, same ACK, same written file or stop. It keeps the object invariant. |
| FileReceiver.Next | src/main/java/server/ServerHandler.java:46-79 | One more datagram changes nothing once the loop has stopped, and otherwise is one `ServerStep`. The table invariant is kept. |
| FileReceiver.Run | src/main/java/server/ServerHandler.java:46-79 | The loop over a datagram sequence gives at most one outcome per datagram. Every outcome but the last is an ACK. Fewer outcomes than datagrams means the loop stopped. |
| FileReceiver.RunStep | src/main/java/server/ServerHandler.java:46-79 | Running one datagram further is one more `Next`. |
| FileReceiver.RunPrefix | src/main/java/server/ServerHandler.java:46-79 | A prefix of the datagrams gives a prefix of the outcomes. Once the loop has stopped, later datagrams change nothing. |
| FileReceiver.ServerHandler.Serve | src/main/java/server/ServerHandler.java:46-79 | The in-place loop over the datagrams yields exactly `Run` of the old table: the same outcomes and the same final table. |
| FileTransfers.ChunkDatagram | src/main/java/server/ServerHandler.java:51-60 | The datagram built for chunk k of a file parses as that chunk, with its fileId, count, name and bytes. |
| FileTransfers.Partial | src/main/java/server/ServerHandler.java:116-140 | The entry after a set of chunks has arrived is consistent, keyed by the file, under the sanitised name. It is complete exactly when every index 0..n-1 has arrived. |
| FileTransfers.NewIsPartial | src/main/java/server/ServerHandler.java:116-122 | A new entry equals the entry with no chunk arrived. |
| FileTransfers.InsertPartial | src/main/java/server/ServerHandler.java:126-136 | Inserting chunk k adds k to the arrived chunks, whether it is new or a repeat. |
| FileTransfers.ChunkStep | src/main/java/server/ServerHandler.java:67-76 | A datagram of the file is ACKed. If every index has now arrived, the file's chunks are written in index order under the sanitised name and the entry is evicted. Otherwise the entry holds exactly the arrived chunks and nothing is written. |
| FileTransfers.ChunkNext | src/main/java/server/ServerHandler.java:46-79 | `ChunkStep` as one more step of a loop that has not stopped. |
| FileTransfers.PrefixNext | src/main/java/server/ServerHandler.java:46-79 | A datagram that does not complete the file keeps every outcome an ACK without a write, and the entry holding exactly the arrived chunks. |
| FileTransfers.TransferPrefix | src/main/java/server/ServerHandler.java:46-79 | Before the first step at which every index has arrived, every datagram is ACKed, nothing is written, and the table is the starting table plus the file's entry with exactly the chunks seen. |
| FileTransfers.FinalNext | src/main/java/server/ServerHandler.java:73-76 | The datagram that brings the last missing index writes the whole file and leaves the starting table. |
| FileTransfers.Transfer | src/main/java/server/ServerHandler.java:46-79 | A file's chunks arriving in any order, with repeats, starting with no entry for it: every step before the first covering step is ACKed without a write. That step writes the chunks in index order under the sanitised name, and the table is back to the starting table. The outcomes up to it are a prefix of the whole run. |
| FileTransfers.WrittenOnce | src/main/java/server/ServerHandler.java:46-79 | Every arrival order that covers 0..n-1 has a step that writes the chunks in index order under the sanitised name. No earlier step writes anything. |
| Chunks.Slots | src/main/java/server/ServerHandler.java:126-136 | The slot array after a set of indices has arrived holds part i exactly when i has arrived. |
| Chunks.FullSlots | src/main/java/server/ServerHandler.java:142-151 | With every index arrived, the slots hold exactly the parts, in index order. |
| Chunks.FirstCoveringStep | src/main/java/server/ServerHandler.java:73 | An arrival order that covers every index has a first step after which every index has arrived. |
| Protocol.PayloadRoom | src/main/java/protocol/Protocol.java:4-8 | PAYLOAD_SIZE is 1400 - 8 = 1392. It is positive, and header plus payload fill exactly one packet. |
| FrameCodec.GetUnsignedShort | src/main/java/client/ClientHandler.java:94-95 | `getShort() & 0xFFFF` equals the unsigned big-endian value of the two bytes, in [0, 65535]. |
| FrameCodec.DecodeFrame | src/main/java/client/ClientHandler.java:88-98 | There is no packet exactly when fewer than HEADER_SIZE bytes arrived. Otherwise the payload is every byte after the 8-byte header. |
| FrameCodec.EncodeFrame | src/main/java/client/ClientHandler.java:93-98 | The header is exactly HEADER_SIZE bytes (4 + 2 + 2), and the payload follows it. |
| FrameCodec.DecodeEncodeFrame | src/main/java/client/ClientHandler.java:93-98 | Every header, with both 16-bit fields anywhere in 0..65535, decodes back to itself. |
| FrameCodec.EncodeDecodeFrame | src/main/java/client/ClientHandler.java:93-98 | Re-encoding a decoded packet gives back the received bytes. |
| FrameCodec.ReceiveFrame | src/main/java/client/ClientHandler.java:57-98 | After the cut to PACKET_SIZE, a packet that holds a header carries at most PAYLOAD_SIZE payload bytes, namely the datagram's bytes after the header. |
| Chunks.ConcatOffsets | src/main/java/client/ClientHandler.java:186-191 | Part k occupies the image from the sum of the lengths of parts 0..k-1 to that sum plus its own length. |
| Chunks.ConcatInOrder | src/main/java/client/ClientHandler.java:188-191 | The image is parts before k, then part k, then parts after k. |
| Chunks.TotalLengthBound | src/main/java/client/ClientHandler.java:180-183 | n parts of at most m bytes sum to at most n * m bytes. |
| Chunks.CountPresentFull | src/main/java/client/ClientHandler.java:115-118 | The number of non-null slots never exceeds the number of slots, and equals it exactly when none is null. |
| FrameReassembly.NewFrame | src/main/java/client/ClientHandler.java:23-27 | A new buffer has totalParts empty slots and a count of zero, and the count equals the number of filled slots. |
| FrameReassembly.StorePart | src/main/java/client/ClientHandler.java:115-118 | An index outside the array fails, as the array index error does. An empty slot takes the payload and the count rises by one. A filled slot changes neither slot nor count. In every case the count still equals the number of filled slots. |
| FrameReassembly.FrameBuffer.constructor | src/main/java/client/ClientHandler.java:23-27 | The object's state is `NewFrame(totalParts)` in a fresh array. |
| FrameReassembly.FrameBuffer.Store | src/main/java/client/ClientHandler.java:115-118 | The in-place write and increment yield exactly `StorePart` of the old state. It returns false, and changes nothing, where Java throws. |
| FrameReassembly.ArrayCopy | src/main/java/client/ClientHandler.java:189 | System.arraycopy writes the part at the offset and leaves the rest of the array as it was. |
| FrameReassembly.AssembleFrame | src/main/java/client/ClientHandler.java:179-193 | A null part gives the NullPointerException outcome, and only a null part does. Otherwise the image is the parts concatenated in index order, and its length is the sum of their lengths. The copy loop keeps `offset` equal to the sum of the lengths of the parts already copied. |
| FrameReceiver.CountBounded | src/main/java/client/ClientHandler.java:115-120 | receivedParts never exceeds the buffer's totalParts, and equals it exactly when every slot is filled. |
| FrameReceiver.FrameSizeFitsInt | src/main/java/client/ClientHandler.java:180-185 | A buffer's parts total at most 65535 * 1392 bytes. That is below Integer.MAX_VALUE, so the `totalSize` sum does not overflow. |
| FrameReceiver.BufferOf | src/main/java/client/ClientHandler.java:106-108 | putIfAbsent/get gives the frame's buffer, or a new one sized by this packet. Either way it satisfies the buffer invariant. |
| FrameReceiver.Deliver | src/main/java/client/ClientHandler.java:106-174 | Processing a decoded packet keeps the invariant on every buffer: counted slots, a 16-bit size, payloads of at most PAYLOAD_SIZE bytes. |
| FrameReceiver.ClientStep | src/main/java/client/ClientHandler.java:56-176 | One loop iteration keeps the table invariant. |
| FrameReceiver.ShortPacketSkipped | src/main/java/client/ClientHandler.java:61-91 | A datagram is skipped exactly when it cannot hold the header, and a skipped datagram leaves the table untouched. |
| FrameReceiver.FirstPacketWins | src/main/java/client/ClientHandler.java:106-118 | A new buffer is sized by the first packet. A later packet never resizes the buffer or overwrites a stored part. |
| FrameReceiver.DuplicateIgnored | src/main/java/client/ClientHandler.java:115-118 | A part whose slot is filled leaves the table unchanged, unless the frame is then assembled and removed. It never raises the index error. |
| FrameReceiver.OtherFramesUntouched | src/main/java/client/ClientHandler.java:106-164 | Other frames' buffers keep their keys and their states. |
| FrameReceiver.UnguardedPartNumber | src/main/java/client/ClientHandler.java:106-115 | The loop dies on the array index error exactly when partNumber is not below the size of the frame's buffer. A new buffer is already in the table when that happens. |
| FrameReceiver.ConsistentFrameCompletes | src/main/java/client/ClientHandler.java:120-164 | Assume the packet's totalParts agrees with the buffer and its part number is in range. Then assembly never meets a null part, the frame is displayed and removed exactly when all slots are filled, and the image is the parts in index order. |
| FrameReceiver.MissingPartExample | src/main/java/client/ClientHandler.java:120-144 | A packet whose totalParts is below the buffer's size can trigger assembly of a frame with an empty slot. |
| FrameReceiver.LateCopyReopensFrame | src/main/java/client/ClientHandler.java:106-164 | A copy of a part that arrives after its frame was displayed starts a new buffer. A one-part frame is displayed again from that copy. A larger frame leaves a buffer holding one part. |
| FrameReceiver.ClientHandler.constructor | src/main/java/client/ClientHandler.java:41 | The table starts empty. |
| FrameReceiver.ClientHandler.Add | src/main/java/client/ClientHandler.java:107 | Adding a new buffer maps its frameId to the buffer's state and leaves the others. |
| FrameReceiver.ClientHandler.PutIfAbsent | src/main/java/client/ClientHandler.java:106-108 | The frame's entry becomes `BufferOf` the old table, and the method returns that buffer. |
| FrameReceiver.ClientHandler.StoreInto | src/main/java/client/ClientHandler.java:115-118 | Only this frame's buffer changes, and it changes to `StorePart` of its old state. Nothing changes where Java throws. |
| FrameReceiver.ClientHandler.Remove | src/main/java/client/ClientHandler.java:164 | `frames.remove` removes exactly that key. |
| FrameReceiver.ClientHandler.Finish | src/main/java/client/ClientHandler.java:144-164 | A buffer with a null part gives the MissingPart outcome and nothing changes. Otherwise the image is the parts in index order and the buffer is removed. |
| FrameReceiver.ClientHandler.DeliverPacket | src/main/java/client/ClientHandler.java:106-174 | The in-place processing of a decoded packet yields exactly `Deliver` of the old table. |
| FrameReceiver.ClientHandler.Receive | src/main/java/client/ClientHandler.java:56-176 | The in-place loop body yields exactly `ClientStep` of the old table, and keeps the object invariant. |
| FrameReceiver.Next | src/main/java/client/ClientHandler.java:56-176 | One more datagram changes nothing once the loop has crashed, and otherwise is one `ClientStep`. The table invariant is kept. |
| FrameReceiver.Run | src/main/java/client/ClientHandler.java:56-176 | The loop over a datagram sequence gives at most one outcome per datagram. No outcome but the last is a crash. Fewer outcomes than datagrams means the loop crashed. |
| FrameReceiver.RunStep | src/main/java/client/ClientHandler.java:56-176 | Running one datagram further is one more `Next`. |
| FrameReceiver.RunPrefix | src/main/java/client/ClientHandler.java:56-176 | A prefix of the datagrams gives a prefix of the outcomes. Once the loop has crashed, later datagrams change nothing. |
| FrameReceiver.ClientHandler.ReceiveAll | src/main/java/client/ClientHandler.java:56-176 | The in-place loop over the datagrams yields exactly `Run` of the old table: the same outcomes and the same final table. |
| FrameTransfers.PartDatagram | src/main/java/client/ClientHandler.java:57-98 | The datagram built for part k of a frame fits the receive buffer and is received as that part, with its frameId, totalParts and bytes. |
| FrameTransfers.Buffer | src/main/java/client/ClientHandler.java:106-164 | The buffer after a set of parts has arrived keeps the buffer invariant. Its count reaches totalParts exactly when every index 0..n-1 has arrived. |
| FrameTransfers.NewIsBuffer | src/main/java/client/ClientHandler.java:106-108 | A new buffer equals the buffer with no part arrived. |
| FrameTransfers.StoreBuffer | src/main/java/client/ClientHandler.java:115-118 | Storing part k adds k to the arrived parts, whether it is new or a repeat. |
| FrameTransfers.PartStep | src/main/java/client/ClientHandler.java:106-164 | A datagram of the frame is stored. If every index has now arrived, the frame is displayed with the parts in index order and its buffer removed. Otherwise the frame is pending and its buffer holds exactly the arrived parts. |
| FrameTransfers.PartNext | src/main/java/client/ClientHandler.java:56-176 | `PartStep` as one more step of a loop that has not crashed. |
| FrameTransfers.PrefixNext | src/main/java/client/ClientHandler.java:56-176 | A datagram that does not complete the frame keeps every outcome pending, and the buffer holding exactly the arrived parts. |
| FrameTransfers.TransferPrefix | src/main/java/client/ClientHandler.java:56-176 | Before the first step at which every index has arrived, every datagram leaves the frame pending, and the table is the starting table plus the frame's buffer with exactly the parts seen. |
| FrameTransfers.FinalNext | src/main/java/client/ClientHandler.java:120-164 | The datagram that brings the last missing index displays the whole frame and leaves the starting table. |
| FrameTransfers.ArrivedSendable | src/main/java/client/ClientHandler.java:88-98 | When every part arrives in a datagram received whole, every part fits one packet's payload. |
| FrameTransfers.Transfer | src/main/java/client/ClientHandler.java:56-176 | A frame's parts arrive in any order, with repeats, and all its datagrams agree on totalParts n. The frame starts with no buffer. Every step before the first covering step leaves it pending. That step displays the parts in index order, and the table is back to the starting table. The loop never crashes. The outcomes up to that step are a prefix of the whole run. |
| FrameTransfers.DisplayedOnce | src/main/java/client/ClientHandler.java:56-176 | Every arrival order that covers 0..n-1, with all datagrams agreeing on totalParts, has a step that displays the parts in index order. No earlier step displays anything. |

## Left out

- **Sockets.** Binding, `receive`, the non-blocking poll with `Thread.yield`, and `send` are not modelled. A received datagram is a parameter, and the ACK is only its 13 bytes; the address it is sent to is not modelled.
- **Filesystem.** `Files.write`, `Files.createDirectories`, the session folder named from the clock, and `saveFrame` are not modelled. The model yields the name and bytes that would be written, or the frame image that would be displayed and saved. A failing write, for example for an empty sanitised name, is not modelled.
- **GUI and logging.** The Swing widget, `scaleImage`, the timing statistics (`nanoTime`, doubles) and all console output are not modelled.
- **Concurrency.** `ConcurrentHashMap`, the `synchronized` methods and the saver thread are not modelled. The model is single-threaded.
- **UTF-8 name decoding.** `new String(nameBytes, "UTF-8")` is not modelled. The name is kept as bytes. '.', '/', '\\' and '_' are single ASCII bytes in UTF-8, so the sanitiser's byte-level properties are the character-level ones. Replacement of malformed UTF-8 sequences with U+FFFD is not modelled.
- **Sender side.** The sender, its ACK retry loop and the transfer scheduler are not part of this model. `FilePacketCodec.Encode`, `FilePacketCodec.DecodeAck` and `FrameCodec.EncodeFrame` are reference inverses, written only to state the round trips.
- FrameReassembly.AssembleFrame: does not model Java `int` overflow of `totalSize`. Its precondition bounds the total length of a complete frame by Integer.MAX_VALUE. `FrameReceiver.FrameSizeFitsInt` proves that every buffer the receive loop builds meets that bound.
- **BitSet representation.** The `BitSet` is an array of booleans of length totalChunks. Its growth beyond that length is never used, because `insertChunk` checks the index first.
- **Allocation failure.** The JVM's `OutOfMemoryError` is not modelled. Examples: `new byte[totalChunks][]` with totalChunks near Integer.MAX_VALUE (src/main/java/server/ServerHandler.java:120), and a `ByteArrayOutputStream` growing past about 2^31 bytes in `assemble` (src/main/java/server/ServerHandler.java:143-147). The model treats both allocations as always succeeding.
