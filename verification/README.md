# The device-to-cloud data path of the Memfault firmware SDK, in Dafny

This project models how a device gets its data to the cloud, and the bounded stores that the data
comes from, and proves what a receiver and a maintainer rely on.

`dafny verify dfyconfig.toml` verifies everything. There is one module per file.

## What is modelled

**Encode and ship.** A stored message is run-length encoded while it is read (`RleSpec`, `Rle`,
`DataSourceRle`, with `Varint`), gets a type byte in front (`MessageReader`) and is cut into chunks of
caller-chosen size with a checksum at the end (`Chunking`, `ChunkTransport`, `Crc16`). The packetizer
picks messages by priority and deletes each one once it is sent (`PacketizerSpec`, `Packetizer`).
`Delivery` puts a receiver behind it and states the end-to-end result.

**Bounded stores over a ring buffer.** `CircularBuffer` is the ring. On it are the transactional event
storage (`EventQueue`, `EventStorage`), which the serializer fills (`Cbor`, `SerializerHelper`), and the
log buffer (`LogQueue`, `LogRuns`, `LogStorage`), whose contents a data source uploads
(`LogUpload`, `LogDataSource`). `EventDelivery` puts the event storage behind the packetizer and states
what events a receiver gets.

**Two state machines of their own.** The coredump writer (`CoredumpLayout`, `CoredumpPlan`,
`CoredumpRun`, `Coredump`) and the heap statistics (`HeapStats`, `HeapPool`).

The code changes state in place, and so do the classes here. For each of them there is a specification
on values (`...Spec`, `...Queue`, `...Plan`, `...Run`, and so on); each method's contract ties the new
state to a function of the old one, and the results about whole runs are lemmas about these functions.
Each critical section of the code is one step.

What a receiver, a reader or a tool makes of the bytes (`Chunking.Accept`, `Delivery.Unframe`,
`Cbor.DecodeItem`, `CoredumpLayout.Parse`, `LogRuns.IsRecord`, `CoredumpPlan.Expected`) is written with
the numbers of the formats, and not with the constants and functions that produce the bytes; what both
sides have in common is the checksum, which the table of the code determines.

## What the proofs found

Each of these comes with the exact condition, as an equivalence, and with an example.

- *The log reader can go silent for good.* When the oldest unread log is dropped although it was
  uploaded, the read cursor moves back although it never went past that log, to below zero. A run keeps
  the cursor right if and only if it never drops such a log (`LogRuns.AlwaysSoundUnlessDisplaced`, for
  one save `LogRuns.SaveKeepsCursor`); once it has, no log is read again
  (`LogRuns.NothingIsReadAgain`). `LogRuns.UploadedUnreadMovesCursor` is a run that does.
- *A log across the end of the ring storage, or an empty line without a timestamp, spoils the uploaded
  array.* The one is serialized as two logs, or cut off; the other has no elements. The message decodes
  as intended if and only if every uploaded log has a byte and lies in one piece
  (`LogUpload.MessageDecodes`, `LogUpload.ArrayIsRightWhenIntact`). Examples:
  `LogUpload.StraddlingLogIsSplit` and `LogUpload.EmptyLineIsMissing`.
- *A coredump can be flagged as truncated although nothing is missing*, if and only if there is no room
  for the padding in front of the first piece that does not fit, and what is left to write then is nothing,
  or one block that fits without it (`CoredumpPlan.FlaggedThoughComplete`,
  `CoredumpPlan.SavedFlaggedThoughComplete`). Examples: `CoredumpPlan.UnpaddedRegionIsFlagged` and
  `CoredumpPlan.SkippedRegionIsFlagged`. The flag itself says exactly whether the computed size is above
  that of the storage (`CoredumpPlan.DryRunIsExact`).
- *A failed write of padding is ignored.* A coredump that is saved reads back as what was asked for if and
  only if no padding was torn, that is, had its header written and not its payload
  (`CoredumpRun.ReadsBackUnlessTorn`, `Coredump.Save`). If the header fails as well, the region follows
  unpadded and all is well. `Coredump.SaveWithTornPadding` saves one that does not read back. With storage
  that fails for good, or does not fail, none is torn.
- *An empty event keeps the reader from the events behind it* if and only if it has to be sent alone
  (`EventQueue.HasDataUnlessEventIsEmpty`; example: `EventQueue.EmptyEventBlocksTheReader`).
- *The tracked heap allocations are the newest live ones, but not always as many as would fit.* The pool
  stays full, or complete, if and only if no tracked allocation is freed while a live one is not tracked
  (`HeapStats.AlwaysFullUnlessGap`); how many are missing is counted exactly by
  `HeapStats.MissingAfterRun`. Example: `HeapStats.DroppedAllocationsStayDropped`.

## Model

| member | source | states |
|---|---|---|
| Varint.RoundTrip | components/util/src/memfault_varint.c:8-18 | A value is decoded from its varint, whatever follows it. |
| Varint.LengthBound | components/util/src/memfault_varint.c:8-18 | How many bytes a varint takes, for each range of values; never more than five for 32 bits. |
| Varint.BytesOf | components/util/src/memfault_varint.c:8-18 | Every byte has seven bits of the value, the low ones first; the top bit is set in all but the last. |
| Varint.EncodeU32 | components/util/src/memfault_varint.c:8-18 | The loop writes the varint to the buffer, nothing else, and returns its length. |
| Varint.ZigZagRoundTrip | components/util/src/memfault_varint.c:20-33 | The zigzag mapping is undone by its inverse, in both directions, and stays in 32 bits exactly for the 32-bit integers. |
| Varint.ZigZagWordCases | components/util/src/memfault_varint.c:20-33 | The expression on 32-bit words is the zigzag mapping, for both signs. |
| Varint.EncodeSi32 | components/util/src/memfault_varint.c:20-33 | Writes the varint of the zigzag value. |
| RleSpec.RoundTrip | components/util/src/memfault_rle.c:19-115 | Decoding the records of a message gives back the message. |
| RleSpec.RecordFormat | components/util/src/memfault_rle.c:19-43 | A run becomes the varint of twice its length and its byte, a literal the varint of twice its length less one and its bytes. |
| RleSpec.ExpansionBound | components/util/src/memfault_rle.c:19-115 | The encoding of a non-empty message of n bytes takes at most n + n/65 + 1 bytes. |
| RleSpec.ExpansionBoundIsTight | components/util/src/memfault_rle.c:19-115 | There are messages that take just as much. |
| RleSpec.LiteralIsFollowedByRun | components/util/src/memfault_rle.c:71-104 | Literals never adjoin: behind one, unless it is the last, comes a run of at least three bytes. |
| Rle.PendingIsKept | components/util/src/memfault_rle.c:60-114 | Every byte keeps the shape of the pending sequence, which begins at its start offset and reaches to the current one. |
| Rle.ClosedSequenceIsSegment | components/util/src/memfault_rle.c:19-43 | A sequence that the state machine closes is one segment of the message, of the right kind and length. |
| Rle.EndIsReached | components/util/src/memfault_rle.c:45-47 | What is pending at the end of the message is its last segment. |
| Rle.Encoder.Encode | components/util/src/memfault_rle.c:49-115 | However the input is split over calls, each record that is announced describes the next segment, and the total size grows by its length. |
| Rle.Encoder.HandleRleChange | components/util/src/memfault_rle.c:19-43 | Announces a record for the closed sequence and starts the next one behind it. |
| Rle.Encoder.Finalize | components/util/src/memfault_rle.c:45-47 | Announces the last segment; for an empty message a record of length zero. |
| DataSourceRle.RleSource.ReadMsg | components/core/src/memfault_data_source_rle.c:188-222 | A read that continues the last one returns that slice of the whole encoding, wherever it splits a header or a literal; any other read fails and changes nothing. |
| DataSourceRle.RleSource.BuildMsgIncremental | components/core/src/memfault_data_source_rle.c:142-179 | Hands out the next bytes of the encoding, as many as asked for unless the record is finished. |
| DataSourceRle.RleSource.GetBackingReadOffset | components/core/src/memfault_data_source_rle.c:108-124 | Where the backing data is read. While a record is written, the data from there on is what the encoding has behind the rest of the record's header; between records, it is where the sequence that the encoder is collecting ends. |
| DataSourceRle.RleSource.ReadMsgPrepare | components/core/src/memfault_data_source_rle.c:126-140 | Finds the next record by feeding the encoder; the position in the encoding stays right. |
| DataSourceRle.RleSource.ComputeRleSize | components/core/src/memfault_data_source_rle.c:226-246 | The first pass computes the number of bytes of the encoding and leaves everything ready for the second. |
| DataSourceRle.RleSource.HasMoreMsgs | components/core/src/memfault_data_source_rle.c:252-268 | Announces the size of the encoding, also when a read is going on, which it does not disturb. |
| DataSourceRle.RleSource.SetActive | components/core/src/memfault_data_source_rle.c:77-85 | Another source resets the encoder; the same one does not. |
| DataSourceRle.RleSource.MarkMsgRead | components/core/src/memfault_data_source_rle.c:270-273 | Deletes the message in the source and resets the encoder. |
| Crc16.CrcOfConcatenation | components/util/src/memfault_crc16_ccitt.c:55-86 | The checksum over a message is that over its parts, one after the other. |
| Crc16.OneChangedByteIsDetected | components/util/src/memfault_crc16_ccitt.c:55-86 | Messages that differ in exactly one byte have different checksums. |
| Crc16.TableIsRight | components/util/src/memfault_crc16_ccitt.c:17-50 | Every entry of the table is the remainder for its index. |
| Crc16.ComputeWithTable | components/util/src/memfault_crc16_ccitt.c:55-67 | The table variant computes the checksum, from any start value. |
| Crc16.ComputeBitwise | components/util/src/memfault_crc16_ccitt.c:71-86 | The bitwise variant on a 32-bit register computes the same. |
| Chunking.NextChunkMakesProgress | components/util/src/memfault_chunk_transport.c:92-148 | With a buffer of at least nine bytes, a call makes output, and takes data unless only the checksum is left. |
| Chunking.CallsTerminate | components/util/src/memfault_chunk_transport.c:92-148 | With enough usable buffers of any sizes, the message is complete in the end, in both modes. |
| Chunking.Reassembly | components/util/src/memfault_chunk_transport.c:72-173 | For any buffer sizes the receiver puts the chunks together to the message with a matching checksum; before the last one, it has the bytes so far. |
| Chunking.SpareBytesAreIgnored | components/util/src/memfault_chunk_transport.c:72-173 | What lies in a buffer behind the last chunk of a message does no harm. |
| Chunking.MultiCallIsSingleChunk | components/util/src/memfault_chunk_transport.c:107-148 | In multi-call mode the outputs, put together, are the one chunk that a large buffer would get. |
| Chunking.ChunkFormat | components/util/src/memfault_chunk_transport.c:37-148 | A chunk byte by byte: the header 0x08, 0x48, 0x80 or 0xC0, the length or the offset, as much data as fits, and the checksum, low byte first, in the last chunk, which is the first one that has room for all that. |
| Chunking.MultiCallFormat | components/util/src/memfault_chunk_transport.c:107-148 | In multi-call mode, the outputs byte by byte. |
| ChunkTransport.Context.GetNextChunk | components/util/src/memfault_chunk_transport.c:72-173 | Writes the next chunk to the buffer, with the right one of four header bytes in front, in the last one the checksum of the message as its last two bytes, low byte first, and a pattern behind it; moves the offset and the running checksum; does nothing if the buffer has less than nine bytes. |
| ChunkTransport.Context.GetChunkInfo | components/util/src/memfault_chunk_transport.c:175-182 | Before the first byte of a message is sent, this is the length of its single chunk; afterwards it stays. |
| MessageReader.Reader.Read | components/core/src/memfault_data_packetizer.c:186-232 | Any part of the message: the type byte, and behind it the data, encoded if the source is. |
| PacketizerSpec.GetChunkMakesProgress | components/core/src/memfault_data_packetizer.c:378-402 | Every chunk leaves fewer messages, or as many messages and fewer bytes. |
| PacketizerSpec.DrainEmptiesActiveSources | components/core/src/memfault_data_export.c:51-66 | Draining ends, with all active sources empty. |
| Packetizer.Packetizer.GetSourceWithData | components/core/src/memfault_data_packetizer.c:234-275 | Finds the first active source with a message, and the size of what is to be sent. |
| Packetizer.Packetizer.Begin | components/core/src/memfault_data_packetizer.c:277-368 | Loads the next message from its first byte on, or goes on with the one being sent. |
| Packetizer.Packetizer.GetNext | components/core/src/memfault_data_packetizer.c:311-345 | Sends the next part; the message is deleted in the call that sends its checksum, and in no other. |
| Packetizer.Packetizer.Abort | components/core/src/memfault_data_packetizer.c:178-184 | Forgets what was sent and deletes nothing. |
| Packetizer.Packetizer.SetActiveSources | components/core/src/memfault_data_packetizer.c:173-176 | Selects the sources, and aborts: the next message is that of the first source in the mask that has one. |
| Packetizer.Packetizer.DataAvailable | components/core/src/memfault_data_packetizer.c:370-376 | Whether there is something to send; asking changes nothing. |
| Packetizer.Packetizer.GetChunk | components/core/src/memfault_data_packetizer.c:378-402 | One chunk in a single call. |
| Packetizer.Packetizer.DumpChunks | components/core/src/memfault_data_export.c:22-66 | The export loop exports the chunks of a full drain, in the order in which they are produced. |
| Delivery.StepKeeps | components/core/src/memfault_data_packetizer.c:300-345 | Whatever operation comes next, device and receiver stay in step and no stored message is lost. |
| Delivery.ExactlyTheDeletedMessagesArrive | components/core/src/memfault_data_packetizer.c:73-402 | After any run, the receiver has decoded exactly the messages that were deleted, in order, and each begins with 0x81, 0x02, 0x03 or 0x04 as it is a coredump, events, logs or a recording; all others are still stored, in order. |
| Delivery.UnframeWire | components/core/src/memfault_data_packetizer.c:186-232 | Each source has its type byte; taking it off, and the run-length encoding, gives the stored message. |
| Delivery.AbortRestartsTheMessage | components/core/src/memfault_data_packetizer.c:300-309 | After an abort the same bytes are sent again, from the first one on. |
| Delivery.DrainDeliversEverything | components/core/src/memfault_data_export.c:51-66 | Draining delivers every message of the active sources. |
| Delivery.DrainExportsEverything | components/core/src/memfault_data_export.c:51-66 | A receiver that takes the exported chunks one after the other puts together the message at hand and then all messages of the active sources, in order of priority and of storing, each with its type byte and its stored bytes. |
| CircularBuffer.WindowAfterWrite | components/util/src/memfault_circular_buffer.c:152-185 | What a write does to the storage, in one piece or in two, is an overwrite of the end of the contents. |
| CircularBuffer.CircularBuffer.Read | components/util/src/memfault_circular_buffer.c:33-57 | Reads a slice of the contents across the wrap; fails exactly when it is not inside. |
| CircularBuffer.CircularBuffer.GetReadPointer | components/util/src/memfault_circular_buffer.c:59-76 | The largest contiguous piece from an offset on. |
| CircularBuffer.CircularBuffer.ReadWithCallback | components/util/src/memfault_circular_buffer.c:78-110 | Hands out a slice in one piece or, at the wrap, in two. |
| CircularBuffer.CircularBuffer.Consume | components/util/src/memfault_circular_buffer.c:112-124 | Drops the oldest bytes. |
| CircularBuffer.CircularBuffer.ConsumeFromEnd | components/util/src/memfault_circular_buffer.c:126-138 | Drops the newest bytes. |
| CircularBuffer.CircularBuffer.WriteAtOffset | components/util/src/memfault_circular_buffer.c:152-196 | Overwrites the newest bytes and goes on behind them; fails exactly when there are not so many or there is no room. |
| CircularBuffer.CircularBuffer.Write | components/util/src/memfault_circular_buffer.c:187-190 | Appends to the contents. |
| Cbor.HeadRoundTrip | components/util/src/memfault_minimal_cbor.c:87-143 | A head is read back as its major type and argument, by section 2.1 of RFC 7049. |
| Cbor.InitialBytes | components/util/src/memfault_minimal_cbor.c:87-205 | The initial byte of every kind of item, as a number. |
| Cbor.ItemRoundTrip | components/util/src/memfault_minimal_cbor.c:125-205 | Every item the encoder can add is read back as that item. |
| Cbor.AllRoundTrip | components/util/src/memfault_minimal_cbor.c:64-205 | So is a sequence of items. |
| Cbor.Encoder.AddToResultBuffer | components/util/src/memfault_minimal_cbor.c:64-85 | Adds bytes, or only their number, or fails and says so when there is no room. |
| Cbor.Encoder.EncodeUnsigned | components/util/src/memfault_minimal_cbor.c:87-114 | Adds the shortest head for a 32-bit argument. |
| Cbor.Encoder.EncodeInteger | components/util/src/memfault_minimal_cbor.c:125-172 | Adds a signed integer of up to 64 bits. |
| Cbor.Encoder.EncodeItem | components/util/src/memfault_minimal_cbor.c:125-205 | Succeeds exactly when the item fits; the size grows by its length. |
| EventQueue.BatchBounds | components/core/src/memfault_event_storage.c:130-160 | A batch takes as many events as the maximum allows, and at least one; without batching at most one. |
| EventQueue.StepKeepsFifo | components/core/src/memfault_event_storage.c:162-329 | Every operation of the writer or the reader keeps the events in order: delivered and stored ones are the committed ones. |
| EventQueue.FirstInFirstOut | components/core/src/memfault_event_storage.c:130-329 | So it is after any run. |
| EventQueue.RollbackRestores | components/core/src/memfault_event_storage.c:302-329 | Taking an event back restores the stored bytes. |
| EventQueue.CommitStoresParts | components/core/src/memfault_event_storage.c:266-329 | An event that is begun, appended to and committed is stored as all its parts, when there is room for them and two bytes more. |
| EventQueue.RecordFormat | components/core/src/memfault_event_storage.c:302-320 | A record begins with its size in two bytes, low byte first. |
| EventQueue.BatchIsStable | components/core/src/memfault_event_storage.c:162-185 | Until it is marked as read, the message stays the same, whatever is written. |
| EventQueue.HasDataUnlessEventIsEmpty | components/core/src/memfault_event_storage.c:130-185 | There is nothing to read exactly when nothing is stored, or the first event is empty and is alone: it is the only one, or events are sent one at a time, or the next one is longer than the maximum. |
| EventQueue.EmptyEventBlocksTheReader | components/core/src/memfault_event_storage.c:162-329 | Example: an event is begun and finished without data; then, events being sent one at a time, there is never anything to read, whatever is written. |
| EventStorage.EventStorage.BeginWrite | components/core/src/memfault_event_storage.c:266-288 | Puts a marker behind the records; returns the space behind it. |
| EventStorage.EventStorage.AppendData | components/core/src/memfault_event_storage.c:290-300 | Adds to the event being written, if there is room; without one, the bytes are added all the same. |
| EventStorage.EventStorage.FinishWrite | components/core/src/memfault_event_storage.c:302-329 | Commits the event by writing its size over the marker, or takes it back. |
| EventStorage.EventStorage.ComputeReadState | components/core/src/memfault_event_storage.c:130-160 | The walk over the records stops at the marker and finds the batch. |
| EventStorage.EventStorage.HasData | components/core/src/memfault_event_storage.c:162-185 | Selects a batch unless one is being read; returns its size. |
| EventStorage.EventStorage.ReadMsg | components/core/src/memfault_event_storage.c:187-248 | Returns any slice of the array header and the events behind it, collected from the records; fails exactly when it is not inside. |
| EventStorage.EventStorage.MarkRead | components/core/src/memfault_event_storage.c:250-263 | Deletes just the events of the batch. |
| SerializerHelper.Helper.EncodeToStorage | components/core/src/memfault_serializer_helper.c:197-232 | All or nothing: the event is stored if its size is not above the space there is, and otherwise the store is as before. |
| SerializerHelper.Helper.ComputeSize | components/core/src/memfault_serializer_helper.c:241-247 | The size of the serialized event. |
| SerializerHelper.Helper.ReadDropCount | components/core/src/memfault_serializer_helper.c:234-239 | The number of events that were dropped since the last call. |
| SerializerHelper.StoredEventDecodes | components/core/src/memfault_serializer_helper.c:204-232 | A stored event is read back as the items it was made of. |
| EventDelivery.StepKeeps | components/core/src/memfault_data_packetizer.c:234-345 | With the event storage behind the packetizer, every operation of the writer, the packetizer and the other sources keeps both in step: what is being sent is the batch that is being read, and a batch is deleted when its message is. |
| EventDelivery.AskedWhenFirst | components/core/src/memfault_data_packetizer.c:234-275 | The event storage is asked exactly when its message would be the next one. |
| EventDelivery.EventsInBatch | components/core/src/memfault_batched_events.c:13-28 | The receiver takes the events of a batch out of its message, whether that is one event or an array of several. |
| EventDelivery.EventsArriveInOrder | components/core/src/memfault_event_storage.c:130-329 | After any run, in which writer and packetizer interleave in any way, messages are aborted and chunks are of any size, the receiver has got the first of the committed events, in order and each once, and the others are still stored. |
| EventDelivery.NoDataMeansAllArrived | components/core/src/memfault_data_packetizer.c:234-275 | When the packetizer asks the event storage and there is nothing to send, every committed event has arrived. |
| LogQueue.MarksAreSeparate | components/core/src/memfault_log_private.h:45-64 | The read mark is bit 7 and the sent mark bit 6 of the header; setting one leaves the other, the level, the type and the message. |
| LogQueue.HeaderHoldsFields | components/core/src/memfault_log.c:122-133 | A new header holds the level in bits 0 to 2, the type in bit 3 and the timestamp flag in bit 4, and no marks. |
| LogQueue.FreeIs | components/core/src/memfault_log.c:162-186 | The loop that makes room drops the oldest entries, and what that does to the cursor and to the counter of dropped messages. |
| LogQueue.FreedIsLeast | components/core/src/memfault_log.c:162-186 | It drops enough entries and no more than needed. |
| LogRuns.SaveKeepsCursor | components/core/src/memfault_log.c:139-190 | Saving keeps the cursor at the first unread log if and only if no log is dropped that was uploaded but not read. |
| LogRuns.UploadedUnreadMovesCursor | components/core/src/memfault_log.c:162-186 | Example: two logs are saved and uploaded, and a third one moves the cursor below zero. |
| LogRuns.StepKeepsSound | components/core/src/memfault_log.c:139-313 | A save, a read, the trigger, the end or the reset of an upload keeps the entries, the cursor, the marks and the counters right if and only if it does not drop the oldest unread log after its upload. |
| LogRuns.AlwaysSoundUnlessDisplaced | components/core/src/memfault_log.c:139-313 | All this holds all along a run if and only if the run drops no such log. |
| LogRuns.RunIsSound | components/core/src/memfault_log.c:139-501 | After any run that drops no such log: what comes out are the level, type, time and line that were passed to the saves, in order and each at most once; each recorded log was read, or was dropped unread and counted, or is still to be read; and no log is uploaded twice. |
| LogRuns.SavedIsRead | components/core/src/memfault_log.c:241-313 | Whatever marks it has got, a log is read with the level, the type and the time it was saved with, and the first 128 bytes of its line. |
| LogRuns.SaveThenRead | components/core/src/memfault_log.c:241-501 | A log that is saved when all others have been read is read next, just as it was saved. |
| LogRuns.NothingIsReadAgain | components/core/src/memfault_log.c:192-313 | Once such a log was dropped, no log is read any more, whatever is saved, read and uploaded, for gigabytes of logs. |
| LogRuns.ExportIsEverything | components/core/src/memfault_log.c:275-391 | Reading until nothing is left gives the number of dropped messages, if it is news, and then every unread log in order. |
| LogRuns.ExportedAsSaved | components/core/src/memfault_log.c:275-391 | These logs are those that were saved and not read yet, as they were saved. |
| LogRuns.UploadedAsHistory | components/core/src/memfault_log_data_source.c:53-199 | What an upload sends decodes to the metadata, the key 4, and three elements for each log that was saved and not uploaded before, in order, if and only if all of these are intact. |
| LogStorage.EntryAt | components/core/src/memfault_log.c:192-209 | Entries tile the ring: each is found behind the ones before it. |
| LogStorage.MarkAt | components/core/src/memfault_log.c:221-227 | Rewriting a header in the ring changes that entry and nothing else. |
| LogStorage.Logger.TryFreeSpace | components/core/src/memfault_log.c:139-190 | Makes room unless the message can never fit or an upload is going on; then nothing changes. |
| LogStorage.Logger.LogSave | components/core/src/memfault_log.c:393-501 | Ignores a log whose level is too low, or a compact one that is too long; otherwise records it, cut to the maximum length and with its timestamp in front, or counts it as dropped; exactly when there is or can be made room; during an upload nothing is evicted. |
| LogStorage.Logger.UpdateEntry | components/core/src/memfault_log.c:221-227 | Writes a new header for one entry. |
| LogStorage.Logger.ReadLog | components/core/src/memfault_log.c:241-313 | Returns the notice or the next unread log, with the timestamp split off, marks it and moves the cursor; there is no log when the cursor is behind all entries. |
| LogUpload.MessageIsFrozen | components/core/src/memfault_log_data_source.c:53-86 | From the trigger on, whatever logs are saved and read, the message and its size stay the same. |
| LogUpload.ExactlyTheUploadedAreMarked | components/core/src/memfault_log_data_source.c:273-296 | Afterwards exactly the logs that were there at the trigger are marked as sent; nothing else changes. |
| LogUpload.ArrayIsRightWhenIntact | components/core/src/memfault_log_data_source.c:113-155 | The array holds three elements for each log, as intended, if and only if no uploaded log is empty and none continues at the beginning of the storage. |
| LogUpload.MessageDecodes | components/core/src/memfault_log_data_source.c:174-199 | The message decodes to the metadata and an array of as many elements as it announces, the intended ones, if and only if all uploaded logs are so. |
| LogUpload.UploadedAsSaved | components/core/src/memfault_log_data_source.c:113-155 | What is encoded for a log is the level, the time and the text it was saved with, if and only if it is not empty and does not continue at the beginning of the storage. |
| LogUpload.EmptyLineIsMissing | components/util/src/memfault_circular_buffer.c:78-110 | Example: an empty line is saved while the time is not known; the array announces three elements and has none. |
| LogUpload.StraddlingLogIsSplit | components/core/src/memfault_log_data_source.c:113-155 | Example: the third of three lines in a small buffer is uploaded as two logs. |
| LogUpload.RingIsFrozen | components/core/src/memfault_log.c:154-160 | During an upload, saving does not move the beginning of the contents, so that no log changes its place. |
| LogDataSource.LogEncoder.Callback | components/core/src/memfault_log_data_source.c:230-250 | Of all bytes that are encoded, those in the window end up in the buffer, at their places. |
| LogDataSource.LogSource.CountUnsent | components/core/src/memfault_log_data_source.c:309-314 | Counts the logs that were not sent yet. |
| LogDataSource.LogSource.TriggerCollection | components/core/src/memfault_log_data_source.c:53-86 | Freezes the logs that were not sent yet, unless there is none or an upload is going on. |
| LogDataSource.LogSource.HasLogs | components/core/src/memfault_log_data_source.c:208-220 | Announces the size of the message. |
| LogDataSource.LogSource.ReadMsg | components/core/src/memfault_log_data_source.c:252-271 | Returns any slice of the message; fails exactly when it is not inside. |
| LogDataSource.LogSource.MarkSent | components/core/src/memfault_log_data_source.c:285-296 | Marks as many unsent logs as were counted, and lifts the freeze. |
| CoredumpLayout.ImageParses | components/panics/src/memfault_coredump.c:173-228 | A header, blocks and a footer are read back as these blocks, which go exactly up to the footer. |
| CoredumpLayout.EndsByByte | components/panics/src/memfault_coredump.c:24-52 | The header and the footer, byte by byte. |
| CoredumpLayout.BlockByByte | components/panics/src/memfault_coredump.c:54-60 | The header of a block, byte by byte. |
| CoredumpPlan.RequestedIsExpected | components/panics/src/memfault_coredump.c:284-333 | What is written are the registers (kind 0), build id (12), serial number (2), software version (10) and type (11), hardware version (4), machine type (7), trace reason (5), and the regions of the architecture, the library and the caller (9 or 1), each if it is known and not empty. |
| CoredumpPlan.SavedIsPrefix | components/panics/src/memfault_coredump.c:173-228 | A saved coredump is inside the storage; its blocks, padding aside, are the first expected ones, and only the last may be shortened, to whole words; it is complete unless flagged, and if flagged, there is no room left for a header and a word. |
| CoredumpPlan.DryRunIsExact | components/panics/src/memfault_coredump.c:434-560 | The coredump is saved in full, and with the computed size, if and only if that size is not above the storage's. |
| CoredumpPlan.SavedWhenPreambleFits | components/panics/src/memfault_coredump.c:491-507 | There is a coredump if and only if header, footer and all that comes before the regions fit, each block with twelve bytes of header. |
| CoredumpPlan.FlaggedThoughComplete | components/panics/src/memfault_coredump.c:173-228 | The flag is set and nothing is missing if and only if the padding in front of the first piece that does not fit misses, and what is left is nothing or one block that fits without it. |
| CoredumpPlan.SavedFlaggedThoughComplete | components/panics/src/memfault_coredump.c:434-545 | So it is for a whole coredump. |
| CoredumpPlan.UnpaddedRegionIsFlagged | components/panics/src/memfault_coredump.c:407-432 | Example: the last region fits, but only without its padding. |
| CoredumpPlan.SkippedRegionIsFlagged | components/panics/src/memfault_coredump.c:407-432 | Example: there is no room for padding in front of a region that is then skipped. |
| CoredumpRun.ReadsBackUnlessTorn | components/panics/src/memfault_coredump.c:356-371 | With any failures of the storage: a coredump that is saved reads back as a prefix of what was asked for, complete unless flagged, if and only if no padding is torn. |
| CoredumpRun.SucceedsWithoutFailure | components/panics/src/memfault_coredump.c:434-545 | If no write fails, a coredump is saved exactly when there are regions, and room for what comes before them. |
| CoredumpRun.NoErrorForGood | components/panics/src/memfault_coredump.c:104-171 | If storage that fails once fails for good, no write failed of a coredump that is saved. |
| CoredumpRun.ExampleIsTorn | components/panics/src/memfault_coredump.c:356-371 | Example: the payload of a padding block fails and the save succeeds. |
| CoredumpPlan.PadContent | components/panics/src/memfault_coredump.c:356-371 | Padding brings the offset to a word and adds nothing else. |
| CoredumpPlan.PadIsLeast | components/panics/src/memfault_coredump.c:356-371 | Padding is one block of kind 6 with one to three zeros, and only where the offset is not aligned. |
| Coredump.Writer.WriteBlock | components/panics/src/memfault_coredump.c:173-228 | Writes a block, or the words of it that fit, inside the limit and not to the place of the header; says what is written when a write fails. |
| Coredump.Writer.WriteRegions | components/panics/src/memfault_coredump.c:407-432 | Writes padded regions in order until one does not fit or a write fails. |
| Coredump.SaveWithTornPadding | components/panics/src/memfault_coredump.c:356-371 | Example: a save that succeeds and does not read back. |
| Coredump.WriteEnds | components/panics/src/memfault_coredump.c:523-544 | Writes the footer and then the header, which makes the coredump valid; if either write fails, there is none. |
| Coredump.WriteSections | components/panics/src/memfault_coredump.c:434-545 | Both modes of the writer, whatever writes fail: when it succeeds, and what the storage holds then. |
| Coredump.GetSaveSize | components/panics/src/memfault_coredump.c:555-560 | Computes the size and writes nothing. |
| Coredump.Save | components/panics/src/memfault_coredump.c:562-566 | An existing coredump stays; otherwise one is there afterwards exactly when the save succeeds, wherever it was interrupted; and then it reads back as the registers, the device's information, the trace reason and the regions, in full unless flagged, exactly when no padding is torn. |
| Coredump.HasValidCoredump | components/panics/src/memfault_coredump.c:568-583 | Finds a coredump by its magic; what is behind its total size does not matter. |
| HeapStats.TrackedAreNewest | components/core/src/memfault_heap_stats.c:130-202 | After any run, the tracked allocations are the newest live ones, newest first. |
| HeapStats.FreeForgets | components/core/src/memfault_heap_stats.c:169-202 | Freeing leaves all allocations with another pointer, in order, and no other. |
| HeapStats.MissingAfterStep | components/core/src/memfault_heap_stats.c:120-202 | How many allocations are missing in the pool, and how each operation changes that. |
| HeapStats.MissingAfterRun | components/core/src/memfault_heap_stats.c:120-202 | After a run, so many are missing as its changes add up to. |
| HeapStats.FullUnlessGap | components/core/src/memfault_heap_stats.c:120-202 | The pool stays full, or complete, exactly unless a tracked allocation is freed while a live one is not tracked. |
| HeapStats.AlwaysFullUnlessGap | components/core/src/memfault_heap_stats.c:120-202 | So it is all along a run. |
| HeapStats.AllLiveAreTracked | components/core/src/memfault_heap_stats.c:130-202 | Over a run, all live allocations are tracked all along if and only if never one is made while as many are live as the pool holds. |
| HeapStats.DroppedAllocationsStayDropped | components/core/src/memfault_heap_stats.c:93-118 | Example: a dropped allocation is not tracked again. |
| HeapPool.UnlinkLinked | components/core/src/memfault_heap_stats.c:178-197 | Taking an entry out leaves a list of the others, in order and without a cycle. |
| HeapPool.ReplaceOldest | components/core/src/memfault_heap_stats.c:143-165 | Reusing the oldest entry makes it the first of the list and the one before it the last. |
| HeapPool.FullWhenAllInUse | components/core/src/memfault_heap_stats.c:93-118 | The list is as long as the pool exactly when every entry is in use. |
| HeapPool.Pool.GetPreviousEntry | components/core/src/memfault_heap_stats.c:75-87 | The first entry in use that is linked to the given one, or the end marker. |
| HeapPool.Pool.GetNewEntryIndex | components/core/src/memfault_heap_stats.c:93-118 | A never-used entry if there is one, else an unused one, else the oldest. |
| HeapPool.Pool.OnMalloc | components/core/src/memfault_heap_stats.c:120-167 | The list that the links form gets the allocation in front, with its size if that is below 2^31, and loses the oldest if the pool was full. |
| HeapPool.Pool.OnFree | components/core/src/memfault_heap_stats.c:169-202 | The list loses an allocation with the pointer, the newest such one if pointers are distinct, and nothing else. |

## Left out

- Configuration: the defaults are modelled (timestamped logs, one CPU core, run-length encoding of coredumps only, no project key in the message header).
- Data sources behind the packetizer are lists of messages; the event storage is put behind it in the specification (`EventDelivery`). Logs and coredumps are proved on their own to return slices of one fixed message, as such a source does.
- MessageReader.Reader.Read: reads of a source that fail during sending (components/core/src/memfault_data_packetizer.c:222-231) are not modelled; then a pattern is sent instead of data.
- EventDelivery.EventsArriveInOrder: events are taken to be CBOR maps, as the serializer writes them; the storage takes any bytes, but a receiver could not tell these apart in an array.
- Non-volatile event storage, saving and restoring state over deep sleep, and custom data recording.
- Threads and locks: each critical section is one step. There is one writer of events at a time.
- Sizes: messages are shorter than 2^31 bytes, framed and log messages shorter than 2^32, event storage shorter than 0xffff, log storage shorter than 2^31; other 32-bit counters wrap where the code lets them.
- Formatting, compact log serialization, base64 export, device information and build ids: these are given byte strings.
- Metadata of events and of log messages: given lists of items. The metadata encoder of the code ignores whether its first item fits, so stopping at the first failure is assumed of all encoders here.
- The return value of the log encoder (components/core/src/memfault_log_data_source.c:198), which is inverted and which no caller looks at.
- The table for the checksum is written as sixteen rows, and the zigzag word is computed on integers; a lemma ties it to the expression on words.
- Small fixed buffers for headers are sequences, and the CBOR encoder's output is the stream of bytes that its callback gets.
- Packetizer.Packetizer.SetActiveSources: the mask is a set of sources and not a word of bits.
- Packetizer.Packetizer.GetChunk: while a multi-call message is being sent it fails and its output is lost, as in the code; draining is therefore stated for the case that none is.
- LogStorage.Logger.ReadLog: a cursor inside an entry is not modelled. `LogRuns` shows that it is at an entry or behind all of them, unless the log that was dropped is an empty line, whose two bytes may make offsets of 32 bits wrap, or gigabytes of logs have followed.
- LogDataSource.LogSource.MarkSent: the count of marked logs does not wrap around.
- Coredump.Save: a write that fails changes nothing in the model.
- Coredump.WriteSections: the platform's hooks before a save always agree to it.
- Heap statistics: reading them out, and `memfault_heap_stats_empty`, which looks at the first entry only.
- Faults, reset reasons, metrics, HTTP, the shell, ports and host-side scripts.
