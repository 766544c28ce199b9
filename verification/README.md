# SunKV: durability, framing and reactor protocols

A Dafny model of the parts of SunKV where a mistake would lose or reorder data, with proofs over all
inputs, all runs or all interleavings.

**Durability.** The storage engine runs commands on a map of records with lazy expiry and emits write
events. They are queued by the persistence orchestrator, grouped into buffers, encoded by a
three-layer binary codec and appended to a log that is rotated by size; snapshots are taken beside it.
Recovery loads the snapshot and replays the whole log. The proofs follow this chain from a single
command (`Replay.LogIsExact`) over whole histories (`History.FuzzySnapshotRecovery`,
`History.LazyLooksEager`) and every thread interleaving (`Orchestrator.RunInv`,
`Orchestrator.InOrderIffFifo`) to the bytes on disk (`WalReader.Reader.ReadAll`,
`WalCodec.CrashTail`, `WalWriter.RotatedLogReadsBackIff`) and back
(`Recovery.RecoveryFromDisk`, `Recovery.CrashLosesASuffix`, `Recovery.CrashAndRestart`,
`Recovery.ShutdownAndRestart`).

What clients rely on is stated as laws between commands, over any store, time and limit
(`CommandLaws.GetAfterSet`, `CommandLaws.PushThenPop`, `CommandLaws.TtlAfterExpire`), what becomes of a
submitted batch in `Submissions`, and the bytes of log and snapshot in `FileFormats`.

**Framing.** RESP values as the server prints them and the client parses them, the server's
incremental parser as the stack machine it is, and the loop that feeds it from a connection's pending
input (`RespClient.RoundTripIff`, `RespServer.GoAppend`, `RespSession.FeedPipeline`).

**Reactor.** The compacting network buffer as a byte queue, the output side of a connection under
arbitrary kernel write results (`TcpOutput.Drive`), the hand-off of tasks to the event loop
(`EventLoop.NoLostWakeup`) and the two pub/sub indexes (`PubSub.AllInterleavings`).

How it is modelled:

- Bytes are integers below 256 and strings are sequences of them; machine integers are explicit where
  their width matters. Sets and hashes are Dafny sets and maps, sorted only where they are encoded.
- Objects whose methods change fields are classes; loops are loops, each proved against a
  specification function. Protocols between threads are state machines whose steps are the points
  where threads can interleave, and a schedule is any sequence of steps.
- Time is passed in. Results of the kernel, of file operations and of thread scheduling are
  nondeterministic.

Where the code does less than one would expect, the exact condition is proved:

- A command refused by the quota after it has already stored an empty container, or dropped an
  expired record, leaves a change that its log does not carry (`Replay.ExactIffNotTorn`,
  `Replay.QuotaErrorLosesLog`). After a recovery that shows exactly in the first case
  (`History.LooksReplayedIff`).
- Rotation cuts the log by bytes while the chain reader decodes each file afresh
  (`WalWriter.RotatedLogReadsBackIff`, `WalWriter.LongEventDoesNotReadBack`).
- `flush` beside the worker can reorder the log: it stays in order exactly if every write is by the
  drainer that took its events first (`Orchestrator.InOrderIffFifo`, `Orchestrator.FlushCanReorder`).
- A snapshot that is ahead of a cut log can recover to a store that never was
  (`Recovery.CutBehindSnapshotIff`, `Recovery.SnapshotAheadOfLog`). What such a snapshot brings along
  is in no log, so later snapshots must have it too (`History.SnapshotRecoversIff`,
  `Recovery.LaterSnapshotIff`).
- Recovery does not look at the archives when the primary file is missing. A start with the log
  switched on opens the log first, so that a crash in the middle of a rotation does no harm
  (`Recovery.CrashAndRestart`); with the log switched off, or if that open fails, the whole log stays
  unseen (`Recovery.RotationCrashIff`).
- Nothing takes a torn event off the end of the log before the next start appends to it: that is safe
  exactly if the crash cut between two events; otherwise new events are lost, garbled or keep the
  server from starting (`TornLog.SafeToAppendIff`, `Recovery.TornLogStopsServer`,
  `Recovery.DeletedKeyComesBack`).
- Two snapshots saved at once share one temporary file and can end with none
  (`SnapshotSavers.OverlapLosesSnapshot`).
- DEL, KEYS and DBSIZE see expired records that are still stored (`History.DelAgreesIff`,
  `History.CountsAgreeIff`).
- The request parser's loop never ends on a header line or a terminator that is only partly in view;
  the comment in `server/Server.cpp` promises that half packets are waited for, and the model follows
  the code (`Requests.RequestCut`, `RespSession.FeedPipeline`).
- The request parser returns an inner non-empty array as the whole value, and reads neither 2^63 - 1
  nor -2^63 (`Requests.WholeIffFlat`, `RespServer.ServerIntRoundTripIff`).

## Model

| member | source | states |
|---|---|---|
| `Bytes.UnLEInvertsLE` | storage2/persistence/DataValueCodec.cpp:8-40 | Reading back a little-endian word of n bytes gives the number written, for every number that fits. |
| `Bytes.StrFromEncStr` | storage2/persistence/DataValueCodec.cpp:44-58 | A length-prefixed string is read back whole and exactly the bytes after it are left. |
| `Bytes.AppendLE` | storage2/persistence/DataValueCodec.cpp:8-15 | The byte loop appends exactly the little-endian form. |
| `Bytes.AppendString` | storage2/persistence/DataValueCodec.cpp:44-47 | Appends length and bytes behind what the buffer holds. |
| `Bytes.ReadLE` | storage2/persistence/DataValueCodec.cpp:24-40 | Reads a word at an offset; the offset moves only if enough bytes are there. |
| `Bytes.ReadString` | storage2/persistence/DataValueCodec.cpp:49-58 | Succeeds exactly when length and bytes are all there, and advances past them. |
| `Order.SortedIsSorted` | storage2/persistence/DataValueCodec.cpp:60-95 | The enumeration a set or hash is written in is strictly ascending and holds exactly its elements. |
| `DataValueCodec.ValueRoundTrip` | storage2/persistence/DataValueCodec.cpp:60-177 | Every value of the four kinds, with its expiry time, decodes to itself if its payload is below 4 GiB. |
| `DataValueCodec.ValueNeverExpands` | storage2/persistence/DataValueCodec.cpp:97-177 | Whatever decodes, re-encoded, takes no more bytes than were read, repeated members and fields included. |
| `DataValueCodec.AppendStrings` | storage2/persistence/DataValueCodec.cpp:60-95 | The container loop writes the strings one after the other. |
| `DataValueCodec.EncodePayload` | storage2/persistence/DataValueCodec.cpp:61-81 | The payload of each kind: one length-prefixed string, or a count followed by such strings. |
| `DataValueCodec.Encode` | storage2/persistence/DataValueCodec.cpp:60-95 | Type byte, expiry, payload length, payload. |
| `DataValueCodec.ReadStrings` | storage2/persistence/DataValueCodec.cpp:138-168 | The read loop gets through exactly if all n strings are there, and returns them in order. |
| `DataValueCodec.EmplacePairs` | storage2/persistence/DataValueCodec.cpp:158-168 | Inserting pairs in reading order keeps the first value of a repeated field. |
| `DataValueCodec.BuildContainer` | storage2/persistence/DataValueCodec.cpp:131-171 | The container of each kind from the strings read. |
| `DataValueCodec.DecodeBody` | storage2/persistence/DataValueCodec.cpp:131-171 | The payload of each kind is accepted or refused as the format says. |
| `DataValueCodec.Decode` | storage2/persistence/DataValueCodec.cpp:97-177 | Field-by-field decoding of a value, error cases included. |
| `RecordCodec.RecordRoundTrip` | storage2/persistence/RecordCodec.cpp:49-92 | Every record below 4 GiB decodes to itself, version and expiry included. |
| `RecordCodec.RecordNeverExpands` | storage2/persistence/RecordCodec.cpp:68-92 | A decoded record re-encodes to no more bytes than were read. |
| `RecordCodec.EncodeRecordBytes` | storage2/persistence/RecordCodec.cpp:49-66 | The record writer. |
| `RecordCodec.DecodeRecordBytes` | storage2/persistence/RecordCodec.cpp:68-92 | The record reader, error cases included. |
| `WalCodec.DecodeStable` | storage2/persistence/WalCodec.cpp:100-144 | A verdict other than "incomplete" does not change when more bytes follow. |
| `WalCodec.DecoderIsFraming` | storage2/persistence/WalCodec.cpp:100-144 | A decoded event is non-empty, lies in the buffer, and is decided once and for all. |
| `WalCodec.MutationRoundTrip` | storage2/persistence/WalCodec.cpp:58-144 | Through all three layers: a well-formed event followed by any bytes is read back with its exact size. |
| `WalCodec.RoundTripIff` | storage2/persistence/WalCodec.cpp:58-144 | The round trip holds exactly for the well-formed events: key and record below 4 GiB, a record only on PutRecord. |
| `WalCodec.DecodeNeverExpands` | storage2/persistence/WalCodec.cpp:100-144 | A decoded event re-encodes to no more bytes than were read for it. |
| `WalCodec.CutIsIncomplete` | storage2/persistence/WalCodec.cpp:100-144 | Every strict prefix of an event is an incomplete tail, never corrupt. |
| `WalCodec.BatchRoundTrip` | storage2/persistence/WalCodec.cpp:87-94 | An encoded batch decodes to the batch and is used up. |
| `WalCodec.EncodeBatchInjective` | storage2/persistence/WalCodec.cpp:87-94 | Two batches with the same bytes are the same batch. |
| `WalCodec.CrashTail` | storage2/persistence/WalReader.cpp:97-141 | A log cut at any byte reads back as the longest list of whole events that fits, never as damaged. |
| `WalCodec.AppendMutation` | storage2/persistence/WalCodec.cpp:58-85 | The event writer appends exactly the encoding. |
| `WalCodec.DecodeOneStatus` | storage2/persistence/WalCodec.cpp:100-144 | The field-by-field decoder; the offset goes back for an incomplete event and stays where a corrupt one was found out. |
| `WalCodec.DecodeRestOf` | storage2/persistence/WalCodec.cpp:127-144 | The record part of an event, with the checks made on it. |
| `FileFormats.LittleEndian` | storage2/persistence/DataValueCodec.cpp:8-22 | Byte i of a number is its i-th digit in base 256. |
| `FileFormats.StringBytes` | storage2/persistence/DataValueCodec.cpp:60-95 | The bytes of a string value: magic, version, kind 0, time, payload length, payload. |
| `FileFormats.ListBytes` | storage2/persistence/DataValueCodec.cpp:60-95 | The bytes of a list: kind 1, a count, each string behind its length. |
| `FileFormats.SetBytes` | storage2/persistence/DataValueCodec.cpp:60-95 | The bytes of a set: kind 2. |
| `FileFormats.HashBytes` | storage2/persistence/DataValueCodec.cpp:60-95 | The bytes of a hash: kind 3, a count of fields, field and value. |
| `FileFormats.RecordBytes` | storage2/persistence/RecordCodec.cpp:49-66 | The bytes of a record. |
| `FileFormats.PutBytes` | storage2/persistence/WalCodec.cpp:58-85 | The bytes of a logged SET: type byte 0, key and record behind their lengths. |
| `FileFormats.DelAndClearBytes` | storage2/persistence/WalCodec.cpp:58-85 | The bytes of a logged DEL, type byte 1, and of FLUSHALL, type byte 2. |
| `FileFormats.SnapshotBytes` | storage2/persistence/SnapshotWriter.cpp:82-97 | The bytes of a snapshot with one record. |
| `FileFormats.HeadersAreChecked` | storage2/persistence/DataValueCodec.cpp:97-177 | Nothing without the right magic, version and kind is ever taken for a value, a record or a snapshot. |
| `FileFormats.EventHeaderIsChecked` | storage2/persistence/WalCodec.cpp:100-144 | In the log a wrong magic or version is damage as soon as three bytes are there. |
| `Framing.Resume` | storage2/persistence/WalReader.cpp:79-142 | For any stable decoder: an undamaged stream followed by more bytes is decoded from where the first part stopped. |
| `Framing.DamageIsFinal` | storage2/persistence/WalReader.cpp:121-124 | Bytes after the first damage change nothing. |
| `Framing.DecodeFrames` | storage2/persistence/WalReader.cpp:97-109 | Frames at the front of a stream come out first and in order, whatever follows. |
| `Framing.WholeIsLongest` | storage2/persistence/WalReader.cpp:97-141 | The count of whole frames is the length of the longest prefix whose encoding fits. |
| `Framing.CutReadsWholePrefix` | storage2/persistence/WalReader.cpp:97-141 | A stream of frames cut anywhere reads back as exactly that prefix. |
| `Framing.ChunkStep` | storage2/persistence/WalReader.cpp:86-133 | The undecoded remainder is all that has to be kept between two chunks. |
| `Framing.CutFromStable` | client/src/RespCodec.cpp:20-156 | For any stable decoder every strict prefix of a frame is incomplete. |
| `Framing.ReceiveFrames` | client/src/Client.cpp:230-248 | Frames at the front of what is to come are received in order. |
| `WalReader.Reader.TryOne` | storage2/persistence/WalReader.cpp:97-109 | One decoding attempt at an offset, with what it means for the whole buffer. |
| `WalReader.Reader.DecodePending` | storage2/persistence/WalReader.cpp:96-125 | The inner loop decodes the buffer as far as one-shot decoding would. |
| `WalReader.NextChunk` | storage2/persistence/WalReader.cpp:86-133 | Decoding the kept bytes and one more chunk continues the read. |
| `WalReader.CutStats` | storage2/persistence/WalReader.cpp:63-143 | The statistics of a log cut at any byte: all bytes seen, the whole events decoded, an incomplete tail exactly if the cut is inside an event, no damage. |
| `WalReader.Reader.ReadAll` | storage2/persistence/WalReader.cpp:63-143 | For every byte string, corrupt ones included, and every division into chunks: same events, verdict, counters and stop offset as one-shot decoding. |
| `WalReader.ReadAllMutationsWalChain` | storage2/persistence/WalReader.cpp:145-174 | Reads file after file afresh and fails on the first damaged one. |
| `WalReader.ChainReadIff` | storage2/persistence/WalReader.cpp:158-174 | A chain gives all events back exactly when every file ends between two events. |
| `Segments.SegmentsIff` | storage2/persistence/WalReader.cpp:165-171 | The same for any frame format: files read afresh give the stream back exactly when cut between frames. |
| `Segments.BlocksOnBoundariesIff` | storage2/persistence/WalWriter.cpp:126-135 | Cutting a stream every limit bytes falls between frames exactly when every multiple of the limit does. |
| `Segments.CutBlocksRead` | storage2/persistence/WalReader.cpp:165-171 | Such blocks of a stream that was cut short give all whole frames, if every multiple of the size before the cut falls between two frames. |
| `Segments.LateCutReads` | storage2/persistence/WalReader.cpp:145-174 | Segments of which only the last one with anything in it ends inside a frame give all whole frames. |
| `Rotation.PutIsLate` | storage2/persistence/WalWriter.cpp:103-138 | Bytes put behind segments that end between frames, byte by byte, a full segment beginning a new one: if new segments begin between frames, only the last can end inside one. |
| `Rotation.PutOnBoundariesIff` | storage2/persistence/WalWriter.cpp:103-138 | After whole frames every segment ends between frames exactly if every new one begins between two. |
| `TornLog.AppendBetween` | storage2/persistence/WalWriter.cpp:64-67 | Behind a cut between two events: what is appended follows what is there. |
| `TornLog.StopsAtTear` | storage2/persistence/WalWriter.cpp:64-67 | Behind torn bytes that do not become an event: nothing of what is appended comes back. |
| `TornLog.TornInMagic` | storage2/persistence/WalCodec.cpp:100-144 | Torn after one or two bytes: the log is damaged for every event that is appended. |
| `TornLog.TornRecordLosesAll` | storage2/persistence/WalCodec.cpp:127-144 | Torn inside the record, with fewer new bytes than it misses: all of them are lost as an incomplete tail. |
| `TornLog.TornRecordMixes` | storage2/persistence/WalCodec.cpp:127-144 | With as many or more: the record is completed with new bytes, and reading fails there or goes on behind an event nobody has written. |
| `TornLog.ProbeIsLost` | storage2/persistence/WalWriter.cpp:64-67 | However much of an event is left, some event appended behind it does not come back. |
| `TornLog.SafeToAppendIff` | storage2/persistence/WalWriter.cpp:64-67 | A log that a crash has cut can be appended to without loss exactly if the cut is between two events. |
| `WalWriter.MaxSuffix` | storage2/persistence/WalWriter.cpp:36-61 | The largest number in use, or zero. |
| `WalWriter.RotateKeepsOrder` | storage2/persistence/WalWriter.cpp:76-93 | The next number is unused; after the rename the chain has the same files in the same order, and after the open one empty file more. |
| `WalWriter.FilledAreBlocks` | storage2/persistence/WalWriter.cpp:103-138 | Files filled to the limit are the stream cut every limit bytes. |
| `WalWriter.RotatedLogReadsBackIff` | storage2/persistence/WalWriter.cpp:103-138 | A log the writer has rotated reads back in full exactly when every multiple of the limit falls between two events. |
| `WalWriter.LongEventDoesNotReadBack` | storage2/persistence/WalWriter.cpp:103-138 | One event longer than the limit never comes back. |
| `WalWriter.MebibyteSetIsTooLong` | storage2/persistence/WalCodec.cpp:58-85 | A SET of a 1 MiB value is such an event under a 1 MiB limit. |
| `WalWriter.Writer.WriteAll` | storage2/persistence/WalWriter.cpp:18-26 | Some prefix of the data reaches the file, all of it on success. |
| `WalWriter.Writer.Rotate` | storage2/persistence/WalWriter.cpp:76-93 | Either nothing has changed, or the file is under the next number and the primary file is empty, or missing after a failed open; the chain has the same bytes in every case. |
| `WalWriter.Writer.WriteRoom` | storage2/persistence/WalWriter.cpp:126-135 | Writes as much as the current file has room for and keeps it within the limit. |
| `WalWriter.Writer.RotateFull` | storage2/persistence/WalWriter.cpp:117-125 | A full primary file goes under a new number; the new number holds exactly the limit, or an old file that was too large already. |
| `WalWriter.Writer.AppendRotating` | storage2/persistence/WalWriter.cpp:112-136 | The loop ends, and keeps bytes, order and sizes. |
| `WalWriter.Writer.AppendBytes` | storage2/persistence/WalWriter.cpp:103-138 | All files in reading order hold the old bytes followed by the new ones; whatever was there, no older file changes, every newly numbered file has exactly limit bytes unless it was larger before, and a changed primary file is within the limit; the files are exactly those that putting the bytes one by one gives, but for a new one still empty. |
| `GroupCommit.SplitIsGood` | storage2/persistence/PersistenceOrchestrator.cpp:314-327 | Splitting loses and reorders nothing; every written group is full and was not full before its last event. |
| `GroupCommit.BuffersConcatenate` | storage2/persistence/PersistenceOrchestrator.cpp:303-327 | Written buffers concatenate to the encoding of all events. |
| `GroupCommit.GroupLimits` | storage2/persistence/PersistenceOrchestrator.cpp:311-327 | In plain numbers: no more events than the limit, no more bytes before the last event, and all groups but the last as large as that. |
| `GroupCommit.Take` | storage2/persistence/PersistenceOrchestrator.cpp:195-201 | The loop body against one step of the split. |
| `GroupCommit.TakeBatch` | storage2/persistence/PersistenceOrchestrator.cpp:194-202 | The inner loop over one batch. |
| `GroupCommit.Drain` | storage2/persistence/PersistenceOrchestrator.cpp:178-205 | For every queue and every pair of limits, zero included: the buffers concatenate to the encoding of all events in order, and each keeps both limits as far as one event allows. |
| `Orchestrator.StepConserves` | storage2/persistence/PersistenceOrchestrator.cpp:130-212 | Every step of every thread keeps accepted = log + drainers + queue as multisets. |
| `Orchestrator.StepAccounts` | storage2/persistence/PersistenceOrchestrator.cpp:153-162 | Every submitted batch is waiting, held, accepted or dropped, and only one of these. |
| `Orchestrator.StepKeepsPhase` | storage2/persistence/PersistenceOrchestrator.cpp:72-80 | Every step keeps the closing-down order and the bound on the queue. |
| `Orchestrator.RunInv` | storage2/persistence/PersistenceOrchestrator.cpp:72-346 | All of this after every interleaving of submitters, worker, flush callers and destructor. |
| `Orchestrator.ClosedMeansWritten` | storage2/persistence/PersistenceOrchestrator.cpp:72-80 | The queue never exceeds its bound; once the destructor is done the log holds exactly the accepted events; accepted and dropped make up submitted. |
| `Orchestrator.NothingAcceptedAfterLastSwap` | storage2/persistence/PersistenceOrchestrator.cpp:153-162 | After the destructor has taken the queue no batch is accepted, although a submitter may push after stop was set. |
| `Submissions.DropsOnlyAfterStop` | storage2/persistence/PersistenceOrchestrator.cpp:153-162 | A step drops a batch only if stop was set before it. |
| `Submissions.OpenDropsNothing` | storage2/persistence/PersistenceOrchestrator.cpp:153-162 | Over every schedule: before a close begins nothing has been dropped. |
| `Submissions.PassedIsWritten` | storage2/persistence/PersistenceOrchestrator.cpp:72-80 | Over every schedule: once closed, every batch whose submitter had passed the lock at any earlier moment is accepted, and the log is the accepted events. |
| `Submissions.DroppedWasWaiting` | storage2/persistence/PersistenceOrchestrator.cpp:153-162 | Dropped are only batches that were still waiting at every moment before the close, or were submitted later. |
| `Submissions.PlaceMeansAccepted` | storage2/persistence/PersistenceOrchestrator.cpp:153-162 | With the lock free, no stop and a free place, a waiting batch is accepted behind all others in its next two steps. |
| `Submissions.WaitingGetsIn` | storage2/persistence/PersistenceOrchestrator.cpp:267-291 | From every reachable state before a close a waiting batch can get in, however full the queue is. |
| `Submissions.CloseComesToAnEnd` | storage2/persistence/PersistenceOrchestrator.cpp:72-80 | From every reachable state the orchestrator can be closed with every flush done. |
| `Orchestrator.FifoInOrder` | storage2/persistence/PersistenceOrchestrator.cpp:267-328 | If every write is by the drainer that took its events first, log, drainers in turn and queue are at every moment the accepted events in submission order. |
| `Orchestrator.InOrderIffFifo` | storage2/persistence/PersistenceOrchestrator.cpp:164-212 | Over every interleaving, for events that can be told apart: the log is a prefix of the accepted events in order exactly when every write was by the drainer that had taken its events first. |
| `Orchestrator.SerialIsFifo` | storage2/persistence/PersistenceOrchestrator.cpp:267-328 | Drains that do not overlap write in turn. |
| `Orchestrator.NoFlushIsSerial` | storage2/persistence/PersistenceOrchestrator.cpp:269-291 | With the worker as only drainer until it is joined, drains do not overlap. |
| `Orchestrator.NoFlushIsFifo` | storage2/persistence/PersistenceOrchestrator.cpp:269-291 | So such a run is in order. |
| `Orchestrator.ClosedLogInOrder` | storage2/persistence/PersistenceOrchestrator.cpp:72-80 | If drainers wrote in turn, outside flushes included, the closed log is the accepted events in submission order. |
| `Orchestrator.FlushCanReorder` | storage2/persistence/PersistenceOrchestrator.cpp:169-205 | A run with a flush beside the worker that puts any two batches into the log in the wrong order. |
| `Backend.EstimateItems` | storage2/backend/InMemoryBackend.cpp:7-30 | The loop sums the sizes. |
| `Backend.EstimateDataValue` | storage2/backend/InMemoryBackend.cpp:7-30 | The estimate for each kind of value. |
| `Backend.EstimateFootprint` | storage2/backend/InMemoryBackend.cpp:32-38 | The estimate for a record under its key. |
| `Backend.InMemoryBackend.PutRecord` | storage2/backend/InMemoryBackend.cpp:61-79 | The byte count stays the exact sum over the map; the record is stored exactly when the new sum is allowed or the limit is bypassed. |
| `Backend.InMemoryBackend.DelKey` | storage2/backend/InMemoryBackend.cpp:81-90 | Removes the key, keeps the byte count exact, reports whether it was there. |
| `Backend.InMemoryBackend.ClearAll` | storage2/backend/InMemoryBackend.cpp:92-96 | Empties the map; the count is zero. |
| `Backend.InMemoryBackend.Keys` | storage2/backend/InMemoryBackend.cpp:103-111 | Every key once. |
| `Engine.StorageEngine.RunSet` | storage2/engine/StorageEngine.cpp:73-89 | Answer, log entries and new store are those of the command, quota refusal included. |
| `Engine.StorageEngine.RunGet` | storage2/engine/StorageEngine.cpp:91-109 | Answer, log entries and new store are those the command has on the live record, in every error case too. |
| `Engine.StorageEngine.RunDel` | storage2/engine/StorageEngine.cpp:111-121 | The stored record is removed and counted, expired or not, with its log entry; nothing changes if there is none. |
| `Engine.StorageEngine.RunExists` | storage2/engine/StorageEngine.cpp:123-138 | Answer, log entries and new store are those the command has on the live record, in every error case too. |
| `Engine.StorageEngine.RunExpire` | storage2/engine/StorageEngine.cpp:140-176 | Answer, log entries and new store are those the command has on the live record, in every error case too. |
| `Engine.StorageEngine.RunPersist` | storage2/engine/StorageEngine.cpp:178-203 | Answer, log entries and new store are those the command has on the live record, in every error case too. |
| `Engine.StorageEngine.RunTtl` | storage2/engine/StorageEngine.cpp:205-264 | TTL and PTTL: remaining time, -1, -2, and the logged removal of an expired record. |
| `Engine.StorageEngine.RunLPush` | storage2/engine/StorageEngine.cpp:324-347 | Answer, log entries and new store are those the command has on the live record, in every error case too. |
| `Engine.StorageEngine.RunRPush` | storage2/engine/StorageEngine.cpp:349-372 | Answer, log entries and new store are those the command has on the live record, in every error case too. |
| `Engine.StorageEngine.RunLPop` | storage2/engine/StorageEngine.cpp:374-408 | Answer, log entries and new store are those the command has on the live record, in every error case too. |
| `Engine.StorageEngine.RunRPop` | storage2/engine/StorageEngine.cpp:410-444 | Answer, log entries and new store are those the command has on the live record, in every error case too. |
| `Engine.StorageEngine.RunSAdd` | storage2/engine/StorageEngine.cpp:484-510 | Answer, log entries and new store are those the command has on the live record, in every error case too. |
| `Engine.StorageEngine.RunSRem` | storage2/engine/StorageEngine.cpp:512-548 | Answer, log entries and new store are those the command has on the live record, in every error case too. |
| `Engine.StorageEngine.RunHSet` | storage2/engine/StorageEngine.cpp:587-606 | Answer, log entries and new store are those the command has on the live record, in every error case too. |
| `Engine.StorageEngine.RunHDel` | storage2/engine/StorageEngine.cpp:624-660 | Answer, log entries and new store are those the command has on the live record, in every error case too. |
| `Engine.StorageEngine.RunRead` | storage2/engine/StorageEngine.cpp:446-482 | The nine reading container commands: right answer or WrongType, and at most the removal of an expired record. |
| `Engine.StorageEngine.GetLiveRecordOrExpire` | storage2/engine/StorageEngine.cpp:275-293 | The live record or none; an expired one is removed and logged. |
| `Engine.StorageEngine.GetOrInitContainer` | storage2/engine/StorageEngine.cpp:295-322 | The live container, or a new one that is stored and logged first; quota and type errors. |
| `Engine.StorageEngine.StoreContainer` | storage2/engine/StorageEngine.cpp:335-346 | The grown container is stored and logged behind the earlier entries, or the quota refuses it and the log is dropped. |
| `Engine.StorageEngine.StoreShrunk` | storage2/engine/StorageEngine.cpp:528-547 | The shrunk container is stored, or removed once empty. |
| `Engine.StorageEngine.ApplyMutation` | storage2/engine/StorageEngine.cpp:35-51 | Applies one log entry outside the quota; the quota is back in force afterwards, in the error case too. |
| `Engine.StorageEngine.LoadSnapshot` | storage2/engine/StorageEngine.cpp:24-33 | The store becomes exactly the records, later ones winning. |
| `Engine.LastRecordCounts` | storage2/engine/StorageEngine.cpp:24-33 | Of several records under one key the last one counts. |
| `Engine.StorageEngine.RunFlushAll` | server/ArrayCmdDispatch.cpp:124-137 | FLUSHALL empties the store, and its one log entry replays to that. |
| `Engine.StorageEngine.PeekLive` | storage2/engine/StorageEngine.cpp:58-65 | The look-up of a dump: an expired record goes without a log entry. |
| `Engine.StorageEngine.DumpAllLiveRecords` | storage2/engine/StorageEngine.cpp:53-67 | With the clock read once per key: the dump is exactly the records that had not expired when looked up, and the store is left as the dump. |
| `Engine.StorageEngine.CleanupExpiredKeys` | server/Server.cpp:906-921 | With the clock read once per key: exactly the records that had expired when looked up are gone, and the log replays to that. |
| `Engine.SweptIff` | storage2/engine/StorageEngine.cpp:53-71 | Gone after a dump or a sweep is exactly a record whose expiry time was reached when its key was looked up. |
| `Engine.SweepIsInvisible` | storage2/engine/StorageEngine.cpp:53-67 | From its last look-up on nobody can see that a dump or a sweep has been there. |
| `Engine.InsertAll` | storage2/engine/StorageEngine.cpp:492-497 | The set union, and the number of new members. |
| `Engine.EraseMembers` | storage2/engine/StorageEngine.cpp:524-527 | The set difference, and the number of members removed. |
| `Engine.EraseFields` | storage2/engine/StorageEngine.cpp:636-639 | The fields left, and the number removed. |
| `Engine.PushFront` | storage2/engine/StorageEngine.cpp:332-334 | The items in reverse order before the list. |
| `Engine.PushBack` | storage2/engine/StorageEngine.cpp:357-359 | The items behind the list. |
| `Engine.ReadContainer` | storage2/engine/StorageEngine.cpp:446-482 | The answer of a reading command on a present container. |
| `CommandLaws.OtherKeysUntouched` | storage2/engine/StorageEngine.cpp:73-701 | No command touches another key, not even one that is refused. |
| `CommandLaws.MalformedIsTold` | storage2/engine/StorageEngine.cpp:140-176 | A negative time to live or an empty list of items is told and changes nothing. |
| `CommandLaws.LogIsStamped` | storage2/engine/StorageEngine.cpp:73-701 | Every logged event carries the time of its command. |
| `CommandLaws.SetThenSeen` | storage2/engine/StorageEngine.cpp:73-89 | After SET the value is there without end, whatever was there before. |
| `CommandLaws.SetRefusedIff` | storage2/engine/StorageEngine.cpp:73-89 | SET is refused exactly if the byte count would come out above a limit that is set, and then changes nothing. |
| `CommandLaws.GetSees` | storage2/engine/StorageEngine.cpp:91-109 | GET gives the string that is there, Nil for nothing, WrongType for a container, and nobody sees a change. |
| `CommandLaws.GetAfterSet` | storage2/engine/StorageEngine.cpp:91-109 | GET after SET gives the value set. |
| `CommandLaws.DelRemoves` | storage2/engine/StorageEngine.cpp:111-121 | After DEL nothing is there; it says whether anything was stored. |
| `CommandLaws.ExistsSees` | storage2/engine/StorageEngine.cpp:123-138 | EXISTS tells whether something can be seen. |
| `CommandLaws.CountsKeys` | storage2/engine/StorageEngine.cpp:266-273 | DBSIZE and KEYS report what is stored; SET and DEL change the set of keys by theirs. |
| `CommandLaws.ExpireSets` | storage2/engine/StorageEngine.cpp:140-176 | After EXPIRE the value is there exactly until that time; zero removes it; nothing there answers 0. |
| `CommandLaws.TtlTells` | storage2/engine/StorageEngine.cpp:205-264 | TTL and PTTL: -2, -1, or the time left rounded down. |
| `CommandLaws.TtlAfterExpire` | storage2/engine/StorageEngine.cpp:205-264 | TTL and PTTL after EXPIRE at any later time. |
| `CommandLaws.PersistKeeps` | storage2/engine/StorageEngine.cpp:178-203 | After PERSIST the value stays for ever; it says whether there was an end. |
| `CommandLaws.RPushAppends` | storage2/engine/StorageEngine.cpp:349-372 | RPUSH puts the items at the end, in order, and the key keeps its time; a wrong type is told and unseen. |
| `CommandLaws.LPushPrepends` | storage2/engine/StorageEngine.cpp:324-347 | LPUSH puts them in front one by one. |
| `CommandLaws.LPopTakesFirst` | storage2/engine/StorageEngine.cpp:374-408 | LPOP takes the first item; the key goes with the last one. |
| `CommandLaws.RPopTakesLast` | storage2/engine/StorageEngine.cpp:410-444 | RPOP takes the last item. |
| `CommandLaws.LLenCounts` | storage2/engine/StorageEngine.cpp:446-456 | LLEN counts the items. |
| `CommandLaws.LIndexGives` | storage2/engine/StorageEngine.cpp:458-482 | LINDEX gives the item, from the end for a negative index, Nil outside. |
| `CommandLaws.PoppingEmptiesList` | storage2/engine/StorageEngine.cpp:374-408 | Popping as often as there are items gives them all in order, and the key is gone. |
| `CommandLaws.PushThenPop` | storage2/engine/StorageEngine.cpp:349-408 | RPUSH on a key where nothing is, then LPOP as often: the items come back in order. |
| `CommandLaws.SAddAdds` | storage2/engine/StorageEngine.cpp:484-510 | SADD adds the items and counts the new ones. |
| `CommandLaws.SRemRemoves` | storage2/engine/StorageEngine.cpp:512-548 | SREM takes them out and counts those that were there; the key goes with the last member. |
| `CommandLaws.SCardCounts` | storage2/engine/StorageEngine.cpp:550-560 | SCARD counts the members. |
| `CommandLaws.SIsMemberTells` | storage2/engine/StorageEngine.cpp:562-572 | SISMEMBER tells whether it is one. |
| `CommandLaws.SMembersLists` | storage2/engine/StorageEngine.cpp:574-585 | SMEMBERS lists every member once, in ascending order. |
| `CommandLaws.HSetSets` | storage2/engine/StorageEngine.cpp:587-606 | HSET sets the field and says whether it is new. |
| `CommandLaws.HGetGives` | storage2/engine/StorageEngine.cpp:608-622 | HGET gives the value of the field or Nil. |
| `CommandLaws.HDelRemoves` | storage2/engine/StorageEngine.cpp:624-660 | HDEL takes fields out and counts those that were there; the key goes with the last field. |
| `CommandLaws.HLenCounts` | storage2/engine/StorageEngine.cpp:662-672 | HLEN counts the fields. |
| `CommandLaws.HExistsTells` | storage2/engine/StorageEngine.cpp:674-684 | HEXISTS tells whether the field is there. |
| `CommandLaws.HGetAllLists` | storage2/engine/StorageEngine.cpp:686-701 | HGETALL lists every field followed by its value, the fields in ascending order. |
| `CommandLaws.StringFootprint` | storage2/backend/InMemoryBackend.cpp:5-35 | A string record counts key, value and 132 bytes. |
| `CommandLaws.ListSize` | storage2/backend/InMemoryBackend.cpp:5-35 | An item more in a list counts its bytes. |
| `CommandLaws.SetSize` | storage2/backend/InMemoryBackend.cpp:5-35 | A member more in a set counts its bytes. |
| `CommandLaws.HashSize` | storage2/backend/InMemoryBackend.cpp:5-35 | A field more in a hash counts its bytes and those of its value. |
| `Replay.ReplayAppend` | storage2/engine/StorageEngine.cpp:35-51 | Replaying two logs after one another is replaying their concatenation. |
| `Replay.BaseIsIrrelevant` | storage2/persistence/PersistenceOrchestrator.cpp:214-265 | Replaying a log over any base whose keys it all touches gives what it gives over the empty store. |
| `Replay.BasesIff` | storage2/persistence/PersistenceOrchestrator.cpp:214-265 | Replaying a log over two bases gives the same exactly if they agree on every key the log does not touch. |
| `Replay.LogIsExact` | storage2/engine/StorageEngine.cpp:73-701 | For every command, argument, time and store: unless the answer is QuotaExceeded, the emitted log replayed on the old store gives exactly the new one, and it speaks only of the command's key. |
| `Replay.RefusedIff` | storage2/engine/StorageEngine.cpp:295-347 | Whether a command will run into the quota can be told beforehand from store, command, time and limit. |
| `Replay.RefusedLeaves` | storage2/engine/StorageEngine.cpp:297-337 | A refused command logs nothing and leaves the store as it found it, without the expired record under its key, or with one empty container more. |
| `Replay.ExactIffNotTorn` | storage2/engine/StorageEngine.cpp:73-701 | For every command, argument, time, store and limit: the log is exact unless the command is going to be refused after it has dropped an expired record or stored an empty container. |
| `Replay.QuotaErrorLosesLog` | storage2/engine/StorageEngine.cpp:297-337 | A push that is refused after an empty list was stored: the store has changed and the log does not say so. |
| `Replay.StaysWithinQuota` | storage2/backend/InMemoryBackend.cpp:61-79 | No command takes a store over the limit, not even one that fails half-way. |
| `Replay.RunsAreExact` | storage2/engine/StorageEngine.cpp:73-701 | Over whole runs, whatever the limit: the log rebuilds the last store if no command is refused half-way. |
| `Replay.RunsStayWithinQuota` | storage2/backend/InMemoryBackend.cpp:61-79 | A run that starts within the limit stays within it. |
| `History.HistoryIsGood` | storage2/engine/StorageEngine.cpp:53-67 | Over every history of commands under any limits, FLUSHALL, sweeps, dumps, restarts and crashes that cut the log between events and come up on any snapshot, in which no refused command leaves an empty container: the store and the replay of the log over what the last crash came up on differ only by expired records that are gone from the store. |
| `History.RestartIsReplay` | storage2/persistence/PersistenceOrchestrator.cpp:214-265 | As long as no crash has come up on a snapshot, recovering from a fuzzy snapshot gives what the log alone gives. |
| `History.RestartIsReplayIff` | storage2/persistence/PersistenceOrchestrator.cpp:214-265 | In general it gives the replay of the log over what the last crash came up on exactly if the snapshot lacks none of the records that are only there. |
| `History.FuzzySnapshotRecovery` | storage2/persistence/PersistenceOrchestrator.cpp:214-265 | For all these histories: a snapshot pieced together from records seen at different moments, which has every live record that came with the last crash and is not in the log, then the whole log; at every later time the recovered store looks like the engine's own. |
| `History.SnapshotRecoversIff` | storage2/persistence/PersistenceOrchestrator.cpp:214-265 | Having those records is also necessary: that is so exactly for the snapshots that have them. |
| `History.StrandedShows` | storage2/engine/StorageEngine.cpp:297-337 | A command refused after it has stored an empty container leaves a store that no replay of the log shows. |
| `History.LooksReplayedIff` | storage2/engine/StorageEngine.cpp:297-337 | Over every history under any limits: the log can stand in for the store at all times exactly if no command is refused after it has stored an empty container, which is told from store, command and limit before it runs. |
| `History.LogRebuildsStore` | storage2/engine/StorageEngine.cpp:73-701 | If no dump or restart drops an expired record and no command is refused after a change, the log rebuilds the store exactly. |
| `History.LogRebuildsStoreIff` | storage2/engine/StorageEngine.cpp:73-701 | Over every history under any limits: the log rebuilds the store exactly at all times if and only if that is so. |
| `History.StepLooksEager` | storage2/engine/StorageEngine.cpp:275-322 | One command that the quota does not refuse, on a store with expired records still in it, answers and leaves what it would on the live view. |
| `History.InvisibleStep` | server/Server.cpp:906-921 | Sweep, dump, restart and a refused command that leaves no empty container change nothing a reader can see. |
| `History.LazyLooksEager` | storage2/engine/StorageEngine.cpp:91-264 | Over all these histories every answer but DEL, KEYS and DBSIZE is QuotaExceeded where the engine's byte count says so, and else that of a store that drops records the instant they expire. |
| `History.DelAgreesIff` | storage2/engine/StorageEngine.cpp:111-121 | DEL's count agrees exactly unless the key holds an expired record. |
| `History.CountsAgreeIff` | storage2/engine/StorageEngine.cpp:266-273 | KEYS and DBSIZE agree exactly when nothing expired is still stored. |
| `Snapshot.SnapshotRoundTrip` | storage2/persistence/SnapshotWriter.cpp:82-97 | Every record list reads back identically. |
| `Snapshot.SnapshotPrefixRejected` | storage2/persistence/SnapshotReader.cpp:71-99 | Every strict prefix of a snapshot is rejected. |
| `Snapshot.WriteSnapshot` | storage2/persistence/SnapshotWriter.cpp:82-97 | The record loop writes the format. |
| `Snapshot.WriteEntry` | storage2/persistence/SnapshotWriter.cpp:87-91 | One key and its record. |
| `Snapshot.ReadOne` | storage2/persistence/SnapshotReader.cpp:87-97 | One key and its record, or a failure. |
| `Snapshot.ReadFromFile` | storage2/persistence/SnapshotReader.cpp:71-99 | The reading loop accepts and returns what the format says. |
| `Snapshot.Store.WriteTmp` | storage2/persistence/SnapshotWriter.cpp:71-104 | Writing the temporary file never touches the final name. |
| `Snapshot.Store.WriteToFile` | storage2/persistence/SnapshotWriter.cpp:59-129 | At every moment on the direct-rename path the final name holds the old or the new content whole; only the fallback can lose it. |
| `Snapshot.Store.Save` | storage2/persistence/SnapshotWriter.cpp:59-129 | At every point where a crash can fall, what is under the final name reads as before the call, missing or unreadable included, or as the new records whole; only the fallback can leave nothing. |
| `SnapshotSavers.SerialSavesAreAtomic` | storage2/persistence/PersistenceOrchestrator.cpp:82-93 | Several savers on one temporary name, over every run in which no save begins during another: at every moment what is under the final name is whole, and if no rename fails a snapshot that was there stays. |
| `SnapshotSavers.OverlapLosesSnapshot` | storage2/persistence/PersistenceOrchestrator.cpp:82-93 | Whenever a save is under way and a second one begins, there is a run on which every system call that can succeed does, and when both are over there is no snapshot. |
| `Recovery.ApplyAll` | storage2/persistence/PersistenceOrchestrator.cpp:252-260 | Applies the events in order; fails exactly if one cannot be applied. |
| `Recovery.ApplicableIff` | storage2/engine/StorageEngine.cpp:35-51 | An event can be applied exactly if its type byte is 1 or 2, or 0 with a record. |
| `Recovery.RecoverInto` | storage2/persistence/PersistenceOrchestrator.cpp:214-265 | Succeeds exactly if snapshot and chain are readable and every event applies, and then the store is the log replayed over the snapshot; without a primary file the archives are not read. |
| `Recovery.RotationCrashIff` | storage2/persistence/PersistenceOrchestrator.cpp:240-249 | After a crash between rename and open of a rotation, recovery sees the log exactly if the primary file was created again before, as every start with the log switched on does when its open succeeds, or there was nothing in it. |
| `Recovery.Start` | server/Server.cpp:340-351 | A start opens the log first, which creates a missing primary file, and then recovers: it succeeds exactly if snapshot and chain are readable and every event applies. |
| `Recovery.CrashedChainReads` | storage2/persistence/WalReader.cpp:145-174 | A log in files of any sizes that a crash has cut at any byte, empty files behind it included: if only the last file with anything in it ends inside an event, the chain gives exactly the whole events and no damage. |
| `Recovery.SingleFileIsLeft` | storage2/persistence/WalReader.cpp:145-174 | A log in a single file cut at any byte is of that kind. |
| `Recovery.PackedIsLeft` | storage2/persistence/WalReader.cpp:145-174 | So is a log rotated under one limit, if every multiple of it before the cut falls between two events. |
| `Recovery.RecoveryFromDisk` | storage2/persistence/PersistenceOrchestrator.cpp:214-265 | From bytes to store, under any quota: a history's log in files cut between events and any fuzzy snapshot recover to a store that looks like the engine's. |
| `Recovery.CrashLosesASuffix` | storage2/persistence/PersistenceOrchestrator.cpp:240-262 | Over every history with its dumps, restarts and earlier crashes that cut between events: after a crash at any byte of the log, rotated or not, the chain read that recovery does gives the whole events, all of which apply, and over any snapshot usable at the cut the store looks like that after the first j steps and a proper prefix of the next one's events; it is exactly that if every change was logged. |
| `Recovery.NoSnapshotNeeded` | storage2/persistence/PersistenceOrchestrator.cpp:220-238 | If no crash has come up on a snapshot, the empty store is such a snapshot at every moment. |
| `Recovery.CrashAndRestart` | storage2/persistence/PersistenceOrchestrator.cpp:183-205 | As it runs: an append to an existing log of any file sizes that stops after any byte or at any point of a rotation, then a start. If rotation cut no event, recovery succeeds with the whole events on disk and the store is as after a front of the history, unless the snapshot is ahead of it. |
| `Recovery.TornLogStopsServer` | server/Server.cpp:348-351 | After a crash one or two bytes into an event and one more logged event, recovery fails and the server does not start. |
| `Recovery.DeletedKeyComesBack` | storage2/persistence/WalWriter.cpp:64-67 | At an input: a deletion logged behind a torn event is lost without a word, and the key is there again after the next start. |
| `Recovery.CutBehindSnapshotAt` | storage2/persistence/PersistenceOrchestrator.cpp:214-265 | A cut log behind any snapshot, key by key: what the log touches is as the log has it, the rest is as in the snapshot. |
| `Recovery.CutBehindSnapshotIff` | storage2/persistence/PersistenceOrchestrator.cpp:214-265 | The result is that of the cut log alone exactly when it touches every key of the snapshot. |
| `Recovery.LaterSnapshotIff` | storage2/persistence/PersistenceOrchestrator.cpp:214-265 | A server that came up on a snapshot and a cut log and has logged more: a later snapshot and the whole log give its store exactly if the two snapshots agree on every key the log does not touch. |
| `Recovery.SnapshotNotAheadOfLog` | storage2/persistence/PersistenceOrchestrator.cpp:214-265 | A snapshot whose records were all read before the cut, and before what earlier crashes have cut off, gives what the base of that moment gives, the empty store if no crash came up on a snapshot. |
| `Recovery.NoCrashKeeps` | storage2/persistence/WalWriter.cpp:64-67 | Without a later crash nothing that was logged is cut off. |
| `Recovery.SnapshotAheadOfLog` | storage2/persistence/PersistenceOrchestrator.cpp:214-265 | A snapshot ahead of the cut can recover to a store that never was. |
| `Recovery.CleanShutdownRecovers` | server/Server.cpp:1072-1092 | For any life of the server, opened on the log of the lives before it, with the final snapshot, a flush beside the worker and drainers writing in turn: the closed log reads back clean and the store looks like the engine's from then on. |
| `Recovery.AppendAll` | storage2/persistence/PersistenceOrchestrator.cpp:183-204 | The buffers of a drain reach the disk in order if no append fails. |
| `Recovery.Persist` | storage2/persistence/PersistenceOrchestrator.cpp:178-205 | Drain after drain, through group commit and rotation: the files are those that putting all bytes one by one behind the old files gives. |
| `Recovery.GrownLogReadsBackIff` | storage2/persistence/WalWriter.cpp:64-138 | An existing log in files of any sizes and what was appended to it under any limit are read back exactly if every file begun by the append begins between two events. |
| `Recovery.SameLimit` | storage2/persistence/WalWriter.cpp:64-138 | With all files written under that limit this is so if every multiple of it falls between two events. |
| `Recovery.EmptyLogHolds` | storage2/persistence/WalWriter.cpp:64-67 | A first start without any log is the case of no earlier life. |
| `Recovery.ShutdownAndRestart` | server/Server.cpp:1072-1092 | The whole chain as it runs, for any life of the server: a writer opened on an existing log of any file sizes, hand-over, group commit, rotating appends, snapshot, and a start with chain read and replay; if no append failed and rotation cut no event, recovery succeeds and the store looks like the engine's. |
| `Resp.DecimalRoundTrip` | client/src/RespCodec.cpp:9-18 | Every 64-bit integer is printed and read back. |
| `Resp.Encode` | protocol/RESPType.cpp:5-41 | The printed form of every value, nested arrays included. |
| `Resp.EncodeRespArrayCommand` | client/src/RespCodec.cpp:164-174 | The client's printer gives the printed form of an array of bulk strings. |
| `Resp.WireForm` | protocol/RESPType.cpp:4-41 | The printed form of every kind of value in plain bytes, null forms included. |
| `Resp.DigitsAreBaseTen` | protocol/RESPType.cpp:14-17 | Numerals are base ten, most significant digit first. |
| `Resp.ElementsFollow` | protocol/RESPType.cpp:36-38 | The elements of an array follow one another with nothing between. |
| `Resp.PingOnTheWire` | client/src/RespCodec.cpp:164-174 | For example the bytes of the request PING. |
| `Malformed.NumbersAreDigits` | client/src/RespCodec.cpp:9-18 | The client takes only digits for a number, behind at most one minus sign. |
| `Malformed.ClientWantsType` | client/src/RespCodec.cpp:152-156 | The client refuses a value that does not begin with one of the five type bytes. |
| `Malformed.ClientWantsNumber` | client/src/RespCodec.cpp:56-126 | It refuses lines that want a number and have none, lengths below -1 and negative array sizes. |
| `Malformed.ClientWantsTerminator` | client/src/RespCodec.cpp:96-101 | It refuses a bulk body that is not followed by CR LF. |
| `Malformed.ServerWantsType` | protocol/RESPParser.cpp:26-97 | The server refuses a value that does not begin with one of the five type bytes. |
| `Malformed.ServerWantsNumber` | protocol/RESPParser.cpp:172-392 | It refuses lines that want a number and have none, and lengths and sizes below -1. |
| `Malformed.ServerWantsTerminator` | protocol/RESPParser.cpp:261-311 | It refuses a bulk body that is not followed by CR LF. |
| `Malformed.ServerNumbersAreDigits` | protocol/RESPParser.cpp:407-436 | It takes only digits for a number, behind at most one minus sign. |
| `RespClient.ParserIsFraming` | client/src/RespCodec.cpp:20-156 | A parsed value is non-empty, lies in the buffer, and is decided once and for all. |
| `RespClient.OneReadsBack` | client/src/RespCodec.cpp:20-156 | A printable value followed by any bytes is parsed back with its exact size. |
| `RespClient.RoundTripIff` | client/src/RespCodec.cpp:20-156 | That holds exactly for values without line breaks in simple strings and errors and without null arrays. |
| `RespClient.CutIsIncomplete` | client/src/RespCodec.cpp:20-156 | Every strict prefix of a printed value is incomplete. |
| `RespClient.FindCRLF` | client/src/RespCodec.cpp:29-34 | The search loop finds the first line break. |
| `RespClient.Parse` | client/src/RespCodec.cpp:20-156 | The recursive parser, error cases included. |
| `RespClient.ParseElements` | client/src/RespCodec.cpp:127-150 | The elements of an array, or the first thing wrong with them. |
| `RespClient.ParseRepeated` | client/src/RespCodec.cpp:127-150 | The element loop against reading one frame n times. |
| `RespClient.Connection.RecvOne` | client/src/Client.cpp:70-100 | However the bytes are divided into chunks, the value at their front is returned and exactly its bytes are taken; or the protocol error, timeout or loss of connection the arrivals end in. |
| `RespClient.Connection.SendAll` | client/src/Client.cpp:54-69 | Some prefix of the request is sent, all of it on success. |
| `RespClient.Connection.ReceiveResponses` | client/src/Client.cpp:230-248 | One response per command in order, or the first failure; loss of the connection closes and clears the buffer, a timeout keeps it. |
| `RespClient.Connection.Pipeline` | client/src/Client.cpp:208-249 | All commands are printed into one request; bad arguments send nothing; answers as received. |
| `RespClient.PipelineReadsResponses` | client/src/Client.cpp:230-248 | A printed response stream comes back value by value for every chunking, and nothing after it is touched. |
| `RespClient.PipelineStopsAtError` | client/src/Client.cpp:238-245 | With the option set the first error response ends the pipeline and names its command. |
| `RespServer.ServerIntRoundTripIff` | protocol/RESPParser.cpp:407-436 | Printed integers are read back exactly except the two extremes of 64 bits. |
| `RespServer.ParseDigits` | protocol/RESPParser.cpp:418-433 | The digit loop with its overflow check accepts exactly numerals below 2^63. |
| `RespServer.ParseInteger` | protocol/RESPParser.cpp:407-436 | The integer reader with its error mark. |
| `RespServer.BodyAbsorbs` | protocol/RESPParser.cpp:261-311 | Any part of a bulk body can arrive first. |
| `RespServer.GoAppend` | protocol/RESPParser.cpp:19-102 | A finished or failed call is the same with more bytes; a call that took everything in can be continued with the next bytes. |
| `RespServer.StuckIff` | protocol/RESPParser.cpp:94-108 | The loop makes no progress exactly inside an unfinished header line or half-way through a terminator. |
| `RespServer.Parser.TakeTurn` | protocol/RESPParser.cpp:26-97 | One turn of the loop and what it means for the whole call. |
| `RespServer.Parser.Parse` | protocol/RESPParser.cpp:19-102 | The parse loop over the object's fields, with the running byte count. |
| `Requests.GoLeaf` | protocol/RESPParser.cpp:104-259 | Simple strings, errors, integers, bulk strings and empty or null arrays are read whole inside any stack of arrays. |
| `Requests.NestedGivesInnermost` | protocol/RESPParser.cpp:123-135 | Of nested arrays the one that ends first is returned, at its own end; past 128 levels the parser fails. |
| `Requests.WholeIffFlat` | protocol/RESPParser.cpp:123-135 | A printed value is read back whole exactly when it has no non-empty array inside an array. |
| `Requests.RequestReadsBack` | protocol/RESPParser.cpp:313-392 | A client-encoded command followed by any bytes is read back with its exact size. |
| `Requests.RequestCut` | protocol/RESPParser.cpp:94-108 | A command cut short leaves the parser waiting exactly at the safe cuts; at every other cut the call never returns. |
| `RespSession.ServeAppend` | server/Server.cpp:478-520 | Input that ends in waiting can be continued; the pieces do not matter. |
| `RespSession.FeedIsServe` | server/Server.cpp:450-533 | Chunk by chunk gives what the whole input gives, if the parser waits at every cut. |
| `RespSession.ServeRequests` | server/Server.cpp:478-520 | Commands at the front of any input are handed on in order and use up exactly their bytes. |
| `RespSession.ServeCut` | server/Server.cpp:478-520 | A pipeline cut at any byte: the whole commands are handed on, then the parser waits or never returns. |
| `RespSession.FeedPipeline` | server/Server.cpp:450-533 | With only safe cuts exactly the commands that have arrived whole are handed on and the connection waits; one unsafe cut and it never comes back. |
| `RespSession.PipelineThenMore` | server/Server.cpp:450-533 | All commands first, then any bytes are read as if at the start of the input. |
| `RespSession.ClientPipelineIsServed` | client/src/RespCodec.cpp:164-174 | Both ends together: what a client's pipeline sends is served command by command. |
| `RespSession.Session.Compact` | server/Server.cpp:522-533 | Dropping consumed input never changes the unread bytes. |
| `RespSession.Session.ParseNext` | server/Server.cpp:481-506 | The offset moves by exactly what the parser took in. |
| `RespSession.Session.Drain` | server/Server.cpp:478-520 | The loop ends and hands on every complete value. |
| `RespSession.Session.OnMessage` | server/Server.cpp:433-533 | One read event: overflow closes, otherwise everything that can be handed on is, and nothing is left over while the parser waits. |
| `RespSession.Session.ReceiveAll` | server/Server.cpp:450-533 | Any sequence of read events, up to the first chunk that overflows the pending input, which closes the connection. |
| `NetBuffer.MoveDown` | network/Buffer.h:266-270 | Moving the contents down in place, front first, copies them unchanged. |
| `NetBuffer.CopyIn` | network/Buffer.h:188-192 | Copies into the free space and leaves what is before it. |
| `NetBuffer.Buffer.constructor` | network/Buffer.h:34-41 | An empty queue. |
| `NetBuffer.Buffer.Retrieve` | network/Buffer.h:138-145 | Takes exactly the first n bytes off. |
| `NetBuffer.Buffer.EnsureWritableBytes` | network/Buffer.h:260-285 | Makes the room asked for, by compaction or growth, and keeps the contents. |
| `NetBuffer.Buffer.Append` | network/Buffer.h:188-192 | The queue gains the bytes at its end. |
| `NetBuffer.Buffer.ReadFd` | network/Buffer.cpp:10-46 | Everything the kernel hands over is queued in order, the spill buffer's part included. |
| `NetBuffer.Buffer.RetrieveAllAsString` | network/Buffer.h:177-181 | Returns and removes everything. |
| `TcpOutput.Connection.SendInLoop` | network/TcpConnection.cpp:147-268 | The kernel is asked unless replies are coalesced, and takes a prefix of buffer and message; the message joins the stream whole behind all earlier ones and is dropped, whole, exactly on a closed connection or a broken pipe; above 8 MiB the connection is closed; nothing goes out once the write side is shut. |
| `TcpOutput.Connection.SendBehindBuffer` | network/TcpConnection.cpp:170-236 | Buffer and message in one write, any part of which may be taken. |
| `TcpOutput.Connection.SendDirectly` | network/TcpConnection.cpp:238-267 | With nothing buffered the kernel gets the message at once, and the rest, all of it on EAGAIN, is buffered; only a broken pipe drops it. |
| `TcpOutput.Connection.KeepRest` | network/TcpConnection.cpp:208-218 | What the kernel did not take of buffer and message stays, in order. |
| `TcpOutput.Connection.Settle` | network/TcpConnection.cpp:220-235 | Interest, pending shutdown and high-water mark after a joint write. |
| `TcpOutput.Connection.Queue` | network/TcpConnection.cpp:159-168 | The whole message is buffered. |
| `TcpOutput.Connection.Enqueue` | network/TcpConnection.cpp:258-267 | The rest is buffered, interest is on, the high-water mark holds or the connection is closed. |
| `TcpOutput.Connection.EnforceBackpressure` | network/TcpConnection.cpp:270-279 | Closes exactly above 8 MiB. |
| `TcpOutput.Connection.Send` | network/TcpConnection.cpp:91-101 | The same, and dropped as well whenever the state is not connected. |
| `TcpOutput.Connection.HandleWrite` | network/TcpConnection.cpp:361-383 | With interest on the kernel is offered the buffer and what it took is gone from the front; drained means interest off and, when disconnecting, the write side shut. |
| `TcpOutput.Connection.EndWriteCoalescing` | network/TcpConnection.cpp:126-141 | Interest is on afterwards if anything is buffered. |
| `TcpOutput.Connection.Shutdown` | network/TcpConnection.cpp:281-294 | The write side is shut only if all accepted bytes have been taken; from another thread only the state changes at once. |
| `TcpOutput.Connection.ShutdownInLoop` | network/TcpConnection.cpp:289-294 | Shuts exactly if nothing is buffered. |
| `TcpOutput.Connection.HandleClose` | network/TcpConnection.cpp:385-396 | Closing switches interest off and loses no account of the bytes. |
| `TcpOutput.Drive` | network/TcpConnection.cpp:118-309 | Over every sequence of events, messages from other threads included, and kernel results: bytes taken followed by the buffer are the kept messages in order; every dropped message has its reason in a broken pipe or in the phase, which only shutdowns, closes and 8 MiB of backlog change; the write side is shut only when all have been taken, and no byte follows. |
| `TcpOutput.NothingIsDropped` | network/TcpConnection.cpp:147-268 | Without a shutdown, a close or a broken pipe and with at most 8 MiB of messages, no message is dropped and the connection stays up. |
| `EventLoop.RunInv` | network/EventLoop.cpp:50-174 | Over every interleaving: executed, batch and pending are the enqueued tasks in order, and no wake-up is lost. |
| `EventLoop.NoLostWakeup` | network/EventLoop.cpp:103-123 | When the loop waits with tasks pending, the descriptor is readable or a thread is about to write it. |
| `EventLoop.PendingTasksRun` | network/EventLoop.cpp:61-75 | From every such state with no wake-up owed, the loop's own next steps run every task enqueued so far. |
| `EventLoop.StoppedAccountsForAll` | network/EventLoop.cpp:77-81 | After a stop the executed tasks and those pushed too late make up the enqueued ones, in order. |
| `PubSub.AllInterleavings` | server/Server.cpp:573-707 | After every interleaving at lock granularity: for every connection between commands a channel is in its set exactly if it is in the channel's set, and no channel is empty. |
| `PubSub.ClearedIsGone` | server/Server.cpp:684-706 | A cleared connection is in no channel. |
| `PubSub.QuietIndexIsInverse` | server/Server.cpp:573-707 | With no command under way the index is exactly the sessions turned round. |
| `PubSub.OthersDoNotInterfere` | server/Server.cpp:573-707 | No other connection's step touches a connection's subscriptions. |
| `PubSub.FirstHalfDecides` | server/Server.cpp:575-694 | The first half of each command decides the connection's own set, channel by channel: SUBSCRIBE adds the one channel, UNSUBSCRIBE takes only that one away, without arguments and on clearing all go. |
| `PubSub.SecondHalfFollows` | server/Server.cpp:585-642 | The second half brings the index to that set. |
| `PubSub.CommandTakesEffect` | server/Server.cpp:573-707 | A whole command, whatever other connections do between its halves: in both tables the connection is then on exactly the channels it should be on. |
| `PubSub.Hub.SubscribeSession` | server/Server.cpp:575-583 | First half of SUBSCRIBE, with the returned count; ends here without input state. |
| `PubSub.Hub.SubscribeIndex` | server/Server.cpp:585-590 | Second half of SUBSCRIBE. |
| `PubSub.Hub.UnsubscribeSession` | server/Server.cpp:594-604 | First half of UNSUBSCRIBE, with the returned count. |
| `PubSub.Hub.UnsubscribeAllSession` | server/Server.cpp:619-628 | First half of UNSUBSCRIBE without arguments. |
| `PubSub.Hub.ClearSession` | server/Server.cpp:684-694 | First half of clearing a closed connection. |
| `PubSub.Hub.RemoveFromIndex` | server/Server.cpp:630-642 | Second half of all three: the connection is taken out of the channels, and empty channels go. |
| `PubSub.Hub.RefreshStats` | server/Server.cpp:963-970 | The published counts are those of the index. |
| `PubSub.Hub.Publish` | server/Server.cpp:652-682 | A connection between commands gets the message exactly if it is connected and subscribed. |
| `PubSub.CountAll` | server/Server.cpp:963-970 | The loop sums the sizes of all channels. |
| `PubSub.EraseFrom` | server/Server.cpp:630-642 | The erasing loop, channel by channel. |

## Left out

- Sockets, epoll, fsync and directory scanning themselves: modelled only as nondeterministic results or an abstract file map.
- The per-command reply handlers, MULTI, AUTH and the command table of the server: many similar wrappers over the engine.
- TimerQueue, configuration, logger, command-line client, metrics, dump tool, memory pool, shutdown phases.
- Two connections writing the same key at once: the code does not tie engine order and log order together, so a command and its submission are one step.
- A single clock reading per command; the code reads the clock again for the log entry's timestamp.
- Engine.StorageEngine.DumpAllLiveRecords: no command runs between two look-ups of this method; over interleaved commands a dump is a series of Peek events of a history.
- Engine.StorageEngine.CleanupExpiredKeys: no command runs between two keys of this method; over interleaved commands a sweep is a series of Sweep events of a history.
- The synchronous mode of the orchestrator and its mutation consumers; a failed log write inside the orchestrator.
- Orchestrator.RunInv: each buffer write is one step; WalWriter has no lock of its own, so torn interleavings of two writes and of rotation with a write are not modelled.
- WalWriter.MaxSuffix: numbers are unbounded, and file names are taken to be canonical decimals; the code gives up on suffixes beyond int.
- Order.SortedIsSorted: std::set and std::map iteration order is given by a specification, not by their trees.
- Engine.StorageEngine.RunExpire: an expiry time beyond 64 bits wraps, where the C++ addition is undefined.
- Engine.StorageEngine.RunRead: LLEN, LINDEX, SCARD, SISMEMBER, SMEMBERS, HGET, HLEN, HEXISTS and HGETALL share one method; DBSIZE and KEYS appear only in the specification of commands.
- Backend.EstimateFootprint: the per-record overhead is the constant of a 64-bit libstdc++ build.
- Recovery.Start: the log is switched on and its open succeeds; what recovery sees otherwise is stated by Recovery.RecoverInto and Recovery.RotationCrashIff.
- Snapshot.Store.Save: one save at a time; several at once are modelled in SnapshotSavers, down to the files behind the two names.
- TcpOutput.Connection.Shutdown: a shutdown handed over by another thread does nothing once the connection has been closed; the code then still shuts the socket.
- Snapshot.Store.WriteToFile: the fallback for a file system that refuses to rename over a file can leave no snapshot at all; for it only that is stated.
- RespClient.Parse: running out of memory while reserving room for a huge announced array is not modelled.
- RespServer.Parser.Parse: neither is the same exception on the server, where the room is reserved before the nesting check.
- RespSession.Session.OnMessage: nothing is said about a connection after a malformed value; the second overflow check is left out because nothing is pending when it is reached.
- NetBuffer.Buffer.Append: prepend is not modelled, so the read index never falls below the reserved space.
- EventLoop.NoLostWakeup: a loop that is already running; tasks queued by the loop's own thread before it starts wait for the first poll to time out.
