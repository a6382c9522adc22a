# Scouter storage engine and wire codec: a verified model

Scouter's collector keeps transaction logs, counters and summaries in its own files and talks to
agents and clients in its own binary format. This project models both, with the three small
stateful components around them, and proves what they promise.

- **Index files.** A buffer of 5-byte slots holds chain heads; an append-only file of records holds
  the chains, linked by 5-byte positions; a delete flips one byte in place. The model works on the
  actual bytes. `IndexKeyFile` is proved to be a multimap with history, `IndexTimeFile` a list of
  timestamped entries queried by range, through every run of operations, flushes and crashes. A
  scan of the hash index also shows what a crash has cut off from lookups; `KeyScan` says exactly what.
- **Stores.** `XLogStore` (three indexes over one data file), `CounterStore` (records updated in
  place) and `SummaryStore` (four indexes over one data file) are proved against a log, a table of
  last values, and a log filtered by family: opened empty or on existing files, and through crashes,
  for `XLogStore` and `CounterStore` also between the steps of a flush. `XLogRuns` and `CounterRuns`
  chain the operations into whole runs, over a crash and on.
- **Codec.** Decimals, blobs, recursive values whose maps are written in arbitrary order, and the
  43-field transaction pack with its optional groups: round trips, what each reader does with cut or
  extended input, and that reading always terminates.
- **CRC-32.** The table-driven loop against the bitwise definition (the sample code in section 8 of
  RFC 1952), and which differences it always detects.
- **Polling, reassembly, connection pool.** State machines with properties of whole runs.

Each mutable object of the program is a class whose ghost fields hold the abstract state; each
method states its whole new state, the content or the growth of its files included. A step of a
store is one lemma over byte sequences, and the method that performs the step calls it. `Log` in
`KeyLog` is the list of records a key file encodes; `History` in `KeyIndex` is the list of puts and
deletes an index has seen.

Methods and their specifications share small definitions: a slot, a bucket, a family, a type code, the
order of fields. What each of them means is stated once more without it, in numbers and fields
(`SlotOfClock`, `BucketOfClock`, `SameFamilyIff`, `ReplayIs`, `TransactionAnswer`, and so on). The
modules `WireForms`, `XLogWire` and `DiskForms` do the same for the formats, byte by byte.

Reading order: `ByteCodec`, `DataInput`, `DataOutput`; `RealKeyFile`, `KeyLog`, `SlotChains`,
`LongKeys`, `SlotBuffer`, `MemHashBlock`, `MemTimeBlock`; `KeyIndex`, `KeyScan`, `IndexKeyFile`;
`TimeRange`, `IndexTimeFile`; `RealDataFile`; `XLogFrames`, `XLogStore`, `XLogRuns`;
`CounterRecords`, `CounterStore`, `CounterRuns`; `SummaryFrames`, `SummaryStore`; `Values`, `ValueIO`,
`WireForms`, `XLogPack`, `XLogWire`, `XLogPackIO`; `DiskForms`; `Crc32`, `Hexa32`; `XLogCache`, `XLogPolling`, `XLogInterleaving`;
`MultiPacket`; `AgentPool`.

Where the code keeps its promise only under a condition, the condition is exact and there is an
input for the other side:

- Positions in key and data files stay below 2^39, because they are stored in five bytes
  (`Put`, `Roomy`). Keys are found when they are shorter than 32768 bytes and XLog data comes back
  when it is at most 32767 bytes long: `KeyReadsBackIff`, `FrameReadsBackIff`. What a longer key
  does to the other keys of its slot is in `LongKeys`.
- A range read is exact for ranges shorter than a day whose start lies no later within its 500 ms
  than the end does: `RangeReadExactIff`. From a day on it hands out the right entries, but not in
  the order of their times: `LongReadsHandOutAll`.
- After a crash a scan of a hash index still shows the records of puts that lookups have lost
  (`OrphanIsScanned`); there are none exactly when there were none at the last flush and every put
  since was deleted again (`NoOrphansAfterCrashIff`). `SummaryStore` reads by scanning, so it shows summaries that were never
  flushed, and under a lost one's key data of another family that took its place in the data file
  (`OrphanShowsForeignData`); `LaterWritesKeepIff` says when that cannot happen.
- The data file must be flushed before the indexes: `IndexBeforeDataLosesFrames` shows the other
  order failing, and the flush methods of the indexes require the data to be flushed. A write between
  the two steps breaks that in the same way; `LookupAfterCut` says which entries are then still read.
- A client that polls with a number from before a restart of the server gets no log put before its
  first poll: `ExactlyOnceIff` says from where it is served.
- An update in `CounterStore` leaves the other records alone exactly when its bucket is one that the
  record has: `UpdateHarmlessIff`, with `MinuteWriteHitsNeighbour` for the other side.
  `ClockTimesHaveBuckets` says that times on the clock qualify when the time type is the record's own.
- A poll delivers everything it passes exactly under the conditions of `PollDeliversAllIff`. One
  putting task is enough to lose a log (`OneTaskCanLose`): a put that completes between the two reads
  of the poll moves the number but not the snapshot.
- Where a comment and the code differ, the model follows the code: the 172800 slots of
  `MemTimeBlock` at 500 ms each cover 24 hours, not 48 (src/db/io/mem_time_block.rs:12), and the
  number 0 is never delivered to a client that starts polling from 0, because the filter is `>`.

## Model

| member | source | states |
|---|---|---|
| IndexKeyFile.IndexKeyFile.Open | src/db/io/index_key_file.rs:21-25 | Opening the two files of some history gives an index that answers for that history. |
| IndexKeyFile.IndexKeyFile.Put | src/db/io/index_key_file.rs:29-35 | A put extends the history by one put over the actual bytes of table and file, and loses nothing that was flushed. |
| IndexKeyFile.IndexKeyFile.Get | src/db/io/index_key_file.rs:39-54 | The newest value put for the key since its last delete, or nothing, whatever keys share its slot or its CRC. |
| IndexKeyFile.IndexKeyFile.GetAll | src/db/io/index_key_file.rs:57-73 | Exactly the values put for the key since its last delete, newest first. |
| IndexKeyFile.IndexKeyFile.HasKey | src/db/io/index_key_file.rs:76-78 | True if and only if the key has such a value. |
| IndexKeyFile.IndexKeyFile.ReadAll | src/db/io/index_key_file.rs:81-101 | The undeleted records in file order up to the first one the reader cannot return. Without such a record: every record kept, orphans of a crash included, and the surviving pairs of the history if and only if there are no orphans; a run without crashes has none. |
| IndexKeyFile.IndexKeyFile.Delete | src/db/io/index_key_file.rs:104-121 | Returns how many values the key had, extends the history by a delete, and keeps the file length. |
| IndexKeyFile.IndexKeyFile.Flush | src/db/io/index_key_file.rs:123-127 | Everything done so far becomes what a crash keeps. |
| IndexKeyFile.CrashAndReopen | src/db/io/mem_hash_block.rs:34-62 | Slot table as last flushed, key file with every byte. Lookups then answer for the flushed history followed by the later deletes. The records of the later puts stay in the file for a scan to show: there are none, for any history since the flush, if and only if there were none at the flush and each later put was followed by a delete of its key. |
| IndexKeyFile.OrphanIsScanned | src/db/io/index_key_file.rs:81-101 | An input: one put, a crash before any flush. The key is not found, the history is empty, and the scan shows the pair. |
| IndexKeyFile.PutStep | src/db/io/index_key_file.rs:29-35 | The bytes after a put represent the longer history in memory and the flushed history on disk. |
| IndexKeyFile.DeleteStep | src/db/io/index_key_file.rs:104-121 | The bytes after a delete represent the history with that delete, both in memory and for the flushed table. |
| IndexKeyFile.ScanIsKept | src/db/io/index_key_file.rs:81-101 | In every state, crashes included, the scan is the list of records not marked deleted, and those of them that lookups reach are the surviving pairs of the history in put order. |
| IndexKeyFile.NoFilesHoldNothing | src/db/io/index_key_file.rs:21-25 | Two missing files represent the empty history with every slot empty. |
| IndexKeyFile.LookupStep | src/db/io/index_key_file.rs:42-53 | In a lookup loop a positive position is always a genuine record whose fields read back and whose link goes strictly down. |
| KeyIndex.PutRefines | src/db/io/index_key_file.rs:29-35 | Adding a record at its slot head refines a put of the multimap for every key. |
| KeyIndex.DeleteRefines | src/db/io/index_key_file.rs:104-121 | Marking along one chain refines a delete of the multimap for every key, from the current heads and from the saved ones. |
| KeyIndex.GrowthKeepsSaved | src/db/io/index_key_file.rs:29-35 | Heads saved earlier still answer for their own history after records are added. |
| KeyIndex.OnOneChainIff | src/db/io/index_key_file.rs:29-35 | In a run without crashes a record lies on the chain of a slot if and only if that is the slot of its key, and lies on it once. |
| KeyIndex.ReplayIsSurviving | src/db/io/index_key_file.rs:57-73 | The per-key history and the list of surviving pairs agree. |
| KeyIndex.ReplayIs | src/db/io/index_key_file.rs:57-73 | What the history says of a key, operation by operation: the values of exactly those puts of the key that no later operation deletes, newest first. |
| KeyIndex.SurvivingIs | src/db/io/index_key_file.rs:81-101 | The surviving pairs are those of exactly the puts that no later operation deletes, in the order of the puts. |
| KeyScan.ScanIsLivePrefix | src/db/io/index_key_file.rs:81-101 | A scan is exactly the live records before the first one longer than the read window. |
| KeyIndex.DeleteKeepsOrdered | src/db/io/index_key_file.rs:104-121 | After a delete of a key the records that a set of heads reaches, in file order, are the surviving pairs of the history with that delete; for the current heads and for the saved ones. |
| KeyScan.ScanShowsReachableIff | src/db/io/index_key_file.rs:81-101 | A scan shows what lookups reach if and only if no record is left that lookups cannot reach. |
| KeyScan.KeptAfterPut | src/db/io/index_key_file.rs:29-35 | A put adds one kept record, reachable and not yet saved, and changes none of the others. |
| KeyScan.KeptAfterDelete | src/db/io/index_key_file.rs:104-121 | A delete removes the reachable records of its key and no others: an orphan with that key stays. |
| KeyScan.NoOrphansAfterCrashIff | src/db/io/mem_hash_block.rs:34-62 | For every history since the last flush: a crash leaves no orphan if and only if there was none at the flush and every later put was followed by a delete of its key. |
| SlotChains.ChainDescends | src/db/io/index_key_file.rs:42-53 | Links strictly descend through records of one slot to the bottom, so every chain loop terminates and meets no record twice. |
| SlotChains.OtherSlotHasNone | src/db/io/index_key_file.rs:57-73 | A chain never meets a key of another slot. |
| SlotChains.ErasedKeyIsGone | src/db/io/index_key_file.rs:104-121 | After a delete no chain position leads to a live record of the key. |
| SlotChains.ErasedOthersStay | src/db/io/index_key_file.rs:104-121 | A delete changes the values of no other key, even one in the same slot. |
| RealKeyFile.RealKeyFile.Open | src/db/io/real_key_file.rs:39-59 | A missing or empty file becomes the two magic bytes; any other is kept as it is. |
| RealKeyFile.RealKeyFile.Append | src/db/io/real_key_file.rs:138-150 | Returns the old length and extends the file by exactly one encoded record. |
| RealKeyFile.RealKeyFile.SetDelete | src/db/io/real_key_file.rs:153-158 | Overwrites one byte at the position. |
| RealKeyFile.RealKeyFile.GetRecord | src/db/io/real_key_file.rs:62-91 | Decodes the record from a window of at most 65536 bytes and computes the next position from the bytes consumed. |
| RealKeyFile.RealKeyFile.GetKey | src/db/io/real_key_file.rs:112-121 | Reads the signed length and the key at their offsets in the record. |
| RealKeyFile.RealKeyFile.GetDataPos | src/db/io/real_key_file.rs:124-135 | Skips the key by its signed length and reads the blob behind it. |
| RealKeyFile.FixedFieldsReadBack | src/db/io/real_key_file.rs:94-109 | The flag and link readers return what was appended. |
| RealKeyFile.KeyReadsBackIff | src/db/io/real_key_file.rs:112-121 | The key reader returns the appended key if and only if it is shorter than 32768 bytes. |
| LongKeys.StoredKeyReads | src/db/io/real_key_file.rs:112-121 | What the key reader returns for a stored key of any length: the key below 32768 bytes, an error up to 65535, a prefix when the length has wrapped. |
| LongKeys.FindIsRightIff | src/db/io/index_key_file.rs:39-54 | With keys below 65536 bytes: the lookup loop over any chain gives the newest value put for the key if and only if no live record with a key of 32768 bytes or more is in front of it, and an error otherwise, whatever the key. |
| LongKeys.CollectIsRightIff | src/db/io/index_key_file.rs:57-73 | The loop that collects all values is right if and only if the whole chain is free of such records. |
| LongKeys.WrappedKeyIsFound | src/db/io/index_key_file.rs:39-54 | An input: after one put of a key of 65536 zeros a lookup of the empty key finds a value that was never put. |
| RealKeyFile.DataPosReadsBack | src/db/io/real_key_file.rs:124-135 | The value reader returns the appended value. |
| RealKeyFile.BlobReadsBack | src/db/io/real_key_file.rs:194-227 | The blob reader over the file agrees with the blob writer for every header form. |
| RealKeyFile.RecordReadsBackIff | src/db/io/real_key_file.rs:62-91 | The whole-record reader returns the appended record and the exact next boundary if and only if the record fits its window. |
| RealKeyFile.CutRecordFails | src/db/io/real_key_file.rs:62-91 | No record can be decoded from a proper prefix of its bytes. |
| KeyLog.FieldsReadBack | src/db/io/real_key_file.rs:94-135 | On the file of any log, the four field readers agree with the abstract record at its position. |
| KeyLog.RecordReadsBack | src/db/io/real_key_file.rs:62-91 | On the file of any log, the whole-record reader agrees with the field readers and lands on the next record. |
| KeyLog.ImageOfDelete | src/db/io/real_key_file.rs:153-158 | Overwriting the flag byte of a record changes the file exactly as deleting that record in the log does. |
| KeyLog.ImageAppend | src/db/io/real_key_file.rs:138-150 | Appending an encoded record to the file is appending the record to the log. |
| KeyLog.PosIncreases | src/db/io/real_key_file.rs:138-150 | Records occupy disjoint, increasing stretches of the file. |
| SlotBuffer.StoredSlots | src/db/io/mem_hash_block.rs:77-91 | Storing into a slot changes that slot and the count and no other slot. |
| SlotBuffer.TableAfterAppend | src/db/io/index_key_file.rs:29-35 | Storing the new position makes the table hold the new heads. |
| SlotBuffer.FreshTable | src/db/io/mem_hash_block.rs:34-62 | A new table has every slot empty. |
| DiskForms.StoredIs | src/db/io/mem_hash_block.rs:77-91 | Every byte of the buffer after a put: the five bytes of slot k at 1024 + 5 k, the count at 4, and nothing else. |
| DiskForms.FreshTableIs | src/db/io/mem_hash_block.rs:34-62 | A file shorter than 1024 bytes gives a new buffer: two magic bytes and zeros; any other is the buffer. |
| DiskForms.HashSlotIs | src/db/io/mem_hash_block.rs:34-67 | The slot of a key is the low 31 bits of its CRC-32 modulo the number of slots behind the header. |
| DiskForms.FieldsAreAt | src/db/io/real_key_file.rs:94-121 | What the field readers of the key file make of any bytes at a position. |
| DiskForms.RecordIs | src/db/io/real_key_file.rs:138-150 | Every byte of an appended record. |
| DiskForms.WindowIs | src/db/io/real_key_file.rs:62-75 | The whole-record reader looks at the 65536 bytes from the position on, or at what is left. |
| MemHashBlock.MemHashBlock.Open | src/db/io/mem_hash_block.rs:34-62 | Loads the file or a fresh buffer and derives the capacity from its length. |
| MemHashBlock.MemHashBlock.Get | src/db/io/mem_hash_block.rs:70-74 | The position in the slot of the hash, by unsigned remainder. |
| MemHashBlock.MemHashBlock.Put | src/db/io/mem_hash_block.rs:77-91 | Stores the position in that slot only and counts a slot the first time it is filled. |
| MemHashBlock.MemHashBlock.Flush | src/db/io/mem_hash_block.rs:98-105 | Afterwards the file loads as the buffer in memory. |
| MemTimeBlock.MemTimeBlock.Open | src/db/io/mem_time_block.rs:32-56 | Loads the file or a fresh buffer of 172800 slots. |
| MemTimeBlock.MemTimeBlock.Get | src/db/io/mem_time_block.rs:67-74 | The position in the slot of the time of day, 0 when the slot lies outside the buffer. |
| MemTimeBlock.MemTimeBlock.Put | src/db/io/mem_time_block.rs:77-94 | Stores into that slot only; a slot outside the buffer changes nothing. |
| MemTimeBlock.MemTimeBlock.AddCount | src/db/io/mem_time_block.rs:96-101 | Adds to the count with 32-bit wrap-around and touches no slot. |
| MemTimeBlock.MemTimeBlock.Flush | src/db/io/mem_time_block.rs:107-114 | Writes the buffer if it has changed. |
| IndexTimeFile.IndexTimeFile.Open | src/db/io/index_time_file.rs:20-24 | Opening the two files of some entries gives an index that answers for those entries, with the key file as it was. |
| IndexTimeFile.IndexTimeFile.Put | src/db/io/index_time_file.rs:28-41 | Refuses times that are not positive; otherwise appends the entry to the list the index answers for. |
| IndexTimeFile.IndexTimeFile.GetBucketEntries | src/db/io/index_time_file.rs:131-159 | The entries of one 500 ms slot, stably sorted by time, newest first among equal times. |
| IndexTimeFile.IndexTimeFile.Read | src/db/io/index_time_file.rs:45-63 | For a range shorter than a day over entries within a day of it: all stored entries whose 500 ms slot the steps from the start meet, each once, sorted by time, newest first among equal times. For a day and longer: every entry exactly as often as it was put. For any range: the buckets met stepping forward, at most 172800 of them. |
| IndexTimeFile.IndexTimeFile.ReadInRange | src/db/io/index_time_file.rs:67-96 | For a range shorter than a day, midnight included, whose start is no later within its 500 ms than its end: exactly the stored entries of the range, sorted by time, newest first among equal times. For a day and longer: exactly the stored entries of the range, each as often as it was put. For any range: the buckets met with everything outside dropped, no entry more often than it was put. |
| IndexTimeFile.IndexTimeFile.ReadFromEnd | src/db/io/index_time_file.rs:99-117 | The same for the slots met stepping back from the end, in exactly the opposite order; for a day and longer every entry exactly as often as it was put. |
| IndexTimeFile.IndexTimeFile.GetDataPosFirst | src/db/io/index_time_file.rs:162-179 | The position at the bottom of the first chain met, stepping forward. |
| IndexTimeFile.IndexTimeFile.GetDataPosLast | src/db/io/index_time_file.rs:182-194 | The position at the top of the first chain met, stepping backward. |
| IndexTimeFile.IndexTimeFile.Flush | src/db/io/index_time_file.rs:196-200 | Everything put so far becomes what a crash keeps. |
| IndexTimeFile.CrashAndReopen | src/db/io/index_time_file.rs:196-200 | The reopened index holds exactly the entries of the last flush; the key file keeps every byte. |
| IndexTimeFile.PutStep | src/db/io/index_time_file.rs:28-41 | The bytes after a put represent the longer entry list in memory and the flushed one on disk. |
| TimeRange.SortSorts | src/db/io/index_time_file.rs:156-158 | The sort orders by time and keeps every entry as often as it occurred. |
| TimeRange.SortIsStable | src/db/io/index_time_file.rs:156-158 | Entries of equal time keep their order, which is newest first. |
| TimeRange.StepsVisitDistinctSlots | src/db/io/mem_time_block.rs:59-64 | Fewer than 172800 steps of 500 ms, forward or backward, never return to a slot. |
| TimeRange.ReadersHandOutAtMostOnce | src/db/io/index_time_file.rs:45-117 | For any range, however long, none of the three readers hands out an entry more often than it was put. |
| TimeRange.FirstPosIffRead | src/db/io/index_time_file.rs:162-179 | There is a first position if and only if a forward read is not empty, and it belongs to its first bucket. |
| TimeRange.LastPosIffRead | src/db/io/index_time_file.rs:182-194 | There is a last position if and only if a backward read is not empty, and it belongs to its first bucket. |
| TimeRange.RangeReadUpToHorizon | src/db/io/index_time_file.rs:67-96 | When no two buckets of the range share a slot, a range read is exactly the stored entries from the start to the last bucket visited, sorted by time, newest first among equal times. |
| TimeRange.HorizonReachesEndIff | src/db/io/index_time_file.rs:67-96 | The last bucket visited reaches the end of the range exactly when the start is no later within its 500 ms than the end is. |
| TimeRange.RangeReadExactIff | src/db/io/index_time_file.rs:67-96 | For positive times: a range read returns the stored entries of the range in order, for every list that puts can build, if and only if the range is shorter than a day and its start is no later within its 500 ms than its end. Otherwise an entry at the end is missed or a later entry comes first. |
| TimeRange.RangeReadExact | src/db/io/index_time_file.rs:67-96 | In such a range the read is exact for any list of entries and any zone. |
| TimeRange.RangeReadLists | src/db/io/index_time_file.rs:67-96 | Such a read entry by entry: the numbers of the entries of the range, all of them and no others, ordered by time and newest first among equal times. |
| TimeRange.ForwardLists | src/db/io/index_time_file.rs:45-63 | A forward read entry by entry: every entry between the start of the first slot and the end of the last one, ordered the same way. |
| TimeRange.BackwardLists | src/db/io/index_time_file.rs:99-117 | A backward read entry by entry: every entry between the start of the last slot met and the end of the first, in the opposite order. |
| TimeRange.LongReadsHandOutAll | src/db/io/index_time_file.rs:45-117 | A range of a day or longer meets every slot: either direction hands out every entry exactly as often as it was put, and the range read exactly the entries of the range. |
| TimeRange.BucketIsSelection | src/db/io/index_time_file.rs:131-159 | Among entries within a day of each other a slot holds exactly those of its 500 ms. |
| TimeRange.SlotOfClock | src/db/io/mem_time_block.rs:59-64 | Slot k is the local time of day from 500 k to 500 k + 499 ms after midnight, on every day. |
| TimeRange.FirstPosIs | src/db/io/index_time_file.rs:162-179 | The first position is that of the entry put first into the first slot met that has one; all slots before it are empty, and there is none only if all are. |
| TimeRange.LastPosIs | src/db/io/index_time_file.rs:182-194 | The last position is that of the entry put last into the first such slot met stepping backward. |
| RealDataFile.RealDataFile.Write | src/db/io/real_data_file.rs:32-39 | Returns the old length of the whole content, buffered part included, and appends to it. |
| RealDataFile.RealDataFile.Read | src/db/io/real_data_file.rs:52-59 | Flushes first and reads from the whole content; a read past the end is an error. |
| RealDataFile.RealDataFile.Flush | src/db/io/real_data_file.rs:66-68 | The content is unchanged and nothing is pending. |
| XLogStore.XLogStore.Open | src/db/xlog_store.rs:22-41 | Opening the seven files of some log, or of one log per index after a crash between flushes, gives a store that answers for it, with the content of the files. |
| XLogStore.XLogStore.Write | src/db/xlog_store.rs:45-66 | Refuses times that are not positive, otherwise appends one entry to the log that each index answers for. The data file gains one frame, of data of any length, also for a refused time; each key file grows by its 22 bytes or not at all. |
| XLogStore.XLogStore.ReadByTxid | src/db/xlog_store.rs:69-76 | If entry i carries the transaction id and no later one does: the data of entry i, or the error its length causes; if no entry carries it: nothing. No file content changes. |
| XLogStore.XLogStore.ReadByGxid | src/db/xlog_store.rs:79-90 | Exactly the data of the entries that carry the group id, for an id that is not 0, newest first, or the error of one whose length cannot be read back; no file content changes. |
| XLogStore.XLogStore.ReadByTime | src/db/xlog_store.rs:94-109 | For a well-aligned range shorter than a day: exactly the entries of the range whose data can be read back, by their numbers in the log, earlier times first, of equal times the one logged later first, each with its time and data. For any range never one twice; no file content changes. |
| XLogStore.XLogStore.ReadDataAt | src/db/xlog_store.rs:113-121 | Reads the frame at a position through the buffered file. |
| XLogStore.XLogStore.Flush | src/db/xlog_store.rs:123-129 | Data, then the three indexes: the whole log so far becomes what a crash keeps; no file content changes. |
| XLogStore.XLogStore.FlushData | src/db/xlog_store.rs:123-129 | Every frame is now in the part of the data file that a crash leaves; no index answers differently. |
| XLogStore.XLogStore.FlushTime | src/db/xlog_store.rs:123-129 | Requires that the data has been flushed; then the time index keeps all its entries over a crash, and data and key files hold what they held. |
| XLogStore.XLogStore.FlushTxid | src/db/xlog_store.rs:123-129 | The same for the transaction index. |
| XLogStore.XLogStore.FlushGxid | src/db/xlog_store.rs:123-129 | The same for the group index. |
| XLogStore.CrashAndReopen | src/db/xlog_store.rs:123-129 | Slot tables as each was last flushed, key files complete, data file cut anywhere at or beyond its flushed length: each index of the reopened store answers for its own flushed part of the log, and every offset it hands out starts a complete frame with the data logged there. |
| XLogStore.CrashDuringFlush | src/db/xlog_store.rs:123-129 | A crash after any of the four steps of a flush: the indexes flushed so far keep the whole log, the others their earlier part; data cut, key files complete. |
| XLogRuns.RunThroughCrash | src/db/xlog_store.rs:45-129 | For any entries that the 5-byte positions can hold: written in an empty directory and flushed, more written and lost in a crash that cuts the data file anywhere behind the flushed part, more written to what is left. Every query by transaction, group or time then answers, entry by entry, as if only the first and the last had ever been written. |
| XLogRuns.WriteAll | src/db/xlog_store.rs:45-66 | Any number of writes that fit, one after the other: each index gains exactly these entries, none of them flushed, and the files grow by no more than they need. |
| XLogStore.CrashAfterLateFlush | src/db/db_manager.rs:147-153 | Entries written between the flush of the data and that of an index: after a crash a lookup finds the entry that carries the transaction id and has no later one beside it; reading it gives its data if its frame lies in front of the cut and an error if not. |
| XLogFrames.LookupAfterCut | src/db/xlog_store.rs:69-90 | The same for every entry of an id, over a data file cut anywhere: those in front of the cut, among them all that were written before the data was flushed, read as ever, and the others are errors. |
| XLogFrames.LostPositionIsTaken | src/db/xlog_store.rs:45-121 | An input: the position of a frame lost altogether hands out the next frame written. |
| XLogStore.FlushedLogComesBack | src/db/xlog_store.rs:123-129 | When all three indexes hold the same log, a complete flush makes a crash keep exactly that log in each of them. |
| XLogStore.ShortDataComesBack | src/db/xlog_store.rs:69-90 | Data of at most 32767 bytes comes back as it was written. |
| XLogFrames.ViewAfterCrash | src/db/xlog_store.rs:123-129 | What an index had flushed has all its frames complete in the file that the crash leaves. |
| XLogFrames.ViewAfterIndexFlush | src/db/xlog_store.rs:123-129 | Flushing an index keeps that true, provided the data has been flushed before. |
| XLogFrames.IndexBeforeDataLosesFrames | src/db/xlog_store.rs:123-129 | An input: with the index flushed before the data, a crash leaves an offset that leads to no frame. |
| XLogFrames.FrameReadsBackIff | src/db/xlog_store.rs:113-121 | A frame reads back if and only if its data is at most 32767 bytes. |
| XLogFrames.LookupLeadsToData | src/db/xlog_store.rs:69-90 | Every position the transaction and group indexes hold is the start of a complete frame with the data logged for that id. |
| DiskForms.XLogKeysAre | src/db/xlog_store.rs:45-66 | What a write puts into the three indexes: eight bytes of the transaction id, of the time and, unless it is 0, of the group id, each with the five bytes of the position. |
| DiskForms.XLogFrameIs | src/db/xlog_store.rs:113-121 | What reading any position of the data file gives. |
| XLogFrames.TimeQueryIsOnLog | src/db/xlog_store.rs:94-109 | Resolving what the time index returns gives the same query over the log itself. |
| XLogFrames.TransactionData | src/db/xlog_store.rs:52-57 | What the transaction index leads to first is the data of the entry that carries the id and has no later one beside it; nothing if no entry carries the id. |
| XLogFrames.GroupData | src/db/xlog_store.rs:59-63 | What the group index leads to is the data of exactly the entries that carry the group id, for an id that is not 0, newest first. |
| XLogFrames.TimeQueryLists | src/db/xlog_store.rs:94-109 | A time query lists exactly the entries of the range whose data can be read back, by their numbers in the log, each once and in order. |
| XLogFrames.TransactionWithin | src/db/xlog_store.rs:69-76 | After a cut of the data file a lookup leads to the same entry, and reading it succeeds exactly when its frame lies in front of the cut. |
| XLogFrames.ShortDataIsDelivered | src/db/xlog_store.rs:94-109 | A time query skips no entry whose data is at most 32767 bytes. |
| XLogStore.EmptyDirectoryHoldsNothing | src/db/xlog_store.rs:22-41 | An empty directory represents the empty log. |
| CounterStore.CounterStore.Write | src/db/counter_store.rs:64-88 | Sets the bucket of the time in one key, creating its record with zeros (and nothing else when a new record has no such bucket), and extends the history of writes; what the last flush saved stays saved. States the bytes of the data file and the growth of the key file. The time type may differ from the one the record was created with. |
| CounterStore.CounterStore.WriteNewRecord | src/db/counter_store.rs:92-115 | Appends one complete record with a single value set, or none when its bucket is out of range. |
| CounterStore.CounterStore.UpdateValue | src/db/counter_store.rs:118-152 | On any file, record position and bucket: the bytes of the file afterwards, whether the call fails, and that a write past the end leaves the position counter of the data file wrong. |
| CounterStore.CounterStore.Read | src/db/counter_store.rs:155-164 | Every bucket of a known key is the last value written there, or zero; no file content changes. |
| CounterStore.CounterStore.ReadRecord | src/db/counter_store.rs:166-204 | Decodes header and values of the record at a position. |
| CounterStore.CounterStore.Open | src/db/counter_store.rs:42-57 | Opening the three files of some counters gives a store that answers for them. |
| CounterStore.CounterStore.FlushData | src/db/counter_store.rs:206-210 | Every record is now in the part of the data file that a crash leaves; no file content changes. |
| CounterStore.CounterStore.FlushIndex | src/db/counter_store.rs:206-210 | Requires that the data has been flushed; then every counter survives a crash, and no file content changes. |
| CounterStore.CounterStore.Flush | src/db/counter_store.rs:206-210 | Data, then index: every counter survives a crash; no file content changes. |
| CounterStore.CrashAndReopen | src/db/counter_store.rs:206-210 | The counters known at the last flush come back with everything written to them since, because their values are updated in place; newer counters vanish. The data file is cut, the key file complete. |
| CounterRuns.RunThroughCrash | src/db/counter_store.rs:64-210 | For any calls that fit: made in an empty directory and flushed, more made before a crash, more made on what is left. A read then shows, for every counter of the first calls, the last value that any of the three wrote to each bucket, and nothing of counters that only the second wrote. |
| CounterRuns.WriteThenRead | src/db/counter_store.rs:64-164 | A value written at a time of day and read back: the bucket that contains that minute shows it, and every other bucket and counter shows what it did before. |
| CounterRuns.WriteAll | src/db/counter_store.rs:64-88 | Any number of calls that fit, one after the other: the bytes of the data file, the table, the offsets and the history of writes are those of the calls in order. |
| CounterRuns.RunHolds | src/db/counter_store.rs:64-152 | After any run of calls every record is whole at its offset. |
| CounterStore.EmptyDirectoryHoldsNothing | src/db/counter_store.rs:42-57 | An empty directory holds no counters. |
| CounterRuns.UpdateHarmlessIff | src/db/counter_store.rs:118-152 | For every time of day and time type: an update of a record leaves the record of every other key as it was if and only if its bucket is below the bucket count of the record. The condition is the same over the files that runs of writes leave and over all files with any table of records. |
| CounterRecords.MinuteWriteHitsNeighbour | src/db/counter_store.rs:118-152 | An input: two hourly counters side by side, the first written again with the one-minute type at 00:24. The value replaces the header of the second record. |
| CounterRecords.CrashKeepsSaved | src/db/counter_store.rs:206-210 | The cut data file with the flushed index holds exactly the saved counters with their last values. |
| CounterRecords.FlushSaves | src/db/counter_store.rs:206-210 | After a flush every record lies in the part of the file that a crash leaves. |
| CounterRecords.ClockTimesHaveBuckets | src/db/counter_store.rs:232-244 | Every time of day on the clock has its bucket inside the record of every time type. |
| CounterRecords.BucketOfClock | src/db/counter_store.rs:217-244 | For every time of day and w of 1, 5, 10 and 60 minutes, the bucket is the one of w minutes that contains the time, and the buckets of a record make up the day; every other type has one bucket. |
| CounterRecords.BucketOfAny | src/db/counter_store.rs:232-244 | The bucket of numbers that are not on the clock: more than 59 minutes count past the hour, except for the hourly type. |
| CounterRecords.BucketOfNegative | src/db/counter_store.rs:232-244 | The bucket of a negative number wraps around to the top of the 64-bit range. |
| CounterRecords.CounterBytes | src/db/counter_store.rs:92-115 | The bytes of a record: 9, the time type, and the eight bytes of bucket b at 2 + 8 b. |
| CounterRecords.RecordReads | src/db/counter_store.rs:166-204 | What reading any record gives: its two type bytes and, for each bucket in order, four bytes when the first byte is 5 and eight otherwise. |
| CounterRecords.UpdateGoesTo | src/db/counter_store.rs:118-152 | Where an update writes in any record, and how many bytes. |
| CounterRecords.LastWrittenIs | src/db/counter_store.rs:64-88 | What a bucket shows is the value of the write to that key and bucket that no later one follows. |
| CounterRecords.UpdateHolds | src/db/counter_store.rs:118-152 | An update changes one value of one record; every other record and header is untouched. |
| CounterRecords.AppendHolds | src/db/counter_store.rs:92-115 | A new record leaves every other record alone. |
| CounterRecords.WriteReflects | src/db/counter_store.rs:64-88 | The table after a write shows, for every key and bucket, the last value written. |
| CounterRecords.NeverWritten | src/db/counter_store.rs:92-115 | A bucket nobody wrote reads as zero. |
| CounterRecords.CounterReadsBack | src/db/counter_store.rs:166-204 | A stored record decodes to its time type and its values. |
| SummaryStore.SummaryStore.Write | src/db/summary_store.rs:40-58 | Appends one summary, of data of any length, to the log that the four indexes and their shared data file represent. |
| SummaryStore.SummaryStore.ReadByType | src/db/summary_store.rs:61-77 | For every entry of a type in the same family, reachable or orphaned, what its position shows. When the file has all their frames: in write order exactly the 8-byte keys and the data of the summaries whose types share a family with the type asked for and whose length is strictly between 0 and 1000000; a query for statements shows those of type 2 and no others. |
| SummaryStore.SummaryStore.IndexForStype | src/db/summary_store.rs:79-86 | The application index for types 1 and 6, the statement index for 2, the end-user index for 4 and 5, and the fourth for every other type. |
| SummaryStore.SameFamilyIff | src/db/summary_store.rs:79-86 | Two types share an index if and only if they are equal, or both are 1 or 6, or both are 4 or 5, or neither is one of 1, 2, 4, 5 and 6. |
| SummaryStore.ShownLists | src/db/summary_store.rs:61-77 | A query with all frames in place lists exactly the summaries of types of the same family whose length is in range, by their numbers in the log, with key and data. |
| SummaryStore.CollectedLists | src/db/summary_store.rs:61-77 | On any file: exactly the summaries of such types whose position shows anything, with what it shows. |
| SummaryFrames.FrameShowsIff | src/db/summary_store.rs:61-77 | A frame is handed out, with its own data, if and only if its length is strictly between 0 and 1000000. |
| SummaryStore.SummaryStore.Open | src/db/summary_store.rs:19-36 | Opening the nine files of some log gives a store that answers for it, orphaned entries included. |
| SummaryStore.SummaryStore.Flush | src/db/summary_store.rs:88-95 | Every frame written so far is in the part of the data file that a crash leaves; the answers and the content of all files stay the same. |
| SummaryStore.CrashAndReopen | src/db/summary_store.rs:61-77 | Slot tables as last flushed, key files complete, data file cut anywhere at or beyond its flushed length: the reopened store still has an entry for every summary, flushed or not, and shows exactly those whose data the cut has left. |
| SummaryStore.CollectAfterCut | src/db/summary_store.rs:61-77 | The same about the bytes: a cut frame shows nothing, a whole one what it showed before. |
| SummaryStore.LaterWritesKeepIff | src/db/summary_store.rs:40-77 | The entries made before a crash keep showing the same through all later writes if and only if every position they lead to is settled in the cut file. |
| SummaryStore.OrphanShowsForeignData | src/db/summary_store.rs:40-77 | An input: an application summary is lost in a crash, the next statement summary takes its place, and a query for applications hands the statement data out under the old key. |
| SummaryFrames.PositionStaysIff | src/db/summary_store.rs:61-77 | What one position shows stays the same through all later appends if and only if its length field is in the file and out of range, or its data is in the file too. |
| SummaryFrames.CutFrameShows | src/db/summary_store.rs:61-77 | Of a frame that the end of the file may cut, the data is shown if it is all there, and nothing otherwise. |
| SummaryStore.CollectIsShown | src/db/summary_store.rs:61-77 | Following the positions of one index through the shared file shows the summaries of that family only. |
| SummaryStore.RoutedElsewhere | src/db/summary_store.rs:40-58 | A write leaves the index of every other family right. |
| DiskForms.SummaryKeysAre | src/db/summary_store.rs:40-58 | What a write puts into the index of the type: four bytes of the time of day, four of the id, and the eight bytes of the position. |
| DiskForms.SummaryFrameIs | src/db/summary_store.rs:61-77 | What reading any position of the data file shows. |
| ByteCodec.DecimalRoundTrip | src/protocol/data_input.rs:129-140 | Reading a written decimal gives every i64 back and leaves exactly what followed. |
| ByteCodec.DecimalIsShortest | src/protocol/data_output.rs:91-114 | No byte string that reads as the value is shorter than the one written. |
| ByteCodec.BlobRoundTripIff | src/protocol/data_input.rs:143-157 | A blob survives if and only if its length fits the signed 4-byte header. |
| ByteCodec.ShortBytesRoundTripIff | src/protocol/data_input.rs:170-173 | A short byte string survives if and only if it is shorter than 65536 bytes. |
| ByteCodec.SignedToBE | src/protocol/data_input.rs:203-221 | Sign extension is right at every width at which the value fits. |
| ByteCodec.Int3IsSigned | src/protocol/data_input.rs:196-201 | The 3-byte reader is two's complement. |
| ByteCodec.Long5IsSigned | src/protocol/data_input.rs:223-230 | The 5-byte reader is two's complement. |
| ByteCodec.Bytes3AreBigEndian | src/protocol/data_output.rs:184-190 | The shifts and masks of the 3-byte form are the big-endian low bytes, negative values included. |
| ByteCodec.Bytes5AreBigEndian | src/protocol/data_output.rs:192-200 | The same for the 5-byte form. |
| ByteCodec.Long5RoundTrip | src/protocol/data_output.rs:192-200 | Positions below 2^39 survive the 5-byte form. |
| ByteCodec.BlobExtends | src/protocol/data_input.rs:143-157 | More input changes nothing about a blob that was read. |
| ByteCodec.DecimalExtends | src/protocol/data_input.rs:129-140 | Nor about a decimal. |
| DataInput.DataInputX.ReadN | src/protocol/data_input.rs:39-44 | Takes the next bytes or fails; the offset counter moves by the length asked for either way. |
| DataInput.DataInputX.ReadDecimal | src/protocol/data_input.rs:129-140 | Reads like the decimal decoder; the counter moves by the bytes consumed. |
| DataInput.DataInputX.ReadInt3 | src/protocol/data_input.rs:95-98 | Reads a signed 3-byte number. |
| DataInput.DataInputX.ReadLong5 | src/protocol/data_input.rs:108-111 | Reads a signed 5-byte number. |
| DataInput.DataInputX.ReadBlob | src/protocol/data_input.rs:143-157 | Reads like the blob decoder. |
| DataInput.DataInputX.ReadShortBytes | src/protocol/data_input.rs:170-173 | Reads a 2-byte unsigned length and that many bytes. |
| DataOutput.DataOutputX.WriteDecimal | src/protocol/data_output.rs:91-114 | Appends the tag and the two's complement bytes of the smallest width. |
| DataOutput.DataOutputX.WriteInt3 | src/protocol/data_output.rs:59-64 | Appends the low three bytes, most significant first. |
| DataOutput.DataOutputX.WriteLong5 | src/protocol/data_output.rs:71-78 | Appends the low five bytes, most significant first. |
| DataOutput.DataOutputX.WriteBlob | src/protocol/data_output.rs:117-136 | Appends the header that fits the length, and the bytes. |
| DataOutput.DataOutputX.WriteShortBytes | src/protocol/data_output.rs:154-157 | Appends the low 16 bits of the length and the bytes. |
| Values.ValueRoundTrip | src/protocol/value/mod.rs:129-294 | Reading any encoding of a value, for any iteration order of every map inside it, followed by any bytes, yields the value and leaves exactly those bytes. |
| Values.DecValue | src/protocol/data_input.rs:175-179 | On every input a value that is read has consumed at least one byte, so reading terminates. |
| Values.EntriesRoundTrip | src/protocol/value/mod.rs:218-227 | Reading the entries of a map in any order rebuilds the map. |
| ValueIO.WriteValue | src/protocol/data_output.rs:159-162 | Appends an encoding of the value. |
| ValueIO.WriteBody | src/protocol/value/mod.rs:232-294 | Appends an encoding of the body of every kind. |
| ValueIO.WriteMap | src/protocol/value/mod.rs:285-291 | Writes each entry of a map once, in whatever order it comes. |
| ValueIO.ReadValue | src/protocol/data_input.rs:175-179 | Reads like the recursive decoder, with the counter at the bytes consumed. |
| ValueIO.ReadBody | src/protocol/value/mod.rs:129-230 | The same for the body of a given kind; an unknown kind is an error. |
| ValueIO.ReadMap | src/protocol/value/mod.rs:218-227 | Reads entries one by one; a repeated key replaces the earlier value. |
| ValueIO.ReadText | src/protocol/data_input.rs:159-163 | A blob that must be UTF-8. |
| WireForms.DecimalIs | src/protocol/data_output.rs:91-114 | The bytes of a decimal for every range of values: 0 alone for zero, else the width and that many bytes. |
| WireForms.DecimalReads | src/protocol/data_input.rs:129-140 | What a reader makes of any tag and any bytes behind it: every tag above 5 means eight bytes. |
| WireForms.BlobReads | src/protocol/data_input.rs:143-157 | The same for blobs: every header, short input and negative lengths included. |
| WireForms.BlobIs | src/protocol/data_output.rs:117-136 | The bytes of a blob for every length: 253 and 65535 are the last lengths of the shorter headers. |
| WireForms.CodesAre | src/protocol/value/mod.rs:10-26 | Every kind of value starts with its own type code, given as a number. |
| WireForms.CodesDecide | src/protocol/value/mod.rs:129-230 | The kind of a value that is read is decided by its code; every other code is an error. |
| WireForms.ScalarBodiesAre | src/protocol/value/mod.rs:232-254 | The body of a null, a boolean, a decimal, a float, a double and a text hash. |
| WireForms.TextBodiesAre | src/protocol/value/mod.rs:251-254 | The body of a text, a blob and an address. |
| WireForms.DoubleSummaryBodyIs | src/protocol/value/mod.rs:239-244 | The count, then the sum, the minimum and the maximum. |
| WireForms.LongSummaryBodyIs | src/protocol/value/mod.rs:245-250 | The same with whole numbers. |
| WireForms.ListIs | src/protocol/value/mod.rs:255-260 | The encodings of a list: its count and its items in order, each with its code. |
| WireForms.IntArrayIs | src/protocol/value/mod.rs:261-266 | The encodings of an array: its count and its items in order, without codes. |
| WireForms.FloatArrayIs | src/protocol/value/mod.rs:267-272 | The same for floats. |
| WireForms.TextArrayIs | src/protocol/value/mod.rs:273-278 | The same for texts. |
| WireForms.LongArrayIs | src/protocol/value/mod.rs:279-284 | The same for longs. |
| WireForms.MapIs | src/protocol/value/mod.rs:285-291 | The encodings of a map: its count and its entries in any order, each the key and the value with its code. |
| XLogPack.PackRoundTrip | src/protocol/pack/mod.rs:254-377 | Reading a written pack gives all 43 fields back and leaves what followed. |
| XLogPack.OlderSender | src/protocol/pack/mod.rs:281-327 | A payload that stops after any group at or beyond the fixed part gives the pack with every later group at its default. |
| XLogPack.NewerSender | src/protocol/pack/mod.rs:254-327 | Unknown bytes at the end of the payload change nothing. |
| XLogPack.CutReadsIff | src/protocol/pack/mod.rs:254-327 | A payload cut short is read if and only if the cut falls on such a group boundary; any other cut is an error. |
| XLogPack.LayoutMatches | src/protocol/pack/mod.rs:259-324 | The reader expects the fields of each group in the order and form the writer emits them. |
| XLogPack.AssignExtends | src/protocol/pack/mod.rs:259-324 | Reading a group assigns exactly the fields of that group, each to itself. |
| XLogWire.PayloadIs | src/protocol/pack/mod.rs:331-377 | The payload of a pack is the 43 fields in this order, each in this form, written out field by field. |
| XLogWire.WireReads | src/protocol/pack/mod.rs:254-327 | Bytes that spell the 43 fields in that order, and whatever a newer sender adds, read as the pack with each field at its place. |
| XLogWire.FixedWireReads | src/protocol/pack/mod.rs:259-280 | The first 20 fields alone read as a pack whose other 23 are zero, false or empty. |
| XLogWire.CutFixedPartFails | src/protocol/pack/mod.rs:259-280 | A payload that stops inside the first 20 fields is an error. |
| XLogPackIO.Read | src/protocol/pack/mod.rs:254-327 | On bytes that spell the 43 fields of a pack in wire order, whatever a newer sender adds and whatever follows, returns that pack; on all other input reads like the pack decoder. |
| XLogPackIO.Write | src/protocol/pack/mod.rs:331-377 | Appends one blob of the 43 fields of the pack spelled out in wire order. |
| Crc32.HashBytes | src/util/hash.rs:39-45 | The table loop computes the bitwise reflected division by 0xEDB88320 with both complements, for every byte string. |
| Crc32.CheckValue | src/util/hash.rs:39-47 | The check value of this CRC: "123456789" gives CBF43926. |
| Crc32.TableIsBitwise | src/util/hash.rs:2-35 | Every one of the 256 table entries is eight bitwise steps of its index. |
| Crc32.Step8IsLinear | src/util/hash.rs:42 | Eight bit-steps are linear: the step of a sum of states is the sum of their steps. |
| Crc32.ByteUpdateIsBijection | src/util/hash.rs:42 | The update of the state by a byte is a bijection, with its inverse given. |
| Crc32.BurstsAreDetected | src/util/hash.rs:39-45 | Two inputs of equal length that differ only within four consecutive bytes have different hashes. |
| Hexa32.ToHexa32 | src/util/hash.rs:55-68 | The text without a leading zero whose value in base 32 is the hash, or the hash plus 2^32 when it is negative. |
| Hexa32.TextIffValue | src/util/hash.rs:55-68 | The text is the one digit string without a leading zero that has that value. |
| Hexa32.DigitsAre | src/util/hash.rs:55-68 | The digits are 0 to 9 and a to v, the highest first; other characters are none. |
| Hexa32.TextsDiffer | src/util/hash.rs:55-68 | Different hashes have different texts. |
| XLogCache.XLogCache.Put | src/core/cache/xlog_cache.rs:30-50 | The buffer holds the last max(1, max_size) logs, numbered consecutively. |
| XLogCache.XLogCache.GetSince | src/core/cache/xlog_cache.rs:53-61 | Number by number: a log is found if and only if its number is above the one given, it is among the last ones the buffer holds, and it belongs to the object asked for, if one is; in the order of the numbers. |
| XLogCache.SinceAnswers | src/core/cache/xlog_cache.rs:53-61 | The same about the whole log: which numbers a reader that has seen everything up to a number still gets. |
| XLogCache.XLogCache.LatestIndex | src/core/cache/xlog_cache.rs:64-67 | The number of the newest log, 0 when there is none. |
| XLogCache.XLogCache.GetLatest | src/core/cache/xlog_cache.rs:70-75 | The newest logs, as many as asked for and kept. |
| XLogCache.SinceIsUnseen | src/core/cache/xlog_cache.rs:53-61 | Filtering the buffer by number is the tail of all logs ever put, cut by the window. |
| XLogPolling.XLogRealTime | src/netio/service/xlog_service.rs:11-44 | Sends exactly the kept logs above the number that the request carries as a decimal, or above 0 when it carries none, each as a byte of 3 and its data, and then the newest number in a map. |
| XLogPolling.RepliedIndexComesBack | src/netio/service/xlog_service.rs:23-41 | The number survives the signed form it travels in. |
| XLogPolling.RequestedIndexIs | src/netio/service/xlog_service.rs:23-26 | A request asks from the decimal under "index", taken as unsigned, and from 0 without one. |
| XLogPolling.ReplyTableIs | src/netio/service/xlog_service.rs:38-41 | The reply carries the newest number under "index", as a signed decimal. |
| XLogPolling.FramesAre | src/netio/service/xlog_service.rs:31-35 | Each log goes out as a byte of 3 and its data. |
| XLogPolling.ExactlyOnceIff | src/netio/service/xlog_service.rs:23-43 | For any number a client may send: chained polls deliver every log above the starting number exactly once and in order if and only if no poll finds more unread logs than the cache keeps. The starting number is the client's own, or the newest number of the first poll if that is smaller, as after a restart of the server. |
| XLogPolling.FreshClientGetsAll | src/netio/service/xlog_service.rs:23-43 | A client that starts without a number and keeps up gets every log from number 1 on, once and in order, as far as its last poll has read. |
| XLogPolling.NothingBelowStart | src/netio/service/xlog_service.rs:23-43 | A chain never delivers a log up to its starting number: a client from before a restart gets none of the logs put before its first poll, nor those its number already covers. |
| XLogPolling.FewBetweenPollsKeepUp | src/netio/service/xlog_service.rs:23-43 | At most as many puts as the cache keeps between two polls is enough for that. |
| XLogInterleaving.NeverDeliveredTwice | src/core/cache/xlog_cache.rs:30-67 | With put and poll split at their locks, no interleaving delivers a log twice. |
| XLogInterleaving.PassedIsSettled | src/core/cache/xlog_cache.rs:53-67 | No continuation delivers a log whose number the cursor has passed. |
| XLogInterleaving.PassedNumberIff | src/core/cache/xlog_cache.rs:53-67 | A number that a poll passes is ever delivered if and only if its log is in the cache when the poll takes its snapshot. |
| XLogInterleaving.PollDeliversAllIff | src/core/cache/xlog_cache.rs:30-67 | Every number a poll passes is delivered if and only if, when it begins, no put of an unread number is pending and no unread log has been evicted, and no put takes a number before the reply. |
| XLogInterleaving.OneTaskPollIff | src/core/xlog_core.rs:27-43 | With one putting task: if and only if no unread put is pending, no more logs are unread than the cache keeps, and no put begins before the reply. |
| XLogInterleaving.OneTaskCanLose | src/netio/service/xlog_service.rs:28-29 | A run of one putting task that loses a log for good although nothing is pending at either read of the poll and the log stays in the cache: a put completes between the two reads. |
| MultiPacket.MultiPacketProcessor.Add | src/netio/multi_packet.rs:23-57 | Drops entries of 1000 ms and older, adds the fragment, and answers when the number of fragments reaches the total. |
| MultiPacket.AnswersAreWhole | src/netio/multi_packet.rs:23-57 | Whatever the timing, repeats and other packets: no answer before every fragment has arrived, and an answer is exactly the concatenation. |
| MultiPacket.CompletingArrivalAnswers | src/netio/multi_packet.rs:23-57 | When all fragments arrive within 1000 ms of the first, the arrival that completes the set is answered with the concatenation. |
| MultiPacket.CompletingArrivalAnswersIff | src/netio/multi_packet.rs:23-57 | For every run, with repeats, other packets and any timing: an arrival is answered, with the concatenation, if and only if it completes the attempt it belongs to, where an attempt begins with its first fragment and ends when it is complete or 1000 ms old. |
| MultiPacket.AnsweredWithoutRepeatsIff | src/netio/multi_packet.rs:23-57 | Without repeats, the arrival that completes the fragments is answered if and only if it comes within 1000 ms of the first. |
| MultiPacket.InTimeIff | src/netio/multi_packet.rs:23-57 | In time means that the last fragment comes less than 1000 ms after each earlier one of the packet. |
| MultiPacket.FirstTotalCounts | src/netio/multi_packet.rs:23-57 | Within 1000 ms of its first fragment a packet keeps the total that fragment gave, and a fragment of the same number is replaced; later the arrival starts anew with its own total. The answer comes when the number of fragments is that total. |
| MultiPacket.JoinedIs | src/netio/multi_packet.rs:44-53 | The answer is the first fragment followed by the others in order. |
| MultiPacket.SeenIff | src/netio/multi_packet.rs:23-57 | The fragments that count are those that arrived for the packet since the attempt began. |
| AgentPool.TcpAgentManager.Add | src/netio/tcp/tcp_agent_manager.rs:29-35 | A pool never exceeds 50 workers; a full pool keeps the worker out. |
| AgentPool.TcpAgentManager.Get | src/netio/tcp/tcp_agent_manager.rs:38-50 | Terminates, never returns a closed worker, returns nothing only if every worker is closed, and rotates the queue. |
| AgentPool.TcpAgentManager.Remove | src/netio/tcp/tcp_agent_manager.rs:58-64 | Closes every worker of the agent and touches no other pool. |
| AgentPool.RoundRobin | src/netio/tcp/tcp_agent_manager.rs:38-50 | While nothing opens or closes, any number of gets in a row return the open workers in queue order, over and over. |
| AgentPool.GetSplits | src/netio/tcp/tcp_agent_manager.rs:38-50 | A get drops the closed workers in front of the first open one, returns that one and moves it to the back, behind all that were behind it. |
| AgentPool.OpenRound | src/netio/tcp/tcp_agent_manager.rs:38-50 | With all workers open, the n-th get returns the worker at n modulo their number. |
| AgentPool.EachOnce | src/netio/tcp/tcp_agent_manager.rs:38-50 | k gets for k open workers return each of them exactly once. |

## Left out

- Sockets, tasks, channels, HTTP, logging and configuration; handlers other than the XLog poll.
- Disk errors, reads that return fewer bytes than asked for while more exist, and torn records at the end of a key file: file operations succeed completely, and a read past the end is an error.
- Interleaved operations: every operation is atomic. One worker writes to each store, but the monitor flushes from another task (src/db/db_manager.rs:147-153), so that nothing is written between the steps of a flush is an assumption of the flush methods of the indexes; `XLogStore.CrashAfterLateFlush` and `XLogFrames.LookupAfterCut` say what a crash leaves without it. Only the XLog poll is also modelled in finer steps.
- Buffered writing of the data file is modelled as a flushed part and a pending part; when the operating system writes a pending part early, a crash keeps more, which the cut in the `CrashAndReopen` methods allows for. A value that a counter update writes reaches the file at once, as its own file handle does not buffer; power loss, which can undo writes the operating system has accepted, is not modelled.
- Local time is a fixed offset from UTC (`zone`), without daylight saving; the clock of the reassembler is a parameter.
- Panics and failed allocations (an element count or blob length no buffer can have) are failed reads; the depth of the call stack is not modelled.
- f32 and f64 values are their bit patterns; no arithmetic on them is modelled.
- Slot counts and the offset of a counter update wrap as in a release build; a time within 500 ms of the largest i64 is not guarded against overflow, because no clock yields it.
- The size of a hash table is a parameter of the indexes, of `XLogStore` and of `CounterStore`; `SummaryStore` opens its four with one megabyte.
- The callbacks of `read`, `read_with_reader`, `read_from_end`, `read_all` and `read_by_type` are modelled as the list of calls made, and the reader passed to `read_with_reader` is applied to that list afterwards.
- The table of `Crc32` is laid out as 32 rows of 8 entries, because the solver handles short rows better than one list of 256.
- CounterStore.CounterStore.Write: an update with a bucket that the existing record does not have is excluded by its precondition, because the code then writes outside the record; `CounterStore.UpdateValue` models that write, and `CounterRecords.UpdateHarmlessIff` and `MinuteWriteHitsNeighbour` say what it does to other records.
- IndexKeyFile.IndexKeyFile.Put: keys of 32768 bytes and more are excluded by its precondition. The code appends them; a key below 65536 bytes then makes the lookups that walk past its record fail, for every key of the slot, and from 65536 bytes on a key can also be mistaken for a short one. `LongKeys` states this for the loops of `get` and `get_all`; scans and deletes with such keys are not modelled.
- AlertStore, ProfileStore and TextStore: smaller instances of the XLog store and the index theorems; the alert cache returns a cursor its own filter excludes, so exactly-once polling does not hold of it.
- Packs other than the transaction pack and the map pack of the poll reply; the request map of a poll is a parameter.
- The keep-alive monitor of the agent pool, login, accounts, the key-value files, the object, counter and status caches, the Influx line parser and the daily cleaner.
