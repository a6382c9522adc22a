/** The store of daily counters: an index from counter keys to records, and the data file in which
    the values of a record are updated in place. */
module CounterStore {
  import opened ByteCodec
  import opened DataInput
  import opened RealKeyFile
  import opened SlotBuffer
  import opened KeyLog
  import opened SlotChains
  import opened KeyIndex
  import opened CounterRecords
  import RDF = RealDataFile
  import KI = IndexKeyFile

  /** The content of the three files on disk; [] for a missing one. */
  datatype StoreFiles = StoreFiles(table: Bytes, keys: Bytes, data: Bytes)

  /** The files hold these counters: the index leads to the records, and the records to the values. */
  ghost predicate FilesHoldCounters(files: StoreFiles, memSize: nat, log: Log, heads: Heads, ops: History,
                                    table: Table, offs: Offsets, writes: seq<CounterWrite>) {
    && KI.FilesHold(Loaded(files.table, memSize), KeyContent(files.keys), log, heads, ops)
    && StoreState(files.data, ops, table, offs, writes)
  }

  lemma EmptyDirectoryHoldsNothing(memSize: nat)
    requires memSize >= KEY_LENGTH
    ensures FilesHoldCounters(StoreFiles([], [], []), memSize, [], KI.NoHeads(memSize), [], map[], map[], [])
  {
    hide KI.FilesHold, Loaded;
    KI.NoFilesHoldNothing(memSize);
  }

  /** The size of a counter's entry in the key file. */
  function EntrySize(key: Bytes): nat { 14 + |key| }

  class CounterStore {
    const index: KI.IndexKeyFile
    const dataFile: RDF.RealDataFile

    /** The counters, where their records start, and every write so far. */
    ghost var table: Table
    ghost var offs: Offsets
    ghost var writes: seq<CounterWrite>

    /** The counters that the last flush knew. */
    ghost var saved: set<Bytes>

    ghost function Repr(): set<object> { {this, dataFile} + index.Repr }

    ghost predicate Valid()
      reads Repr()
    {
      && {this, dataFile} !! index.Repr
      && index in index.Repr
      && index.Valid() && dataFile.Valid()
      && StoreState(dataFile.Contents(), index.ops, table, offs, writes)
      && SavedState(dataFile.synced, index.durable, table, offs, saved)
    }

    ghost predicate Same(table: Table, writes: seq<CounterWrite>, saved: set<Bytes>)
      reads this
    {
      this.table == table && this.writes == writes && this.saved == saved
    }

    /** Opens the store over its files, which must hold some counters. */
    constructor Open(files: StoreFiles, memSize: nat, ghost log: Log, ghost heads: Heads, ghost ops: History,
                     ghost table: Table, ghost offs: Offsets, ghost writes: seq<CounterWrite>)
      requires FilesHoldCounters(files, memSize, log, heads, ops, table, offs, writes)
      ensures Valid() && fresh(Repr())
      ensures Same(table, writes, table.Keys) && this.offs == offs
      ensures index.hashBlock.memSize == memSize && index.keyFile.bytes == KeyContent(files.keys)
      ensures dataFile.Contents() == files.data && dataFile.synced == |files.data|
    {
      hide KI.IndexKeyFile.Valid, KI.FilesHold, Loaded, StoreState, SavedState, KI.Keeps;
      FlushSaves(files.data, ops, table, offs, writes);
      index := new KI.IndexKeyFile.Open(files.table, files.keys, memSize, log, heads, ops, false);
      dataFile := new RDF.RealDataFile.Open(files.data);
      this.table, this.offs, this.writes, saved := table, offs, writes, table.Keys;
    }

    /** Stores a value in a counter's time bucket, in place if the counter has a record. For a new
        counter any time will do; in an existing record the bucket must be one that the record has,
        whatever time type the caller names now. */
    method Write(key: Bytes, hhmm: i32, value: Bytes, timeType: i8)
      requires Valid() && |value| == 8
      requires key in table ==> HhmmToBucket(hhmm, timeType) < BucketCount(table[key].timeType)
      requires |key| < 0x8000 && |dataFile.Contents()| < 0x80_0000_0000 && |index.keyFile.bytes| < 0x80_0000_0000
      modifies Repr()
      ensures Valid()
      ensures table == Written(old(table), key, timeType, HhmmToBucket(hhmm, timeType), value)
      ensures writes == old(writes) + [CounterWrite(key, HhmmToBucket(hhmm, timeType), value)]
      ensures saved == old(saved)
      ensures key in old(table) ==>
                && offs == old(offs) && index.keyFile.bytes == old(index.keyFile.bytes)
                && dataFile.Contents() == Updated(old(dataFile.Contents()), offs[key], HhmmToBucket(hhmm, timeType),
                                                  value)
                && dataFile.synced == |dataFile.Contents()| == |old(dataFile.Contents())|
      ensures key !in old(table) ==>
                && offs == old(offs)[key := |old(dataFile.Contents())|]
                && |index.keyFile.bytes| == |old(index.keyFile.bytes)| + EntrySize(key)
                && dataFile.Contents()
                   == old(dataFile.Contents()) + EncCounter(BlankWith(timeType, HhmmToBucket(hhmm, timeType), value))
                && dataFile.synced == old(dataFile.synced)
      ensures |dataFile.Contents()| == |old(dataFile.Contents())|
           + (if key in old(table) then 0 else CounterSize(timeType))
    {
      hide KI.IndexKeyFile.Valid, StoreState, SavedState, EncCounter, WellFormed, HhmmToBucket, BucketCount, ToBytes5,
           ToLong5, Replay, Written, Updated, ValueOffset, BlankWith, ReadAt, CounterSize;
      ghost var file, bucket := dataFile.Contents(), HhmmToBucket(hhmm, timeType);
      KeyLeads(file, index.ops, table, offs, writes, key);
      WriteKeepsSaved(dataFile.synced, dataFile.synced, index.durable, table, offs, saved, key, timeType, bucket, value,
                      |file|);
      WriteKeepsSaved(dataFile.synced, |file|, index.durable, table, offs, saved, key, timeType, bucket, value, |file|);
      var offsetBytes := index.Get(key);
      match offsetBytes {
        case Some(ob) =>
          UpdateStep(file, index.ops, table, offs, writes, key, timeType, bucket, value);
          var _ := UpdateValue(ToLong5(ob), hhmm, value, timeType);
        case None =>
          AppendStep(file, index.ops, table, offs, writes, key, timeType, bucket, value);
          var offset := WriteNewRecord(hhmm, value, timeType);
          PositionRecordSize(key, ToBytes5(offset));
          index.Put(key, ToBytes5(offset));
          offs := offs[key := offset];
      }
      table := Written(table, key, timeType, bucket, value);
      writes := writes + [CounterWrite(key, bucket, value)];
    }

    /** Appends a record of zeros with one value set, or none if its bucket is out of range. */
    method WriteNewRecord(hhmm: i32, value: Bytes, timeType: i8) returns (offset: nat)
      requires dataFile.Valid() && |value| == 8
      modifies dataFile
      ensures dataFile.Valid() && offset == |old(dataFile.Contents())| && dataFile.synced == old(dataFile.synced)
      ensures dataFile.Contents()
           == old(dataFile.Contents()) + EncCounter(BlankWith(timeType, HhmmToBucket(hhmm, timeType), value))
    {
      hide HhmmToBucket, BucketCount;
      var bucketCount := BucketCount(timeType);
      var recordSize := 2 + bucketCount * 8;
      var bucketIdx := HhmmToBucket(hhmm, timeType);
      var record: Bytes := Header(timeType) + seq(recordSize - 2, _ => 0);
      BlankRecord(timeType, bucketIdx, value);
      if bucketIdx < bucketCount {
        record := Splice(record, 2 + bucketIdx * 8, value);
      }
      offset := dataFile.Write(record);
    }

    /** Overwrites one value through a second handle on the file, after flushing the first. The
        value size comes from the record's own header. A write past the end makes the file longer
        without the first handle noticing, which then gives wrong positions. */
    method UpdateValue(recordOffset: int, hhmm: i32, value: Bytes, timeType: i8) returns (ok: bool)
      requires dataFile.Valid() && |value| == 8
      modifies dataFile
      ensures dataFile.Contents() == Updated(old(dataFile.Contents()), recordOffset, HhmmToBucket(hhmm, timeType),
                                             value)
      ensures dataFile.pending == [] && dataFile.offset == dataFile.synced == |old(dataFile.Contents())|
      ensures dataFile.Valid() <==> |dataFile.Contents()| == |old(dataFile.Contents())|
      ensures ok <==> UpdateTarget(old(dataFile.Contents()), recordOffset, HhmmToBucket(hhmm, timeType)).Ok?
    {
      hide HhmmToBucket, WriteAt;
      dataFile.Flush();
      assert dataFile.Contents() == dataFile.disk;
      var header := ReadAt(dataFile.disk, recordOffset, 2);
      if header.Err? {
        return false;
      }
      var valueSize := ValueSize(header.value[0]);
      var bucketIdx := HhmmToBucket(hhmm, timeType);
      var valueOffset := ValueOffset(recordOffset, bucketIdx, valueSize);
      if valueOffset < 0 {
        return false;
      }
      WriteAtIsNoShorter(dataFile.disk, valueOffset, value[..valueSize]);
      dataFile.disk := WriteAt(dataFile.disk, valueOffset, value[..valueSize]);
      assert dataFile.Contents() == dataFile.disk;
      ok := true;
    }

    /** The record of a counter: its time type and the last value written to every bucket, 0 where
        nothing was written. */
    method Read(key: Bytes) returns (r: Option<CounterRecord>)
      requires Valid()
      modifies dataFile
      ensures Valid() && Same(old(table), old(writes), old(saved)) && offs == old(offs)
      ensures dataFile.Contents() == old(dataFile.Contents()) && index.keyFile.bytes == old(index.keyFile.bytes)
      ensures r.Some? <==> key in table
      ensures r.Some? ==> r.value == CounterRecord(VALUE_TYPE_DOUBLE, table[key].timeType, table[key].values)
      ensures r.Some? ==> forall b: nat | b < |r.value.values| :: r.value.values[b] == LastWritten(writes, key, b)
    {
      hide KI.IndexKeyFile.Valid, EncCounter, WellFormed, Replay, ToBytes5, ToLong5, RecordsHold, IndexHolds, RecordIn,
           SavedState;
      SavedLater(dataFile.synced, |dataFile.Contents()|, index.durable, table, offs, saved);
      KeyLeads(dataFile.Contents(), index.ops, table, offs, writes, key);
      var offsetBytes := index.Get(key);
      match offsetBytes {
        case Some(ob) =>
          CounterReadsBack(dataFile.Contents(), offs[key], table[key]);
          var record := ReadRecord(ToLong5(ob));
          r := Some(record.value);
        case None =>
          r := None;
      }
    }

    /** Header first, then the block of values, cut into pieces of the value size. */
    method ReadRecord(offset: nat) returns (r: Result<CounterRecord>)
      requires dataFile.Valid()
      modifies dataFile
      ensures dataFile.Valid() && dataFile.Contents() == old(dataFile.Contents())
      ensures dataFile.synced == |dataFile.Contents()|
      ensures r == RecordIn(dataFile.Contents(), offset)
    {
      hide BucketCount;
      dataFile.Flush();
      var header := dataFile.Read(offset, 2);
      if header.Err? {
        return Err;
      }
      var valueType := header.value[0];
      var timeType := Signed8(header.value[1]);
      var bucketCount := BucketCount(timeType);
      var valueSize := ValueSize(valueType);
      var data := dataFile.Read(offset + 2, bucketCount * valueSize);
      if data.Err? {
        return Err;
      }
      var values: seq<Bytes> := [];
      for i := 0 to bucketCount
        invariant dataFile.Valid() && dataFile.Contents() == old(dataFile.Contents())
        invariant dataFile.synced == |dataFile.Contents()|
        invariant values == Pieces(data.value, valueSize, i)
      {
        var pos := i * valueSize;
        PieceStep(data.value, valueSize, i, bucketCount);
        values := values + [data.value[pos..pos + valueSize]];
      }
      r := Ok(CounterRecord(valueType, timeType, values));
    }

    /** The data first, then the index: all counters are now sure to survive. A crash between the
        two finds the store as `FlushData` leaves it. */
    method Flush()
      requires Valid()
      modifies Repr()
      ensures Valid() && Same(old(table), old(writes), old(table).Keys) && offs == old(offs)
      ensures dataFile.Contents() == old(dataFile.Contents()) && index.keyFile.bytes == old(index.keyFile.bytes)
      ensures dataFile.synced == |dataFile.Contents()|
    {
      FlushData();
      FlushIndex();
    }

    method FlushData()
      requires Valid()
      modifies dataFile
      ensures Valid() && Same(old(table), old(writes), old(saved)) && offs == old(offs)
      ensures dataFile.Contents() == old(dataFile.Contents()) && index.keyFile.bytes == old(index.keyFile.bytes)
      ensures dataFile.synced == |dataFile.Contents()|
    {
      hide KI.IndexKeyFile.Valid, StoreState, SavedState;
      SavedLater(dataFile.synced, |dataFile.Contents()|, index.durable, table, offs, saved);
      dataFile.Flush();
    }

    /** The index may only reach the disk when every record it leads to has. */
    method FlushIndex()
      requires Valid() && dataFile.synced == |dataFile.Contents()|
      modifies this, index.Repr
      ensures Valid() && Same(old(table), old(writes), old(table).Keys) && offs == old(offs)
      ensures dataFile.Contents() == old(dataFile.Contents()) && index.keyFile.bytes == old(index.keyFile.bytes)
      ensures dataFile.synced == |dataFile.Contents()|
    {
      hide KI.IndexKeyFile.Valid, StoreState, SavedState;
      FlushSaves(dataFile.Contents(), index.ops, table, offs, writes);
      index.Flush();
      saved := table.Keys;
    }
  }

  lemma WriteAtIsNoShorter(file: Bytes, at: nat, data: Bytes)
    ensures |WriteAt(file, at, data)| >= |file|
  {
  }

  lemma SavedLater(synced: nat, later: nat, durable: History, table: Table, offs: Offsets, saved: set<Bytes>)
    requires SavedState(synced, durable, table, offs, saved) && synced <= later
    ensures SavedState(later, durable, table, offs, saved)
  {
  }

  /** After a crash the index is as last flushed and the data file is cut anywhere at or beyond its
      last flushed length. The counters known at the last flush come back with everything written
      to them since, also after the flush, because their values are updated in place; counters that
      are newer vanish. */
  method CrashAndReopen(store: CounterStore, cut: nat) returns (again: CounterStore)
    requires store.Valid() && store.dataFile.synced <= cut <= |store.dataFile.Contents()|
    ensures again.Valid() && fresh(again.Repr())
    ensures again.Same(Only(store.table, store.saved), OnlyWrites(store.writes, store.saved), again.table.Keys)
    ensures again.table.Keys == store.saved && again.offs == Only(store.offs, store.saved)
    ensures again.dataFile.Contents() == store.dataFile.Contents()[..cut]
    ensures again.index.keyFile.bytes == store.index.keyFile.bytes
    ensures again.index.hashBlock.memSize == store.index.hashBlock.memSize
  {
    hide KI.IndexState, KI.FilesHold, Loaded, KI.Keeps, StoreState;
    var index, data := store.index, store.dataFile.disk + store.dataFile.pending;
    KI.SavedTableHolds(index.hashBlock.buf[..], Loaded(index.hashBlock.disk, index.hashBlock.memSize),
                       index.keyFile.bytes,
                       index.log, index.heads, index.savedHeads, index.ops, index.durable, index.intact);
    CrashKeepsSaved(data, store.dataFile.synced, cut, index.ops, index.durable, store.table, store.offs, store.saved,
                    store.writes);
    again := new CounterStore.Open(StoreFiles(index.hashBlock.disk, index.keyFile.bytes, data[..cut]),
                                   index.hashBlock.memSize,
                                   index.log, index.savedHeads, index.durable, Only(store.table, store.saved),
                                   Only(store.offs, store.saved), OnlyWrites(store.writes, store.saved));
  }
}
