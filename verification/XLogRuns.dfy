/** Whole runs of the transaction-log store: any writes, queries and flushes, a crash, and more of the
    same on what it leaves. */
module XLogRuns {
  import opened ByteCodec
  import opened DataInput
  import opened RealKeyFile
  import opened SlotChains
  import opened SlotBuffer
  import opened TimeRange
  import opened XLogFrames
  import opened XLogStore

  /** How much the data file grows. */
  function DataSize(entries: XLog): nat {
    if entries == [] then 0 else |Frame(entries[0].data)| + DataSize(entries[1..])
  }

  /** The 5-byte positions suffice for all these entries. */
  predicate HasRoom(data: Bytes, keys: KeyContents, entries: XLog) {
    && |data| + DataSize(entries) < 0x80_0000_0000
    && |keys.time| + ENTRY_SIZE * |entries| < 0x80_0000_0000
    && |keys.txid| + ENTRY_SIZE * |entries| < 0x80_0000_0000
    && |keys.gxid| + ENTRY_SIZE * |entries| < 0x80_0000_0000
  }

  /** The store accepts every entry. */
  ghost predicate AllTimed(entries: XLog) { forall i | 0 <= i < |entries| :: entries[i].time > 0 }

  /** Every index has the entries in addition, none of them flushed. */
  ghost predicate Gained(before: Views, after: Views, entries: XLog) {
    && after.time.log == before.time.log + entries && after.time.flushed == before.time.flushed
    && after.txid.log == before.txid.log + entries && after.txid.flushed == before.txid.flushed
    && after.gxid.log == before.gxid.log + entries && after.gxid.flushed == before.gxid.flushed
  }

  /** The files have grown by no more than the entries need. */
  predicate GrownBy(data: Bytes, keys: KeyContents, data': Bytes, keys': KeyContents, entries: XLog) {
    && |data'| == |data| + DataSize(entries)
    && |keys'.time| <= |keys.time| + ENTRY_SIZE * |entries|
    && |keys'.txid| <= |keys.txid| + ENTRY_SIZE * |entries|
    && |keys'.gxid| <= |keys.gxid| + ENTRY_SIZE * |entries|
  }

  lemma GainedMore(a: Views, b: Views, c: Views, entries: XLog, i: nat)
    requires i < |entries| && Gained(a, b, entries[..i]) && Gained(b, c, [entries[i]])
    ensures Gained(a, c, entries[..i + 1])
  {
    assert entries[..i + 1] == entries[..i] + [entries[i]];
  }

  lemma RoomForNext(data: Bytes, keys: KeyContents, data': Bytes, keys': KeyContents, entries: XLog, i: nat)
    requires i < |entries| && HasRoom(data, keys, entries) && GrownBy(data, keys, data', keys', entries[..i])
    ensures HasRoom(data', keys', [entries[i]])
    ensures forall data'', keys'' | GrownBy(data', keys', data'', keys'', [entries[i]]) ::
              GrownBy(data, keys, data'', keys'', entries[..i + 1])
  {
    DataSizeStep(entries, i);
    OneSize(entries[i]);
    hide DataSize;
  }

  lemma OneSize(e: XLogEntry)
    ensures DataSize([e]) == |Frame(e.data)|
  {
    assert [e][1..] == [];
  }

  lemma DataSizeStep(entries: XLog, i: nat)
    requires i < |entries|
    ensures DataSize(entries[..i + 1]) == DataSize(entries[..i]) + |Frame(entries[i].data)| <= DataSize(entries)
  {
    DataSizeSplit(entries[..i], entries[i..]);
    DataSizeSplit(entries[..i], [entries[i]]);
    assert entries == entries[..i] + entries[i..] && entries[..i + 1] == entries[..i] + [entries[i]];
    assert DataSize([entries[i]]) == |Frame(entries[i].data)| + DataSize([]);
  }

  lemma {:induction false} DataSizeSplit(a: XLog, b: XLog)
    ensures DataSize(a + b) == DataSize(a) + DataSize(b)
  {
    if a == [] {
      assert a + b == b;
    } else {
      DataSizeSplit(a[1..], b);
      assert (a + b)[1..] == a[1..] + b;
    }
  }

  /** Writes one entry that fits. */
  method WriteOne(store: XLogStore, e: XLogEntry)
    requires store.Valid() && HasRoom(store.dataFile.Contents(), store.KeyFiles(), [e]) && e.time > 0
    modifies store.Repr()
    ensures store.Valid() && Gained(old(store.views), store.views, [e])
    ensures store.dataFile.synced == old(store.dataFile.synced)
    ensures GrownBy(old(store.dataFile.Contents()), old(store.KeyFiles()), store.dataFile.Contents(), store.KeyFiles(),
                    [e])
  {
    OneSize(e);
    hide XLogStore.Valid, Frame, DataSize;
    assert store.Separate() by { SeparateParts(store); }
    var _ := store.Write(e.time, e.txid, e.gxid, e.data);
  }

  lemma NothingYet(v: Views, data: Bytes, keys: KeyContents, entries: XLog)
    ensures Gained(v, v, entries[..0]) && GrownBy(data, keys, data, keys, entries[..0])
  {
    assert entries[..0] == [] && DataSize([]) == 0;
    assert v.time.log + [] == v.time.log && v.txid.log + [] == v.txid.log && v.gxid.log + [] == v.gxid.log;
  }

  lemma SeparateParts(store: XLogStore)
    requires store.Valid()
    ensures store.Separate()
  {
  }

  /** Writes any entries that fit, one after the other. */
  method WriteAll(store: XLogStore, entries: XLog)
    requires store.Valid() && HasRoom(store.dataFile.Contents(), store.KeyFiles(), entries)
    requires AllTimed(entries)
    modifies store.Repr()
    ensures store.Valid() && Gained(old(store.views), store.views, entries)
    ensures store.dataFile.synced == old(store.dataFile.synced)
    ensures GrownBy(old(store.dataFile.Contents()), old(store.KeyFiles()), store.dataFile.Contents(), store.KeyFiles(),
                    entries)
  {
    hide XLogStore.Valid, XLogStore.Separate, XLogStore.KeyFiles, Gained, GrownBy, HasRoom;
    SeparateParts(store);
    ghost var v, data, keys := store.views, store.dataFile.Contents(), store.KeyFiles();
    NothingYet(v, data, keys, entries);
    for i := 0 to |entries|
      invariant store.Valid() && Gained(v, store.views, entries[..i])
      invariant store.dataFile.synced == old(store.dataFile.synced)
      invariant GrownBy(data, keys, store.dataFile.Contents(), store.KeyFiles(), entries[..i])
    {
      ghost var now := store.views;
      RoomForNext(data, keys, store.dataFile.Contents(), store.KeyFiles(), entries, i);
      WriteOne(store, entries[i]);
      GainedMore(v, now, store.views, entries, i);
    }
    assert entries[..|entries|] == entries;
  }

  // ---------- a run with a crash ----------

  /** All three indexes answer for this log, and have flushed its first n entries. */
  ghost predicate Logged(v: Views, log: XLog, n: nat) {
    && v.time.log == v.txid.log == v.gxid.log == log
    && v.time.flushed == v.txid.flushed == v.gxid.flushed == n
  }

  lemma LoggedMore(v: Views, log: XLog, n: nat, after: Views, entries: XLog)
    requires Logged(v, log, n) && Gained(v, after, entries)
    ensures Logged(after, log + entries, n)
  {
  }

  lemma LoggedAndFlushed(v: Views, log: XLog, n: nat)
    requires Logged(v, log, n)
    ensures Logged(FlushedTo(v, 4), log, |log|)
  {
  }

  lemma LoggedAndSaved(v: Views, first: XLog, second: XLog)
    requires Logged(v, first + second, |first|) && Sized(v.time) && Sized(v.txid) && Sized(v.gxid)
    ensures Logged(SavedViews(v), first, |first|)
  {
    assert (first + second)[..|first|] == first;
  }

  /** Opens a store in an empty directory. */
  method OpenEmpty(memSize: nat, zone: int) returns (store: XLogStore)
    requires memSize >= KEY_LENGTH
    ensures Stands(store, [], 0, []) && fresh(store.Repr()) && store.timeIndex.timeBlock.zone == zone
  {
    hide XLogStore.Valid, FilesHoldViews, NoLarger;
    EmptyIsNoLarger(KeyContents(MAGIC, MAGIC, MAGIC));
    EmptyDirectoryHoldsNothing(memSize, zone);
    ghost var held :|
      FilesHoldViews(StoreFiles([], [], [], [], [], [], []), memSize, zone, Views(NOTHING, NOTHING, NOTHING), held);
    store := new XLogStore.Open(StoreFiles([], [], [], [], [], [], []), memSize, zone, Views(NOTHING, NOTHING, NOTHING),
                                held);
  }

  /** The positions suffice for all entries of a run that starts in an empty directory. */
  predicate RunFits(entries: XLog) {
    DataSize(entries) < 0x80_0000_0000 && |MAGIC| + ENTRY_SIZE * |entries| < 0x80_0000_0000
  }

  /** The files are no larger than these entries make them. */
  predicate NoLarger(data: Bytes, keys: KeyContents, entries: XLog) {
    && |data| <= DataSize(entries)
    && |keys.time| <= |MAGIC| + ENTRY_SIZE * |entries|
    && |keys.txid| <= |MAGIC| + ENTRY_SIZE * |entries|
    && |keys.gxid| <= |MAGIC| + ENTRY_SIZE * |entries|
  }

  lemma EmptyIsNoLarger(keys: KeyContents)
    requires keys == KeyContents(MAGIC, MAGIC, MAGIC)
    ensures NoLarger([], keys, [])
  {
  }

  lemma RoomInRun(data: Bytes, keys: KeyContents, spent: XLog, next: XLog, later: XLog)
    requires NoLarger(data, keys, spent) && RunFits(spent + next + later)
    ensures HasRoom(data, keys, next)
    ensures forall data', keys' | GrownBy(data, keys, data', keys', next) :: NoLarger(data', keys', spent + next)
  {
    DataSizeSplit(spent + next, later);
    DataSizeSplit(spent, next);
    hide DataSize;
  }

  /** A store that answers for a log, of which n entries are flushed, and whose files are no larger
      than the entries spent on them. */
  ghost predicate Stands(store: XLogStore, log: XLog, n: nat, spent: XLog)
    reads store, store.Repr()
  {
    store.Valid() && Logged(store.views, log, n) && NoLarger(store.dataFile.Contents(), store.KeyFiles(), spent)
  }

  /** Writes the next entries of a run. */
  method Continue(store: XLogStore, next: XLog, ghost log: XLog, ghost n: nat, ghost spent: XLog, ghost later: XLog)
    requires Stands(store, log, n, spent) && AllTimed(next) && RunFits(spent + next + later)
    modifies store.Repr()
    ensures Stands(store, log + next, n, spent + next) && store.dataFile.synced == old(store.dataFile.synced)
    ensures |store.dataFile.Contents()| >= |old(store.dataFile.Contents())|
  {
    hide XLogStore.Valid, XLogStore.Separate, XLogStore.KeyFiles, Gained, Logged, NoLarger, HasRoom, RunFits, DataSize;
    SeparateParts(store);
    ghost var v := store.views;
    RoomInRun(store.dataFile.Contents(), store.KeyFiles(), spent, next, later);
    WriteAll(store, next);
    LoggedMore(v, log, n, store.views, next);
  }

  method FlushAll(store: XLogStore, ghost log: XLog, ghost n: nat, ghost spent: XLog) returns (length: nat)
    requires Stands(store, log, n, spent)
    modifies store.Repr()
    ensures Stands(store, log, |log|, spent)
    ensures length == |store.dataFile.Contents()| == store.dataFile.synced
  {
    hide ViewHolds, TimeIndexRight, KeyIndexRight, Logged, NoLarger, FlushedTo;
    LoggedAndFlushed(store.views, log, n);
    store.Flush();
    length := |store.dataFile.disk| + |store.dataFile.pending|;
  }

  /** A crash that leaves some of what was not flushed. */
  method CrashSomewhere(store: XLogStore, flushed: nat, extra: nat, ghost first: XLog, ghost second: XLog,
                        ghost spent: XLog)
    returns (again: XLogStore)
    requires Stands(store, first + second, |first|, spent)
    requires store.dataFile.synced <= flushed <= |store.dataFile.Contents()|
    ensures Stands(again, first, |first|, spent) && fresh(again.Repr())
    ensures again.timeIndex.timeBlock.zone == store.timeIndex.timeBlock.zone
  {
    hide ViewHolds, TimeIndexRight, KeyIndexRight, Logged, SavedViews;
    var left := |store.dataFile.disk| + |store.dataFile.pending| - flushed;
    again := CrashAndReopen(store, flushed + if extra < left then extra else left);
    LoggedAndSaved(store.views, first, second);
  }

  /** Asks the store all three kinds of question. */
  method Query(store: XLogStore, id: i64, from: int, to: int, ghost log: XLog, ghost n: nat, ghost spent: XLog)
    returns (newest: Result<Option<Bytes>>, all: Result<seq<Bytes>>, calls: Entries)
    requires Stands(store, log, n, spent)
    modifies store.dataFile
    ensures Stands(store, log, n, spent)
    ensures newest == First(DataOf(log, false, id))
    ensures all == All(DataOf(log, true, id))
    ensures calls == Delivered(Filtered(Timed(log), store.timeIndex.timeBlock.zone, from, from, to, TIME_SLOTS))
    ensures TransactionAnswer(log, id, newest) && GroupAnswer(log, id, all)
    ensures TimeAnswer(log, store.timeIndex.timeBlock.zone, from, to, calls)
  {
    hide TransactionAnswer, GroupAnswer, TimeAnswer, RangeListed;
    hide XLogStore.Valid, First, All, Filtered, Timed, DataOf, Delivered, Readable, AtMostOnce, NoLarger;
    SeparateParts(store);
    newest := store.ReadByTxid(id);
    all := store.ReadByGxid(id);
    ghost var hits;
    calls, hits := store.ReadByTime(from, to);
  }

  /** Writes that survive, writes that do not, and writes after that: `first` is written in an empty
      directory and flushed, `second` is written but not flushed when a crash cuts the data file
      anywhere behind the flushed part, and `third` is written to what is left. Every query then
      answers as if only `first` and `third` had ever been written. */
  method RunThroughCrash(memSize: nat, zone: int, first: XLog, second: XLog, third: XLog, extra: nat,
                         id: i64, from: int, to: int)
    returns (newest: Result<Option<Bytes>>, all: Result<seq<Bytes>>, calls: Entries)
    requires memSize >= KEY_LENGTH && RunFits(first + second + third)
    requires AllTimed(first) && AllTimed(second) && AllTimed(third)
    ensures newest == First(DataOf(first + third, false, id))
    ensures all == All(DataOf(first + third, true, id))
    ensures calls == Delivered(Filtered(Timed(first + third), zone, from, from, to, TIME_SLOTS))
    ensures TransactionAnswer(first + third, id, newest) && GroupAnswer(first + third, id, all)
    ensures TimeAnswer(first + third, zone, from, to, calls)
  {
    hide TransactionAnswer, GroupAnswer, TimeAnswer;
    hide Stands, First, All, Filtered, Timed, DataOf, Delivered, RunFits, AllTimed;
    assert [] + first + (second + third) == first + second + third && [] + first == first;
    assert first + second + third + [] == first + second + third;
    var store := OpenEmpty(memSize, zone);
    Continue(store, first, [], 0, [], second + third);
    var _, _, _ := Query(store, id, from, to, first, 0, first);
    var flushed := FlushAll(store, first, 0, first);
    Continue(store, second, first, |first|, first, third);
    var again := CrashSomewhere(store, flushed, extra, first, second, first + second);
    Continue(again, third, first, |first|, first + second, []);
    newest, all, calls := Query(again, id, from, to, first + third, |first|, first + second + third);
  }
}
