/** The transaction-log store: one data file of length-prefixed frames and three indexes over it,
    by time, by transaction id and by global transaction id. */
module XLogStore {
  import opened ByteCodec
  import opened DataInput
  import opened RealKeyFile
  import opened KeyLog
  import opened SlotChains
  import opened SlotBuffer
  import opened KeyIndex
  import opened TimeRange
  import opened XLogFrames
  import MemTimeBlock
  import RDF = RealDataFile
  import KI = IndexKeyFile
  import TI = IndexTimeFile

  // ---------- one index and its view ----------

  /** The time index holds the positions of its view, and a crash would leave those flushed. */
  ghost predicate TimeIndexRight(index: TI.IndexTimeFile, v: View)
    reads index, index.Repr
  {
    && index.Valid() && Sized(v)
    && index.entries == TimeEntries(v.log, v.offs)
    && index.durable == TimeEntries(Saved(v).log, Saved(v).offs)
  }

  /** The same for the txid index or, for gx, the gxid index. */
  ghost predicate KeyIndexRight(index: KI.IndexKeyFile, v: View, gx: bool)
    reads index, index.Repr
  {
    && index.Valid() && Sized(v)
    && index.ops == IndexOps(v.log, v.offs, gx)
    && index.durable == IndexOps(Saved(v).log, Saved(v).offs, gx)
  }

  /** The size of an entry in a key file: the fixed fields, an 8-byte key and a 5-byte position. */
  const ENTRY_SIZE: nat := 22

  /** Indexes a frame by time; a time that is not positive is refused. */
  method PutTime(index: TI.IndexTimeFile, time: i64, offset: nat, ghost v: View, ghost e: XLogEntry) returns (ok: bool)
    requires TimeIndexRight(index, v) && e.time == time && offset < 0x80_0000_0000
    requires |index.keyFile.bytes| < 0x80_0000_0000
    modifies index.Repr
    ensures ok <==> time > 0
    ensures TimeIndexRight(index, if ok then Extended(v, e, offset) else v)
    ensures |index.keyFile.bytes| == |old(index.keyFile.bytes)| + (if ok then ENTRY_SIZE else 0)
  {
    PositionRecordSize(ToBE(time, 8), ToBytes5(offset));
    hide TI.IndexTimeFile.Valid, TimeEntries, IndexOps, ToBytes5, RecordSize;
    IndexOpsAppend(v.log, v.offs, e, offset, false);
    SavedOfExtended(v, e, offset);
    ok := index.Put(time, offset);
  }

  /** Indexes a frame by an id, unless the gxid index leaves it out. */
  method PutId(index: KI.IndexKeyFile, id: i64, offset: nat, gx: bool, ghost v: View, ghost e: XLogEntry)
    requires KeyIndexRight(index, v, gx) && id == Id(e, gx) && offset < 0x80_0000_0000
    requires |index.keyFile.bytes| < 0x80_0000_0000
    modifies index.Repr
    ensures KeyIndexRight(index, Extended(v, e, offset), gx)
    ensures |index.keyFile.bytes| == |old(index.keyFile.bytes)| + (if Indexed(e, gx) then ENTRY_SIZE else 0)
  {
    PositionRecordSize(ToBE(id, 8), ToBytes5(offset));
    hide KI.IndexKeyFile.Valid, TimeEntries, IndexOps, ToBytes5, ToBE, RecordSize;
    IndexOpsAppend(v.log, v.offs, e, offset, gx);
    SavedOfExtended(v, e, offset);
    if !gx || id != 0 {
      index.Put(ToBE(id, 8), ToBytes5(offset));
    }
  }

  // ---------- the answers of the queries ----------

  /** What looking up the newest data gives. */
  function First(datas: seq<Bytes>): Result<Option<Bytes>> {
    if datas == [] then Ok(None)
    else
      match Readback(datas[0])
      case Ok(data) => Ok(Some(data))
      case Err => Err
  }

  /** What collecting data gives: the first that does not read back fails the whole query. */
  function All(datas: seq<Bytes>): Result<seq<Bytes>> {
    if datas == [] then Ok([])
    else
      match (Readback(datas[0]), All(datas[1..]))
      case (Ok(data), Ok(rest)) => Ok([data] + rest)
      case _ => Err
  }

  /** The answer for a transaction: the data logged last for it, as far as its 16-bit length tells, or
      nothing if there never was any. */
  ghost predicate TransactionAnswer(log: XLog, txid: i64, r: Result<Option<Bytes>>) {
    && (forall i: nat | IsNewest(log, txid, i) :: FoundData(log[i].data, r))
    && (NeverLogged(log, txid) ==> r == Ok(None))
  }

  ghost predicate FoundData(data: Bytes, r: Result<Option<Bytes>>) {
    var n := |data| % 0x1_0000;
    r == if n < 0x8000 then Ok(Some(data[..n])) else Err
  }

  /** The answer for a group: the data of all its entries, newest first, if all can be read back. */
  ghost predicate GroupAnswer(log: XLog, gxid: i64, r: Result<seq<Bytes>>) {
    exists numbers: seq<nat> :: IsGroup(log, gxid, numbers) && FoundAll(log, numbers, r)
  }

  ghost predicate FoundAll(log: XLog, numbers: seq<nat>, r: Result<seq<Bytes>>)
    requires forall k | 0 <= k < |numbers| :: numbers[k] < |log|
  {
    if forall k | 0 <= k < |numbers| :: |log[numbers[k]].data| % 0x1_0000 < 0x8000 then
      && r.Ok? && |r.value| == |numbers|
      && forall k | 0 <= k < |numbers| ::
           var data := log[numbers[k]].data;
           r.value[k] == data[..|data| % 0x1_0000]
    else
      r == Err
  }

  /** The answer for a range of times shorter than a day that is aligned no worse at its start than at
      its end: exactly the entries of the range whose data can be read back. */
  ghost predicate TimeAnswer(log: XLog, zone: int, from: int, to: int, calls: Entries) {
    from <= to && to - from < 86_400_000 && (from + zone) % 500 <= (to + zone) % 500 ==>
      ListsSomeLog(log, from, to, calls)
  }

  lemma FirstAnswers(log: XLog, txid: i64)
    ensures TransactionAnswer(log, txid, First(DataOf(log, false, txid)))
  {
    hide DataOf;
    TransactionData(log, txid);
  }

  lemma AllAnswers(log: XLog, gxid: i64)
    ensures GroupAnswer(log, gxid, All(DataOf(log, true, gxid)))
  {
    hide DataOf, All, IsGroup;
    var numbers := GroupData(log, gxid);
    var datas := DataOf(log, true, gxid);
    AllOf(datas);
    InGroup(log, gxid, numbers);
    assert FoundAll(log, numbers, All(datas));
  }

  lemma InGroup(log: XLog, gxid: i64, numbers: seq<nat>)
    requires IsGroup(log, gxid, numbers)
    ensures forall k | 0 <= k < |numbers| :: numbers[k] < |log|
  {
  }

  lemma {:induction false} AllOf(datas: seq<Bytes>)
    ensures All(datas).Ok? <==> forall k | 0 <= k < |datas| :: |datas[k]| % 0x1_0000 < 0x8000
    ensures All(datas).Ok? ==>
              && |All(datas).value| == |datas|
              && forall k | 0 <= k < |datas| :: All(datas).value[k] == datas[k][..|datas[k]| % 0x1_0000]
  {
    if datas != [] {
      AllOf(datas[1..]);
      assert forall k | 1 <= k < |datas| :: datas[k] == datas[1..][k - 1];
    }
  }

  lemma CallsAnswer(log: XLog, zone: int, from: int, to: int)
    ensures TimeAnswer(log, zone, from, to, Delivered(Filtered(Timed(log), zone, from, from, to, TIME_SLOTS)))
  {
    hide Delivered, Filtered, Timed, ListsSomeLog;
    if from <= to && to - from < 86_400_000 && (from + zone) % 500 <= (to + zone) % 500 {
      TimeQueryLists(log, zone, from, to);
    }
  }

  /** Payloads of at most 32767 bytes come back as they are. */
  lemma {:induction false} ShortDataComesBack(datas: seq<Bytes>)
    requires forall i | 0 <= i < |datas| :: |datas[i]| <= 0x7FFF
    ensures First(datas) == Ok(if datas == [] then None else Some(datas[0]))
    ensures All(datas) == Ok(datas)
  {
    if datas == [] {
      assert All(datas) == Ok([]);
    } else {
      ShortDataComesBack(datas[1..]);
      assert datas[0][..|datas[0]|] == datas[0] && [datas[0]] + datas[1..] == datas;
    }
  }

  /** Puts what has been collected in front of what is still to come. */
  function Onto(done: seq<Bytes>, rest: Result<seq<Bytes>>): Result<seq<Bytes>> {
    match rest
    case Ok(more) => Ok(done + more)
    case Err => Err
  }

  lemma AllStep(done: seq<Bytes>, datas: seq<Bytes>)
    requires datas != []
    ensures Onto(done, All(datas))
         == match Readback(datas[0])
            case Ok(data) => Onto(done + [data], All(datas[1..]))
            case Err => Err
  {
    if Readback(datas[0]).Ok? && All(datas[1..]).Ok? {
      var data, rest := Readback(datas[0]).value, All(datas[1..]).value;
      assert done + ([data] + rest) == (done + [data]) + rest;
    }
  }

  // ---------- the store ----------

  /** The content of the store's files on disk, [] for a missing one. */
  datatype StoreFiles = StoreFiles(data: Bytes, timeTable: Bytes, timeKeys: Bytes, txidTable: Bytes, txidKeys: Bytes,
                                   gxidTable: Bytes, gxidKeys: Bytes)

  /** What the three key files and slot tables hold. */
  datatype HeldRecords = HeldRecords(timeLog: Log, timeHeads: Heads, txidLog: Log, txidHeads: Heads,
                                     gxidLog: Log, gxidHeads: Heads)

  /** What each index answers for. Only a crash in the middle of a flush makes them differ. */
  datatype Views = Views(time: View, txid: View, gxid: View)

  /** The files hold these views: complete frames in the data file, and indexes over exactly them. */
  ghost predicate FilesHoldViews(files: StoreFiles, memSize: nat, zone: int, views: Views, held: HeldRecords) {
    && ViewHolds(files.data, |files.data|, views.time) && AllFlushed(views.time) == views.time
    && ViewHolds(files.data, |files.data|, views.txid) && AllFlushed(views.txid) == views.txid
    && ViewHolds(files.data, |files.data|, views.gxid) && AllFlushed(views.gxid) == views.gxid
    && TI.FilesHold(Loaded(files.timeTable, MemTimeBlock.MEM_BUFFER_SIZE), KeyContent(files.timeKeys),
                    held.timeLog, held.timeHeads, TimeEntries(views.time.log, views.time.offs), zone)
    && KI.FilesHold(Loaded(files.txidTable, memSize), KeyContent(files.txidKeys),
                    held.txidLog, held.txidHeads, IndexOps(views.txid.log, views.txid.offs, false))
    && KI.FilesHold(Loaded(files.gxidTable, memSize), KeyContent(files.gxidKeys),
                    held.gxidLog, held.gxidHeads, IndexOps(views.gxid.log, views.gxid.offs, true))
  }

  /** The content of the three key files. */
  datatype KeyContents = KeyContents(time: Bytes, txid: Bytes, gxid: Bytes)

  const NOTHING: View := View([], [], 0)

  /** An empty directory holds the empty log. */
  lemma EmptyDirectoryHoldsNothing(memSize: nat, zone: int)
    requires memSize >= KEY_LENGTH
    ensures exists held ::
              FilesHoldViews(StoreFiles([], [], [], [], [], [], []), memSize, zone, Views(NOTHING, NOTHING, NOTHING),
                             held)
  {
    hide Loaded, TI.FilesHold, KI.FilesHold;
    TI.NoFilesHoldNothing(zone);
    KI.NoFilesHoldNothing(memSize);
    var noHeads := KI.NoHeads(memSize);
    var held := HeldRecords([], seq(TIME_SLOTS, _ => -1), [], noHeads, [], noHeads);
    assert FilesHoldViews(StoreFiles([], [], [], [], [], [], []), memSize, zone, Views(NOTHING, NOTHING, NOTHING),
                          held);
  }

  method OpenTime(table: Bytes, keys: Bytes, zone: int, ghost v: View, ghost log: Log, ghost heads: Heads)
    returns (index: TI.IndexTimeFile)
    requires Sized(v) && AllFlushed(v) == v
    requires TI.FilesHold(Loaded(table, MemTimeBlock.MEM_BUFFER_SIZE), KeyContent(keys), log, heads,
                          TimeEntries(v.log, v.offs), zone)
    ensures fresh(index.Repr) && {index, index.keyFile} <= index.Repr && TimeIndexRight(index, v)
    ensures index.timeBlock.zone == zone && index.keyFile.bytes == KeyContent(keys)
  {
    hide TI.IndexTimeFile.Valid, TI.FilesHold, Loaded, TimeEntries;
    index := new TI.IndexTimeFile.Open(table, keys, zone, log, heads, TimeEntries(v.log, v.offs));
    assert Saved(v).log == v.log && Saved(v).offs == v.offs;
  }

  method OpenKey(table: Bytes, keys: Bytes, memSize: nat, ghost v: View, ghost gx: bool, ghost log: Log,
                 ghost heads: Heads)
    returns (index: KI.IndexKeyFile)
    requires Sized(v) && AllFlushed(v) == v
    requires KI.FilesHold(Loaded(table, memSize), KeyContent(keys), log, heads, IndexOps(v.log, v.offs, gx))
    ensures fresh(index.Repr) && {index, index.keyFile} <= index.Repr && KeyIndexRight(index, v, gx)
    ensures index.hashBlock.memSize == memSize && index.keyFile.bytes == KeyContent(keys)
  {
    hide KI.IndexKeyFile.Valid, KI.FilesHold, Loaded, IndexOps, KI.Keeps;
    index := new KI.IndexKeyFile.Open(table, keys, memSize, log, heads, IndexOps(v.log, v.offs, gx), false);
    assert Saved(v).log == v.log && Saved(v).offs == v.offs;
  }

  class XLogStore {
    const dataFile: RDF.RealDataFile
    const timeIndex: TI.IndexTimeFile
    const txidIndex: KI.IndexKeyFile
    const gxidIndex: KI.IndexKeyFile

    /** What each index answers for. */
    ghost var views: Views

    ghost function Repr(): set<object> {
      {this, dataFile} + timeIndex.Repr + txidIndex.Repr + gxidIndex.Repr
    }

    /** The parts share no object. */
    ghost predicate Separate() {
      && {this, dataFile} !! timeIndex.Repr
      && {this, dataFile} + timeIndex.Repr !! txidIndex.Repr
      && {this, dataFile} + timeIndex.Repr + txidIndex.Repr !! gxidIndex.Repr
      && {timeIndex, timeIndex.keyFile} <= timeIndex.Repr
      && {txidIndex, txidIndex.keyFile} <= txidIndex.Repr && {gxidIndex, gxidIndex.keyFile} <= gxidIndex.Repr
      && txidIndex.hashBlock.memSize == gxidIndex.hashBlock.memSize
    }

    ghost predicate Valid()
      reads Repr()
    {
      && Separate()
      && dataFile.Valid()
      && ViewHolds(dataFile.Contents(), dataFile.synced, views.time)
      && ViewHolds(dataFile.Contents(), dataFile.synced, views.txid)
      && ViewHolds(dataFile.Contents(), dataFile.synced, views.gxid)
      && TimeIndexRight(timeIndex, views.time)
      && KeyIndexRight(txidIndex, views.txid, false)
      && KeyIndexRight(gxidIndex, views.gxid, true)
    }

    /** The three indexes answer for the same log. */
    ghost predicate Agrees(log: XLog)
      reads this
    {
      views.time.log == views.txid.log == views.gxid.log == log
    }

    ghost function KeyFiles(): KeyContents
      requires Separate()
      reads Repr()
    {
      KeyContents(timeIndex.keyFile.bytes, txidIndex.keyFile.bytes, gxidIndex.keyFile.bytes)
    }

    /** There is room for one more entry: the 5-byte positions have not run out. */
    ghost predicate Roomy()
      requires Separate()
      reads Repr()
    {
      && |dataFile.Contents()| < 0x80_0000_0000 && |KeyFiles().time| < 0x80_0000_0000
      && |KeyFiles().txid| < 0x80_0000_0000 && |KeyFiles().gxid| < 0x80_0000_0000
    }

    /** Opens the store from the content of its seven files. The ghost parameters say what the
        indexes' files hold. */
    constructor Open(files: StoreFiles, memSize: nat, zone: int, ghost views: Views, ghost held: HeldRecords)
      requires FilesHoldViews(files, memSize, zone, views, held)
      ensures Valid() && fresh(Repr())
      ensures this.views == views && timeIndex.timeBlock.zone == zone && dataFile.synced == |files.data|
      ensures dataFile.Contents() == files.data
      ensures KeyFiles() == KeyContents(KeyContent(files.timeKeys), KeyContent(files.txidKeys),
                                        KeyContent(files.gxidKeys))
    {
      hide ViewHolds, TimeEntries, IndexOps, TimeIndexRight, KeyIndexRight, TI.FilesHold, KI.FilesHold, Loaded,
           AllFlushed;
      ViewIsSized(files.data, |files.data|, views.time);
      ViewIsSized(files.data, |files.data|, views.txid);
      ViewIsSized(files.data, |files.data|, views.gxid);
      dataFile := new RDF.RealDataFile.Open(files.data);
      var time := OpenTime(files.timeTable, files.timeKeys, zone, views.time, held.timeLog, held.timeHeads);
      var txid := OpenKey(files.txidTable, files.txidKeys, memSize, views.txid, false, held.txidLog, held.txidHeads);
      var gxid := OpenKey(files.gxidTable, files.gxidKeys, memSize, views.gxid, true, held.gxidLog, held.gxidHeads);
      timeIndex, txidIndex, gxidIndex := time, txid, gxid;
      this.views := views;
    }

    /** Appends a frame and indexes it. A time that is not positive is refused by the time index,
        after the frame was written but before the other indexes are touched. */
    method Write(time: i64, txid: i64, gxid: i64, data: Bytes) returns (ok: bool)
      requires Valid() && Roomy()
      modifies Repr()
      ensures Valid()
      ensures ok <==> time > 0
      ensures var v, e, at := old(views), XLogEntry(time, txid, gxid, data), |old(dataFile.Contents())|;
              views == if ok then Views(Extended(v.time, e, at), Extended(v.txid, e, at), Extended(v.gxid, e, at))
                  else v
      ensures forall log: XLog :: old(Agrees(log)) ==>
                Agrees(if ok then log + [XLogEntry(time, txid, gxid, data)] else log)
      ensures dataFile.Contents() == old(dataFile.Contents()) + Frame(data) && dataFile.synced == old(dataFile.synced)
      ensures |KeyFiles().time| == |old(KeyFiles()).time| + (if ok then ENTRY_SIZE else 0)
      ensures |KeyFiles().txid| == |old(KeyFiles()).txid| + (if ok then ENTRY_SIZE else 0)
      ensures |KeyFiles().gxid| == |old(KeyFiles()).gxid| + (if ok && gxid != 0 then ENTRY_SIZE else 0)
    {
      hide ViewHolds, TimeIndexRight, KeyIndexRight, Frame;
      ghost var before, synced, e, v := dataFile.Contents(), dataFile.synced, XLogEntry(time, txid, gxid, data), views;
      ViewAfterFrame(before, synced, v.time, e);
      ViewAfterFrame(before, synced, v.txid, e);
      ViewAfterFrame(before, synced, v.gxid, e);

      var offset := WriteFrame(data);
      ok := PutTime(timeIndex, time, offset, v.time, e);
      if !ok {
        return;
      }
      PutId(txidIndex, txid, offset, false, v.txid, e);
      PutId(gxidIndex, gxid, offset, true, v.gxid, e);
      views := Views(Extended(v.time, e, offset), Extended(v.txid, e, offset), Extended(v.gxid, e, offset));
    }

    method WriteFrame(data: Bytes) returns (offset: nat)
      requires dataFile.Valid()
      modifies dataFile
      ensures dataFile.Valid() && offset == |old(dataFile.Contents())| && dataFile.synced == old(dataFile.synced)
      ensures dataFile.Contents() == old(dataFile.Contents()) + Frame(data)
    {
      offset := dataFile.Write(ToBE(|data|, 2));
      var _ := dataFile.Write(data);
    }

    /** The newest data written under a transaction id. */
    method ReadByTxid(txid: i64) returns (r: Result<Option<Bytes>>)
      requires Valid()
      modifies dataFile
      ensures Valid() && views == old(views)
      ensures dataFile.Contents() == old(dataFile.Contents()) && KeyFiles() == old(KeyFiles())
      ensures r == First(DataOf(views.txid.log, false, txid))
      ensures TransactionAnswer(views.txid.log, txid, r)
    {
      hide ViewHolds, TimeIndexRight, KI.IndexKeyFile.Valid, IndexOps, ToBE, FrameAt, PosOf, Replay, DataOf, Readback,
           FramesHold, TransactionAnswer;
      FirstAnswers(views.txid.log, txid);
      var found := txidIndex.Get(ToBE(txid, 8));
      IdLeadsToData(dataFile.Contents(), dataFile.synced, views.txid, false, txid);
      if found.Some? {
        var data := ReadDataAt(PosOf(found.value));
        return if data.Ok? then Ok(Some(data.value)) else Err;
      }
      r := Ok(None);
    }

    /** All data written under a global id, newest first. */
    method ReadByGxid(gxid: i64) returns (r: Result<seq<Bytes>>)
      requires Valid()
      modifies dataFile
      ensures Valid() && views == old(views)
      ensures dataFile.Contents() == old(dataFile.Contents()) && KeyFiles() == old(KeyFiles())
      ensures r == All(DataOf(views.gxid.log, true, gxid))
      ensures GroupAnswer(views.gxid.log, gxid, r)
    {
      hide ViewHolds, TimeIndexRight, KI.IndexKeyFile.Valid, IndexOps, ToBE, FrameAt, PosOf, Replay, DataOf, Readback,
           FramesHold, GroupAnswer;
      AllAnswers(views.gxid.log, gxid);
      var offsets := gxidIndex.GetAll(ToBE(gxid, 8));
      IdLeadsToData(dataFile.Contents(), dataFile.synced, views.gxid, true, gxid);
      r := ReadFrames(offsets, DataOf(views.gxid.log, true, gxid));
    }

    /** Reads the frames at some positions, up to the first that fails. */
    method ReadFrames(offsets: seq<Bytes>, ghost datas: seq<Bytes>) returns (r: Result<seq<Bytes>>)
      requires Valid() && |offsets| == |datas|
      requires forall j | 0 <= j < |datas| :: FrameAt(dataFile.Contents(), PosOf(offsets[j])) == Readback(datas[j])
      modifies dataFile
      ensures Valid() && views == old(views)
      ensures dataFile.Contents() == old(dataFile.Contents())
      ensures r == All(datas)
    {
      hide Valid, FrameAt, PosOf, Readback, All;
      var results: seq<Bytes> := [];
      StartAll(datas);
      for i := 0 to |offsets|
        invariant Valid() && views == old(views)
        invariant dataFile.Contents() == old(dataFile.Contents())
        invariant Onto(results, All(datas[i..])) == All(datas)
      {
        var data := ReadDataAt(PosOf(offsets[i]));
        AllStep(results, datas[i..]);
        assert datas[i..][1..] == datas[i + 1..];
        if data.Err? {
          return Err;
        }
        results := results + [data.value];
      }
      EndAll(results);
      assert datas[|datas|..] == [];
      r := Ok(results);
    }

    /** The entries of a time range, as the handler receives them: those of the log whose data reads
        back. The range read over the log itself is exact for a well-aligned range shorter than a
        day, and never repeats an entry. */
    method ReadByTime(from: int, to: int) returns (calls: Entries, ghost hits: Entries)
      requires Valid()
      modifies dataFile
      ensures Valid() && views == old(views)
      ensures dataFile.Contents() == old(dataFile.Contents()) && KeyFiles() == old(KeyFiles())
      ensures calls == Delivered(hits)
      ensures hits == Filtered(Timed(views.time.log), timeIndex.timeBlock.zone, from, from, to, TIME_SLOTS)
      ensures AtMostOnce(hits, Timed(views.time.log))
      ensures Readable(timeIndex.timeBlock.zone, from, to)
           ==> hits == SortByTime(Select(Timed(views.time.log), from, to))
      ensures TimeAnswer(views.time.log, timeIndex.timeBlock.zone, from, to, calls)
    {
      hide ViewHolds, KeyIndexRight, TI.IndexTimeFile.Valid, TimeEntries, FrameAt, Filtered, Forward, Backward, Timed,
           PosOf, Readable, SortByTime, Select, AtMostOnce, Delivered, Resolve, FramesHold, RangeListed, TimeAnswer;
      ghost var zone, v := timeIndex.timeBlock.zone, views.time;
      CallsAnswer(v.log, zone, from, to);
      ReadersHandOutAtMostOnce(Timed(v.log), zone, from, to);
      if Readable(zone, from, to) {
        RangeReadExact(Timed(v.log), zone, from, to);
      }
      hits := Filtered(Timed(v.log), zone, from, from, to, TIME_SLOTS);
      var found := timeIndex.ReadInRange(from, to);
      ViewFrames(dataFile.Contents(), dataFile.synced, v);
      TimeQueryIsOnLog(dataFile.Contents(), v.log, v.offs, zone, from, to);
      calls := ResolveHits(found);
    }

    /** Follows positions into the data file; what cannot be read is skipped. */
    method ResolveHits(hits: Entries) returns (calls: Entries)
      requires Valid()
      modifies dataFile
      ensures Valid() && views == old(views)
      ensures dataFile.Contents() == old(dataFile.Contents())
      ensures calls == Resolve(hits, old(dataFile.Contents()))
    {
      hide Valid, FrameAt, PosOf;
      calls := [];
      for i := 0 to |hits|
        invariant Valid() && views == old(views)
        invariant dataFile.Contents() == old(dataFile.Contents())
        invariant calls + Resolve(hits[i..], dataFile.Contents()) == Resolve(hits, dataFile.Contents())
      {
        var data := ReadDataAt(PosOf(hits[i].dataPos));
        assert hits[i..][1..] == hits[i + 1..];
        if data.Ok? {
          calls := calls + [TimeToData(hits[i].time, data.value)];
        }
      }
    }

    method ReadDataAt(offset: int) returns (r: Result<Bytes>)
      requires Valid()
      modifies dataFile
      ensures Valid() && views == old(views)
      ensures dataFile.Contents() == old(dataFile.Contents())
      ensures r == FrameAt(dataFile.Contents(), offset)
    {
      hide ViewHolds, TimeIndexRight, KeyIndexRight;
      DataFlushKeepsViews();
      var lenBytes := dataFile.Read(offset, 2);
      if lenBytes.Err? {
        return Err;
      }
      var len := SignedBE(lenBytes.value);
      if len == 0 {
        return Ok([]);
      }
      if len < 0 {
        return Err;
      }
      r := dataFile.Read(offset + 2, len);
    }

    lemma DataFlushKeepsViews()
      requires Valid()
      ensures ViewHolds(dataFile.Contents(), |dataFile.Contents()|, views.time)
      ensures ViewHolds(dataFile.Contents(), |dataFile.Contents()|, views.txid)
      ensures ViewHolds(dataFile.Contents(), |dataFile.Contents()|, views.gxid)
    {
      hide ViewHolds, TimeIndexRight, KeyIndexRight;
      ViewAfterDataFlush(dataFile.Contents(), dataFile.synced, views.time);
      ViewAfterDataFlush(dataFile.Contents(), dataFile.synced, views.txid);
      ViewAfterDataFlush(dataFile.Contents(), dataFile.synced, views.gxid);
    }

    // ---------- the four steps of a flush ----------

    /** Everything written is in the part of the data file that a crash leaves. */
    ghost predicate DataFlushed()
      reads dataFile
    {
      dataFile.synced == |dataFile.Contents()|
    }

    method FlushData()
      requires Valid()
      modifies dataFile
      ensures Valid() && views == old(views) && DataFlushed()
      ensures dataFile.Contents() == old(dataFile.Contents()) && KeyFiles() == old(KeyFiles())
    {
      hide ViewHolds, TimeIndexRight, KeyIndexRight;
      DataFlushKeepsViews();
      dataFile.Flush();
    }

    /** An index may be flushed only when the data has been. */
    method FlushTime()
      requires Valid() && DataFlushed()
      modifies this, timeIndex.Repr
      ensures Valid() && DataFlushed()
      ensures dataFile.Contents() == old(dataFile.Contents()) && KeyFiles() == old(KeyFiles())
      ensures views == old(views).(time := AllFlushed(old(views).time))
    {
      hide ViewHolds, KeyIndexRight, TI.IndexTimeFile.Valid, TimeEntries;
      ViewAfterIndexFlush(dataFile.Contents(), views.time);
      timeIndex.Flush();
      views := views.(time := AllFlushed(views.time));
    }

    method FlushTxid()
      requires Valid() && DataFlushed()
      modifies this, txidIndex.Repr
      ensures Valid() && DataFlushed()
      ensures dataFile.Contents() == old(dataFile.Contents()) && KeyFiles() == old(KeyFiles())
      ensures views == old(views).(txid := AllFlushed(old(views).txid))
    {
      hide ViewHolds, TimeIndexRight, KI.IndexKeyFile.Valid, IndexOps;
      ViewAfterIndexFlush(dataFile.Contents(), views.txid);
      txidIndex.Flush();
      views := views.(txid := AllFlushed(views.txid));
    }

    method FlushGxid()
      requires Valid() && DataFlushed()
      modifies this, gxidIndex.Repr
      ensures Valid() && DataFlushed()
      ensures dataFile.Contents() == old(dataFile.Contents()) && KeyFiles() == old(KeyFiles())
      ensures views == old(views).(gxid := AllFlushed(old(views).gxid))
    {
      hide ViewHolds, TimeIndexRight, KI.IndexKeyFile.Valid, IndexOps;
      ViewAfterIndexFlush(dataFile.Contents(), views.gxid);
      gxidIndex.Flush();
      views := views.(gxid := AllFlushed(views.gxid));
    }

    /** The data first and the indexes after it, so that what the indexes on disk point to is always
        on disk too. */
    method Flush()
      requires Valid()
      modifies Repr()
      ensures Valid() && DataFlushed()
      ensures dataFile.Contents() == old(dataFile.Contents()) && KeyFiles() == old(KeyFiles())
      ensures views == FlushedTo(old(views), 4)
    {
      hide Valid;
      FlushData();
      FlushTime();
      FlushTxid();
      FlushGxid();
    }
  }

  /** The views after the first n of the four steps of a flush. */
  function FlushedTo(v: Views, n: nat): Views {
    Views(if n >= 2 then AllFlushed(v.time) else v.time,
          if n >= 3 then AllFlushed(v.txid) else v.txid,
          if n >= 4 then AllFlushed(v.gxid) else v.gxid)
  }

  function SavedViews(v: Views): Views
    requires Sized(v.time) && Sized(v.txid) && Sized(v.gxid)
  {
    Views(Saved(v.time), Saved(v.txid), Saved(v.gxid))
  }

  lemma ViewFrames(file: Bytes, synced: nat, v: View)
    requires ViewHolds(file, synced, v)
    ensures Sized(v) && FramesHold(file, v.log, v.offs)
  {
  }

  /** Every position an index gives for an id is the start of a complete frame of that id's data. */
  lemma IdLeadsToData(file: Bytes, synced: nat, v: View, gx: bool, id: i64)
    requires ViewHolds(file, synced, v)
    ensures Sized(v)
    ensures var found := Replay(IndexOps(v.log, v.offs, gx), ToBE(id, 8));
            && |found| == |DataOf(v.log, gx, id)|
            && forall j | 0 <= j < |found| :: FrameAt(file, PosOf(found[j])) == Readback(DataOf(v.log, gx, id)[j])
  {
    hide FramesHold;
    LookupLeadsToData(file, v.log, v.offs, gx, id);
  }

  lemma StartAll(datas: seq<Bytes>)
    ensures Onto([], All(datas[0..])) == All(datas)
  {
    assert datas[0..] == datas;
    if All(datas).Ok? {
      assert [] + All(datas).value == All(datas).value;
    }
  }

  lemma EndAll(done: seq<Bytes>)
    ensures Onto(done, All([])) == Ok(done)
  {
    assert done + [] == done;
  }

  /** After a crash: the slot tables are as last flushed, the key files keep every byte, and the data
      file is cut anywhere at or beyond its last flushed length. Each index of the reopened store
      answers for exactly what it had flushed. The reopened store is a valid one, so every position
      an index holds is still the start of a complete frame; whatever was written since is out of
      reach, and later writes go on from there. */
  method CrashAndReopen(store: XLogStore, cut: nat) returns (again: XLogStore)
    requires store.Valid()
    requires store.dataFile.synced <= cut <= |store.dataFile.Contents()|
    ensures again.Valid() && fresh(again.Repr())
    ensures Sized(store.views.time) && Sized(store.views.txid) && Sized(store.views.gxid)
    ensures again.views == SavedViews(store.views)
    ensures again.timeIndex.timeBlock.zone == store.timeIndex.timeBlock.zone
    ensures again.dataFile.Contents() == store.dataFile.Contents()[..cut] && again.dataFile.synced == cut
    ensures again.KeyFiles() == store.KeyFiles()
  {
    hide ViewHolds, TimeEntries, IndexOps, TI.FilesHold, KI.FilesHold, Loaded, Saved, AllFlushed, TI.TimeState,
         KI.IndexState, KI.Keeps;
    var time, txid, gxid := store.timeIndex, store.txidIndex, store.gxidIndex;
    ghost var all, synced, v := store.dataFile.Contents(), store.dataFile.synced, store.views;
    ViewAfterCrash(all, synced, v.time, cut);
    ViewAfterCrash(all, synced, v.txid, cut);
    ViewAfterCrash(all, synced, v.gxid, cut);
    TI.SavedTableHolds(time.timeBlock.buf[..], Loaded(time.timeBlock.disk, MemTimeBlock.MEM_BUFFER_SIZE),
                       time.keyFile.bytes,
                       time.log, time.heads, time.savedHeads, time.entries, time.durable, time.timeBlock.zone);
    KI.SavedTableHolds(txid.hashBlock.buf[..], Loaded(txid.hashBlock.disk, txid.hashBlock.memSize), txid.keyFile.bytes,
                       txid.log, txid.heads, txid.savedHeads, txid.ops, txid.durable, txid.intact);
    KI.SavedTableHolds(gxid.hashBlock.buf[..], Loaded(gxid.hashBlock.disk, gxid.hashBlock.memSize), gxid.keyFile.bytes,
                       gxid.log, gxid.heads, gxid.savedHeads, gxid.ops, gxid.durable, gxid.intact);
    var data := store.dataFile.disk + store.dataFile.pending;
    var files := StoreFiles(data[..cut], time.timeBlock.disk, time.keyFile.bytes,
                            txid.hashBlock.disk, txid.keyFile.bytes, gxid.hashBlock.disk, gxid.keyFile.bytes);
    ghost var held := HeldRecords(time.log, time.savedHeads, txid.log, txid.savedHeads, gxid.log, gxid.savedHeads);
    again := new XLogStore.Open(files, txid.hashBlock.memSize, time.timeBlock.zone, SavedViews(v), held);
  }

  /** A crash after the first n steps of a flush: the indexes flushed by then answer for everything
      written, the others for what they had flushed before, and every position any of them holds is
      the start of a complete frame. */
  method CrashDuringFlush(store: XLogStore, n: nat, cut: nat) returns (again: XLogStore)
    requires store.Valid() && n <= 4
    requires (if n == 0 then store.dataFile.synced else |store.dataFile.Contents()|) <= cut
         <= |store.dataFile.Contents()|
    modifies store.Repr()
    ensures again.Valid() && fresh(again.Repr())
    ensures var v := FlushedTo(old(store.views), n);
            && Sized(v.time) && Sized(v.txid) && Sized(v.gxid)
            && again.views == SavedViews(v)
    ensures again.dataFile.Contents() == old(store.dataFile.Contents())[..cut] && again.dataFile.synced == cut
    ensures again.KeyFiles() == old(store.KeyFiles())
  {
    hide XLogStore.Valid, Sized, AllFlushed, SavedViews;
    if n >= 1 {
      store.FlushData();
    }
    if n >= 2 {
      store.FlushTime();
    }
    if n >= 3 {
      store.FlushTxid();
    }
    if n >= 4 {
      store.FlushGxid();
    }
    assert store.views == FlushedTo(old(store.views), n);
    again := CrashAndReopen(store, cut);
  }

  /** A flush and the writes run in different tasks, so entries may be written between the steps of a
      flush: the index then reaches the disk with entries whose frames are still in the buffer. After
      a crash, a lookup in the reopened index finds the newest entry of the transaction, and reading
      it gives its data if its frame lies in front of the cut and an error if not. */
  method CrashAfterLateFlush(store: XLogStore, cut: nat, txid: i64) returns (r: Option<Result<Bytes>>)
    requires store.Valid() && store.dataFile.synced <= cut <= |store.dataFile.Contents()|
    modifies store.txidIndex.Repr
    ensures var v := store.views.txid;
            && Sized(v)
            && var datas := DataWithin(v.log, v.offs, false, txid, cut);
               r == if datas == [] then None else Some(datas[0])
    ensures LateAnswer(store.views.txid, txid, cut, r)
  {
    hide TimeIndexRight, IndexOps, DataWithin, FrameAt, PosOf, FramesHold, ToBE, LateAnswer;
    ghost var v := store.views.txid;
    LateAnswers(v, txid, cut);
    var data := store.dataFile.disk + store.dataFile.pending;
    ViewFrames(data, store.dataFile.synced, v);
    LookupAfterCut(data, v.log, v.offs, false, txid, cut);
    store.txidIndex.Flush();
    var index := KI.CrashAndReopen(store.txidIndex);
    assert index.ops == IndexOps(v.log, v.offs, false);
    var found := index.Get(ToBE(txid, 8));
    if found.None? {
      return None;
    }
    var offset := PosOf(found.value);
    r := Some(FrameAt(data[..cut], offset));
  }

  /** The entry logged last for the transaction, if the bytes that its 16-bit length asks for lie in front
      of the cut. */
  ghost predicate LateAnswer(v: View, txid: i64, cut: nat, r: Option<Result<Bytes>>) {
    && |v.offs| == |v.log|
    && (forall i: nat | IsNewest(v.log, txid, i) :: FoundWithin(v.log[i].data, v.offs[i], cut, r))
    && (NeverLogged(v.log, txid) ==> r == None)
  }

  ghost predicate FoundWithin(data: Bytes, off: nat, cut: nat, r: Option<Result<Bytes>>) {
    var n := |data| % 0x1_0000;
    r == Some(if n < 0x8000 && off + 2 + n <= cut then Ok(data[..n]) else Err)
  }

  lemma LateAnswers(v: View, txid: i64, cut: nat)
    requires |v.offs| == |v.log|
    ensures var datas := DataWithin(v.log, v.offs, false, txid, cut);
            LateAnswer(v, txid, cut, if datas == [] then None else Some(datas[0]))
  {
    hide DataWithin;
    TransactionWithin(v.log, v.offs, txid, cut);
  }

  /** A store whose indexes agree on a log and that has been flushed comes back with that log. */
  lemma FlushedLogComesBack(v: Views, log: XLog)
    requires Sized(v.time) && Sized(v.txid) && Sized(v.gxid)
    requires v.time.log == v.txid.log == v.gxid.log == log
    ensures var f := FlushedTo(v, 4);
            && Sized(f.time) && Sized(f.txid) && Sized(f.gxid)
            && SavedViews(f).time.log == SavedViews(f).txid.log == SavedViews(f).gxid.log == log
  {
    assert log[..|log|] == log;
  }
}
