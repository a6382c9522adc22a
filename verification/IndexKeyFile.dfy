/** The key index: a hash slot table in memory over an append-only key file. */
module IndexKeyFile {
  import opened ByteCodec
  import opened DataOutput
  import opened DataInput
  import opened RealKeyFile
  import opened KeyLog
  import opened SlotChains
  import opened SlotBuffer
  import opened KeyIndex
  import opened KeyScan
  import MemHashBlock
  import Crc32

  function Bucket(tableSize: nat): Bucketing
    requires tableSize >= MEM_HEAD_RESERVED + KEY_LENGTH
  {
    ByHash((tableSize - MEM_HEAD_RESERVED) / KEY_LENGTH)
  }

  /** A slot table and a key file that together hold the given history. */
  ghost predicate FilesHold(table: Bytes, kfile: Bytes, log: Log, heads: Heads, ops: History) {
    && |table| >= MEM_HEAD_RESERVED + KEY_LENGTH
    && Sound(log)
    && kfile == Image(log)
    && Chained(Bucket(|table|), log, heads)
    && TableHolds(table, log, heads)
    && Refines(Bucket(|table|), log, heads, ops)
    && Ordered(Bucket(|table|), log, heads, ops)
  }

  /** The heads of a fresh table: every slot empty. */
  ghost function NoHeads(memSize: nat): Heads
    requires memSize >= KEY_LENGTH
  {
    seq(Slots(Bucket(|Loaded([], memSize)|)), _ => -1)
  }

  /** Missing files hold the empty history. */
  lemma NoFilesHoldNothing(memSize: nat)
    requires memSize >= KEY_LENGTH
    ensures FilesHold(Loaded([], memSize), MAGIC, [], NoHeads(memSize), [])
    ensures Covered(Bucket(|Loaded([], memSize)|), [], NoHeads(memSize))
  {
    var table := Loaded([], memSize);
    var b := Bucket(|table|);
    FreshTable(memSize, Slots(b));
    EmptyRefines(b);
    EmptyIsOrdered(b);
  }

  /** The key's slot, the record a put appends, and the heads afterwards. */
  ghost function PutRecord(table: Bytes, heads: Heads, key: Bytes, value: Bytes): Record
    requires |table| >= MEM_HEAD_RESERVED + KEY_LENGTH && |heads| == Slots(Bucket(|table|))
  {
    NewRecord(Bucket(|table|), heads, key, value)
  }

  /** Appending the record and storing its position in the key's slot extends the history. */
  lemma PutHolds(table: Bytes, count: i32, kfile: Bytes, log: Log, heads: Heads, ops: History, key: Bytes, value: Bytes)
    requires FilesHold(table, kfile, log, heads, ops)
    requires |key| < 0x8000 && |value| <= 0x7FFF_FFFF && |kfile| < 0x80_0000_0000
    ensures var slot := SlotOf(Bucket(|table|), key);
            FilesHold(Stored(table, count, slot, |kfile|),
                      kfile + EncRecord(false, Link(log, heads[slot]), key, value),
                      log + [PutRecord(table, heads, key, value)], heads[slot := |log|], ops + [Put(key, value)])
  {
    hide Stored, Bucket, SlotOf, RecordSize, EncRecord, Ordered;
    var b := Bucket(|table|);
    var slot, r := SlotOf(b, key), NewRecord(b, heads, key, value);
    ImageLength(log);
    ImageAppend(log, r);
    AppendKeepsSound(log, r);
    PutRefines(b, log, heads, ops, key, value);
    PutKeepsOrdered(b, log, heads, ops, key, value);
    TableAfterAppend(table, count, log, heads, slot, r);
  }

  /** A table saved earlier still holds its own history after the key file has grown. */
  lemma PutKeepsSavedTable(table: Bytes, saved: Bytes, kfile: Bytes, log: Log, heads: Heads, savedHeads: Heads,
                           ops: History, durable: History, key: Bytes, value: Bytes)
    requires FilesHold(table, kfile, log, heads, ops) && FilesHold(saved, kfile, log, savedHeads, durable)
    requires |saved| == |table|
    requires |key| < 0x8000 && |value| <= 0x7FFF_FFFF && |kfile| < 0x80_0000_0000
    ensures var slot := SlotOf(Bucket(|table|), key);
            FilesHold(saved, kfile + EncRecord(false, Link(log, heads[slot]), key, value),
                      log + [PutRecord(table, heads, key, value)], savedHeads, durable)
  {
    hide Bucket, SlotOf, RecordSize, EncRecord, Ordered;
    var b := Bucket(|table|);
    var r := NewRecord(b, heads, key, value);
    ImageLength(log);
    ImageAppend(log, r);
    AppendKeepsSound(log, r);
    GrowthKeepsSaved(b, log, heads, savedHeads, durable, r);
    GrowthKeepsOrdered(b, log, heads, savedHeads, durable, r);
    TableStaysRight(saved, log, savedHeads, r);
  }

  /** Marking the key's chain leaves every table of those heads holding the history with the
      delete added. */
  lemma DeleteHolds(table: Bytes, saved: Bytes, kfile: Bytes, log: Log, heads: Heads, savedHeads: Heads,
                    ops: History, durable: History, key: Bytes)
    requires FilesHold(table, kfile, log, heads, ops) && FilesHold(saved, kfile, log, savedHeads, durable)
    requires |saved| == |table| && OnChains(log, heads, savedHeads)
    ensures var erased := Erase(log, heads[SlotOf(Bucket(|table|), key)], key);
            FilesHold(saved, Image(erased), erased, savedHeads, durable + [Delete(key)])
  {
    hide Bucket, SlotOf, Erase, Image, Ordered;
    var b := Bucket(|table|);
    var h := heads[SlotOf(b, key)];
    EraseIsPointwise(log, h, key);
    MarkKeepsSound(log, Erase(log, h, key));
    DeleteRefines(b, log, heads, savedHeads, durable, key);
    DeleteKeepsOrdered(b, log, heads, savedHeads, durable, key);
    TableAfterMarks(saved, log, savedHeads, Erase(log, h, key));
  }

  /** Everything an open index knows: its table holds the whole history; the table last written
      to disk holds what a crash would fall back to, and its heads lie on the current chains;
      without a crash behind it, the file holds no unreachable record. */
  ghost predicate IndexState(table: Bytes, saved: Bytes, kfile: Bytes, log: Log, heads: Heads, savedHeads: Heads,
                             ops: History, durable: History, intact: bool) {
    && FilesHold(table, kfile, log, heads, ops)
    && FilesHold(saved, kfile, log, savedHeads, durable)
    && |saved| == |table|
    && OnChains(log, heads, savedHeads)
    && (intact ==> Covered(Bucket(|table|), log, heads))
  }

  lemma OpenState(table: Bytes, kfile: Bytes, log: Log, heads: Heads, ops: History, intact: bool)
    requires FilesHold(table, kfile, log, heads, ops)
    requires intact ==> Covered(Bucket(|table|), log, heads)
    ensures |table| >= MEM_HEAD_RESERVED + KEY_LENGTH
    ensures IndexState(table, table, kfile, log, heads, heads, ops, ops, intact)
  {
    HeadsAreOnTheirChains(Bucket(|table|), log, heads);
  }

  lemma HeadIsStored(table: Bytes, kfile: Bytes, log: Log, heads: Heads, ops: History, slot: nat)
    requires FilesHold(table, kfile, log, heads, ops) && slot < Slots(Bucket(|table|))
    ensures SlotPos(slot) + KEY_LENGTH <= |table| && |heads| == Slots(Bucket(|table|))
    ensures -1 <= heads[slot] < |log| && SlotAt(table, slot) == Link(log, heads[slot])
    ensures Link(log, heads[slot]) < 0x80_0000_0000
  {
  }

  lemma PutStep(table: Bytes, count: i32, saved: Bytes, kfile: Bytes, log: Log, heads: Heads, savedHeads: Heads,
                ops: History, durable: History, intact: bool, key: Bytes, value: Bytes)
    requires IndexState(table, saved, kfile, log, heads, savedHeads, ops, durable, intact)
    requires |key| < 0x8000 && |value| <= 0x7FFF_FFFF && |kfile| < 0x80_0000_0000
    ensures var slot := SlotOf(Bucket(|table|), key);
            && SlotPos(slot) + KEY_LENGTH <= |table|
            && |heads| == Slots(Bucket(|table|))
            && 0 <= SlotAt(table, slot) < 0x80_0000_0000
            && |EncRecord(false, SlotAt(table, slot), key, value)| == RecordSize(key, value)
            && IndexState(Stored(table, count, slot, |kfile|), saved,
                          kfile + EncRecord(false, SlotAt(table, slot), key, value),
                          log + [PutRecord(table, heads, key, value)], heads[slot := |log|], savedHeads,
                          ops + [Put(key, value)], durable, intact)
  {
    hide FilesHold, SlotOf, Stored, EncRecord, OnChains, Bucket;
    FilesAreChained(table, kfile, log, heads, ops);
    var b := Bucket(|table|);
    var slot, r := SlotOf(b, key), PutRecord(table, heads, key, value);
    HeadIsStored(table, kfile, log, heads, ops, slot);
    PutHolds(table, count, kfile, log, heads, ops, key, value);
    PutKeepsSavedTable(table, saved, kfile, log, heads, savedHeads, ops, durable, key, value);
    RecordLength(false, SlotAt(table, slot), key, value);
    PutKeepsOnChains(b, log, heads, savedHeads, r);
    if intact {
      PutKeepsCovered(b, log, heads, key, value);
    }
  }

  lemma FilesAreChained(table: Bytes, kfile: Bytes, log: Log, heads: Heads, ops: History)
    requires FilesHold(table, kfile, log, heads, ops)
    ensures |table| >= MEM_HEAD_RESERVED + KEY_LENGTH
    ensures Sound(log) && kfile == Image(log) && Chained(Bucket(|table|), log, heads)
  {
  }

  /** Erasing a key along its chain adds the delete to both histories. */
  lemma DeleteStep(table: Bytes, saved: Bytes, kfile: Bytes, log: Log, heads: Heads, savedHeads: Heads,
                   ops: History, durable: History, intact: bool, key: Bytes)
    requires IndexState(table, saved, kfile, log, heads, savedHeads, ops, durable, intact)
    ensures var erased := Erase(log, heads[SlotOf(Bucket(|table|), key)], key);
            IndexState(table, saved, Image(erased), erased, heads, savedHeads,
                       ops + [Delete(key)], durable + [Delete(key)], intact)
  {
    hide FilesHold, SlotOf, Erase, Image, Covered, Bucket;
    FilesAreChained(table, kfile, log, heads, ops);
    var b := Bucket(|table|);
    var h := heads[SlotOf(b, key)];
    HeadsAreOnTheirChains(b, log, heads);
    DeleteHolds(table, table, kfile, log, heads, heads, ops, ops, key);
    DeleteHolds(table, saved, kfile, log, heads, savedHeads, ops, durable, key);
    DeleteKeepsOnChains(b, log, heads, savedHeads, h, key);
    if intact {
      DeleteKeepsCovered(b, log, heads, h, key);
    }
  }

  lemma FlushStep(table: Bytes, saved: Bytes, kfile: Bytes, log: Log, heads: Heads, savedHeads: Heads,
                  ops: History, durable: History, intact: bool)
    requires IndexState(table, saved, kfile, log, heads, savedHeads, ops, durable, intact)
    ensures IndexState(table, table, kfile, log, heads, heads, ops, ops, intact)
  {
    OpenState(table, kfile, log, heads, ops, intact);
  }

  /** Where a lookup starts: the slot holds the position of a record from which the chain yields
      the key's history. */
  lemma LookupStart(table: Bytes, saved: Bytes, kfile: Bytes, log: Log, heads: Heads, savedHeads: Heads,
                    ops: History, durable: History, intact: bool, key: Bytes)
    requires IndexState(table, saved, kfile, log, heads, savedHeads, ops, durable, intact)
    ensures Sound(log) && Linked(log) && kfile == Image(log)
    ensures |table| >= MEM_HEAD_RESERVED + KEY_LENGTH
    ensures var slot := SlotOf(Bucket(|table|), key);
            && SlotPos(slot) + KEY_LENGTH <= |table|
            && slot < |heads|
            && -1 <= heads[slot] < |log|
            && SlotAt(table, slot) == Link(log, heads[slot])
            && Values(log, heads[slot], key) == Replay(ops, key)
  {
    hide SlotOf;
  }

  lemma StateIsSound(table: Bytes, saved: Bytes, kfile: Bytes, log: Log, heads: Heads, savedHeads: Heads,
                     ops: History, durable: History, intact: bool)
    requires IndexState(table, saved, kfile, log, heads, savedHeads, ops, durable, intact)
    ensures Sound(log) && Linked(log) && kfile == Image(log)
  {
  }

  /** `kept` lists the records of the file that are not marked deleted, with what the table in
      memory and the table on disk reach of them. */
  ghost predicate Keeps(table: Bytes, log: Log, heads: Heads, savedHeads: Heads, kept: seq<Kept>) {
    && |table| >= MEM_HEAD_RESERVED + KEY_LENGTH
    && Chained(Bucket(|table|), log, heads) && Chained(Bucket(|table|), log, savedHeads)
    && kept == KeptOf(Bucket(|table|), log, heads, savedHeads, |log|)
  }

  ghost function KeptIn(table: Bytes, log: Log, heads: Heads): (kept: seq<Kept>)
    requires |table| >= MEM_HEAD_RESERVED + KEY_LENGTH && Chained(Bucket(|table|), log, heads)
    ensures Keeps(table, log, heads, heads, kept)
  {
    KeptOf(Bucket(|table|), log, heads, heads, |log|)
  }

  lemma {:induction false} OpenedAsFlushed(b: Bucketing, log: Log, heads: Heads, n: nat)
    requires Chained(b, log, heads) && n <= |log|
    ensures JustFlushed(KeptOf(b, log, heads, heads, n))
  {
    hide SlotOf, OnChain;
    if n > 0 {
      OpenedAsFlushed(b, log, heads, n - 1);
    }
  }

  lemma KeepPut(table: Bytes, count: i32, log: Log, heads: Heads, savedHeads: Heads, kept: seq<Kept>,
                at: int, key: Bytes, value: Bytes)
    requires Keeps(table, log, heads, savedHeads, kept)
    requires SlotPos(SlotOf(Bucket(|table|), key)) + KEY_LENGTH <= |table|
    ensures |heads| == Slots(Bucket(|table|))
    ensures var slot := SlotOf(Bucket(|table|), key);
            Keeps(Stored(table, count, slot, at), log + [PutRecord(table, heads, key, value)], heads[slot := |log|],
                  savedHeads, AfterPut(kept, key, value))
  {
    hide SlotOf, Stored, Bucket;
    KeptAfterPut(Bucket(|table|), log, heads, savedHeads, key, value);
  }

  lemma KeepDelete(table: Bytes, log: Log, heads: Heads, savedHeads: Heads, kept: seq<Kept>, key: Bytes)
    requires Keeps(table, log, heads, savedHeads, kept) && OnChains(log, heads, savedHeads)
    ensures var erased := Erase(log, heads[SlotOf(Bucket(|table|), key)], key);
            Keeps(table, erased, heads, savedHeads, AfterDelete(kept, key))
  {
    hide SlotOf, Bucket, Erase, OnChains;
    KeptAfterDelete(Bucket(|table|), log, heads, savedHeads, key, |log|);
  }

  lemma KeepFlush(table: Bytes, log: Log, heads: Heads, savedHeads: Heads, kept: seq<Kept>)
    requires Keeps(table, log, heads, savedHeads, kept)
    ensures Keeps(table, log, heads, heads, AfterFlush(kept)) && JustFlushed(AfterFlush(kept))
    ensures Keeps(table, log, savedHeads, savedHeads, AfterCrash(kept))
  {
    hide Bucket;
    KeptAfterFlushAndCrash(Bucket(|table|), log, heads, savedHeads, |log|);
  }

  lemma StateIsChained(table: Bytes, saved: Bytes, kfile: Bytes, log: Log, heads: Heads, savedHeads: Heads,
                       ops: History, durable: History, intact: bool)
    requires IndexState(table, saved, kfile, log, heads, savedHeads, ops, durable, intact)
    ensures |table| >= MEM_HEAD_RESERVED + KEY_LENGTH && OnChains(log, heads, savedHeads)
    ensures Chained(Bucket(|table|), log, heads) && Chained(Bucket(|table|), log, savedHeads)
  {
  }

  /** Scanning the file in order gives every record that is not marked deleted; those that lookups
      reach are the surviving pairs of the history, in the order they were put. */
  lemma ScanIsKept(table: Bytes, saved: Bytes, kfile: Bytes, log: Log, heads: Heads, savedHeads: Heads,
                   ops: History, durable: History, intact: bool, kept: seq<Kept>)
    requires IndexState(table, saved, kfile, log, heads, savedHeads, ops, durable, intact)
    requires Keeps(table, log, heads, savedHeads, kept)
    ensures FitWindow(log) ==> ScanFrom(log, 0) == PairsOf(kept)
    ensures ReachablePairs(kept) == Surviving(ops)
  {
    hide Refines, Bucket;
    KeptIsLive(Bucket(|table|), log, heads, savedHeads, |log|);
    assert log[..0] == [] && log[..|log|] == log;
    if FitWindow(log) {
      ScanIsLivePrefix(log, 0, |log|);
    }
  }

  lemma IntactHasNoOrphans(table: Bytes, saved: Bytes, kfile: Bytes, log: Log, heads: Heads, savedHeads: Heads,
                           ops: History, durable: History, intact: bool, kept: seq<Kept>)
    requires IndexState(table, saved, kfile, log, heads, savedHeads, ops, durable, intact)
    requires Keeps(table, log, heads, savedHeads, kept)
    ensures intact ==> NoOrphans(kept)
  {
    hide FilesHold, Bucket, Chained;
    if intact {
      CoveredHasNoOrphans(Bucket(|table|), log, heads, savedHeads, |log|);
    }
  }

  /** In a run without crashes there are no orphans. */
  lemma {:induction false} CoveredHasNoOrphans(b: Bucketing, log: Log, heads: Heads, saved: Heads, n: nat)
    requires Chained(b, log, heads) && Chained(b, log, saved) && Covered(b, log, heads) && n <= |log|
    ensures NoOrphans(KeptOf(b, log, heads, saved, n))
  {
    hide SlotOf, Chained;
    if n > 0 {
      CoveredHasNoOrphans(b, log, heads, saved, n - 1);
    }
  }

  /** One step of a lookup loop: a positive position is a record whose fields read back, and
      position 0 is the end of the chain. */
  lemma LookupStep(log: Log, i: int, key: Bytes)
    requires Sound(log) && -1 <= i < |log|
    ensures Linked(log) && (Link(log, i) > 0 <==> i >= 0)
    ensures i < 0 ==> Values(log, i, key) == []
    ensures i >= 0 ==>
              && -1 <= log[i].prev < i
              && Values(log, i, key)
                 == (if !log[i].deleted && log[i].key == key then [log[i].value] else [])
                     + Values(log, log[i].prev, key)
              && IsDeletedAt(Image(log), Link(log, i)) == Ok(log[i].deleted)
              && KeyAt(Image(log), Link(log, i)) == Ok(log[i].key)
              && DataPosAt(Image(log), Link(log, i)) == Ok(log[i].value)
              && PrevPosAt(Image(log), Link(log, i)) == Ok(Link(log, log[i].prev))
  {
    if i >= 0 {
      FieldsReadBack(log, i);
    }
  }

  lemma EraseAtEnd(log: Log, i: int, key: Bytes)
    requires Linked(log) && i == -1
    ensures Erase(log, i, key) == log && Values(log, i, key) == []
  {
  }

  /** What one step of the delete loop does to the file: if the record is live and has the key, a
      one-byte write marks it, and the number of live values below shrinks by one. */
  lemma EraseStep(log: Log, i: nat, key: Bytes)
    requires Sound(log) && i < |log|
    ensures var marks := !log[i].deleted && log[i].key == key;
            var next := if marks then Mark(log, i) else log;
            && Sound(next) && Linked(next) && |next| == |log| && next[i].prev == log[i].prev
            && |Image(next)| == |Image(log)|
            && Image(next) == (if marks then WriteAt(Image(log), Link(log, i), EncBool(true)) else Image(log))
            && Erase(next, log[i].prev, key) == Erase(log, i, key)
            && |Values(log, i, key)| == (if marks then 1 else 0) + |Values(next, log[i].prev, key)|
            && Link(next, log[i].prev) == Link(log, log[i].prev)
            && PrevPosAt(Image(next), Link(log, i)) == Ok(Link(log, log[i].prev))
  {
    hide Image, RecordSize, PrevPosAt;
    var marks := !log[i].deleted && log[i].key == key;
    var next := if marks then Mark(log, i) else log;
    MarkKeepsSound(log, next);
    FieldsReadBack(next, i);
    if marks {
      ImageOfDelete(log, i);
    } else if log[i].key == key {
      assert Mark(log, i) == log;
    }
    ValuesSame(next, log, log[i].prev, key);
    ImageLength(next);
    ImageLength(log);
  }

  // ---------- the loops over a chain ----------

  /** Follows the chain to the first live record with this key. */
  method FindOnChain(keyFile: RealKeyFile, start: int, key: Bytes, ghost log: Log, ghost head: int)
    returns (r: Option<Bytes>)
    requires Sound(log) && keyFile.bytes == Image(log) && -1 <= head < |log| && start == Link(log, head)
    ensures r == if Values(log, head, key) == [] then None else Some(Values(log, head, key)[0])
  {
    hide Image, Sound, Link, Values, IsDeletedAt, KeyAt, DataPosAt, PrevPosAt;
    var pos := start;
    ghost var i := head;
    LookupStep(log, i, key);
    while pos > 0
      invariant -1 <= i < |log| && pos == Link(log, i) && (pos > 0 <==> i >= 0)
      invariant Values(log, i, key) == Values(log, head, key)
      decreases i
    {
      LookupStep(log, i, key);
      LookupStep(log, log[i].prev, key);
      var deleted := keyFile.IsDeleted(pos);
      if !deleted.value {
        var storedKey := keyFile.GetKey(pos);
        if storedKey.value == key {
          var dataPos := keyFile.GetDataPos(pos);
          return Some(dataPos.value);
        }
      }
      var prev := keyFile.GetPrevPos(pos);
      pos := prev.value;
      i := log[i].prev;
    }
    LookupStep(log, i, key);
    r := None;
  }

  /** Collects the values of every live record with this key. */
  method CollectOnChain(keyFile: RealKeyFile, start: int, key: Bytes, ghost log: Log, ghost head: int)
    returns (results: seq<Bytes>)
    requires Sound(log) && keyFile.bytes == Image(log) && -1 <= head < |log| && start == Link(log, head)
    ensures results == Values(log, head, key)
  {
    hide Image, Sound, Link, Values, IsDeletedAt, KeyAt, DataPosAt, PrevPosAt;
    var pos := start;
    ghost var i := head;
    LookupStep(log, i, key);
    results := [];
    while pos > 0
      invariant -1 <= i < |log| && pos == Link(log, i) && (pos > 0 <==> i >= 0)
      invariant results + Values(log, i, key) == Values(log, head, key)
      decreases i
    {
      LookupStep(log, i, key);
      LookupStep(log, log[i].prev, key);
      var deleted := keyFile.IsDeleted(pos);
      if !deleted.value {
        var storedKey := keyFile.GetKey(pos);
        if storedKey.value == key {
          var dataPos := keyFile.GetDataPos(pos);
          results := results + [dataPos.value];
        }
      }
      var prev := keyFile.GetPrevPos(pos);
      pos := prev.value;
      i := log[i].prev;
    }
    LookupStep(log, i, key);
  }

  /** Marks every live record with this key deleted and says how many there were. */
  method MarkOnChain(keyFile: RealKeyFile, start: int, key: Bytes, ghost log: Log, ghost head: int)
    returns (deleted: nat)
    requires Sound(log) && keyFile.bytes == Image(log) && -1 <= head < |log| && start == Link(log, head)
    modifies keyFile
    ensures Linked(log) && keyFile.bytes == Image(Erase(log, head, key)) && |keyFile.bytes| == |old(keyFile.bytes)|
    ensures deleted == |Values(log, head, key)|
  {
    hide Image, Sound, Linked, Link, IsDeletedAt, KeyAt, PrevPosAt, Erase, Mark, Values, WriteAt, EncBool;
    var pos := start;
    ghost var i, current := head, log;
    LookupStep(log, i, key);
    deleted := 0;
    while pos > 0
      invariant |current| == |log| && Sound(current) && Linked(current)
      invariant -1 <= i < |current| && pos == Link(current, i) && (pos > 0 <==> i >= 0)
      invariant keyFile.bytes == Image(current) && |keyFile.bytes| == |old(keyFile.bytes)|
      invariant Erase(current, i, key) == Erase(log, head, key)
      invariant deleted + |Values(current, i, key)| == |Values(log, head, key)|
      decreases i
    {
      LookupStep(current, i, key);
      EraseStep(current, i, key);
      var isDeleted := keyFile.IsDeleted(pos);
      ghost var next := current;
      if !isDeleted.value {
        var storedKey := keyFile.GetKey(pos);
        if storedKey.value == key {
          keyFile.SetDelete(pos, true);
          deleted := deleted + 1;
          next := Mark(current, i);
        }
      }
      var prev := keyFile.GetPrevPos(pos);
      pos := prev.value;
      i, current := current[i].prev, next;
      LookupStep(current, i, key);
    }
    EraseAtEnd(current, i, key);
  }

  /** How the histories and the lists of records belong together. */
  ghost predicate HistoriesHold(ops: History, flushed: History, durable: History, kept: seq<Kept>,
                                flushedKept: seq<Kept>) {
    && flushed <= ops && durable == flushed + Deletes(ops[|flushed|..])
    && JustFlushed(flushedKept) && kept == RunKept(flushedKept, ops[|flushed|..])
  }

  lemma HistoriesAfterPut(ops: History, flushed: History, durable: History, kept: seq<Kept>, flushedKept: seq<Kept>,
                          key: Bytes, value: Bytes)
    requires HistoriesHold(ops, flushed, durable, kept, flushedKept)
    ensures HistoriesHold(ops + [Put(key, value)], flushed, durable, AfterPut(kept, key, value), flushedKept)
  {
    hide JustFlushed, RunKept, Deletes;
    RunKeptStep(flushedKept, ops, |flushed|, Put(key, value));
    DeletesStep(ops, |flushed|, Put(key, value));
    assert Deletes(ops[|flushed|..]) + [] == Deletes(ops[|flushed|..]);
  }

  /** All that a put does, to the bytes and to what they mean. */
  lemma PutEverything(table: Bytes, count: i32, saved: Bytes, kfile: Bytes, log: Log, heads: Heads, savedHeads: Heads,
                      ops: History, durable: History, intact: bool, kept: seq<Kept>, key: Bytes, value: Bytes)
    requires IndexState(table, saved, kfile, log, heads, savedHeads, ops, durable, intact)
    requires Keeps(table, log, heads, savedHeads, kept)
    requires |key| < 0x8000 && |value| <= 0x7FFF_FFFF && |kfile| < 0x80_0000_0000
    ensures var slot := SlotOf(Bucket(|table|), key);
            && SlotPos(slot) + KEY_LENGTH <= |table| && |heads| == Slots(Bucket(|table|))
            && 0 <= SlotAt(table, slot) < 0x80_0000_0000
            && |EncRecord(false, SlotAt(table, slot), key, value)| == RecordSize(key, value)
            && var r := PutRecord(table, heads, key, value);
            && r.key == key && r.value == value
            && IndexState(Stored(table, count, slot, |kfile|), saved,
                          kfile + EncRecord(false, SlotAt(table, slot), key, value), log + [r], heads[slot := |log|],
                          savedHeads, ops + [Put(key, value)], durable, intact)
            && Keeps(Stored(table, count, slot, |kfile|), log + [r], heads[slot := |log|], savedHeads,
                     AfterPut(kept, key, value))
  {
    hide Stored, EncRecord, IndexState, SlotAt, RecordSize, Keeps, SlotOf;
    PutStep(table, count, saved, kfile, log, heads, savedHeads, ops, durable, intact, key, value);
    KeepPut(table, count, log, heads, savedHeads, kept, |kfile|, key, value);
  }

  class IndexKeyFile {
    const hashBlock: MemHashBlock.MemHashBlock
    const keyFile: RealKeyFile

    /** The records of the key file, and the head record of every slot. */
    ghost var log: Log
    ghost var heads: Heads
    /** Everything put and deleted so far. */
    ghost var ops: History

    /** The history at the last flush; the heads that the table's file holds; and the history a
        crash would fall back to. */
    ghost var flushed: History
    ghost var savedHeads: Heads
    ghost var durable: History

    /** The records that are not marked deleted, now and at the last flush. */
    ghost var kept: seq<Kept>
    ghost var flushedKept: seq<Kept>

    /** No crash has left records behind that are on no chain. */
    ghost var intact: bool

    /** The objects that make up the index. */
    ghost const Repr: set<object>

    ghost predicate Valid()
      reads this, Repr
      ensures Valid() ==> {this, hashBlock, keyFile} <= Repr
    {
      && Repr == {this, hashBlock, hashBlock.buf, keyFile}
      && hashBlock.Valid()
      && IndexState(hashBlock.buf[..], Loaded(hashBlock.disk, hashBlock.memSize), keyFile.bytes,
                    log, heads, savedHeads, ops, durable, intact)
      && Keeps(hashBlock.buf[..], log, heads, savedHeads, kept)
      && HistoriesHold(ops, flushed, durable, kept, flushedKept)
    }

    /** Opens the index from the content of its two files ([] for a missing one), which must hold
        some history. */
    constructor Open(hfile: Bytes, kfile: Bytes, memSize: nat,
                     ghost log: Log, ghost heads: Heads, ghost ops: History, ghost intact: bool)
      requires FilesHold(Loaded(hfile, memSize), KeyContent(kfile), log, heads, ops)
      requires intact ==> Covered(Bucket(|Loaded(hfile, memSize)|), log, heads)
      ensures Valid() && fresh(Repr)
      ensures this.log == log && this.heads == heads && this.ops == ops && this.intact == intact
      ensures savedHeads == heads && durable == flushed == ops
      ensures Keeps(Loaded(hfile, memSize), log, heads, heads, kept) && flushedKept == kept
      ensures hashBlock.disk == hfile && hashBlock.memSize == memSize
      ensures keyFile.bytes == KeyContent(kfile)
    {
      hide Loaded, IndexState, Covered, FilesHold, Keeps, JustFlushed;
      OpenState(Loaded(hfile, memSize), KeyContent(kfile), log, heads, ops, intact);
      FilesAreChained(Loaded(hfile, memSize), KeyContent(kfile), log, heads, ops);
      OpenedAsFlushed(Bucket(|Loaded(hfile, memSize)|), log, heads, |log|);
      var block := new MemHashBlock.MemHashBlock.Open(hfile, memSize);
      var records := new RealKeyFile.Open(kfile);
      hashBlock, keyFile := block, records;
      Repr := {this, block, block.buf, records};
      this.log, this.heads, this.ops := log, heads, ops;
      savedHeads, durable, flushed, this.intact := heads, ops, ops, intact;
      kept := KeptIn(Loaded(hfile, memSize), log, heads);
      flushedKept := KeptIn(Loaded(hfile, memSize), log, heads);
    }

    /** Appends a record in front of the slot's chain and makes it the head. */
    method Put(key: Bytes, dataPos: Bytes)
      requires Valid()
      requires |key| < 0x8000 && |dataPos| <= 0x7FFF_FFFF && |keyFile.bytes| < 0x80_0000_0000
      modifies Repr
      ensures Valid()
      ensures ops == old(ops) + [KeyIndex.Put(key, dataPos)]
      ensures durable == old(durable) && flushed == old(flushed) && intact == old(intact)
      ensures kept == AfterPut(old(kept), key, dataPos) && flushedKept == old(flushedKept)
      ensures |keyFile.bytes| == |old(keyFile.bytes)| + RecordSize(key, dataPos)
      ensures |log| == |old(log)| + 1 && log[..|old(log)|] == old(log)
      ensures log[|old(log)|].key == key && log[|old(log)|].value == dataPos
    {
      hide Loaded, Stored, EncRecord, Crc32.Hash, HashSlot, IndexState, SlotAt, RecordSize, Keeps, HistoriesHold,
           PutRecord, AfterPut;
      ghost var table, saved := hashBlock.buf[..], Loaded(hashBlock.disk, hashBlock.memSize);
      PutEverything(table, hashBlock.count, saved, keyFile.bytes, log, heads, savedHeads, ops, durable, intact, kept,
                    key, dataPos);
      HistoriesAfterPut(ops, flushed, durable, kept, flushedKept, key, dataPos);
      ghost var slot, r := SlotOf(Bucket(|table|), key), PutRecord(table, heads, key, dataPos);

      var keyHash := Crc32.HashBytes(ToU8(key));
      var prevPos := hashBlock.Get(keyHash);
      var newPos := keyFile.Append(prevPos, key, dataPos);
      hashBlock.Put(keyHash, newPos);

      heads := heads[slot := |log|];
      log := log + [r];
      ops := ops + [KeyIndex.Put(key, dataPos)];
      kept := AfterPut(kept, key, dataPos);
    }

    /** The newest value put for the key since its last delete. */
    method Get(key: Bytes) returns (r: Option<Bytes>)
      requires Valid()
      ensures r == if Replay(ops, key) == [] then None else Some(Replay(ops, key)[0])
    {
      hide Loaded, Image, Crc32.Hash, HashSlot, IndexState, SlotAt, Sound, Link, Values, Replay, Keeps, RunKept,
           JustFlushed;
      LookupStart(hashBlock.buf[..], Loaded(hashBlock.disk, hashBlock.memSize), keyFile.bytes, log, heads, savedHeads,
                  ops, durable, intact, key);
      var keyHash := Crc32.HashBytes(ToU8(key));
      var pos := hashBlock.Get(keyHash);
      r := FindOnChain(keyFile, pos, key, log, heads[SlotOf(Bucket(hashBlock.buf.Length), key)]);
    }

    /** All of them, newest first. */
    method GetAll(key: Bytes) returns (results: seq<Bytes>)
      requires Valid()
      ensures results == Replay(ops, key)
    {
      hide Loaded, Image, Crc32.Hash, HashSlot, IndexState, SlotAt, Sound, Link, Values, Replay, Keeps, RunKept,
           JustFlushed;
      LookupStart(hashBlock.buf[..], Loaded(hashBlock.disk, hashBlock.memSize), keyFile.bytes, log, heads, savedHeads,
                  ops, durable, intact, key);
      var keyHash := Crc32.HashBytes(ToU8(key));
      var pos := hashBlock.Get(keyHash);
      results := CollectOnChain(keyFile, pos, key, log, heads[SlotOf(Bucket(hashBlock.buf.Length), key)]);
    }

    method HasKey(key: Bytes) returns (found: bool)
      requires Valid()
      ensures found <==> Replay(ops, key) != []
    {
      var r := Get(key);
      found := r.Some?;
    }

    /** Marks every live record with this key deleted and says how many there were. */
    method Delete(key: Bytes) returns (deleted: nat)
      requires Valid()
      modifies Repr
      ensures Valid()
      ensures deleted == |Replay(old(ops), key)|
      ensures ops == old(ops) + [KeyIndex.Delete(key)]
      ensures durable == old(durable) + [KeyIndex.Delete(key)] && flushed == old(flushed) && intact == old(intact)
      ensures kept == AfterDelete(old(kept), key) && flushedKept == old(flushedKept)
      ensures |keyFile.bytes| == |old(keyFile.bytes)|
    {
      hide Loaded, Image, Crc32.Hash, HashSlot, IndexState, SlotAt, Sound, Linked, Link, Erase, Values, Replay, Deletes,
           OnChains, Keeps, JustFlushed, RunKept, AfterDelete;
      ghost var table, saved := hashBlock.buf[..], Loaded(hashBlock.disk, hashBlock.memSize);
      LookupStart(table, saved, keyFile.bytes, log, heads, savedHeads, ops, durable, intact, key);
      DeleteStep(table, saved, keyFile.bytes, log, heads, savedHeads, ops, durable, intact, key);
      StateIsChained(table, saved, keyFile.bytes, log, heads, savedHeads, ops, durable, intact);
      KeepDelete(table, log, heads, savedHeads, kept, key);
      RunKeptStep(flushedKept, ops, |flushed|, KeyIndex.Delete(key));
      var keyHash := Crc32.HashBytes(ToU8(key));
      var pos := hashBlock.Get(keyHash);
      ghost var h := heads[SlotOf(Bucket(hashBlock.buf.Length), key)];
      deleted := MarkOnChain(keyFile, pos, key, log, h);
      log := Erase(log, h, key);
      DeletesStep(ops, |flushed|, KeyIndex.Delete(key));
      ops := ops + [KeyIndex.Delete(key)];
      durable := durable + [KeyIndex.Delete(key)];
      kept := AfterDelete(kept, key);
      assert hashBlock.buf[..] == table;
    }

    /** Visits the records in file order; stops at the first one `get_record` cannot return. Without
        such a record it shows every record not marked deleted, orphans included; that is what the
        history has left if and only if there are no orphans. */
    method ReadAll() returns (entries: Pairs)
      requires Valid()
      ensures entries == ScanFrom(log, 0)
      ensures FitWindow(log) ==> entries == PairsOf(kept)
      ensures FitWindow(log) ==> (entries == Surviving(ops) <==> NoOrphans(kept))
      ensures intact ==> NoOrphans(kept)
    {
      hide Loaded, Image, IndexState, Sound, Linked, Pos, ScanFrom, RecordAt, RecordSize, Deletes, FitWindow, Surviving,
           Keeps, JustFlushed, RunKept, PairsOf, ReachablePairs, NoOrphans;
      ghost var table, saved := hashBlock.buf[..], Loaded(hashBlock.disk, hashBlock.memSize);
      StateIsSound(table, saved, keyFile.bytes, log, heads, savedHeads, ops, durable, intact);
      ScanIsKept(table, saved, keyFile.bytes, log, heads, savedHeads, ops, durable, intact, kept);
      ScanShowsReachableIff(kept);
      IntactHasNoOrphans(table, saved, keyFile.bytes, log, heads, savedHeads, ops, durable, intact, kept);
      entries := [];
      var pos := keyFile.GetFirstPos();
      var length := keyFile.GetLength();
      ghost var i := 0;
      ScanStep(log, 0);
      while pos < length && pos > 0
        invariant i <= |log| && pos == Pos(log, i)
        invariant entries + ScanFrom(log, i) == ScanFrom(log, 0)
        decreases |log| - i
      {
        ScanStep(log, i);
        var record := keyFile.GetRecord(pos);
        if record.Err? {
          break;
        }
        if !record.value.deleted {
          entries := entries + [(record.value.key, record.value.dataPos)];
        }
        pos := record.value.nextOffset;
        i := i + 1;
      }
      ScanStep(log, i);
    }

    /** Writes the slot table to its file: from here on a crash loses nothing done so far. */
    method Flush()
      requires Valid()
      modifies this, hashBlock`dirty, hashBlock`disk
      ensures Valid()
      ensures durable == flushed == ops == old(ops) && intact == old(intact) && log == old(log)
      ensures kept == flushedKept == AfterFlush(old(kept))
    {
      hide Loaded, IndexState, Keeps, JustFlushed, AfterFlush;
      KeepFlush(hashBlock.buf[..], log, heads, savedHeads, kept);
      FlushStep(hashBlock.buf[..], Loaded(hashBlock.disk, hashBlock.memSize), keyFile.bytes, log, heads, savedHeads,
                ops, durable, intact);
      hashBlock.Flush();
      savedHeads, durable, flushed := heads, ops, ops;
      kept := AfterFlush(kept);
      flushedKept := kept;
    }
  }

  /** One step of the scan: a position inside the file is a record, which `get_record` returns
      together with the next position, or rejects when it exceeds the window. */
  lemma ScanStep(log: Log, i: nat)
    requires Sound(log) && i <= |log|
    ensures Linked(log) && Pos(log, 0) == |MAGIC|
    ensures Pos(log, i) < |Image(log)| <==> i < |log|
    ensures i == |log| ==> ScanFrom(log, i) == []
    ensures i < |log| ==>
              && (RecordAt(Image(log), Pos(log, i)).Err? ==> ScanFrom(log, i) == [])
              && (RecordAt(Image(log), Pos(log, i)).Ok? ==>
                    var r := RecordAt(Image(log), Pos(log, i)).value;
                    && r.nextOffset == Pos(log, i + 1)
                    && ScanFrom(log, i) == (if r.deleted then [] else [(r.key, r.dataPos)]) + ScanFrom(log, i + 1))
  {
    hide RecordAt, RecordSize;
    ImageLength(log);
    if i < |log| {
      PosIncreases(log, i, |log|);
      RecordReadsBack(log, i);
      RecordSizePositive(log, i);
    }
  }

  /** A crash loses the table in memory but keeps its file as last flushed and every byte of the
      key file. Lookups answer as if the puts since the last flush had never happened, while the
      deletes since then still count. The records of those puts stay in the file, where lookups do
      not reach them but a scan still shows them. There are none of them, so that a scan shows the
      history, if and only if there were none at the last flush and every put since was followed by
      a delete of its key. */
  method CrashAndReopen(index: IndexKeyFile) returns (again: IndexKeyFile)
    requires index.Valid()
    ensures again.Valid() && fresh(again.Repr)
    ensures again.ops == index.flushed + Deletes(index.ops[|index.flushed|..])
    ensures again.keyFile.bytes == index.keyFile.bytes && again.log == index.log
    ensures again.hashBlock.memSize == index.hashBlock.memSize
    ensures again.kept == AfterCrash(index.kept)
    ensures NoOrphans(again.kept) <==> NoOrphans(index.flushedKept) && AllUndone(index.ops[|index.flushed|..])
  {
    hide IndexState, Loaded, Keeps, FilesHold, NoOrphans, AllUndone, AfterCrash, RunKept, JustFlushed;
    var hfile, kfile := index.hashBlock.disk, index.keyFile.bytes;
    SavedTableHolds(index.hashBlock.buf[..], Loaded(hfile, index.hashBlock.memSize), kfile, index.log, index.heads,
                    index.savedHeads, index.ops, index.durable, index.intact);
    KeepFlush(index.hashBlock.buf[..], index.log, index.heads, index.savedHeads, index.kept);
    NoOrphansAfterCrashIff(index.flushedKept, index.ops[|index.flushed|..]);
    again := new IndexKeyFile.Open(hfile, kfile, index.hashBlock.memSize, index.log, index.savedHeads, index.durable,
                                   false);
    SameKept(index.hashBlock.buf[..], Loaded(hfile, index.hashBlock.memSize), index.log, index.savedHeads,
             AfterCrash(index.kept), again.kept);
  }

  lemma SavedTableHolds(table: Bytes, saved: Bytes, kfile: Bytes, log: Log, heads: Heads, savedHeads: Heads,
                        ops: History, durable: History, intact: bool)
    requires IndexState(table, saved, kfile, log, heads, savedHeads, ops, durable, intact)
    ensures FilesHold(saved, kfile, log, savedHeads, durable) && kfile != [] && |saved| == |table|
  {
    hide Image;
    ImageNotEmpty(log);
  }

  lemma SameKept(table: Bytes, saved: Bytes, log: Log, heads: Heads, one: seq<Kept>, two: seq<Kept>)
    requires |table| == |saved| && Keeps(table, log, heads, heads, one) && Keeps(saved, log, heads, heads, two)
    ensures one == two
  {
  }

  /** An input for which a scan after a crash differs from the history: one put, not flushed. Its
      key is gone for lookups, but the scan still shows it. */
  method OrphanIsScanned(key: Bytes, value: Bytes) returns (index: IndexKeyFile, found: Option<Bytes>, scan: Pairs)
    requires |key| < 0x8000 && RecordSize(key, value) <= RECORD_WINDOW
    ensures index.Valid() && index.ops == []
    ensures found == None && scan == [(key, value)]
  {
    hide IndexState, Loaded, Keeps, FilesHold, Covered, RecordSize, NoOrphans, AllUndone, JustFlushed, RunKept;
    NoFilesHoldNothing(1024 * 1024);
    var before := new IndexKeyFile.Open([], [], 1024 * 1024, [], NoHeads(1024 * 1024), [], true);
    NothingIsKept(Loaded([], 1024 * 1024), NoHeads(1024 * 1024), before.kept);
    ShortRecord(key, value);
    before.Put(key, value);
    index := CrashAndReopen(before);
    found := index.Get(key);
    assert FitWindow(index.log);
    scan := index.ReadAll();
  }

  lemma ShortRecord(key: Bytes, value: Bytes)
    requires RecordSize(key, value) <= RECORD_WINDOW
    ensures |value| <= 0x7FFF_FFFF && |MAGIC| < 0x80_0000_0000
  {
  }

  lemma NothingIsKept(table: Bytes, heads: Heads, kept: seq<Kept>)
    requires Keeps(table, [], heads, heads, kept)
    ensures kept == []
  {
  }
}
