/** The time index: a table with one slot per 500 ms of the day over an append-only key file whose
    keys are timestamps. */
module IndexTimeFile {
  import opened ByteCodec
  import opened DataInput
  import opened RealKeyFile
  import opened KeyLog
  import opened SlotChains
  import opened SlotBuffer
  import opened TimeRange
  import MemTimeBlock

  /** The entries met on the chain from record i down, newest first. */
  ghost function Walk(log: Log, i: int): Entries
    requires Linked(log) && -1 <= i < |log|
    decreases i + 1
  {
    if i < 0 then [] else [EntryOf(log[i])] + Walk(log, log[i].prev)
  }

  ghost function EntryOf(r: Record): TimeToData {
    TimeToData(if r.key == [] then 0 else SignedBE(r.key), r.value)
  }

  /** A record as `put` writes it: an 8-byte time, a 5-byte position, never deleted. */
  ghost predicate IsTimeRecord(r: Record) { !r.deleted && |r.key| == 8 && |r.value| <= 253 }

  /** A slot table and a key file that together hold the given entries. */
  ghost predicate FilesHold(table: Bytes, kfile: Bytes, log: Log, heads: Heads, entries: Entries, zone: int) {
    && Sound(log)
    && kfile == Image(log)
    && SlotPos(TIME_SLOTS) <= |table|
    && (forall i | 0 <= i < |log| :: IsTimeRecord(log[i]))
    && Chained(ByTime(zone), log, heads)
    && TableHolds(table, log, heads)
    && (forall slot | 0 <= slot < TIME_SLOTS :: Walk(log, heads[slot]) == Newest(entries, zone, slot))
  }

  /** Everything an open index knows: the table in memory holds all entries, the table on disk
      those a crash would fall back to. */
  ghost predicate TimeState(table: Bytes, saved: Bytes, kfile: Bytes, log: Log, heads: Heads, savedHeads: Heads,
                            entries: Entries, durable: Entries, zone: int) {
    && FilesHold(table, kfile, log, heads, entries, zone)
    && FilesHold(saved, kfile, log, savedHeads, durable, zone)
  }

  lemma NoFilesHoldNothing(zone: int)
    ensures FilesHold(Loaded([], MemTimeBlock.MEM_BUFFER_SIZE), MAGIC, [], seq(TIME_SLOTS, _ => -1), [], zone)
  {
    hide TimeSlot;
    FreshTable(MemTimeBlock.MEM_BUFFER_SIZE, TIME_SLOTS);
  }

  lemma {:induction false} WalkSame(log: Log, r: Record, i: int)
    requires Linked(log) && Linked(log + [r]) && -1 <= i < |log|
    ensures Walk(log + [r], i) == Walk(log, i)
    decreases i + 1
  {
    if i >= 0 {
      WalkSame(log, r, log[i].prev);
    }
  }

  ghost function NewRecord(heads: Heads, zone: int, time: i64, dataPos: Bytes): Record
    requires |heads| == TIME_SLOTS
  {
    Record(false, heads[TimeSlot(zone, time)], ToBE(time, 8), dataPos)
  }

  lemma KeyOfTime(zone: int, time: i64)
    ensures SignedBE(ToBE(time, 8)) == time
    ensures SlotOf(ByTime(zone), ToBE(time, 8)) == TimeSlot(zone, time)
  {
    Pow256Values();
    SignedToBE(time, 8);
  }

  /** The key file and a table that has not changed, after one more record. */
  lemma GrowthKeeps(saved: Bytes, kfile: Bytes, log: Log, heads: Heads, savedHeads: Heads, durable: Entries, zone: int,
                    time: i64, dataPos: Bytes)
    requires FilesHold(saved, kfile, log, savedHeads, durable, zone) && Chained(ByTime(zone), log, heads)
    requires |dataPos| <= 253 && |kfile| < 0x80_0000_0000
    ensures var link := Link(log, heads[TimeSlot(zone, time)]);
            FilesHold(saved, kfile + EncRecord(false, link, ToBE(time, 8), dataPos),
                      log + [NewRecord(heads, zone, time, dataPos)], savedHeads, durable, zone)
  {
    hide TimeSlot, EncRecord, RecordSize, SlotAt, SlotOf;
    var r := NewRecord(heads, zone, time, dataPos);
    KeyOfTime(zone, time);
    ImageLength(log);
    ImageAppend(log, r);
    AppendKeepsSound(log, r);
    OldHeadsStayChained(ByTime(zone), log, heads, savedHeads, r);
    TableStaysRight(saved, log, savedHeads, r);
    forall slot | 0 <= slot < TIME_SLOTS
      ensures Walk(log + [r], savedHeads[slot]) == Newest(durable, zone, slot)
    {
      WalkSame(log, r, savedHeads[slot]);
    }
  }

  /** The table that `put` leaves: the slot stored, then the header count raised once more. */
  function TableAfterPut(table: Bytes, count: i32, slot: nat, value: int): (r: Bytes)
    requires SlotPos(slot) + KEY_LENGTH <= |table|
    ensures |r| == |table|
  {
    Splice(Stored(table, count, slot, value), COUNT_POS, ToBE(AsI32(CountAfterPut(table, count, slot) + 1), 4))
  }

  lemma CountLeavesTable(table: Bytes, log: Log, heads: Heads, count: Bytes)
    requires TableHolds(table, log, heads) && |count| == 4
    ensures TableHolds(Splice(table, COUNT_POS, count), log, heads)
  {
    forall s | 0 <= s < |heads|
      ensures SlotAt(Splice(table, COUNT_POS, count), s) == SlotAt(table, s)
    {
      SliceOfSplice(table, COUNT_POS, count, SlotPos(s), SlotPos(s) + KEY_LENGTH);
    }
  }

  /** The slot's chain gains the new entry in front; no other slot's chain changes. */
  lemma WalksAfterPut(log: Log, heads: Heads, entries: Entries, zone: int, time: i64, dataPos: Bytes)
    requires Chained(ByTime(zone), log, heads)
    requires forall slot | 0 <= slot < TIME_SLOTS :: Walk(log, heads[slot]) == Newest(entries, zone, slot)
    requires Linked(log + [NewRecord(heads, zone, time, dataPos)])
    ensures var log', heads' := log + [NewRecord(heads, zone, time, dataPos)], heads[TimeSlot(zone, time) := |log|];
            forall slot | 0 <= slot < TIME_SLOTS ::
              Walk(log', heads'[slot]) == Newest(entries + [TimeToData(time, dataPos)], zone, slot)
  {
    hide TimeSlot, SlotOf;
    var r, e := NewRecord(heads, zone, time, dataPos), TimeToData(time, dataPos);
    KeyOfTime(zone, time);
    assert (entries + [e])[..|entries|] == entries;
    forall s | 0 <= s < TIME_SLOTS
      ensures Walk(log + [r], heads[TimeSlot(zone, time) := |log|][s]) == Newest(entries + [e], zone, s)
    {
      WalkSame(log, r, heads[s]);
    }
  }

  lemma TableAfterPutHolds(table: Bytes, count: i32, log: Log, heads: Heads, slot: nat, r: Record)
    requires TableHolds(table, log, heads) && slot < |heads| && Pos(log, |log|) < 0x80_0000_0000
    ensures SlotPos(slot) + KEY_LENGTH <= |table|
    ensures TableHolds(TableAfterPut(table, count, slot, Pos(log, |log|)), log + [r], heads[slot := |log|])
  {
    hide SlotAt, Stored, CountAfterPut, Splice;
    TableAfterAppend(table, count, log, heads, slot, r);
    CountLeavesTable(Stored(table, count, slot, Pos(log, |log|)), log + [r], heads[slot := |log|],
                     ToBE(AsI32(CountAfterPut(table, count, slot) + 1), 4));
  }

  /** A put adds its entry in front of its slot's chain and disturbs no other slot. */
  lemma PutHolds(table: Bytes, count: i32, kfile: Bytes, log: Log, heads: Heads, entries: Entries, zone: int,
                 time: i64, dataPos: Bytes)
    requires FilesHold(table, kfile, log, heads, entries, zone)
    requires |dataPos| <= 253 && |kfile| < 0x80_0000_0000
    ensures var slot := TimeSlot(zone, time);
            FilesHold(TableAfterPut(table, count, slot, |kfile|),
                      kfile + EncRecord(false, Link(log, heads[slot]), ToBE(time, 8), dataPos),
                      log + [NewRecord(heads, zone, time, dataPos)], heads[slot := |log|],
                      entries + [TimeToData(time, dataPos)], zone)
  {
    hide TimeSlot, EncRecord, RecordSize, SlotOf, TableAfterPut, TableHolds, Chained, Newest, Walk;
    var slot := TimeSlot(zone, time);
    StartOfChain(table, kfile, log, heads, entries, zone, slot);
    var r := NewRecord(heads, zone, time, dataPos);
    KeyOfTime(zone, time);
    ImageLength(log);
    ImageAppend(log, r);
    AppendKeepsSound(log, r);
    AppendKeepsChained(ByTime(zone), log, heads, r);
    TableAfterPutHolds(table, count, log, heads, slot, r);
    WalksAfterPut(log, heads, entries, zone, time, dataPos);
  }

  lemma PutStep(table: Bytes, count: i32, saved: Bytes, kfile: Bytes, log: Log, heads: Heads, savedHeads: Heads,
                entries: Entries, durable: Entries, zone: int, time: i64, dataPos: Bytes)
    requires TimeState(table, saved, kfile, log, heads, savedHeads, entries, durable, zone)
    requires |dataPos| <= 253 && |kfile| < 0x80_0000_0000
    ensures var slot := TimeSlot(zone, time);
            && SlotPos(slot) + KEY_LENGTH <= |table|
            && |heads| == TIME_SLOTS
            && 0 <= SlotAt(table, slot) < 0x80_0000_0000
            && |EncRecord(false, SlotAt(table, slot), ToBE(time, 8), dataPos)| == RecordSize(ToBE(time, 8), dataPos)
            && TimeState(TableAfterPut(table, count, slot, |kfile|), saved,
                         kfile + EncRecord(false, SlotAt(table, slot), ToBE(time, 8), dataPos),
                         log + [NewRecord(heads, zone, time, dataPos)], heads[slot := |log|], savedHeads,
                         entries + [TimeToData(time, dataPos)], durable, zone)
  {
    hide TimeSlot, EncRecord, RecordSize, TableAfterPut, Chained, Sound, Newest, Walk;
    PutHolds(table, count, kfile, log, heads, entries, zone, time, dataPos);
    StartOfChain(table, kfile, log, heads, entries, zone, TimeSlot(zone, time));
    GrowthKeeps(saved, kfile, log, heads, savedHeads, durable, zone, time, dataPos);
    RecordLength(false, SlotAt(table, TimeSlot(zone, time)), ToBE(time, 8), dataPos);
  }

  /** Where a bucket read starts. */
  lemma StartOfChain(table: Bytes, kfile: Bytes, log: Log, heads: Heads, entries: Entries, zone: int, slot: nat)
    requires FilesHold(table, kfile, log, heads, entries, zone) && slot < TIME_SLOTS
    ensures Sound(log) && Linked(log) && kfile == Image(log)
    ensures |heads| == TIME_SLOTS && SlotPos(slot) + KEY_LENGTH <= |table|
    ensures -1 <= heads[slot] < |log|
    ensures SlotAt(table, slot) == Link(log, heads[slot]) < 0x80_0000_0000
    ensures Walk(log, heads[slot]) == Newest(entries, zone, slot)
    ensures forall i | 0 <= i < |log| :: IsTimeRecord(log[i])
  {
  }

  /** One step down a chain of time records. */
  lemma WalkStep(log: Log, i: int)
    requires Sound(log) && -1 <= i < |log| && (forall j | 0 <= j < |log| :: IsTimeRecord(log[j]))
    ensures Linked(log) && (Link(log, i) > 0 <==> i >= 0)
    ensures i < 0 ==> Walk(log, i) == []
    ensures i >= 0 ==>
              && -1 <= log[i].prev < i
              && Walk(log, i) == [EntryOf(log[i])] + Walk(log, log[i].prev)
              && IsDeletedAt(Image(log), Link(log, i)) == Ok(false)
              && PrevPosAt(Image(log), Link(log, i)) == Ok(Link(log, log[i].prev))
              && DataPosAt(Image(log), Link(log, i)) == Ok(log[i].value)
              && RecordAt(Image(log), Link(log, i)).Ok?
              && RecordAt(Image(log), Link(log, i)).value.key == log[i].key
              && RecordAt(Image(log), Link(log, i)).value.dataPos == log[i].value
              && |log[i].key| == 8
              && EntryOf(log[i]) == TimeToData(SignedBE(log[i].key), log[i].value)
  {
    if i >= 0 {
      FieldsReadBack(log, i);
      RecordReadsBack(log, i);
    }
  }

  class IndexTimeFile {
    const timeBlock: MemTimeBlock.MemTimeBlock
    const keyFile: RealKeyFile

    ghost var log: Log
    ghost var heads: Heads
    /** Everything put so far, oldest first. */
    ghost var entries: Entries
    /** The heads that the table's file holds, and the entries a crash would fall back to. */
    ghost var savedHeads: Heads
    ghost var durable: Entries

    /** The objects that make up the index. */
    ghost const Repr: set<object>

    ghost predicate Valid()
      reads this, Repr
      ensures Valid() ==> {this, timeBlock, keyFile} <= Repr
    {
      && Repr == {this, timeBlock, timeBlock.buf, keyFile}
      && timeBlock.Valid()
      && (!timeBlock.dirty ==> savedHeads == heads && durable == entries)
      && TimeState(timeBlock.buf[..], Loaded(timeBlock.disk, MemTimeBlock.MEM_BUFFER_SIZE), keyFile.bytes,
                   log, heads, savedHeads, entries, durable, timeBlock.zone)
    }

    constructor Open(hfile: Bytes, kfile: Bytes, zone: int, ghost log: Log, ghost heads: Heads, ghost entries: Entries)
      requires FilesHold(Loaded(hfile, MemTimeBlock.MEM_BUFFER_SIZE), KeyContent(kfile),
                         log, heads, entries, zone)
      ensures Valid() && fresh(Repr)
      ensures this.log == log && this.heads == heads && this.entries == entries && timeBlock.zone == zone
      ensures savedHeads == heads && durable == entries && keyFile.bytes == KeyContent(kfile)
    {
      hide Loaded, FilesHold;
      var block := new MemTimeBlock.MemTimeBlock.Open(hfile, zone);
      var records := new RealKeyFile.Open(kfile);
      timeBlock, keyFile := block, records;
      Repr := {this, block, block.buf, records};
      this.log, this.heads, this.entries := log, heads, entries;
      savedHeads, durable := heads, entries;
    }

    /** Stores an entry; a time that is not positive is refused and changes nothing. */
    method Put(time: i64, dataPos: i64) returns (ok: bool)
      requires Valid()
      requires |keyFile.bytes| < 0x80_0000_0000
      modifies Repr
      ensures Valid()
      ensures ok <==> time > 0
      ensures entries == old(entries) + (if ok then [TimeToData(time, ToBytes5(dataPos))] else [])
      ensures durable == old(durable)
      ensures |keyFile.bytes| == |old(keyFile.bytes)| + (if ok then RecordSize(ToBE(time, 8), ToBytes5(dataPos)) else 0)
    {
      hide Loaded, Stored, EncRecord, TimeSlot, SlotAt, RecordSize, ToBytes5, TimeState, CountAfterPut, ToBE;
      if time <= 0 {
        return false;
      }
      ghost var table, saved := timeBlock.buf[..], Loaded(timeBlock.disk, MemTimeBlock.MEM_BUFFER_SIZE);
      ghost var slot := TimeSlot(timeBlock.zone, time);
      PutStep(table, timeBlock.count, saved, keyFile.bytes, log, heads, savedHeads, entries, durable, timeBlock.zone,
              time, ToBytes5(dataPos));
      ghost var r := NewRecord(heads, timeBlock.zone, time, ToBytes5(dataPos));

      var prevPos := timeBlock.Get(time);
      var newPos := keyFile.Append(prevPos, ToBE(time, 8), ToBytes5(dataPos));
      timeBlock.Put(time, newPos);
      timeBlock.AddCount(1);

      heads := heads[slot := |log|];
      log := log + [r];
      entries := entries + [TimeToData(time, ToBytes5(dataPos))];
      ok := true;
    }

    /** Walks the slot's chain and sorts what it finds by time. */
    method GetBucketEntries(time: int) returns (bucket: Entries)
      requires Valid()
      ensures bucket == Bucket(entries, timeBlock.zone, time)
    {
      hide Loaded, Image, TimeSlot, SlotAt, Sound, Linked, Link, Walk, Newest, EntryOf, IsTimeRecord, FilesHold,
           IsDeletedAt, PrevPosAt, RecordAt, DataPosAt, SortByTime;
      ghost var slot := TimeSlot(timeBlock.zone, time);
      StartOfChain(timeBlock.buf[..], keyFile.bytes, log, heads, entries, timeBlock.zone, slot);
      var pos := timeBlock.Get(time);
      ghost var i := heads[slot];
      WalkStep(log, i);
      bucket := [];
      while pos > 0
        invariant -1 <= i < |log| && pos == Link(log, i) && (pos > 0 <==> i >= 0)
        invariant bucket + Walk(log, i) == Newest(entries, timeBlock.zone, slot)
        decreases i
      {
        WalkStep(log, i);
        WalkStep(log, log[i].prev);
        var deleted := keyFile.IsDeleted(pos);
        if !deleted.value {
          var record := keyFile.GetRecord(pos);
          bucket := bucket + [TimeToData(SignedBE(record.value.key), record.value.dataPos)];
        }
        var prev := keyFile.GetPrevPos(pos);
        pos := prev.value;
        i := log[i].prev;
      }
      WalkStep(log, i);
      assert bucket == Newest(entries, timeBlock.zone, slot);
      bucket := SortByTime(bucket);
    }

    /** Hands out whole buckets from `from` to `to`, in 500 ms steps: the returned list is the
        sequence of calls made to the handler. */
    method Read(from: int, to: int) returns (calls: Entries)
      requires Valid()
      ensures calls == Forward(entries, timeBlock.zone, from, to, TIME_SLOTS)
      ensures AtMostOnce(calls, entries)
      ensures ForwardListed(entries, timeBlock.zone, from, to, calls)
      ensures AllHandedOut(entries, from, to, calls)
    {
      hide AtMostOnce, ForwardListed, AllHandedOut;
      hide Bucket, TimeState, Loaded;
      calls := [];
      var t, i := from, 0;
      while i < TIME_SLOTS && t <= to
        invariant 0 <= i <= TIME_SLOTS
        invariant calls + Forward(entries, timeBlock.zone, t, to, TIME_SLOTS - i)
               == Forward(entries, timeBlock.zone, from, to, TIME_SLOTS)
      {
        var bucket := GetBucketEntries(t);
        ForwardStep(calls, bucket, t, to, TIME_SLOTS - i);
        calls := calls + bucket;
        i := i + 1;
        t := t + 500;
      }
      hide Forward, Backward, Filtered;
      ReadersHandOutAtMostOnce(entries, timeBlock.zone, from, to);
      ForwardLists(entries, timeBlock.zone, from, to);
      ReadersHandOut(entries, timeBlock.zone, from, to);
    }

    lemma ForwardStep(calls: Entries, bucket: Entries, t: int, to: int, n: nat)
      requires n > 0 && t <= to && bucket == Bucket(entries, timeBlock.zone, t)
      ensures calls + Forward(entries, timeBlock.zone, t, to, n)
           == (calls + bucket) + Forward(entries, timeBlock.zone, t + 500, to, n - 1)
    {
      hide Bucket;
    }

    /** The entries `read_with_reader` passes to its reader: those of the visited buckets whose
        time is in the range. */
    method ReadInRange(from: int, to: int) returns (hits: Entries)
      requires Valid()
      ensures hits == Filtered(entries, timeBlock.zone, from, from, to, TIME_SLOTS)
      ensures AtMostOnce(hits, entries)
      ensures Readable(timeBlock.zone, from, to) ==> hits == SortByTime(Select(entries, from, to))
      ensures RangeListed(entries, timeBlock.zone, from, to, hits)
      ensures RangeHandedOut(entries, from, to, hits)
    {
      hide AtMostOnce, Readable, SortByTime, Select, RangeListed, RangeHandedOut;
      hide Bucket, TimeState, Loaded, Forward, Backward;
      hits := [];
      var t, i := from, 0;
      while i < TIME_SLOTS && t <= to
        invariant 0 <= i <= TIME_SLOTS
        invariant hits + Filtered(entries, timeBlock.zone, from, t, to, TIME_SLOTS - i)
               == Filtered(entries, timeBlock.zone, from, from, to, TIME_SLOTS)
      {
        var bucket := GetBucketEntries(t);
        ghost var before := hits;
        var k := 0;
        while k < |bucket|
          invariant 0 <= k <= |bucket|
          invariant hits + Within(bucket[k..], from, to) == before + Within(bucket, from, to)
        {
          if from <= bucket[k].time <= to {
            hits := hits + [bucket[k]];
          }
          assert bucket[k..][1..] == bucket[k + 1..];
          k := k + 1;
        }
        FilteredStep(before, hits, bucket, from, t, to, TIME_SLOTS - i);
        i := i + 1;
        t := t + 500;
      }
      hide Filtered;
      ReadersHandOutAtMostOnce(entries, timeBlock.zone, from, to);
      if Readable(timeBlock.zone, from, to) {
        RangeReadExact(entries, timeBlock.zone, from, to);
      }
      RangeReadLists(entries, timeBlock.zone, from, to);
      ReadersHandOut(entries, timeBlock.zone, from, to);
    }

    lemma FilteredStep(before: Entries, hits: Entries, bucket: Entries, from: int, t: int, to: int, n: nat)
      requires n > 0 && t <= to && bucket == Bucket(entries, timeBlock.zone, t)
      requires hits == before + Within(bucket, from, to)
      ensures before + Filtered(entries, timeBlock.zone, from, t, to, n)
           == hits + Filtered(entries, timeBlock.zone, from, t + 500, to, n - 1)
    {
      hide Bucket, Within;
    }

    /** Hands out whole buckets from `to` back to `from`, each reversed. */
    method ReadFromEnd(from: int, to: int) returns (calls: Entries)
      requires Valid()
      ensures calls == Backward(entries, timeBlock.zone, from, to, TIME_SLOTS)
      ensures AtMostOnce(calls, entries)
      ensures BackwardListed(entries, timeBlock.zone, from, to, calls)
      ensures AllHandedOut(entries, from, to, calls)
    {
      hide AtMostOnce, BackwardListed, AllHandedOut;
      hide Bucket, TimeState, Loaded, Reversed;
      calls := [];
      var t, i := to, 0;
      while i < TIME_SLOTS && from <= t
        invariant 0 <= i <= TIME_SLOTS
        invariant calls + Backward(entries, timeBlock.zone, from, t, TIME_SLOTS - i)
               == Backward(entries, timeBlock.zone, from, to, TIME_SLOTS)
      {
        var bucket := GetBucketEntries(t);
        BackwardStep(calls, bucket, from, t, TIME_SLOTS - i);
        calls := calls + Reversed(bucket);
        i := i + 1;
        t := t - 500;
      }
      hide Forward, Backward, Filtered;
      ReadersHandOutAtMostOnce(entries, timeBlock.zone, from, to);
      BackwardLists(entries, timeBlock.zone, from, to);
      ReadersHandOut(entries, timeBlock.zone, from, to);
    }

    lemma BackwardStep(calls: Entries, bucket: Entries, from: int, t: int, n: nat)
      requires n > 0 && from <= t && bucket == Bucket(entries, timeBlock.zone, t)
      ensures calls + Backward(entries, timeBlock.zone, from, t, n)
           == (calls + Reversed(bucket)) + Backward(entries, timeBlock.zone, from, t - 500, n - 1)
    {
      hide Bucket, Reversed;
    }

    /** The data position of the oldest entry of the first bucket that has any. */
    method GetDataPosFirst(from: int, to: int) returns (r: Option<Bytes>)
      requires Valid()
      ensures r == FirstPos(entries, timeBlock.zone, from, to, TIME_SLOTS)
    {
      hide Loaded, Image, TimeSlot, SlotAt, Sound, Linked, Link, Walk, Newest, EntryOf, IsTimeRecord, FilesHold,
           IsDeletedAt, PrevPosAt, RecordAt, DataPosAt;
      var t, i := from, 0;
      while i < TIME_SLOTS && t <= to
        invariant 0 <= i <= TIME_SLOTS
        invariant FirstPos(entries, timeBlock.zone, t, to, TIME_SLOTS - i)
               == FirstPos(entries, timeBlock.zone, from, to, TIME_SLOTS)
      {
        ghost var slot := TimeSlot(timeBlock.zone, t);
        StartOfChain(timeBlock.buf[..], keyFile.bytes, log, heads, entries, timeBlock.zone, slot);
        var pos := timeBlock.Get(t);
        ghost var k := heads[slot];
        WalkStep(log, k);
        while pos > 0
          invariant -1 <= k < |log| && pos == Link(log, k) && (pos > 0 <==> k >= 0)
          invariant k < 0 ==> Newest(entries, timeBlock.zone, slot) == []
          invariant k >= 0 ==> Walk(log, k) != [] && Newest(entries, timeBlock.zone, slot) != []
          invariant k >= 0 ==> Oldest(Walk(log, k)) == Oldest(Newest(entries, timeBlock.zone, slot))
          decreases k
        {
          WalkStep(log, k);
          WalkStep(log, log[k].prev);
          var prev := keyFile.GetPrevPos(pos);
          if prev.value == 0 {
            var dataPos := keyFile.GetDataPos(pos);
            EntryPos(log[k]);
            return Some(dataPos.value);
          }
          pos := prev.value;
          k := log[k].prev;
        }
        i := i + 1;
        t := t + 500;
      }
      r := None;
    }

    /** The data position of the newest entry of the last bucket that has any. */
    method GetDataPosLast(from: int, to: int) returns (r: Option<Bytes>)
      requires Valid()
      ensures r == LastPos(entries, timeBlock.zone, from, to, TIME_SLOTS)
    {
      hide Loaded, Image, TimeSlot, SlotAt, Sound, Linked, Link, Walk, Newest, EntryOf, IsTimeRecord, FilesHold,
           IsDeletedAt, PrevPosAt, RecordAt, DataPosAt;
      var t, i := to, 0;
      while i < TIME_SLOTS && from <= t
        invariant 0 <= i <= TIME_SLOTS
        invariant LastPos(entries, timeBlock.zone, from, t, TIME_SLOTS - i)
               == LastPos(entries, timeBlock.zone, from, to, TIME_SLOTS)
      {
        ghost var slot := TimeSlot(timeBlock.zone, t);
        StartOfChain(timeBlock.buf[..], keyFile.bytes, log, heads, entries, timeBlock.zone, slot);
        WalkStep(log, heads[slot]);
        var pos := timeBlock.Get(t);
        if pos > 0 {
          var dataPos := keyFile.GetDataPos(pos);
          EntryPos(log[heads[slot]]);
          return Some(dataPos.value);
        }
        i := i + 1;
        t := t - 500;
      }
      r := None;
    }

    method Flush()
      requires Valid()
      modifies this, timeBlock`dirty, timeBlock`disk
      ensures Valid()
      ensures entries == old(entries) && log == old(log) && durable == entries
    {
      hide Loaded, FilesHold;
      assert timeBlock.dirty ==> Loaded(timeBlock.buf[..], MemTimeBlock.MEM_BUFFER_SIZE) == timeBlock.buf[..] by {
        LoadedTable(timeBlock.buf[..]);
      }
      timeBlock.Flush();
      savedHeads, durable := heads, entries;
    }
  }

  lemma EntryPos(r: Record)
    ensures EntryOf(r).dataPos == r.value
  {
  }

  lemma LoadedTable(table: Bytes)
    requires |table| >= MEM_HEAD_RESERVED
    ensures Loaded(table, MemTimeBlock.MEM_BUFFER_SIZE) == table
  {
  }

  lemma SavedTableHolds(table: Bytes, saved: Bytes, kfile: Bytes, log: Log, heads: Heads, savedHeads: Heads,
                        entries: Entries, durable: Entries, zone: int)
    requires TimeState(table, saved, kfile, log, heads, savedHeads, entries, durable, zone)
    ensures FilesHold(saved, kfile, log, savedHeads, durable, zone) && kfile != []
  {
    hide Image;
    ImageNotEmpty(log);
  }

  /** A crash keeps the table's file as last flushed and every byte of the key file: the reopened
      index holds exactly the entries of the last flush. */
  method CrashAndReopen(index: IndexTimeFile) returns (again: IndexTimeFile)
    requires index.Valid()
    ensures again.Valid() && fresh(again.Repr)
    ensures again.entries == index.durable && again.timeBlock.zone == index.timeBlock.zone
    ensures again.keyFile.bytes == index.keyFile.bytes
  {
    ImageNotEmpty(index.log);
    again := new IndexTimeFile.Open(index.timeBlock.disk, index.keyFile.bytes, index.timeBlock.zone,
                                    index.log, index.savedHeads, index.durable);
  }
}
