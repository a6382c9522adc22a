/** The forms of the files on disk, position by position: the slot tables, the key files and the frames of
    the data files, and what the readers make of any bytes at a position. */
module DiskForms {
  import opened ByteCodec
  import opened DataOutput
  import opened DataInput
  import opened RealKeyFile
  import opened KeyLog
  import opened SlotChains
  import opened SlotBuffer
  import opened KeyIndex
  import Crc32
  import IndexKeyFile
  import TimeRange
  import XLogFrames
  import SummaryFrames
  import SummaryStore

  // ---------- key files ----------

  /** The flag, the link, the key behind its length, the value behind its header. */
  lemma RecordIs(deleted: bool, prevPos: int, key: Bytes, value: Bytes)
    ensures EncRecord(deleted, prevPos, key, value)
         == [if deleted then 1 else 0] + ToBytes5(prevPos) + ToBE(|key|, 2) + key + EncBlob(value)
    ensures KeyContent([]) == [0xCA, 0xFE]
  {
    hide EncBlob, ToBytes5, ToBE;
    Bytes5AreBigEndian(prevPos);
    Regroup([if deleted then 1 else 0] + ToBytes5(prevPos), ToBE(|key|, 2), key, EncBlob(value));
  }

  lemma Regroup(a: Bytes, b: Bytes, c: Bytes, d: Bytes)
    ensures a + (b + c) + d == a + b + c + d
  {
    assert a + (b + c) == a + b + c;
  }

  /** The fields of a record are read at fixed distances from its start, whatever is there. */
  lemma FieldsAreAt(file: Bytes, pos: nat)
    ensures IsDeletedAt(file, pos) == if pos < |file| then Ok(file[pos] != 0) else Err
    ensures PrevPosAt(file, pos) == if pos + 6 <= |file| then Ok(ToLong5(file[pos + 1..pos + 6])) else Err
    ensures pos + 8 > |file| ==> KeyAt(file, pos).Err?
    ensures pos + 8 <= |file| ==>
              var n := SignedBE(file[pos + 6..pos + 8]);
              KeyAt(file, pos) == if 0 <= n <= |file| - pos - 8 then Ok(file[pos + 8..][..n]) else Err
  {
    hide SignedBE, ToLong5;
    if pos + 6 <= |file| {
      Long5IsSigned(file[pos + 1..pos + 6]);
    }
    if pos + 8 <= |file| {
      var n := SignedBE(file[pos + 6..pos + 8]);
      assert 0 <= n <= |file| - pos - 8 ==> file[pos + 8..][..n] == file[pos + 8..pos + 8 + n];
    }
  }

  /** A whole record is read from the 65536 bytes at its start. */
  lemma WindowIs(file: Bytes, pos: nat)
    ensures pos > |file| ==> Window(file, pos) == []
    ensures pos <= |file| < pos + 65536 ==> Window(file, pos) == file[pos..]
    ensures pos + 65536 <= |file| ==> Window(file, pos) == file[pos..pos + 65536]
  {
    assert pos + 65536 == |file| ==> file[pos..] == file[pos..pos + 65536];
  }

  // ---------- slot tables ----------

  /** Storing a slot writes its five bytes and, if it was 0, the four bytes of the count. */
  lemma StoredIs(buf: Bytes, count: i32, slot: nat, value: int)
    requires 1029 + 5 * slot <= |buf|
    ensures SlotPos(slot) + KEY_LENGTH <= |buf|
    ensures SlotAt(buf, slot) != 0 ==>
              Stored(buf, count, slot, value) == buf[..1024 + 5 * slot] + ToBytes5(value) + buf[1029 + 5 * slot..]
    ensures SlotAt(buf, slot) == 0 ==>
              var next := if count == 0x7FFF_FFFF then -0x8000_0000 else count + 1;
              Stored(buf, count, slot, value) == buf[..4] + ToBE(next, 4) + buf[8..1024 + 5 * slot] + ToBytes5(value)
                                                 + buf[1029 + 5 * slot..]
  {
    hide ToBytes5, ToBE, SlotAt;
    if SlotAt(buf, slot) == 0 {
      var counted := buf[..4] + ToBE(AsI32(count + 1), 4) + buf[8..];
      assert counted[1029 + 5 * slot..] == buf[1029 + 5 * slot..];
      assert counted[..1024 + 5 * slot] == buf[..4] + ToBE(AsI32(count + 1), 4) + buf[8..1024 + 5 * slot];
    }
  }

  lemma FreshTableIs(file: Bytes, memSize: nat)
    ensures |file| >= 1024 ==> Loaded(file, memSize) == file
    ensures |file| < 1024 ==>
              var table := Loaded(file, memSize);
              |table| == 1024 + memSize && table[0] == 0xCA && table[1] == 0xFE
              && forall i | 2 <= i < |table| :: table[i] == 0
  {
  }

  /** The low 31 bits of the CRC-32 of a key, modulo the number of slots the table has room for. */
  lemma HashSlotIs(tableSize: nat, key: Bytes)
    requires tableSize >= 1029
    ensures SlotOf(IndexKeyFile.Bucket(tableSize), key)
         == Crc32.Hash(ToU8(key)) as int % 0x8000_0000 % ((tableSize - 1024) / 5)
  {
    hide Crc32.Hash;
    LowBits(Crc32.Hash(ToU8(key)));
  }

  lemma LowBits(h: bv32)
    ensures (h & 0x7FFF_FFFF) as int == h as int % 0x8000_0000
  {
    var low: int := (h & 0x7FFF_FFFF) as int;
    LowBelow(h);
    Unmasked(h);
    if h >= 0x8000_0000 {
      HighBit(h);
      Remainder(low, h as int);
    } else {
      Remainder(low, low);
    }
  }

  lemma Remainder(low: int, h: int)
    requires 0 <= low < 0x8000_0000 && (h == low || h == low + 0x8000_0000)
    ensures h % 0x8000_0000 == low
  {
  }

  lemma Unmasked(h: bv32)
    ensures h < 0x8000_0000 ==> h & 0x7FFF_FFFF == h
  {
  }

  lemma LowBelow(h: bv32)
    ensures (h & 0x7FFF_FFFF) as int < 0x8000_0000
  {
    var g := (h & 0x7FFF_FFFF) | 0x8000_0000;
    assert g >= 0x8000_0000 && g & 0x7FFF_FFFF == h & 0x7FFF_FFFF;
    HighBit(g);
    Below32(g);
  }

  lemma Below32(g: bv32)
    ensures g as int < 0x1_0000_0000
  {
  }

  lemma HighBit(h: bv32)
    requires h >= 0x8000_0000
    ensures h as int == (h & 0x7FFF_FFFF) as int + 0x8000_0000
  {
    assert h == (h & 0x7FFF_FFFF) + 0x8000_0000;
  }

  // ---------- data files and what points into them ----------

  lemma XLogFrameIs(data: Bytes, file: Bytes, at: nat)
    ensures XLogFrames.Frame(data) == ToBE(|data|, 2) + data
    ensures at + 2 > |file| ==> XLogFrames.FrameAt(file, at).Err?
    ensures at + 2 <= |file| ==>
              var n := SignedBE(file[at..at + 2]);
              XLogFrames.FrameAt(file, at) == if 0 <= n <= |file| - at - 2 then Ok(file[at + 2..][..n]) else Err
  {
    hide ToBE, SignedBE, XLogFrames.FrameAt;
    if at + 2 <= |file| {
      ShorterFrameIs(file, at, SignedBE(file[at..at + 2]));
    } else {
      NoShortFrame(file, at);
    }
  }

  lemma NoShortFrame(file: Bytes, at: nat)
    requires at + 2 > |file|
    ensures XLogFrames.FrameAt(file, at).Err?
  {
  }

  lemma ShorterFrameIs(file: Bytes, at: nat, n: int)
    requires at + 2 <= |file| && n == SignedBE(file[at..at + 2])
    ensures XLogFrames.FrameAt(file, at) == if 0 <= n <= |file| - at - 2 then Ok(file[at + 2..][..n]) else Err
  {
    hide SignedBE;
    assert ReadAt(file, at, 2) == Ok(file[at..at + 2]);
    assert 0 <= n <= |file| - at - 2 ==> file[at + 2..][..n] == file[at + 2..at + 2 + n];
  }

  lemma SummaryFrameIs(data: Bytes, file: Bytes, at: nat)
    ensures SummaryFrames.Frame(data) == ToBE(|data|, 4) + data
    ensures at + 4 > |file| ==> SummaryFrames.DataAt(file, at) == None
    ensures at + 4 <= |file| ==>
              var n := SignedBE(file[at..at + 4]);
              SummaryFrames.DataAt(file, at)
              == if 0 < n < 1_000_000 && n <= |file| - at - 4 then Some(file[at + 4..][..n]) else None
  {
    hide ToBE, SignedBE, SummaryFrames.DataAt;
    if at + 4 <= |file| {
      LongerFrameIs(file, at, SignedBE(file[at..at + 4]));
    } else {
      NoFrameIs(file, at);
    }
  }

  lemma NoFrameIs(file: Bytes, at: nat)
    requires at + 4 > |file|
    ensures SummaryFrames.DataAt(file, at) == None
  {
  }

  lemma LongerFrameIs(file: Bytes, at: nat, n: int)
    requires at + 4 <= |file| && n == SignedBE(file[at..at + 4])
    ensures SummaryFrames.DataAt(file, at)
         == if 0 < n < 1_000_000 && n <= |file| - at - 4 then Some(file[at + 4..][..n]) else None
  {
    hide SignedBE;
    assert ReadAt(file, at, 4) == Ok(file[at..at + 4]);
    assert 0 <= n <= |file| - at - 4 ==> file[at + 4..][..n] == file[at + 4..at + 4 + n];
  }

  /** A log entry is filed under eight bytes of its transaction id, of its time and, unless it is 0, of its
      group id; each points to the frame with five bytes. */
  lemma XLogKeysAre(log: XLogFrames.XLog, offs: seq<nat>, e: XLogFrames.XLogEntry, off: nat)
    requires |offs| == |log|
    ensures XLogFrames.IndexOps(log + [e], offs + [off], false)
         == XLogFrames.IndexOps(log, offs, false) + [Put(ToBE(e.txid, 8), ToBytes5(off))]
    ensures XLogFrames.IndexOps(log + [e], offs + [off], true)
         == XLogFrames.IndexOps(log, offs, true) + if e.gxid == 0 then [] else [Put(ToBE(e.gxid, 8), ToBytes5(off))]
    ensures XLogFrames.TimeEntries(log + [e], offs + [off])
         == XLogFrames.TimeEntries(log, offs) + [TimeRange.TimeToData(e.time, ToBytes5(off))]
  {
    hide ToBytes5, ToBE;
    XLogFrames.IndexOpsAppend(log, offs, e, off, false);
    XLogFrames.IndexOpsAppend(log, offs, e, off, true);
  }

  /** A summary is filed under four bytes of its time of day and four of its id, and its value is eight
      bytes of the position of its frame. */
  lemma SummaryKeysAre(log: SummaryStore.Summaries, offs: seq<nat>, e: SummaryStore.Summary, off: nat)
    requires |offs| == |log|
    ensures SummaryStore.RoutedPairs(log + [e], offs + [off], SummaryStore.RouteOf(e.stype))
         == SummaryStore.RoutedPairs(log, offs, SummaryStore.RouteOf(e.stype))
            + [(ToBE(e.hhmm, 4) + ToBE(e.idHash, 4), ToBE(off, 8))]
  {
    hide ToBE, SummaryStore.RouteOf;
    SummaryStore.RoutedPairsAppend(log, offs, e, off, SummaryStore.RouteOf(e.stype));
  }
}
