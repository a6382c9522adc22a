/** The byte layout shared by the two slot tables: a 1024-byte header with a magic number and a
    count, then 5-byte slots. */
module SlotBuffer {
  import opened ByteCodec
  import opened KeyLog
  import opened SlotChains

  const COUNT_POS: nat := 4
  const MEM_HEAD_RESERVED: nat := 1024
  const KEY_LENGTH: nat := 5

  /** The table a block starts from, given the content of its file ([] when there is none): a
      file shorter than the header is ignored and replaced by an empty table. */
  function Loaded(file: Bytes, memSize: nat): (buf: Bytes)
    ensures |buf| >= MEM_HEAD_RESERVED
  {
    if |file| < MEM_HEAD_RESERVED
    then [0xCA, 0xFE] + seq(MEM_HEAD_RESERVED + memSize - 2, _ => 0)
    else file
  }

  function Splice(buf: Bytes, at: nat, data: Bytes): (r: Bytes)
    requires at + |data| <= |buf|
    ensures |r| == |buf|
  {
    buf[..at] + data + buf[at + |data|..]
  }

  function SlotPos(slot: nat): nat { KEY_LENGTH * slot + MEM_HEAD_RESERVED }

  function SlotAt(buf: Bytes, slot: nat): int
    requires SlotPos(slot) + KEY_LENGTH <= |buf|
  {
    ToLong5(buf[SlotPos(slot)..SlotPos(slot) + KEY_LENGTH])
  }

  function CountAt(buf: Bytes): int
    requires |buf| >= MEM_HEAD_RESERVED
  {
    SignedBE(buf[COUNT_POS..COUNT_POS + 4])
  }

  /** The buffer after `put`: an empty slot bumps the header count, then the slot is stored. */
  function Stored(buf: Bytes, count: i32, slot: nat, value: int): (r: Bytes)
    requires SlotPos(slot) + KEY_LENGTH <= |buf|
    ensures |r| == |buf|
  {
    var counted := if SlotAt(buf, slot) == 0 then Splice(buf, COUNT_POS, ToBE(AsI32(count + 1), 4)) else buf;
    Splice(counted, SlotPos(slot), ToBytes5(value))
  }

  /** Counting entries happens in the header alone. */
  function CountAfterPut(buf: Bytes, count: i32, slot: nat): i32
    requires SlotPos(slot) + KEY_LENGTH <= |buf|
  {
    if SlotAt(buf, slot) == 0 then AsI32(count + 1) else count
  }

  lemma SliceOfSplice(buf: Bytes, at: nat, data: Bytes, lo: nat, hi: nat)
    requires at + |data| <= |buf| && lo <= hi <= |buf|
    requires hi <= at || at + |data| <= lo
    ensures Splice(buf, at, data)[lo..hi] == buf[lo..hi]
  {
  }

  /** Storing one slot changes that slot and no other, and keeps the header count right. */
  lemma StoredSlots(buf: Bytes, count: i32, slot: nat, value: int)
    requires SlotPos(slot) + KEY_LENGTH <= |buf|
    requires -0x80_0000_0000 <= value < 0x80_0000_0000
    ensures SlotAt(Stored(buf, count, slot, value), slot) == value
    ensures forall s: nat | SlotPos(s) + KEY_LENGTH <= |buf| && s != slot ::
              SlotAt(Stored(buf, count, slot, value), s) == SlotAt(buf, s)
    ensures CountAt(buf) == count ==> CountAt(Stored(buf, count, slot, value)) == CountAfterPut(buf, count, slot)
  {
    var counted := if SlotAt(buf, slot) == 0 then Splice(buf, COUNT_POS, ToBE(AsI32(count + 1), 4)) else buf;
    var at := SlotPos(slot);
    assert Splice(counted, at, ToBytes5(value))[at..at + KEY_LENGTH] == ToBytes5(value);
    Long5RoundTrip(value);
    forall s: nat | SlotPos(s) + KEY_LENGTH <= |buf| && s != slot
      ensures SlotAt(Stored(buf, count, slot, value), s) == SlotAt(buf, s)
    {
      OtherSlotStays(buf, counted, slot, s, value);
    }
    SliceOfSplice(counted, at, ToBytes5(value), COUNT_POS, COUNT_POS + 4);
    if SlotAt(buf, slot) == 0 {
      assert counted[COUNT_POS..COUNT_POS + 4] == ToBE(AsI32(count + 1), 4);
      Pow256Values();
      SignedToBE(AsI32(count + 1), 4);
    }
  }

  lemma OtherSlotStays(buf: Bytes, counted: Bytes, slot: nat, s: nat, value: int)
    requires SlotPos(slot) + KEY_LENGTH <= |buf| == |counted| && SlotPos(s) + KEY_LENGTH <= |buf| && s != slot
    requires counted == buf || exists c: Bytes :: |c| == 4 && counted == Splice(buf, COUNT_POS, c)
    ensures SlotAt(Splice(counted, SlotPos(slot), ToBytes5(value)), s) == SlotAt(buf, s)
  {
    hide ToBytes5, ToLong5;
    SliceOfSplice(counted, SlotPos(slot), ToBytes5(value), SlotPos(s), SlotPos(s) + KEY_LENGTH);
    if counted != buf {
      var c :| |c| == 4 && counted == Splice(buf, COUNT_POS, c);
      SliceOfSplice(buf, COUNT_POS, c, SlotPos(s), SlotPos(s) + KEY_LENGTH);
    }
  }

  // ---------- the table as links into a log ----------

  /** The slots of the buffer are the positions of the head records, 0 for none. */
  ghost predicate TableHolds(buf: Bytes, log: Log, heads: Heads) {
    && SlotPos(|heads|) <= |buf|
    && (forall s | 0 <= s < |heads| :: -1 <= heads[s] < |log|)
    && (forall s | 0 <= s < |heads| :: SlotAt(buf, s) == Link(log, heads[s]))
  }

  /** Storing the position of the record just appended makes it the head of its slot. */
  lemma TableAfterAppend(buf: Bytes, count: i32, log: Log, heads: Heads, slot: nat, r: Record)
    requires TableHolds(buf, log, heads) && slot < |heads| && Pos(log, |log|) < 0x80_0000_0000
    ensures TableHolds(Stored(buf, count, slot, Pos(log, |log|)), log + [r], heads[slot := |log|])
  {
    hide SlotAt, Stored, Pos, Link;
    StoredSlots(buf, count, slot, Pos(log, |log|));
    LinkOfNew(log, r);
    PosSame(log + [r], log, |log|);
    forall s | 0 <= s < |heads| && s != slot
      ensures SlotAt(Stored(buf, count, slot, Pos(log, |log|)), s) == Link(log + [r], heads[s])
    {
      LinkAfterAppend(log, r, heads[s]);
    }
  }

  lemma LinkOfNew(log: Log, r: Record)
    ensures Link(log + [r], |log|) == Pos(log + [r], |log|)
  {
  }

  lemma LinkAfterAppend(log: Log, r: Record, i: int)
    requires -1 <= i <= |log|
    ensures Link(log + [r], i) == Link(log, i)
  {
    if i >= 0 {
      PosSame(log + [r], log, i);
    }
  }

  /** A table that was right stays right as the file grows. */
  lemma TableStaysRight(buf: Bytes, log: Log, heads: Heads, r: Record)
    requires TableHolds(buf, log, heads)
    ensures TableHolds(buf, log + [r], heads)
  {
    forall s | 0 <= s < |heads|
      ensures Link(log + [r], heads[s]) == Link(log, heads[s])
    {
      LinkAfterAppend(log, r, heads[s]);
    }
  }

  /** Deletion marks move no record, so they leave every table right. */
  lemma TableAfterMarks(buf: Bytes, log: Log, heads: Heads, marked: Log)
    requires TableHolds(buf, log, heads) && |marked| == |log|
    requires forall j | 0 <= j < |log| :: marked[j].key == log[j].key && marked[j].value == log[j].value
    ensures TableHolds(buf, marked, heads)
  {
    forall s | 0 <= s < |heads|
      ensures Link(marked, heads[s]) == Link(log, heads[s])
    {
      if heads[s] >= 0 {
        PosSame(marked, log, heads[s]);
      }
    }
  }

  /** A fresh table is empty in every slot. */
  lemma FreshTable(memSize: nat, slots: nat)
    requires KEY_LENGTH * slots <= memSize
    ensures TableHolds(Loaded([], memSize), [], seq(slots, _ => -1))
  {
    var buf := Loaded([], memSize);
    forall s | 0 <= s < slots
      ensures SlotAt(buf, s) == 0
    {
      assert buf[SlotPos(s)..SlotPos(s) + KEY_LENGTH] == [0, 0, 0, 0, 0];
    }
  }
}
