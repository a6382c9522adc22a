/** The time slot table: one slot per 500 ms of the local day. A table loaded from a file that is
    too short ignores the slots that are not there. */
module MemTimeBlock {
  import opened ByteCodec
  import opened SlotChains
  import opened SlotBuffer
  import MemHashBlock

  const MEM_BUFFER_SIZE: nat := TIME_SLOTS * KEY_LENGTH

  class MemTimeBlock {
    const buf: array<Byte>
    const zone: int
    var count: i32
    var dirty: bool
    /** The content of the .hfile, [] while there is none. */
    var disk: Bytes

    ghost predicate Valid()
      reads this, buf
    {
      && buf.Length >= MEM_HEAD_RESERVED
      && CountAt(buf[..]) == count
      && |Loaded(disk, MEM_BUFFER_SIZE)| == buf.Length
    }

    ghost predicate HasSlot(time: int)
      reads this
    {
      SlotPos(TimeSlot(zone, time)) + KEY_LENGTH <= buf.Length
    }

    constructor Open(file: Bytes, zone: int)
      ensures Valid() && fresh(buf)
      ensures disk == file && buf[..] == Loaded(file, MEM_BUFFER_SIZE) && this.zone == zone && !dirty
    {
      var content := Loaded(file, MEM_BUFFER_SIZE);
      var isNew := |file| < MEM_HEAD_RESERVED;
      buf := new Byte[|content|](i requires 0 <= i < |content| => content[i]);
      this.zone := zone;
      count := if isNew then 0 else MemHashBlock.SignedFour(content[COUNT_POS..COUNT_POS + 4]);
      dirty := false;
      disk := file;
      new;
      assert buf[..] == content;
      if isNew {
        assert content[COUNT_POS..COUNT_POS + 4] == [0, 0, 0, 0];
        MemHashBlock.SignedZero();
      }
    }

    method Get(time: int) returns (value: int)
      requires Valid()
      ensures value == if HasSlot(time) then SlotAt(buf[..], TimeSlot(zone, time)) else 0
    {
      var pos := SlotPos(TimeSlot(zone, time));
      if pos + KEY_LENGTH > buf.Length {
        return 0;
      }
      value := ToLong5(buf[pos..pos + KEY_LENGTH]);
      assert buf[..][pos..pos + KEY_LENGTH] == buf[pos..pos + KEY_LENGTH];
    }

    method Put(time: int, value: int)
      requires Valid()
      requires -0x80_0000_0000 <= value < 0x80_0000_0000
      modifies this`count, this`dirty, buf
      ensures Valid()
      ensures HasSlot(time) ==>
                && dirty
                && buf[..] == Stored(old(buf[..]), old(count), TimeSlot(zone, time), value)
                && count == CountAfterPut(old(buf[..]), old(count), TimeSlot(zone, time))
      ensures !HasSlot(time) ==> buf[..] == old(buf[..]) && dirty == old(dirty) && count == old(count)
    {
      hide TimeSlot, ToLong5, ToBytes5, Loaded;
      var pos := SlotPos(TimeSlot(zone, time));
      if pos + KEY_LENGTH > buf.Length {
        return;
      }
      StoredSlots(buf[..], count, TimeSlot(zone, time), value);
      assert buf[..][pos..pos + KEY_LENGTH] == buf[pos..pos + KEY_LENGTH];
      if ToLong5(buf[pos..pos + KEY_LENGTH]) == 0 {
        count := AsI32(count + 1);
        MemHashBlock.CopyInto(buf, COUNT_POS, ToBE(count, 4));
      }
      MemHashBlock.CopyInto(buf, pos, ToBytes5(value));
      dirty := true;
    }

    /** Adds to the header count without marking the table dirty; no slot changes. */
    method AddCount(n: i32)
      requires Valid()
      modifies this`count, buf
      ensures Valid() && count == AsI32(old(count) + n)
      ensures buf[..] == Splice(old(buf[..]), COUNT_POS, ToBE(AsI32(old(count) + n), 4))
    {
      count := AsI32(count + n);
      MemHashBlock.CopyInto(buf, COUNT_POS, ToBE(count, 4));
      Pow256Values();
      SignedToBE(count, 4);
      assert buf[..][COUNT_POS..COUNT_POS + 4] == ToBE(count, 4);
    }

    method Flush()
      requires Valid()
      modifies this`dirty, this`disk
      ensures Valid() && !dirty
      ensures disk == if old(dirty) then buf[..] else old(disk)
    {
      if dirty {
        disk := buf[..];
        dirty := false;
      }
    }
  }
}
