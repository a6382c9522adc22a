/** The hash slot table: held in memory, written to its file as a whole by `flush`. */
module MemHashBlock {
  import opened ByteCodec
  import opened SlotChains
  import opened SlotBuffer

  /** `copy_from_slice` into a buffer. */
  method CopyInto(buf: array<Byte>, at: nat, data: Bytes)
    requires at + |data| <= buf.Length
    modifies buf
    ensures buf[..] == Splice(old(buf[..]), at, data)
  {
    forall i | 0 <= i < |data| {
      buf[at + i] := data[i];
    }
  }

  class MemHashBlock {
    const buf: array<Byte>
    const memSize: nat
    const capacity: Positive
    var count: i32
    var dirty: bool
    /** The content of the .hfile, [] while there is none. */
    var disk: Bytes

    ghost predicate Valid()
      reads this, buf
    {
      && SlotPos(capacity) <= buf.Length
      && capacity == (buf.Length - MEM_HEAD_RESERVED) / KEY_LENGTH
      && CountAt(buf[..]) == count
      && |Loaded(disk, memSize)| == buf.Length
      && (!dirty ==> buf[..] == Loaded(disk, memSize))
    }

    constructor Open(file: Bytes, memSize: nat)
      requires |Loaded(file, memSize)| >= MEM_HEAD_RESERVED + KEY_LENGTH
      ensures Valid() && fresh(buf)
      ensures disk == file && buf[..] == Loaded(file, memSize) && this.memSize == memSize && !dirty
      ensures capacity == (|Loaded(file, memSize)| - MEM_HEAD_RESERVED) / KEY_LENGTH
    {
      var content := Loaded(file, memSize);
      var isNew := |file| < MEM_HEAD_RESERVED;
      buf := new Byte[|content|](i requires 0 <= i < |content| => content[i]);
      this.memSize := memSize;
      capacity := (|content| - MEM_HEAD_RESERVED) / KEY_LENGTH;
      count := if isNew then 0 else SignedFour(content[COUNT_POS..COUNT_POS + 4]);
      dirty := false;
      disk := file;
      new;
      assert buf[..] == content;
      if isNew {
        assert content[COUNT_POS..COUNT_POS + 4] == [0, 0, 0, 0];
        SignedZero();
      }
    }

    method Get(keyHash: bv32) returns (value: int)
      requires Valid()
      ensures value == SlotAt(buf[..], HashSlot(keyHash, capacity))
    {
      var pos := SlotPos(HashSlot(keyHash, capacity));
      value := ToLong5(buf[pos..pos + KEY_LENGTH]);
      assert buf[..][pos..pos + KEY_LENGTH] == buf[pos..pos + KEY_LENGTH];
    }

    /** Stores the slot, bumping the count when it was empty (the count wraps like an i32). */
    method Put(keyHash: bv32, value: int)
      requires Valid()
      requires -0x80_0000_0000 <= value < 0x80_0000_0000
      modifies this`count, this`dirty, buf
      ensures Valid() && dirty
      ensures buf[..] == Stored(old(buf[..]), old(count), HashSlot(keyHash, capacity), value)
      ensures count == CountAfterPut(old(buf[..]), old(count), HashSlot(keyHash, capacity))
    {
      hide HashSlot, ToLong5, ToBytes5, Loaded;
      var pos := SlotPos(HashSlot(keyHash, capacity));
      StoredSlots(buf[..], count, HashSlot(keyHash, capacity), value);
      assert buf[..][pos..pos + KEY_LENGTH] == buf[pos..pos + KEY_LENGTH];
      if ToLong5(buf[pos..pos + KEY_LENGTH]) == 0 {
        count := AsI32(count + 1);
        CopyInto(buf, COUNT_POS, ToBE(count, 4));
      }
      CopyInto(buf, pos, ToBytes5(value));
      dirty := true;
    }

    /** Writes the whole table to its file when it has changed. */
    method Flush()
      requires Valid()
      modifies this`dirty, this`disk
      ensures Valid() && !dirty
      ensures Loaded(disk, memSize) == buf[..]
    {
      if dirty {
        disk := buf[..];
        dirty := false;
      }
    }
  }

  function SignedFour(s: Bytes): i32
    requires |s| == 4
  {
    Pow256Values();
    ToSignedBE(s);
    SignedBE(s)
  }

  lemma SignedZero()
    ensures SignedBE([0, 0, 0, 0]) == 0
  {
    Pow256Values();
    ToSignedBE([0, 0, 0, 0]);
    assert [0, 0, 0, 0][..3] == [0, 0, 0] && [0, 0, 0][..2] == [0, 0] && [0, 0][..1] == [0];
  }
}
