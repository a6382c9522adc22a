/** What a key of 32768 bytes and more does to the lookups of an index. The key is stored whole, but its
    length is written as 16 bits and read back signed. */
module LongKeys {
  import opened ByteCodec
  import opened DataOutput
  import opened DataInput
  import opened RealKeyFile
  import opened KeyLog
  import opened SlotChains

  /** What `get_key` makes of the stored key. */
  function StoredKey(key: Bytes): Result<Bytes> {
    var n := |key| % 0x1_0000;
    if n < 0x8000 then Ok(key[..n]) else Err
  }

  /** A log whose records are where their links say, with keys of any length. */
  ghost predicate Placed(log: Log) {
    && Linked(log)
    && (forall i | 0 <= i < |log| :: |log[i].value| <= 0x7FFF_FFFF && Pos(log, i) < 0x80_0000_0000)
  }

  /** For every length: below 32768 the key itself, then an error up to 65535, then a prefix again. */
  lemma StoredKeyReads(log: Log, i: nat)
    requires Placed(log) && i < |log|
    ensures KeyAt(Image(log), Pos(log, i)) == StoredKey(log[i].key)
  {
    hide ToBE, SignedBE, Image, EncBlob, Pos;
    var r := log[i];
    ImageHolds(log, i);
    KeyAmong(Image(log), Pos(log, i), EncBool(r.deleted) + ToBE(Link(log, r.prev), 5), r.key, EncBlob(r.value));
    assert RecordBytes(log, i)
        == EncBool(r.deleted) + ToBE(Link(log, r.prev), 5) + (ToBE(|r.key|, 2) + r.key) + EncBlob(r.value);
  }

  lemma KeyAmong(file: Bytes, pos: nat, front: Bytes, key: Bytes, rest: Bytes)
    requires Holds(file, pos, front + (ToBE(|key|, 2) + key) + rest) && |front| == 6
    ensures KeyAt(file, pos) == StoredKey(key)
  {
    hide ToBE, SignedBE, Holds;
    var n := |key| % 0x1_0000;
    SplitKey(front, ToBE(|key|, 2), key, 0, rest);
    HoldsPart(file, pos, front, ToBE(|key|, 2), key + rest);
    LowShort(|key|);
    if n < 0x8000 {
      SplitKey(front, ToBE(|key|, 2), key, n, rest);
      HoldsPart(file, pos, front + ToBE(|key|, 2), key[..n], key[n..] + rest);
    }
  }

  lemma SplitKey(front: Bytes, word: Bytes, key: Bytes, n: nat, rest: Bytes)
    requires n <= |key|
    ensures front + (word + key) + rest == front + word + (key + rest)
    ensures front + (word + key) + rest == (front + word) + key[..n] + (key[n..] + rest)
  {
    assert key == key[..n] + key[n..];
  }

  lemma LinkReads(log: Log, i: nat)
    requires Placed(log) && i < |log|
    ensures IsDeletedAt(Image(log), Pos(log, i)) == Ok(log[i].deleted)
    ensures PrevPosAt(Image(log), Pos(log, i)) == Ok(Link(log, log[i].prev))
    ensures Link(log, log[i].prev) < Pos(log, i)
  {
    hide IsDeletedAt, PrevPosAt, EncRecord;
    var r := log[i];
    ImageHolds(log, i);
    if r.prev >= 0 {
      PosIncreases(log, r.prev, i);
      RecordSizePositive(log, r.prev);
    }
    FixedFieldsReadBack(Image(log), Pos(log, i), r.deleted, Link(log, r.prev), r.key, r.value);
  }

  // ---------- the loops of `get` and `get_all` on any file ----------

  /** `get`: an error ends the loop; so would a link that does not go down, which no put writes. */
  function FindAt(file: Bytes, pos: int, key: Bytes): Result<Option<Bytes>>
    decreases pos
  {
    if pos <= 0 then Ok(None)
    else
      match LiveKeyAt(file, pos)
      case Err => Err
      case Ok(stored) =>
        if stored == Some(key) then
          match DataPosAt(file, pos)
          case Ok(value) => Ok(Some(value))
          case Err => Err
        else
          match PrevPosAt(file, pos)
          case Ok(prev) => if prev < pos then FindAt(file, prev, key) else Err
          case Err => Err
  }

  /** The key of a record that is not marked deleted. */
  function LiveKeyAt(file: Bytes, pos: int): Result<Option<Bytes>> {
    match IsDeletedAt(file, pos)
    case Err => Err
    case Ok(true) => Ok(None)
    case Ok(false) =>
      match KeyAt(file, pos)
      case Ok(key) => Ok(Some(key))
      case Err => Err
  }

  /** `get_all`. */
  function CollectAt(file: Bytes, pos: int, key: Bytes): Result<seq<Bytes>>
    decreases pos
  {
    if pos <= 0 then Ok([])
    else
      match LiveKeyAt(file, pos)
      case Err => Err
      case Ok(stored) =>
        match PrevPosAt(file, pos)
        case Err => Err
        case Ok(prev) =>
          if prev >= pos then Err
          else if stored != Some(key) then CollectAt(file, prev, key)
          else
            match (DataPosAt(file, pos), CollectAt(file, prev, key))
            case (Ok(value), Ok(values)) => Ok([value] + values)
            case _ => Err
  }

  predicate IsLong(r: Record) { !r.deleted && |r.key| >= 0x8000 }

  /** The walk meets a live record with a long key before a live one with this key. */
  ghost predicate Blocked(log: Log, i: int, key: Bytes)
    requires Linked(log) && -1 <= i < |log|
    decreases i + 1
  {
    i >= 0 && (IsLong(log[i]) || ((log[i].deleted || log[i].key != key) && Blocked(log, log[i].prev, key)))
  }

  /** The chain has a live record with a long key at all. */
  ghost predicate HasLong(log: Log, i: int)
    requires Linked(log) && -1 <= i < |log|
    decreases i + 1
  {
    i >= 0 && (IsLong(log[i]) || HasLong(log, log[i].prev))
  }

  ghost predicate Below64K(log: Log) { forall i | 0 <= i < |log| :: |log[i].key| < 0x1_0000 }

  /** With keys below 65536 bytes, `get` gives the newest value put for the key if and only if no live
      record with a key of 32768 bytes or more is in front of it on the chain of its slot; otherwise
      it is an error, for every key of the slot. */
  lemma {:induction false} FindIsRightIff(log: Log, i: int, key: Bytes)
    requires Placed(log) && Below64K(log) && -1 <= i < |log|
    ensures var values := Values(log, i, key);
            FindAt(Image(log), Link(log, i), key)
            == if Blocked(log, i, key) then Err else Ok(if values == [] then None else Some(values[0]))
    decreases i + 1
  {
    hide Image, Placed, IsDeletedAt, PrevPosAt, KeyAt, DataPosAt, Pos;
    if i >= 0 {
      RecordMeets(log, i);
      FindIsRightIff(log, log[i].prev, key);
    }
  }

  /** The same for `get_all`: right if and only if the whole chain is free of such records. */
  lemma {:induction false} CollectIsRightIff(log: Log, i: int, key: Bytes)
    requires Placed(log) && Below64K(log) && -1 <= i < |log|
    ensures CollectAt(Image(log), Link(log, i), key) == if HasLong(log, i) then Err else Ok(Values(log, i, key))
    decreases i + 1
  {
    hide Image, Placed, IsDeletedAt, PrevPosAt, KeyAt, DataPosAt, Pos;
    if i >= 0 {
      RecordMeets(log, i);
      CollectIsRightIff(log, log[i].prev, key);
      assert [] + Values(log, log[i].prev, key) == Values(log, log[i].prev, key);
    }
  }

  /** What the field readers say of one record. */
  lemma RecordMeets(log: Log, i: nat)
    requires Placed(log) && Below64K(log) && i < |log|
    ensures Linked(log) && Pos(log, i) > 0 && -1 <= log[i].prev < i
    ensures LiveKeyAt(Image(log), Pos(log, i))
         == if log[i].deleted then Ok(None) else if |log[i].key| < 0x8000 then Ok(Some(log[i].key)) else Err
    ensures PrevPosAt(Image(log), Pos(log, i)) == Ok(Link(log, log[i].prev))
    ensures Link(log, log[i].prev) < Pos(log, i)
    ensures |log[i].key| < 0x8000 ==> DataPosAt(Image(log), Pos(log, i)) == Ok(log[i].value)
  {
    hide IsDeletedAt, PrevPosAt, KeyAt, DataPosAt, EncRecord, Image, Pos, Link;
    LinkReads(log, i);
    StoredKeyReads(log, i);
    if |log[i].key| < 0x8000 {
      assert log[i].key[..|log[i].key|] == log[i].key;
      ValueReads(log, i);
    }
  }

  lemma ValueReads(log: Log, i: nat)
    requires Placed(log) && i < |log| && |log[i].key| < 0x8000
    ensures DataPosAt(Image(log), Pos(log, i)) == Ok(log[i].value)
  {
    hide DataPosAt, EncRecord;
    ImageHolds(log, i);
    DataPosReadsBack(Image(log), Pos(log, i), log[i].deleted, Link(log, log[i].prev), log[i].key, log[i].value);
  }

  /** An input from 65536 bytes on: after one put of 65536 zeros, the empty key, which was never put, is
      found, with a value that was never put either. */
  lemma WrappedKeyIsFound(value: Bytes)
    requires |value| <= 0x7FFF_FFFF
    ensures var log := [Record(false, -1, seq(0x1_0000, _ => 0), value)];
            && Values(log, 0, []) == []
            && FindAt(Image(log), Link(log, 0), []) == Ok(Some([]))
  {
    var key: Bytes := seq(0x1_0000, _ => 0);
    var log := [Record(false, -1, key, value)];
    assert Pos(log, 0) == HEADER_SIZE && Placed(log);
    hide Image, IsDeletedAt, PrevPosAt, KeyAt, EncBlob, ReadAt;
    LinkReads(log, 0);
    StoredKeyReads(log, 0);
    assert key[..0] == [];
    BlobInKey(log, key, value);
  }

  lemma BlobInKey(log: Log, key: Bytes, value: Bytes)
    requires log == [Record(false, -1, key, value)] && key != [] && key[0] == 0 && Placed(log)
    ensures BlobAt(Image(log), Pos(log, 0) + 8) == Ok([])
  {
    hide Image, EncBlob, ToBE;
    ImageHolds(log, 0);
    var front := EncBool(false) + ToBE(Link(log, -1), 5) + ToBE(|key|, 2);
    assert RecordBytes(log, 0) == front + key[..1] + (key[1..] + EncBlob(value));
    HoldsPart(Image(log), Pos(log, 0), front, key[..1], key[1..] + EncBlob(value));
  }
}
