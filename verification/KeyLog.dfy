/** What the bytes of a key file mean: a list of records, each linked to an earlier one.

    A log is the abstract content of a key file; Image(log) is the file itself. Links are record
    numbers here and byte positions in the file. */
module KeyLog {
  import opened ByteCodec
  import opened DataOutput
  import opened DataInput
  import opened RealKeyFile

  /** prev is the number of an earlier record, or -1. */
  datatype Record = Record(deleted: bool, prev: int, key: Bytes, value: Bytes)

  type Log = seq<Record>

  /** Every link points to an earlier record or nowhere. */
  ghost predicate Linked(log: Log) {
    forall i | 0 <= i < |log| :: -1 <= log[i].prev < i
  }

  function RecordSize(key: Bytes, value: Bytes): nat { 8 + |key| + |EncBlob(value)| }

  /** A record that holds a 5-byte position. */
  lemma PositionRecordSize(key: Bytes, position: Bytes)
    requires |position| == 5
    ensures RecordSize(key, position) == 14 + |key|
  {
  }

  lemma RecordLength(deleted: bool, prevPos: int, key: Bytes, value: Bytes)
    ensures |EncRecord(deleted, prevPos, key, value)| == RecordSize(key, value)
  {
  }

  /** The file position of record i; for i == |log|, the length of the file. */
  function Pos(log: Log, i: nat): (p: nat)
    requires i <= |log|
    ensures p >= 2
  {
    if i == 0 then HEADER_SIZE else Pos(log, i - 1) + RecordSize(log[i - 1].key, log[i - 1].value)
  }

  /** A link as it is stored: the position of the record, or 0 for none. */
  function Link(log: Log, i: int): nat
    requires -1 <= i <= |log|
  {
    if i < 0 then 0 else Pos(log, i)
  }

  /** The bytes of record i. */
  function RecordBytes(log: Log, i: nat): (s: Bytes)
    requires i < |log| && Linked(log)
    ensures |s| == RecordSize(log[i].key, log[i].value)
  {
    EncRecord(log[i].deleted, Link(log, log[i].prev), log[i].key, log[i].value)
  }

  /** The whole file. */
  function Image(log: Log): Bytes
    requires Linked(log)
  {
    if log == [] then MAGIC else Image(log[..|log| - 1]) + RecordBytes(log, |log| - 1)
  }

  /** The size limits under which every field reads back: short keys, blobs with a signed 4-byte
      length, and record positions that fit the 5-byte links. */
  ghost predicate Fits(log: Log) {
    && (forall i | 0 <= i < |log| :: |log[i].key| < 0x8000 && |log[i].value| <= 0x7FFF_FFFF)
    && (forall i | 0 <= i < |log| :: Pos(log, i) < 0x80_0000_0000)
  }

  ghost predicate Sound(log: Log) { Linked(log) && Fits(log) }

  // ---------- positions ----------

  /** Positions depend only on the sizes of the records before. */
  lemma {:induction false} PosSame(a: Log, b: Log, i: nat)
    requires i <= |a| && i <= |b|
    requires forall j | 0 <= j < i :: a[j].key == b[j].key && a[j].value == b[j].value
    ensures Pos(a, i) == Pos(b, i)
  {
    if i > 0 {
      PosSame(a, b, i - 1);
    }
  }

  lemma {:induction false} PosIncreases(log: Log, i: nat, j: nat)
    requires i < j <= |log|
    ensures Pos(log, i) + RecordSize(log[i].key, log[i].value) <= Pos(log, j)
    decreases j
  {
    hide RecordSize;
    if i < j - 1 {
      PosIncreases(log, i, j - 1);
    }
  }

  lemma RecordBytesSame(a: Log, b: Log, i: nat)
    requires Linked(a) && Linked(b) && i < |a| && i < |b|
    requires forall j | 0 <= j < i :: a[j].key == b[j].key && a[j].value == b[j].value
    requires a[i] == b[i]
    ensures RecordBytes(a, i) == RecordBytes(b, i)
  {
    if a[i].prev >= 0 {
      PosSame(a, b, a[i].prev);
    }
  }

  // ---------- the file holds the records ----------

  lemma {:induction false} ImageLength(log: Log)
    requires Linked(log)
    ensures |Image(log)| == Pos(log, |log|)
  {
    if log != [] {
      var n := |log| - 1;
      ImageLength(log[..n]);
      PosSame(log[..n], log, n);
    }
  }

  lemma ImageNotEmpty(log: Log)
    requires Linked(log)
    ensures Image(log) != []
  {
    ImageLength(log);
  }

  lemma ImageAppend(log: Log, r: Record)
    requires Linked(log) && -1 <= r.prev < |log|
    ensures Linked(log + [r])
    ensures Image(log + [r]) == Image(log) + EncRecord(r.deleted, Link(log, r.prev), r.key, r.value)
  {
    var longer := log + [r];
    assert longer[..|log|] == log;
    if r.prev >= 0 {
      PosSame(longer, log, r.prev);
    }
  }

  /** Record i sits at its position, whole. */
  lemma {:induction false} ImageHolds(log: Log, i: nat)
    requires Linked(log) && i < |log|
    ensures Holds(Image(log), Pos(log, i), RecordBytes(log, i))
  {
    hide RecordBytes, RecordSize;
    var n := |log| - 1;
    var front := log[..n];
    ImageLength(front);
    if i == n {
      PosSame(front, log, n);
    } else {
      ImageHolds(front, i);
      PosSame(front, log, i);
      RecordBytesSame(front, log, i);
      HoldsExtends(Image(front), Pos(log, i), RecordBytes(log, i), RecordBytes(log, n));
    }
  }

  lemma HoldsExtends(file: Bytes, pos: nat, data: Bytes, more: Bytes)
    requires Holds(file, pos, data)
    ensures Holds(file + more, pos, data)
  {
    assert (file + more)[pos..pos + |data|] == file[pos..pos + |data|];
  }

  /** Marking a record deleted is a one-byte change at its position. */
  lemma {:induction false} ImageOfDelete(log: Log, i: nat)
    requires Linked(log) && i < |log|
    ensures Linked(log[i := log[i].(deleted := true)])
    ensures Image(log[i := log[i].(deleted := true)]) == WriteAt(Image(log), Pos(log, i), EncBool(true))
  {
    hide RecordBytes, RecordSize, WriteAt, EncBool, Image, Pos;
    var n := |log| - 1;
    PosSame(log[..n], log, i);
    if i == n {
      DeleteLast(log);
    } else {
      ImageOfDelete(log[..n], i);
      DeleteEarlier(log, i);
    }
  }

  lemma DeleteLast(log: Log)
    requires Linked(log) && log != []
    ensures var n := |log| - 1;
            var marked := log[n := log[n].(deleted := true)];
            Linked(marked) && Image(marked) == WriteAt(Image(log), Pos(log, n), EncBool(true))
  {
    hide RecordBytes, RecordSize, WriteAt, EncBool;
    var n := |log| - 1;
    var marked := log[n := log[n].(deleted := true)];
    ImageLength(log[..n]);
    PosSame(log[..n], log, n);
    assert marked[..n] == log[..n];
    MarkedRecordBytes(log, marked, n);
    RecordSizePositive(log, n);
    OverwriteFirst(Image(log[..n]), RecordBytes(log, n));
  }

  lemma DeleteEarlier(log: Log, i: nat)
    requires Linked(log) && i < |log| - 1
    requires var front := log[..|log| - 1];
             && Linked(front[i := front[i].(deleted := true)])
             && Image(front[i := front[i].(deleted := true)]) == WriteAt(Image(front), Pos(log, i), EncBool(true))
    ensures var marked := log[i := log[i].(deleted := true)];
            Linked(marked) && Image(marked) == WriteAt(Image(log), Pos(log, i), EncBool(true))
  {
    hide RecordBytes, RecordSize, WriteAt, EncBool, Pos;
    var n := |log| - 1;
    var front, marked := log[..n], log[i := log[i].(deleted := true)];
    assert marked[..n] == front[i := front[i].(deleted := true)];
    RecordBytesSame(marked, log, n);
    InsideFront(log, i);
    OverwriteInFront(Image(front), Pos(log, i), RecordBytes(log, n));
  }

  lemma InsideFront(log: Log, i: nat)
    requires Linked(log) && i < |log| - 1
    ensures Pos(log, i) < |Image(log[..|log| - 1])|
  {
    var n := |log| - 1;
    ImageLength(log[..n]);
    PosSame(log[..n], log, i);
    PosIncreases(log[..n], i, n);
    RecordSizePositive(log[..n], i);
  }

  lemma RecordSizePositive(log: Log, i: nat)
    requires i < |log|
    ensures RecordSize(log[i].key, log[i].value) > 0
  {
  }

  lemma MarkedRecordBytes(log: Log, marked: Log, n: nat)
    requires Linked(log) && Linked(marked) && n < |log| == |marked|
    requires marked[..n] == log[..n] && marked[n] == log[n].(deleted := true)
    ensures RecordBytes(marked, n) == EncBool(true) + RecordBytes(log, n)[1..]
  {
    hide EncShortBytes, EncBlob, RecordSize;
    if log[n].prev >= 0 {
      PosSame(marked, log, log[n].prev);
    }
  }

  lemma OverwriteFirst(file: Bytes, rec: Bytes)
    requires rec != []
    ensures WriteAt(file + rec, |file|, EncBool(true)) == file + (EncBool(true) + rec[1..])
  {
    assert (file + rec)[|file| + 1..] == rec[1..];
  }

  lemma OverwriteInFront(file: Bytes, pos: nat, more: Bytes)
    requires pos < |file|
    ensures WriteAt(file + more, pos, EncBool(true)) == WriteAt(file, pos, EncBool(true)) + more
  {
    assert (file + more)[pos + 1..] == file[pos + 1..] + more;
  }

  // ---------- every field reads back ----------

  /** For every record of the file, the four field readers return its fields. */
  lemma FieldsReadBack(log: Log, i: nat)
    requires Sound(log) && i < |log|
    ensures IsDeletedAt(Image(log), Pos(log, i)) == Ok(log[i].deleted)
    ensures PrevPosAt(Image(log), Pos(log, i)) == Ok(Link(log, log[i].prev))
    ensures KeyAt(Image(log), Pos(log, i)) == Ok(log[i].key)
    ensures DataPosAt(Image(log), Pos(log, i)) == Ok(log[i].value)
  {
    var r, link := log[i], Link(log, log[i].prev);
    ImageHolds(log, i);
    FixedFieldsReadBack(Image(log), Pos(log, i), r.deleted, link, r.key, r.value);
    KeyReadsBackIff(Image(log), Pos(log, i), r.deleted, link, r.key, r.value);
    DataPosReadsBack(Image(log), Pos(log, i), r.deleted, link, r.key, r.value);
  }

  /** `get_record` agrees with the field readers and lands on the next record's position, as long
      as the record fits its window. */
  lemma RecordReadsBack(log: Log, i: nat)
    requires Sound(log) && i < |log|
    ensures RecordAt(Image(log), Pos(log, i))
         == if RecordSize(log[i].key, log[i].value) <= RECORD_WINDOW
            then Ok(KeyRecord(log[i].deleted, Link(log, log[i].prev), log[i].key, log[i].value, Pos(log, i + 1)))
            else Err
  {
    hide EncRecord, EncBlob, RecordAt;
    var r, link := log[i], Link(log, log[i].prev);
    ImageHolds(log, i);
    RecordReadsBackIff(Image(log), Pos(log, i), r.deleted, link, r.key, r.value);
  }

  lemma MarkKeepsSound(log: Log, marked: Log)
    requires Sound(log) && |marked| == |log|
    requires forall j | 0 <= j < |log| ::
               marked[j].prev == log[j].prev && marked[j].key == log[j].key && marked[j].value == log[j].value
    ensures Sound(marked)
    ensures forall i | 0 <= i <= |log| :: Pos(marked, i) == Pos(log, i)
  {
    forall i | 0 <= i <= |log|
      ensures Pos(marked, i) == Pos(log, i)
    {
      PosSame(marked, log, i);
    }
  }

  lemma AppendKeepsSound(log: Log, r: Record)
    requires Sound(log) && -1 <= r.prev < |log|
    requires |r.key| < 0x8000 && |r.value| <= 0x7FFF_FFFF && Pos(log, |log|) < 0x80_0000_0000
    ensures Sound(log + [r])
  {
    hide Pos, RecordSize, EncBlob;
    var longer := log + [r];
    forall i | 0 <= i < |longer|
      ensures Pos(longer, i) < 0x80_0000_0000
    {
      PosSame(longer, log, i);
      assert i == |log| || Pos(log, i) < 0x80_0000_0000;
    }
  }
}
