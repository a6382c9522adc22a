/** The append-only key file, byte for byte: how a record is laid out, how its fields are read
    back from the raw bytes, and the file object itself. */
module RealKeyFile {
  import opened ByteCodec
  import opened DataOutput
  import opened DataInput

  const MAGIC: Bytes := [0xCA, 0xFE]
  const HEADER_SIZE: nat := 2

  /** What opening a key file makes of its content, which is [] for a missing file. */
  function KeyContent(content: Bytes): Bytes { if content == [] then MAGIC else content }

  /** `get_record` looks at no more than this many bytes. */
  const RECORD_WINDOW: nat := 65536

  /** A record as `get_record` returns it. */
  datatype KeyRecord = KeyRecord(deleted: bool, prevPos: int, key: Bytes, dataPos: Bytes, nextOffset: int)

  /** [deleted: 1][prevPos: 5][key: 2 + n][dataPos: blob] */
  function EncRecord(deleted: bool, prevPos: int, key: Bytes, dataPos: Bytes): Bytes {
    EncBool(deleted) + ToBE(prevPos, 5) + EncShortBytes(key) + EncBlob(dataPos)
  }

  // ---------- reading fields at a file position ----------

  /** Seek and `read_exact`. */
  function ReadAt(file: Bytes, pos: int, n: nat): Result<Bytes> {
    if 0 <= pos && pos + n <= |file| then Ok(file[pos..pos + n]) else Err
  }

  /** Seek and `write_all`: overwrite, extend past the end, zero-fill a gap. */
  function WriteAt(file: Bytes, pos: nat, data: Bytes): Bytes {
    var padded := if pos <= |file| then file else file + seq(pos - |file|, _ => 0);
    padded[..pos] + data + (if pos + |data| <= |padded| then padded[pos + |data|..] else [])
  }

  function IsDeletedAt(file: Bytes, pos: int): Result<bool> {
    match ReadAt(file, pos, 1)
    case Err => Err
    case Ok(b) => Ok(b[0] != 0)
  }

  function PrevPosAt(file: Bytes, pos: int): Result<int> {
    match ReadAt(file, pos + 1, 5)
    case Err => Err
    case Ok(b) => Ok(SignedBE(b))
  }

  /** The key length is read as a signed 16-bit number; a negative one cannot be allocated. */
  function KeyAt(file: Bytes, pos: int): Result<Bytes> {
    match ReadAt(file, pos + 6, 2)
    case Err => Err
    case Ok(b) => if SignedBE(b) < 0 then Err else ReadAt(file, pos + 8, SignedBE(b))
  }

  /** `read_blob_from_file`. */
  function BlobAt(file: Bytes, pos: int): Result<Bytes> {
    match ReadAt(file, pos, 1)
    case Err => Err
    case Ok(b) =>
      if b[0] == 0 then Ok([])
      else if b[0] == 0xFF then
        match ReadAt(file, pos + 1, 2)
        case Err => Err
        case Ok(n) => ReadAt(file, pos + 3, FromBE(n))
      else if b[0] == 0xFE then
        match ReadAt(file, pos + 1, 4)
        case Err => Err
        case Ok(n) => if SignedBE(n) < 0 then Err else ReadAt(file, pos + 5, SignedBE(n))
      else ReadAt(file, pos + 1, b[0])
  }

  function DataPosAt(file: Bytes, pos: int): Result<Bytes> {
    match KeyAt(file, pos)
    case Err => Err
    case Ok(key) => BlobAt(file, pos + 8 + |key|)
  }

  /** The four reads `get_record` makes on its window, in order. */
  function DecRecord(s: Bytes): Parse<(bool, int, Bytes, Bytes)> {
    match DecBool(s)
    case Fail => Fail
    case Got(deleted, s1) =>
      match DecSigned(s1, 5)
      case Fail => Fail
      case Got(prevPos, s2) =>
        match DecShortBytes(s2)
        case Fail => Fail
        case Got(key, s3) =>
          match DecBlob(s3)
          case Fail => Fail
          case Got(dataPos, s4) => Got((deleted, prevPos, key, dataPos), s4)
  }

  function Window(file: Bytes, pos: nat): Bytes {
    if pos > |file| then [] else if |file| - pos <= RECORD_WINDOW then file[pos..] else file[pos..pos + RECORD_WINDOW]
  }

  function RecordAt(file: Bytes, pos: nat): Result<KeyRecord> {
    var window := Window(file, pos);
    match DecRecord(window)
    case Fail => Err
    case Got((deleted, prevPos, key, dataPos), rest) =>
      Ok(KeyRecord(deleted, prevPos, key, dataPos, pos + (|window| - |rest|)))
  }

  // ---------- an encoded record read back ----------

  /** The file holds exactly these bytes from pos on. */
  ghost predicate Holds(file: Bytes, pos: nat, data: Bytes) {
    pos + |data| <= |file| && file[pos..pos + |data|] == data
  }

  lemma HoldsPart(file: Bytes, pos: nat, a: Bytes, b: Bytes, c: Bytes)
    requires Holds(file, pos, a + b + c)
    ensures Holds(file, pos + |a|, b) && ReadAt(file, pos + |a|, |b|) == Ok(b)
  {
    MiddlePart(a, b, c);
    SliceOfSlice(file, pos, |a + b + c|, |a|, |b|);
  }

  lemma MiddlePart(a: Bytes, b: Bytes, c: Bytes)
    ensures (a + b + c)[|a|..|a| + |b|] == b
  {
    assert (a + b)[|a|..] == b && (a + b + c)[..|a| + |b|] == a + b;
  }

  lemma SliceOfSlice(file: Bytes, pos: nat, n: nat, at: nat, len: nat)
    requires pos + n <= |file| && at + len <= n
    ensures file[pos..pos + n][at..at + len] == file[pos + at..pos + at + len]
  {
    var one, two := file[pos..pos + n], file[pos + at..pos + at + len];
    forall i | 0 <= i < len
      ensures one[at..at + len][i] == two[i]
    {
      assert one[at..at + len][i] == one[at + i] == file[pos + (at + i)];
      assert two[i] == file[(pos + at) + i];
    }
    assert one[at..at + len] == two;
  }

  /** The short field readers return what was encoded, provided the link fits five bytes. */
  lemma FixedFieldsReadBack(file: Bytes, pos: nat, deleted: bool, prevPos: int, key: Bytes, dataPos: Bytes)
    requires Holds(file, pos, EncRecord(deleted, prevPos, key, dataPos))
    requires -0x80_0000_0000 <= prevPos < 0x80_0000_0000
    ensures IsDeletedAt(file, pos) == Ok(deleted)
    ensures PrevPosAt(file, pos) == Ok(prevPos)
  {
    hide EncShortBytes, EncBlob, ToBE;
    var tail := EncShortBytes(key) + EncBlob(dataPos);
    assert EncRecord(deleted, prevPos, key, dataPos) == [] + EncBool(deleted) + (ToBE(prevPos, 5) + tail);
    HoldsPart(file, pos, [], EncBool(deleted), ToBE(prevPos, 5) + tail);
    assert EncRecord(deleted, prevPos, key, dataPos) == EncBool(deleted) + ToBE(prevPos, 5) + tail;
    HoldsPart(file, pos, EncBool(deleted), ToBE(prevPos, 5), tail);
    Pow256Values();
    SignedToBE(prevPos, 5);
  }

  /** `get_key` gives the key back exactly when it is shorter than 32768 bytes: the length is
      written as 16 bits and read back signed. */
  lemma KeyReadsBackIff(file: Bytes, pos: nat, deleted: bool, prevPos: int, key: Bytes, dataPos: Bytes)
    requires Holds(file, pos, EncRecord(deleted, prevPos, key, dataPos))
    ensures KeyAt(file, pos) == Ok(key) <==> |key| < 0x8000
  {
    var front := EncBool(deleted) + ToBE(prevPos, 5);
    assert EncRecord(deleted, prevPos, key, dataPos) == front + ToBE(|key|, 2) + (key + EncBlob(dataPos));
    HoldsPart(file, pos, front, ToBE(|key|, 2), key + EncBlob(dataPos));
    assert EncRecord(deleted, prevPos, key, dataPos) == (front + ToBE(|key|, 2)) + key + EncBlob(dataPos);
    HoldsPart(file, pos, front + ToBE(|key|, 2), key, EncBlob(dataPos));
    Pow256Values();
    if |key| < 0x8000 {
      SignedToBE(|key|, 2);
    } else {
      ToSignedBE(ToBE(|key|, 2));
    }
  }

  lemma BlobReadsBack(file: Bytes, pos: nat, v: Bytes)
    requires Holds(file, pos, EncBlob(v)) && |v| <= 0x7FFF_FFFF
    ensures BlobAt(file, pos) == Ok(v)
  {
    hide ToBE, FromBE, SignedBE;
    var header := BlobHeader(|v|);
    assert EncBlob(v) == [] + header[..1] + (header[1..] + v);
    HoldsPart(file, pos, [], header[..1], header[1..] + v);
    assert EncBlob(v) == header[..1] + header[1..] + v;
    HoldsPart(file, pos, header[..1], header[1..], v);
    assert EncBlob(v) == header + v + [];
    HoldsPart(file, pos, header, v, []);
    Pow256Values();
    if 253 < |v| <= 65535 {
      FromToBE(|v|, 2);
    } else if 65535 < |v| {
      SignedToBE(|v|, 4);
    }
  }

  lemma DataPosReadsBack(file: Bytes, pos: nat, deleted: bool, prevPos: int, key: Bytes, dataPos: Bytes)
    requires Holds(file, pos, EncRecord(deleted, prevPos, key, dataPos))
    requires |key| < 0x8000 && |dataPos| <= 0x7FFF_FFFF
    ensures DataPosAt(file, pos) == Ok(dataPos)
  {
    KeyReadsBackIff(file, pos, deleted, prevPos, key, dataPos);
    var front := EncBool(deleted) + ToBE(prevPos, 5) + EncShortBytes(key);
    assert EncRecord(deleted, prevPos, key, dataPos) == front + EncBlob(dataPos) + [];
    HoldsPart(file, pos, front, EncBlob(dataPos), []);
    BlobReadsBack(file, pos + 8 + |key|, dataPos);
  }

  // ---------- whole records ----------

  lemma RecordRoundTrip(deleted: bool, prevPos: int, key: Bytes, dataPos: Bytes, rest: Bytes)
    requires -0x80_0000_0000 <= prevPos < 0x80_0000_0000 && |key| <= 0xFFFF && |dataPos| <= 0x7FFF_FFFF
    ensures DecRecord(EncRecord(deleted, prevPos, key, dataPos) + rest) == Got((deleted, prevPos, key, dataPos), rest)
  {
    hide EncShortBytes, EncBlob, DecShortBytes, DecBlob, DecSigned, ToBE;
    var s3 := EncBlob(dataPos) + rest;
    var s2 := EncShortBytes(key) + s3;
    var s1 := ToBE(prevPos, 5) + s2;
    var s := EncRecord(deleted, prevPos, key, dataPos) + rest;
    assert s == EncBool(deleted) + s1;
    assert s[1..] == s1;
    Pow256Values();
    DecSignedOfEnc(prevPos, 5, s2);
    ShortBytesRoundTripIff(key, s3);
    BlobRoundTrip(dataPos, rest);
  }

  /** More input never changes what a successful read of a record returned. */
  lemma RecordExtends(s: Bytes, t: Bytes)
    requires DecRecord(s).Got?
    ensures DecRecord(s + t) == Got(DecRecord(s).value, DecRecord(s).rest + t)
  {
    var s1 := s[1..];
    assert (s + t)[1..] == s1 + t;
    TakeExtends(s1, t, 5);
    var s2 := DecSigned(s1, 5).rest;
    ShortBytesExtend(s2, t);
    BlobExtends(DecShortBytes(s2).rest, t);
  }

  lemma ShortBytesExtend(s: Bytes, t: Bytes)
    requires DecShortBytes(s).Got?
    ensures DecShortBytes(s + t) == Got(DecShortBytes(s).value, DecShortBytes(s).rest + t)
  {
    TakeExtends(s, t, 2);
    TakeExtends(s[2..], t, DecUnsigned(s, 2).value);
  }

  /** A record cut short by even one byte does not parse. */
  lemma CutRecordFails(deleted: bool, prevPos: int, key: Bytes, dataPos: Bytes, n: nat)
    requires -0x80_0000_0000 <= prevPos < 0x80_0000_0000 && |key| <= 0xFFFF && |dataPos| <= 0x7FFF_FFFF
    requires n < |EncRecord(deleted, prevPos, key, dataPos)|
    ensures DecRecord(EncRecord(deleted, prevPos, key, dataPos)[..n]) == Fail
  {
    hide EncRecord, DecRecord;
    var all := EncRecord(deleted, prevPos, key, dataPos);
    if DecRecord(all[..n]).Got? {
      RecordExtends(all[..n], all[n..]);
      assert all[..n] + all[n..] == all && all + [] == all;
      RecordRoundTrip(deleted, prevPos, key, dataPos, []);
    }
  }

  /** `get_record` returns the record and the position right after it exactly when the whole
      record fits its 65536-byte window; otherwise it reports an error. */
  lemma RecordReadsBackIff(file: Bytes, pos: nat, deleted: bool, prevPos: int, key: Bytes, dataPos: Bytes)
    requires Holds(file, pos, EncRecord(deleted, prevPos, key, dataPos))
    requires -0x80_0000_0000 <= prevPos < 0x80_0000_0000 && |key| <= 0xFFFF && |dataPos| <= 0x7FFF_FFFF
    ensures var size := |EncRecord(deleted, prevPos, key, dataPos)|;
            RecordAt(file, pos) == if size <= RECORD_WINDOW
                                   then Ok(KeyRecord(deleted, prevPos, key, dataPos, pos + size))
                                   else Err
  {
    hide EncRecord, DecRecord;
    var rec := EncRecord(deleted, prevPos, key, dataPos);
    var window := Window(file, pos);
    if |rec| <= RECORD_WINDOW {
      assert window == rec + window[|rec|..];
      RecordRoundTrip(deleted, prevPos, key, dataPos, window[|rec|..]);
    } else {
      assert window == rec[..RECORD_WINDOW];
      CutRecordFails(deleted, prevPos, key, dataPos, RECORD_WINDOW);
    }
  }

  // ---------- the file object ----------

  class RealKeyFile {
    /** The bytes on disk; writes reach the operating system at once. */
    var bytes: Bytes

    /** Opens a file with the given content; a missing file has none. */
    constructor Open(content: Bytes)
      ensures bytes == KeyContent(content)
    {
      bytes := if content == [] then MAGIC else content;
    }

    method GetRecord(pos: nat) returns (r: Result<KeyRecord>)
      ensures r == RecordAt(bytes, pos)
    {
      hide DecBool, DecSigned, DecShortBytes, DecBlob, Window;
      var buf := Window(bytes, pos);
      var din := new DataInputX.FromBytes(buf);
      var deleted :- din.ReadBoolean();
      var prevPos :- din.ReadLong5();
      var key :- din.ReadShortBytes();
      var dataPos :- din.ReadBlob();
      r := Ok(KeyRecord(deleted, prevPos, key, dataPos, pos + din.offset));
    }

    method IsDeleted(pos: int) returns (r: Result<bool>)
      ensures r == IsDeletedAt(bytes, pos)
    {
      var buf := ReadAt(bytes, pos, 1);
      r := if buf.Ok? then Ok(buf.value[0] != 0) else Err;
    }

    method GetPrevPos(pos: int) returns (r: Result<int>)
      ensures r == PrevPosAt(bytes, pos)
    {
      var buf := ReadAt(bytes, pos + 1, 5);
      if buf.Err? { return Err; }
      Long5IsSigned(buf.value);
      r := Ok(ToLong5(buf.value));
    }

    method GetKey(pos: int) returns (r: Result<Bytes>)
      ensures r == KeyAt(bytes, pos)
    {
      var lenBuf := ReadAt(bytes, pos + 1 + 5, 2);
      if lenBuf.Err? { return Err; }
      var len := SignedBE(lenBuf.value);
      if len < 0 { return Err; }
      r := ReadAt(bytes, pos + 8, len);
    }

    method GetDataPos(pos: int) returns (r: Result<Bytes>)
      ensures r == DataPosAt(bytes, pos)
    {
      var lenBuf := ReadAt(bytes, pos + 1 + 5, 2);
      if lenBuf.Err? { return Err; }
      var keyLen := SignedBE(lenBuf.value);
      if keyLen < 0 { return Err; }
      var skip := ReadAt(bytes, pos + 8, keyLen);
      if skip.Err? { return Err; }
      r := BlobAt(bytes, pos + 8 + keyLen);
    }

    method Append(prevPos: int, indexKey: Bytes, dataPos: Bytes) returns (pos: nat)
      requires -0x8000_0000_0000_0000 <= prevPos < 0x8000_0000_0000_0000
      modifies this
      ensures pos == |old(bytes)|
      ensures bytes == old(bytes) + EncRecord(false, prevPos, indexKey, dataPos)
    {
      pos := |bytes|;
      var dout := new DataOutputX();
      dout.WriteBoolean(false);
      dout.WriteLong5(prevPos);
      dout.WriteShortBytes(indexKey);
      dout.WriteBlob(dataPos);
      assert dout.buf == EncRecord(false, prevPos, indexKey, dataPos);
      bytes := bytes + dout.buf;
    }

    method SetDelete(pos: nat, deleted: bool)
      modifies this
      ensures bytes == WriteAt(old(bytes), pos, EncBool(deleted))
    {
      bytes := WriteAt(bytes, pos, [if deleted then 1 else 0]);
    }

    method GetFirstPos() returns (pos: nat)
      ensures pos == |MAGIC|
    {
      pos := HEADER_SIZE;
    }

    method GetLength() returns (n: nat)
      ensures n == |bytes|
    {
      n := |bytes|;
    }
  }
}
