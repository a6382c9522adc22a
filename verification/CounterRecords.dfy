/** The daily counter store: one fixed-size record per counter, one 8-byte value per time bucket,
    values updated in place. A value is the 8-byte pattern of a double. */
module CounterRecords {
  import opened ByteCodec
  import opened DataInput
  import opened RealKeyFile
  import opened SlotBuffer
  import opened KeyLog
  import opened KeyIndex

  const VALUE_TYPE_FLOAT: Byte := 5
  const VALUE_TYPE_DOUBLE: Byte := 9

  /** `get_bucket_count`. */
  function BucketCount(timeType: int): nat {
    match timeType
    case 1 => 1440
    case 5 => 288
    case 10 => 144
    case 60 => 24
    case _ => 1
  }

  /** Division that truncates toward zero. */
  function TruncDiv(a: int, b: int): int
    requires b > 0
  {
    if a >= 0 then a / b else -(-a / b)
  }

  /** `hhmm_to_bucket`. */
  function HhmmToBucket(hhmm: i32, timeType: int): nat {
    var hours: i32 := TruncDiv(hhmm, 100);
    var minutes := hhmm - 100 * hours;
    var totalMinutes: i32 := hours * 60 + minutes;
    match timeType
    case 1 => AsUsize(totalMinutes)
    case 5 => AsUsize(TruncDiv(totalMinutes, 5))
    case 10 => AsUsize(TruncDiv(totalMinutes, 10))
    case 60 => AsUsize(hours)
    case _ => 0
  }

  /** Every time of day on the clock has its bucket inside the record. */
  lemma ClockTimesHaveBuckets(hours: int, minutes: int, timeType: int)
    requires 0 <= hours < 24 && 0 <= minutes < 60
    ensures HhmmToBucket(100 * hours + minutes, timeType) < BucketCount(timeType)
  {
    var total := hours * 60 + minutes;
    assert TruncDiv(100 * hours + minutes, 100) == hours;
    assert TruncDiv(total, 5) == total / 5 < 288;
    assert TruncDiv(total, 10) == total / 10 < 144;
    hide TruncDiv;
  }

  /** The types of 1, 5, 10 and 60 minutes divide the day into buckets of so many minutes, and a time of
      day falls into the bucket that contains it; every other type has one bucket for all. */
  lemma BucketOfClock(hours: int, minutes: int, w: int)
    requires 0 <= hours < 24 && 0 <= minutes < 60
    ensures w == 1 || w == 5 || w == 10 || w == 60 ==>
              && w * BucketCount(w) == 1440
              && var b := HhmmToBucket(100 * hours + minutes, w);
                 w * b <= 60 * hours + minutes < w * (b + 1)
    ensures w != 1 && w != 5 && w != 10 && w != 60 ==>
              BucketCount(w) == 1 && HhmmToBucket(100 * hours + minutes, w) == 0
  {
    var total := hours * 60 + minutes;
    assert TruncDiv(100 * hours + minutes, 100) == hours;
    assert TruncDiv(total, 5) == total / 5 && TruncDiv(total, 10) == total / 10;
    hide TruncDiv;
  }

  /** A number with more than 59 in its last two digits counts as so many minutes past the hour, except
      for the hourly type, which looks at the hour alone. */
  lemma BucketOfAny(hours: int, minutes: int)
    requires 0 <= hours < 21_474_836 && 0 <= minutes < 100
    ensures HhmmToBucket(100 * hours + minutes, 1) == 60 * hours + minutes
    ensures HhmmToBucket(100 * hours + minutes, 5) == (60 * hours + minutes) / 5
    ensures HhmmToBucket(100 * hours + minutes, 10) == (60 * hours + minutes) / 10
    ensures HhmmToBucket(100 * hours + minutes, 60) == hours
  {
    assert TruncDiv(100 * hours + minutes, 100) == hours;
  }

  /** A negative number gives a negative bucket, which wraps around. */
  lemma BucketOfNegative(hours: int, minutes: int)
    requires 0 <= hours < 21_474_836 && 0 <= minutes < 100
    ensures var t := 60 * hours + minutes;
            && HhmmToBucket(-(100 * hours + minutes), 1) == Wrapped(t)
            && HhmmToBucket(-(100 * hours + minutes), 5) == Wrapped(t / 5)
            && HhmmToBucket(-(100 * hours + minutes), 10) == Wrapped(t / 10)
            && HhmmToBucket(-(100 * hours + minutes), 60) == Wrapped(hours)
  {
    var n := 100 * hours + minutes;
    assert TruncDiv(-n, 100) == -hours;
  }

  /** -n as a usize. */
  function Wrapped(n: nat): int { if n == 0 then 0 else 0x1_0000_0000_0000_0000 - n }

  /** The bytes of a record: the type of its values, 9 for doubles, its time type, and eight bytes for
      each bucket in order. */
  lemma CounterBytes(c: Counter, b: nat)
    requires WellFormed(c) && b < |c.values|
    ensures |EncCounter(c)| == 2 + 8 * |c.values| && |c.values| == BucketCount(c.timeType)
    ensures EncCounter(c)[0] == 9
    ensures EncCounter(c)[1] == if c.timeType >= 0 then c.timeType else c.timeType + 256
    ensures EncCounter(c)[2 + 8 * b..10 + 8 * b] == c.values[b]
  {
    FlattenAt(c.values, b);
    var values := Flatten(c.values);
    hide Flatten, BucketCount;
    assert EncCounter(c)[2 + 8 * b..10 + 8 * b] == values[8 * b..8 * b + 8];
  }

  /** One counter: its time type and a value per bucket. */
  datatype Counter = Counter(timeType: i8, values: seq<Bytes>)

  ghost predicate WellFormed(c: Counter) {
    |c.values| == BucketCount(c.timeType) && forall i | 0 <= i < |c.values| :: |c.values[i]| == 8
  }

  const ZERO: Bytes := [0, 0, 0, 0, 0, 0, 0, 0]

  function Blank(timeType: i8): Counter {
    Counter(timeType, seq(BucketCount(timeType), _ => ZERO))
  }

  function Flatten(values: seq<Bytes>): Bytes {
    if values == [] then [] else values[0] + Flatten(values[1..])
  }

  /** [valueType][timeType][values] */
  function Header(timeType: i8): Bytes { [VALUE_TYPE_DOUBLE, timeType % 256] }

  function EncCounter(c: Counter): Bytes { Header(c.timeType) + Flatten(c.values) }

  function CounterSize(timeType: int): nat { 2 + 8 * BucketCount(timeType) }

  // ---------- values inside a record ----------

  lemma {:induction false} FlattenLength(values: seq<Bytes>)
    requires forall i | 0 <= i < |values| :: |values[i]| == 8
    ensures |Flatten(values)| == 8 * |values|
  {
    if values != [] {
      FlattenLength(values[1..]);
    }
  }

  lemma {:induction false} FlattenAt(values: seq<Bytes>, b: nat)
    requires forall i | 0 <= i < |values| :: |values[i]| == 8
    requires b < |values|
    ensures |Flatten(values)| == 8 * |values|
    ensures Flatten(values)[8 * b..8 * b + 8] == values[b]
  {
    FlattenLength(values);
    if b > 0 {
      FlattenAt(values[1..], b - 1);
      var tail := Flatten(values[1..]);
      assert Flatten(values)[8 * b..8 * b + 8] == tail[8 * (b - 1)..8 * (b - 1) + 8];
    }
  }

  lemma {:induction false} FlattenUpdate(values: seq<Bytes>, b: nat, v: Bytes)
    requires forall i | 0 <= i < |values| :: |values[i]| == 8
    requires b < |values| && |v| == 8
    ensures |Flatten(values)| == 8 * |values|
    ensures Flatten(values[b := v]) == Splice(Flatten(values), 8 * b, v)
  {
    FlattenLength(values);
    if b == 0 {
      assert values[0 := v][1..] == values[1..];
    } else {
      FlattenUpdate(values[1..], b - 1, v);
      assert values[b := v][1..] == values[1..][b - 1 := v];
      assert Flatten(values[b := v]) == values[0] + Splice(Flatten(values[1..]), 8 * (b - 1), v);
    }
  }

  // ---------- records in the file ----------

  type Table = map<Bytes, Counter>
  type Offsets = map<Bytes, nat>

  /** Every counter has its record at its offset, and no two records overlap. */
  ghost predicate RecordsHold(file: Bytes, table: Table, offs: Offsets) {
    && offs.Keys == table.Keys
    && (forall k | k in table :: WellFormed(table[k]) && offs[k] < 0x80_0000_0000)
    && (forall k | k in table :: Holds(file, offs[k], EncCounter(table[k])))
    && NoOverlap(table, offs)
  }

  ghost predicate NoOverlap(table: Table, offs: Offsets)
    requires offs.Keys == table.Keys
  {
    forall j, k | j in table && k in table && j != k ::
      || offs[j] + CounterSize(table[j].timeType) <= offs[k]
      || offs[k] + CounterSize(table[k].timeType) <= offs[j]
  }

  /** Each key leads to exactly its own record. */
  ghost predicate IndexHolds(ops: History, offs: Offsets) {
    forall k: Bytes :: Replay(ops, k) == if k in offs then [ToBytes5(offs[k])] else []
  }

  lemma EncCounterLength(c: Counter)
    requires WellFormed(c)
    ensures |EncCounter(c)| == CounterSize(c.timeType)
  {
    FlattenLength(c.values);
  }

  lemma EncCounterUpdate(c: Counter, b: nat, v: Bytes)
    requires WellFormed(c) && b < |c.values| && |v| == 8
    ensures WellFormed(c.(values := c.values[b := v]))
    ensures |EncCounter(c)| == CounterSize(c.timeType) == 2 + 8 * |c.values|
    ensures EncCounter(c.(values := c.values[b := v])) == Splice(EncCounter(c), 2 + 8 * b, v)
  {
    FlattenUpdate(c.values, b, v);
  }

  lemma HoldsAfterUpdate(file: Bytes, pos: nat, data: Bytes, at: nat, v: Bytes)
    requires Holds(file, pos, data) && at + |v| <= |data|
    ensures Holds(WriteAt(file, pos + at, v), pos, Splice(data, at, v))
    ensures |WriteAt(file, pos + at, v)| == |file|
  {
    WriteInside(file, pos, data, at, v);
    hide WriteAt, Splice;
    var next := WriteAt(file, pos + at, v);
    assert next[pos..pos + |data|] == Splice(data, at, v);
  }

  lemma WriteInside(file: Bytes, pos: nat, data: Bytes, at: nat, v: Bytes)
    requires Holds(file, pos, data) && at + |v| <= |data|
    ensures WriteAt(file, pos + at, v) == file[..pos] + Splice(data, at, v) + file[pos + |data|..]
  {
    assert file[..pos + at] == file[..pos] + data[..at];
    assert file[pos + at + |v|..] == data[at + |v|..] + file[pos + |data|..];
  }

  lemma HoldsElsewhere(file: Bytes, pos: nat, data: Bytes, at: nat, v: Bytes)
    requires Holds(file, pos, data) && at + |v| <= |file|
    requires at + |v| <= pos || pos + |data| <= at
    ensures Holds(WriteAt(file, at, v), pos, data)
  {
    assert WriteAt(file, at, v)[pos..pos + |data|] == file[pos..pos + |data|];
  }

  /** An in-place update changes one value of one counter and nothing else in the file. */
  lemma UpdateHolds(file: Bytes, table: Table, offs: Offsets, key: Bytes, b: nat, v: Bytes)
    requires RecordsHold(file, table, offs) && key in table && b < |table[key].values| && |v| == 8
    ensures var at := offs[key] + 2 + b * 8;
            && at + 8 <= |file|
            && |WriteAt(file, at, v)| == |file|
            && RecordsHold(WriteAt(file, at, v), table[key := table[key].(values := table[key].values[b := v])], offs)
  {
    hide EncCounter, WriteAt, CounterSize, WellFormed, Splice, Holds;
    var c := table[key];
    var at := offs[key] + 2 + b * 8;
    var updated := table[key := c.(values := c.values[b := v])];
    EncCounterUpdate(c, b, v);
    HoldsWithin(file, offs[key], EncCounter(c));
    HoldsAfterUpdate(file, offs[key], EncCounter(c), 2 + 8 * b, v);
    forall k | k in updated
      ensures Holds(WriteAt(file, at, v), offs[k], EncCounter(updated[k]))
    {
      if k != key {
        EncCounterLength(table[k]);
        HoldsElsewhere(file, offs[k], EncCounter(table[k]), at, v);
      }
    }
    StillApart(file, table, offs, WriteAt(file, at, v), key, c.(values := c.values[b := v]));
  }

  lemma HoldsWithin(file: Bytes, pos: nat, data: Bytes)
    requires Holds(file, pos, data)
    ensures pos + |data| <= |file|
  {
  }

  /** Records stay apart when one is replaced by another of the same kind. */
  lemma StillApart(file: Bytes, table: Table, offs: Offsets, next: Bytes, key: Bytes, c: Counter)
    requires RecordsHold(file, table, offs) && key in table && c.timeType == table[key].timeType && WellFormed(c)
    requires forall k | k in table[key := c] :: Holds(next, offs[k], EncCounter(table[key := c][k]))
    ensures RecordsHold(next, table[key := c], offs)
  {
    hide EncCounter, CounterSize, WellFormed, Holds;
  }

  /** A new record at the end of the file leaves every other record alone. */
  lemma AppendHolds(file: Bytes, table: Table, offs: Offsets, key: Bytes, c: Counter)
    requires RecordsHold(file, table, offs) && key !in table && WellFormed(c) && |file| < 0x80_0000_0000
    ensures RecordsHold(file + EncCounter(c), table[key := c], offs[key := |file|])
  {
    assert (file + EncCounter(c))[|file|..] == EncCounter(c);
    assert Holds(file + EncCounter(c), |file|, EncCounter(c));
    hide EncCounter, CounterSize, WellFormed, Holds;
    forall k | k in table
      ensures Holds(file + EncCounter(c), offs[k], EncCounter(table[k]))
      ensures offs[k] + CounterSize(table[k].timeType) <= |file|
    {
      EncCounterLength(table[k]);
      HoldsWithin(file, offs[k], EncCounter(table[k]));
      HoldsExtends(file, offs[k], EncCounter(table[k]), EncCounter(c));
    }
  }

  lemma IndexAppend(ops: History, offs: Offsets, key: Bytes, off: nat)
    requires IndexHolds(ops, offs) && key !in offs
    ensures IndexHolds(ops + [Put(key, ToBytes5(off))], offs[key := off])
  {
    hide ToBytes5;
    assert (ops + [Put(key, ToBytes5(off))])[..|ops|] == ops;
  }

  // ---------- the history of writes ----------

  datatype CounterWrite = CounterWrite(key: Bytes, bucket: nat, value: Bytes)

  /** The last value written to a bucket of a counter, or 0. */
  function LastWritten(writes: seq<CounterWrite>, key: Bytes, bucket: nat): Bytes {
    if writes == [] then ZERO
    else
      var w := writes[|writes| - 1];
      if w.key == key && w.bucket == bucket then w.value else LastWritten(writes[..|writes| - 1], key, bucket)
  }

  /** Write i is the last one to this bucket. */
  lemma {:induction false} LastWrittenIs(writes: seq<CounterWrite>, key: Bytes, bucket: nat, i: nat)
    requires i < |writes| && writes[i].key == key && writes[i].bucket == bucket
    requires forall j | i < j < |writes| :: writes[j].key != key || writes[j].bucket != bucket
    ensures LastWritten(writes, key, bucket) == writes[i].value
  {
    if i < |writes| - 1 {
      LastWrittenIs(writes[..|writes| - 1], key, bucket, i);
    }
  }

  /** The table shows, in every bucket of every counter, the last value written there. */
  ghost predicate Reflects(table: Table, writes: seq<CounterWrite>) {
    && (forall k | k in table :: forall b: nat | b < |table[k].values| ::
        table[k].values[b] == LastWritten(writes, k, b))
    && (forall w | w in writes :: w.key in table)
  }

  function Written(table: Table, key: Bytes, timeType: i8, bucket: nat, value: Bytes): Table {
    var c := if key in table then table[key] else Blank(timeType);
    if bucket < |c.values| then table[key := c.(values := c.values[bucket := value])] else table[key := c]
  }

  lemma {:induction false} NeverWritten(writes: seq<CounterWrite>, key: Bytes, bucket: nat)
    requires forall w | w in writes :: w.key != key
    ensures LastWritten(writes, key, bucket) == ZERO
  {
    if writes != [] {
      NeverWritten(writes[..|writes| - 1], key, bucket);
    }
  }

  lemma WriteReflects(table: Table, writes: seq<CounterWrite>, key: Bytes, timeType: i8, bucket: nat, value: Bytes)
    requires Reflects(table, writes)
    requires key in table ==> bucket < |table[key].values|
    ensures Reflects(Written(table, key, timeType, bucket, value), writes + [CounterWrite(key, bucket, value)])
  {
    hide BucketCount;
    var w := CounterWrite(key, bucket, value);
    var after := Written(table, key, timeType, bucket, value);
    assert (writes + [w])[..|writes|] == writes;
    forall k, b: nat | k in after && b < |after[k].values|
      ensures after[k].values[b] == LastWritten(writes + [w], k, b)
    {
      if k !in table {
        assert k == key;
        NeverWritten(writes, key, b);
      }
    }
  }

  // ---------- the store ----------

  /** The raw values of a record as `read_record` returns them, with the type byte that says how
      to read them. */
  datatype CounterRecord = CounterRecord(valueType: Byte, timeType: i8, values: seq<Bytes>)

  /** Floats take four bytes; every other type eight. */
  function ValueSize(valueType: Byte): (n: nat)
    ensures n == 4 || n == 8
  {
    if valueType == VALUE_TYPE_FLOAT then 4 else 8
  }

  /** Where `update_value` writes; a position before the start of the file is an error. */
  function ValueOffset(offset: int, bucket: nat, size: nat): int { offset + 2 + AsI64(bucket * size) }

  /** Where `update_value` writes and how many bytes: the value size comes from the record's own
      header. */
  function UpdateTarget(file: Bytes, offset: int, bucket: nat): (r: Result<(nat, nat)>)
    ensures r.Ok? ==> r.value.1 <= 8
  {
    match ReadAt(file, offset, 2)
    case Err => Err
    case Ok(header) =>
      var size := ValueSize(header[0]);
      var at := ValueOffset(offset, bucket, size);
      if at < 0 then Err else Ok((at, size))
  }

  /** The file after `update_value`. */
  function Updated(file: Bytes, offset: int, bucket: nat, value: Bytes): Bytes
    requires |value| == 8
  {
    match UpdateTarget(file, offset, bucket)
    case Err => file
    case Ok((at, size)) => WriteAt(file, at, value[..size])
  }

  /** The first n pieces of a block. */
  function Pieces(data: Bytes, size: nat, n: nat): seq<Bytes>
    requires size == 4 || size == 8
    requires n * size <= |data|
  {
    if n == 0 then [] else Pieces(data, size, n - 1) + [data[(n - 1) * size..n * size]]
  }

  lemma PieceStep(data: Bytes, size: nat, i: nat, n: nat)
    requires size == 4 || size == 8
    requires i < n && |data| == n * size
    ensures i * size <= i * size + size == (i + 1) * size <= |data|
    ensures Pieces(data, size, i + 1) == Pieces(data, size, i) + [data[i * size..i * size + size]]
  {
  }

  /** `read_record`, for records of either value size. */
  function RecordIn(file: Bytes, offset: nat): Result<CounterRecord> {
    match ReadAt(file, offset, 2)
    case Err => Err
    case Ok(header) =>
      var timeType, size := Signed8(header[1]), ValueSize(header[0]);
      match ReadAt(file, offset + 2, BucketCount(timeType) * size)
      case Err => Err
      case Ok(data) => Ok(CounterRecord(header[0], timeType, Pieces(data, size, BucketCount(timeType))))
  }

  /** What reading any record gives: its two type bytes and a value for each bucket, in order, of four bytes
      when the first byte is 5 and of eight otherwise. */
  lemma RecordReads(file: Bytes, offset: nat, r: CounterRecord)
    requires RecordIn(file, offset) == Ok(r)
    ensures offset + 2 <= |file| && r.valueType == file[offset] && |r.values| == BucketCount(r.timeType)
    ensures var tag: int := file[offset + 1];
            r.timeType == if tag < 128 then tag else tag - 256
    ensures var size := if file[offset] == 5 then 4 else 8;
            forall b: nat | b < |r.values| :: ValueIsAt(file, offset, size, r.values, b)
  {
    hide BucketCount;
    var size: nat := if file[offset] == 5 then 4 else 8;
    var n := BucketCount(r.timeType);
    var data := file[offset + 2..offset + 2 + n * size];
    PiecesCount(data, size, n);
    forall b: nat | b < n
      ensures ValueIsAt(file, offset, size, r.values, b)
    {
      PieceAt(data, size, n, b);
      SliceOfSlice(file, offset + 2, n * size, b * size, size);
    }
  }

  ghost predicate ValueIsAt(file: Bytes, offset: nat, size: nat, values: seq<Bytes>, b: nat)
    requires b < |values|
  {
    var at := offset + 2 + b * size;
    at + size <= |file| && values[b] == file[at..at + size]
  }

  lemma {:induction false} PieceAt(data: Bytes, size: nat, n: nat, b: nat)
    requires size == 4 || size == 8
    requires n * size <= |data| && b < n
    ensures |Pieces(data, size, n)| == n && b * size + size <= n * size
    ensures Pieces(data, size, n)[b] == data[b * size..b * size + size]
    decreases n
  {
    if b < n - 1 {
      PieceAt(data, size, n - 1, b);
    } else {
      PiecesCount(data, size, n - 1);
    }
  }

  lemma {:induction false} PiecesCount(data: Bytes, size: nat, n: nat)
    requires size == 4 || size == 8
    requires n * size <= |data|
    ensures |Pieces(data, size, n)| == n
  {
    if n > 0 {
      PiecesCount(data, size, n - 1);
    }
  }

  /** An update goes to the place of its bucket in a record of that value size, and writes as many bytes. */
  lemma UpdateGoesTo(file: Bytes, offset: nat, bucket: nat)
    requires offset + 2 <= |file| && bucket < 0x1000_0000_0000_0000
    ensures var size := if file[offset] == 5 then 4 else 8;
            UpdateTarget(file, offset, bucket) == Ok((offset + 2 + bucket * size, size))
  {
  }

  lemma {:induction false} PiecesOfFlatten(values: seq<Bytes>, n: nat)
    requires forall i | 0 <= i < |values| :: |values[i]| == 8
    requires n <= |values|
    ensures |Flatten(values)| == 8 * |values|
    ensures Pieces(Flatten(values), 8, n) == values[..n]
  {
    FlattenLength(values);
    if n > 0 {
      PiecesOfFlatten(values, n - 1);
      FlattenAt(values, n - 1);
    }
  }

  /** Reading a counter's record returns its time type and all its values. */
  lemma CounterReadsBack(file: Bytes, off: nat, c: Counter)
    requires Holds(file, off, EncCounter(c)) && WellFormed(c)
    ensures RecordIn(file, off) == Ok(CounterRecord(VALUE_TYPE_DOUBLE, c.timeType, c.values))
  {
    hide BucketCount;
    HeaderReads(file, off, c);
    TimeTypeByte(c.timeType);
    FlattenLength(c.values);
    assert EncCounter(c) == Header(c.timeType) + Flatten(c.values) + [];
    HoldsPart(file, off, Header(c.timeType), Flatten(c.values), []);
    PiecesOfFlatten(c.values, |c.values|);
    assert c.values[..|c.values|] == c.values;
    assert ReadAt(file, off + 2, BucketCount(c.timeType) * 8) == Ok(Flatten(c.values));
  }

  /** Everything an open store knows. */
  ghost predicate StoreState(file: Bytes, ops: History, table: Table, offs: Offsets, writes: seq<CounterWrite>) {
    RecordsHold(file, table, offs) && IndexHolds(ops, offs) && Reflects(table, writes)
  }

  /** A new counter; a bucket it does not have is dropped. */
  function BlankWith(timeType: i8, bucket: nat, value: Bytes): Counter {
    if bucket < BucketCount(timeType) then Counter(timeType, Blank(timeType).values[bucket := value])
    else Blank(timeType)
  }

  lemma AppendStep(file: Bytes, ops: History, table: Table, offs: Offsets, writes: seq<CounterWrite>,
                   key: Bytes, timeType: i8, bucket: nat, value: Bytes)
    requires StoreState(file, ops, table, offs, writes) && key !in table
    requires |value| == 8 && |file| < 0x80_0000_0000
    ensures var c := BlankWith(timeType, bucket, value);
            && Written(table, key, timeType, bucket, value) == table[key := c]
            && |EncCounter(c)| == CounterSize(timeType)
            && StoreState(file + EncCounter(c), ops + [Put(key, ToBytes5(|file|))], table[key := c],
                          offs[key := |file|], writes + [CounterWrite(key, bucket, value)])
  {
    assert offs.Keys == table.Keys;
    var c := BlankWith(timeType, bucket, value);
    BlankWithIsWritten(table, key, timeType, bucket, value);
    hide EncCounter, RecordsHold, IndexHolds, Reflects, BlankWith, Written, WellFormed;
    EncCounterLength(c);
    AppendHolds(file, table, offs, key, c);
    IndexAppend(ops, offs, key, |file|);
    WriteReflects(table, writes, key, timeType, bucket, value);
  }

  lemma BlankWithIsWritten(table: Table, key: Bytes, timeType: i8, bucket: nat, value: Bytes)
    requires key !in table && |value| == 8
    ensures WellFormed(BlankWith(timeType, bucket, value)) && BlankWith(timeType, bucket, value).timeType == timeType
    ensures Written(table, key, timeType, bucket, value) == table[key := BlankWith(timeType, bucket, value)]
  {
    hide BucketCount;
  }

  lemma UpdateStep(file: Bytes, ops: History, table: Table, offs: Offsets, writes: seq<CounterWrite>,
                   key: Bytes, timeType: i8, bucket: nat, value: Bytes)
    requires StoreState(file, ops, table, offs, writes) && key in table
    requires bucket < BucketCount(table[key].timeType) && |value| == 8
    ensures key in offs
    ensures && ReadAt(file, offs[key], 2) == Ok(Header(table[key].timeType))
            && ValueOffset(offs[key], bucket, 8) >= 0
            && |Updated(file, offs[key], bucket, value)| == |file|
            && StoreState(Updated(file, offs[key], bucket, value), ops, Written(table, key, timeType, bucket, value),
                          offs, writes + [CounterWrite(key, bucket, value)])
  {
    hide BucketCount, WriteAt, Reflects, Flatten, ToBytes5, RecordsHold, IndexHolds, Updated, UpdateTarget;
    UpdatedInside(file, table, offs, key, bucket, value);
    UpdateHolds(file, table, offs, key, bucket, value);
    WriteReflects(table, writes, key, timeType, bucket, value);
  }

  /** For a bucket that the record has, the write goes to that bucket's eight bytes. */
  lemma UpdatedInside(file: Bytes, table: Table, offs: Offsets, key: Bytes, bucket: nat, value: Bytes)
    requires RecordsHold(file, table, offs) && key in table
    requires bucket < BucketCount(table[key].timeType) && |value| == 8
    ensures key in offs && bucket < |table[key].values|
    ensures ReadAt(file, offs[key], 2) == Ok(Header(table[key].timeType))
    ensures ValueOffset(offs[key], bucket, 8) == offs[key] + 2 + bucket * 8
    ensures Updated(file, offs[key], bucket, value) == WriteAt(file, offs[key] + 2 + bucket * 8, value)
  {
    hide WriteAt, Flatten, EncCounter;
    HeaderReads(file, offs[key], table[key]);
    assert value[..8] == value;
  }

  lemma HeaderReads(file: Bytes, off: nat, c: Counter)
    requires Holds(file, off, EncCounter(c))
    ensures ReadAt(file, off, 2) == Ok(Header(c.timeType))
  {
    assert EncCounter(c) == [] + Header(c.timeType) + Flatten(c.values);
    HoldsPart(file, off, [], Header(c.timeType), Flatten(c.values));
  }

  lemma TimeTypeByte(timeType: i8)
    ensures Signed8(timeType % 256) == timeType
  {
  }

  /** Where a lookup of a key leads. */
  lemma KeyLeads(file: Bytes, ops: History, table: Table, offs: Offsets, writes: seq<CounterWrite>, key: Bytes)
    requires StoreState(file, ops, table, offs, writes)
    ensures key in table <==> Replay(ops, key) != []
    ensures key in table ==>
              && key in offs
              && Replay(ops, key)[0] == ToBytes5(offs[key])
              && ToLong5(Replay(ops, key)[0]) == offs[key]
              && WellFormed(table[key])
              && Holds(file, offs[key], EncCounter(table[key]))
  {
    hide ToBytes5, ToLong5, EncCounter;
    if key in table {
      Long5RoundTrip(offs[key]);
    }
  }

  /** The record `write_new_record` builds is the encoding of a blank counter with one value; a
      bucket that the record does not have is dropped. */
  lemma BlankRecord(timeType: i8, bucket: nat, value: Bytes)
    requires |value| == 8
    ensures var zeros := Header(timeType) + seq(8 * BucketCount(timeType), _ => 0);
            && (bucket < BucketCount(timeType) ==>
                  EncCounter(BlankWith(timeType, bucket, value)) == Splice(zeros, 2 + 8 * bucket, value))
            && (bucket >= BucketCount(timeType) ==> EncCounter(BlankWith(timeType, bucket, value)) == zeros)
  {
    hide BucketCount;
    var n := BucketCount(timeType);
    var zeros := Blank(timeType).values;
    FlattenZeros(n);
    if bucket < n {
      FlattenUpdate(zeros, bucket, value);
      assert Splice(Header(timeType) + Flatten(zeros), 2 + 8 * bucket, value)
          == Header(timeType) + Splice(Flatten(zeros), 8 * bucket, value);
    }
  }

  lemma {:induction false} FlattenZeros(n: nat)
    ensures Flatten(seq(n, _ => ZERO)) == seq(8 * n, _ => 0)
  {
    if n > 0 {
      FlattenZeros(n - 1);
      assert seq(n, _ => ZERO)[1..] == seq(n - 1, _ => ZERO);
    }
  }

  // ---------- updates that leave their record ----------

  /** The records of all other counters are where they were. */
  ghost predicate OthersHold(file: Bytes, table: Table, offs: Offsets, key: Bytes) {
    forall k | k in table && k in offs && k != key :: Holds(file, offs[k], EncCounter(table[k]))
  }

  /** Whatever the file holds, an update of this bucket in a record of this type leaves the other
      records alone. */
  ghost predicate Harmless(bucket: nat, timeType: i8) {
    forall file: Bytes, table: Table, offs: Offsets, key: Bytes, value: Bytes |
        RecordsHold(file, table, offs) && key in table && key in offs && table[key].timeType == timeType
            && |value| == 8 ::
      OthersHold(Updated(file, offs[key], bucket, value), table, offs, key)
  }

  lemma InsideIsHarmlessAnywhere(bucket: nat, recordType: i8)
    requires bucket < BucketCount(recordType)
    ensures Harmless(bucket, recordType)
  {
    hide BucketCount, RecordsHold, OthersHold, Updated;
    forall file: Bytes, table: Table, offs: Offsets, key: Bytes, value: Bytes |
        RecordsHold(file, table, offs) && key in table && key in offs && table[key].timeType == recordType
            && |value| == 8
      ensures OthersHold(Updated(file, offs[key], bucket, value), table, offs, key)
    {
      InsideIsHarmless(file, table, offs, key, bucket, value);
    }
  }

  lemma InsideIsHarmless(file: Bytes, table: Table, offs: Offsets, key: Bytes, bucket: nat, value: Bytes)
    requires RecordsHold(file, table, offs) && key in table && bucket < BucketCount(table[key].timeType) && |value| == 8
    ensures key in offs && OthersHold(Updated(file, offs[key], bucket, value), table, offs, key)
  {
    hide BucketCount, Updated, WriteAt, Flatten, EncCounter;
    UpdatedInside(file, table, offs, key, bucket, value);
    UpdateHolds(file, table, offs, key, bucket, value);
  }

  /** A bucket is a 32-bit number, negative ones wrapped around. */
  lemma BucketIsSmall(hhmm: i32, timeType: i8)
    ensures exists m: i32 :: HhmmToBucket(hhmm, timeType) == AsUsize(m)
  {
    var hours: i32 := TruncDiv(hhmm, 100);
    var minutes := hhmm - 100 * hours;
    var totalMinutes: i32 := hours * 60 + minutes;
    assert HhmmToBucket(hhmm, timeType) in
      {AsUsize(totalMinutes), AsUsize(TruncDiv(totalMinutes, 5)), AsUsize(TruncDiv(totalMinutes, 10)), AsUsize(hours),
       AsUsize(0)};
    var fifth: i32, tenth: i32, zero: i32 := TruncDiv(totalMinutes, 5), TruncDiv(totalMinutes, 10), 0;
  }

  const ONES: Bytes := [1, 1, 1, 1, 1, 1, 1, 1]

  lemma BlankIsWellFormed(timeType: i8)
    ensures WellFormed(Blank(timeType)) && Blank(timeType).timeType == timeType
    ensures |EncCounter(Blank(timeType))| == CounterSize(timeType)
  {
    EncCounterLength(Blank(timeType));
  }

  /** An update that lands inside the neighbour changes it. */
  lemma LandsOnNeighbour(file: Bytes, recordType: i8, a: nat, b: nat, bucket: nat)
    requires Holds(file, a, EncCounter(Blank(recordType))) && Holds(file, b, EncCounter(Blank(0)))
    requires b <= ValueOffset(a, bucket, 8) < b + 10
    ensures !Holds(Updated(file, a, bucket, ONES), b, EncCounter(Blank(0)))
  {
    hide WriteAt, Flatten;
    HeaderReads(file, a, Blank(recordType));
    var at := ValueOffset(a, bucket, 8);
    assert ONES[..8] == ONES;
    assert Updated(file, a, bucket, ONES) == WriteAt(file, at, ONES);
    WrittenByte(file, at, ONES);
    BlankBytes(at - b);
  }

  lemma WrittenByte(file: Bytes, at: nat, data: Bytes)
    requires data != []
    ensures at < |WriteAt(file, at, data)| && WriteAt(file, at, data)[at] == data[0]
  {
  }

  lemma BlankBytes(i: nat)
    requires i < 10
    ensures |EncCounter(Blank(0))| == 10 && EncCounter(Blank(0))[i] != 1
  {
    FlattenZeros(1);
  }

  /** An input: two counters of one value per hour lie next to each other, and the first is written
      again with the time type of one value per minute, at 00:24. The new value replaces the header
      of the second record. */
  lemma MinuteWriteHitsNeighbour(a: Counter, b: Counter, value: Bytes)
    requires WellFormed(a) && WellFormed(b) && a.timeType == b.timeType == 60 && |value| == 8
    ensures HhmmToBucket(24, 1) == BucketCount(60) == 24
    ensures Updated(EncCounter(a) + EncCounter(b), 0, HhmmToBucket(24, 1), value)
         == EncCounter(a) + value + EncCounter(b)[8..]
    ensures value[..2] != Header(60) ==>
              !Holds(Updated(EncCounter(a) + EncCounter(b), 0, HhmmToBucket(24, 1), value), |EncCounter(a)|,
                     EncCounter(b))
  {
    hide EncCounter, WriteAt, Flatten, Holds;
    EncCounterLength(a);
    EncCounterLength(b);
    var file := EncCounter(a) + EncCounter(b);
    assert file[..|EncCounter(a)|] == EncCounter(a);
    HeaderReads(file, 0, a);
    assert value[..8] == value;
    WriteAtSeam(EncCounter(a), EncCounter(b), value);
    HeaderFirst(b);
    SeamIsValue(EncCounter(a), value, EncCounter(b)[8..], EncCounter(b));
  }

  lemma SeamIsValue(a: Bytes, value: Bytes, rest: Bytes, b: Bytes)
    requires |value| >= 2 && |b| >= 2
    ensures Holds(a + value + rest, |a|, b) ==> b[..2] == value[..2]
  {
    var file := a + value + rest;
    assert file[|a|..|a| + 2] == value[..2];
    if Holds(file, |a|, b) {
      assert file[|a|..|a| + |b|][..2] == file[|a|..|a| + 2];
    }
  }

  lemma WriteAtSeam(a: Bytes, b: Bytes, value: Bytes)
    requires |value| <= |b|
    ensures WriteAt(a + b, |a|, value) == a + value + b[|value|..]
  {
  }

  lemma HeaderFirst(c: Counter)
    ensures |EncCounter(c)| >= 2 && EncCounter(c)[..2] == Header(c.timeType)
  {
  }

  // ---------- what a crash leaves ----------

  function Only<T>(m: map<Bytes, T>, keys: set<Bytes>): map<Bytes, T> { map k | k in m && k in keys :: m[k] }

  function OnlyWrites(writes: seq<CounterWrite>, keys: set<Bytes>): seq<CounterWrite> {
    if writes == [] then []
    else
      var w := writes[|writes| - 1];
      OnlyWrites(writes[..|writes| - 1], keys) + (if w.key in keys then [w] else [])
  }

  /** The index on disk leads to the records of these keys, which a crash leaves whole. */
  ghost predicate SavedState(synced: nat, durable: History, table: Table, offs: Offsets, saved: set<Bytes>) {
    && offs.Keys == table.Keys && saved <= table.Keys
    && IndexHolds(durable, Only(offs, saved))
    && forall k | k in saved :: offs[k] + CounterSize(table[k].timeType) <= synced
  }

  lemma {:induction false} LastWrittenOnly(writes: seq<CounterWrite>, keys: set<Bytes>, key: Bytes, bucket: nat)
    requires key in keys
    ensures LastWritten(OnlyWrites(writes, keys), key, bucket) == LastWritten(writes, key, bucket)
  {
    if writes != [] {
      var before := OnlyWrites(writes[..|writes| - 1], keys);
      LastWrittenOnly(writes[..|writes| - 1], keys, key, bucket);
      assert (before + [writes[|writes| - 1]])[..|before|] == before;
      assert writes[|writes| - 1].key !in keys ==> OnlyWrites(writes, keys) == before;
    }
  }

  lemma {:induction false} OnlyWritesHasOnly(writes: seq<CounterWrite>, keys: set<Bytes>)
    ensures forall w | w in OnlyWrites(writes, keys) :: w.key in keys
  {
    if writes != [] {
      OnlyWritesHasOnly(writes[..|writes| - 1], keys);
    }
  }

  /** Cutting the data file at or behind its last flush and falling back to the index on disk keeps
      exactly the counters known at that flush, with everything written to them since. */
  lemma CrashKeepsSaved(file: Bytes, synced: nat, cut: nat, ops: History, durable: History,
                        table: Table, offs: Offsets, saved: set<Bytes>, writes: seq<CounterWrite>)
    requires StoreState(file, ops, table, offs, writes) && SavedState(synced, durable, table, offs, saved)
    requires synced <= cut <= |file|
    ensures StoreState(file[..cut], durable, Only(table, saved), Only(offs, saved), OnlyWrites(writes, saved))
  {
    forall k | k in saved
      ensures k in table && offs[k] + CounterSize(table[k].timeType) <= cut
    {
    }
    hide RecordsHold, IndexHolds, Reflects, CounterSize;
    CutKeepsRecords(file, cut, table, offs, saved);
    SavedReflects(table, writes, saved);
  }

  lemma CutKeepsRecords(file: Bytes, cut: nat, table: Table, offs: Offsets, saved: set<Bytes>)
    requires RecordsHold(file, table, offs) && saved <= table.Keys && cut <= |file|
    requires forall k | k in saved :: k in table && k in offs && offs[k] + CounterSize(table[k].timeType) <= cut
    ensures RecordsHold(file[..cut], Only(table, saved), Only(offs, saved))
  {
    hide EncCounter, CounterSize, WellFormed, Holds;
    forall k | k in saved
      ensures Holds(file[..cut], offs[k], EncCounter(table[k]))
    {
      EncCounterLength(table[k]);
      HoldsInCut(file, cut, offs[k], EncCounter(table[k]));
    }
  }

  lemma HoldsInCut(file: Bytes, cut: nat, pos: nat, data: Bytes)
    requires Holds(file, pos, data) && pos + |data| <= cut <= |file|
    ensures Holds(file[..cut], pos, data)
  {
    assert file[..cut][pos..pos + |data|] == file[pos..pos + |data|];
  }

  lemma SavedReflects(table: Table, writes: seq<CounterWrite>, saved: set<Bytes>)
    requires Reflects(table, writes) && saved <= table.Keys
    ensures Reflects(Only(table, saved), OnlyWrites(writes, saved))
  {
    forall k, b: nat | k in saved && b < |table[k].values|
      ensures table[k].values[b] == LastWritten(OnlyWrites(writes, saved), k, b)
    {
      LastWrittenOnly(writes, saved, k, b);
    }
    OnlyWritesHasOnly(writes, saved);
  }

  /** A flush saves every counter. */
  lemma FlushSaves(file: Bytes, ops: History, table: Table, offs: Offsets, writes: seq<CounterWrite>)
    requires StoreState(file, ops, table, offs, writes)
    ensures SavedState(|file|, ops, table, offs, table.Keys)
  {
    hide EncCounter, CounterSize, WellFormed, Holds, IndexHolds, Reflects, NoOverlap;
    assert Only(offs, table.Keys) == offs;
    forall k | k in table
      ensures offs[k] + CounterSize(table[k].timeType) <= |file|
    {
      EncCounterLength(table[k]);
      HoldsWithin(file, offs[k], EncCounter(table[k]));
    }
  }

  /** A write loses nothing that was saved. */
  lemma WriteKeepsSaved(synced: nat, later: nat, durable: History, table: Table, offs: Offsets, saved: set<Bytes>,
                        key: Bytes, timeType: i8, bucket: nat, value: Bytes, off: nat)
    requires SavedState(synced, durable, table, offs, saved) && synced <= later
    ensures SavedState(later, durable, Written(table, key, timeType, bucket, value),
                       if key in table then offs else offs[key := off], saved)
  {
    hide BucketCount, Replay;
    var o := if key in table then offs else offs[key := off];
    assert Only(o, saved) == Only(offs, saved);
  }
}
