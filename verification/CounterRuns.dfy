/** Whole runs of the counter store: any writes, reads and flushes, a crash, and more of the same on
    what it leaves. */
module CounterRuns {
  import opened ByteCodec
  import opened RealKeyFile
  import opened SlotBuffer
  import opened CounterRecords
  import opened CounterStore
  import KI = IndexKeyFile

  datatype Call = Call(key: Bytes, hhmm: i32, value: Bytes, timeType: i8)

  function TableAfter(table: Table, calls: seq<Call>): Table
    decreases |calls|
  {
    if calls == [] then table
    else
      var c := calls[0];
      TableAfter(Written(table, c.key, c.timeType, HhmmToBucket(c.hhmm, c.timeType), c.value), calls[1..])
  }

  /** Every call names a bucket that its counter's record has, if it has a record by then. */
  predicate Allowed(table: Table, calls: seq<Call>)
    decreases |calls|
  {
    calls == [] ||
    var c := calls[0];
    && CallAllowed(table, c)
    && Allowed(Written(table, c.key, c.timeType, HhmmToBucket(c.hhmm, c.timeType), c.value), calls[1..])
  }

  predicate CallAllowed(table: Table, c: Call) {
    && |c.value| == 8 && |c.key| < 0x8000
    && (c.key in table ==> HhmmToBucket(c.hhmm, c.timeType) < BucketCount(table[c.key].timeType))
  }

  function WritesOf(calls: seq<Call>): seq<CounterWrite> {
    if calls == [] then []
    else
      var c := calls[0];
      [CounterWrite(c.key, HhmmToBucket(c.hhmm, c.timeType), c.value)] + WritesOf(calls[1..])
  }

  /** The most that the data file and the key file can grow. */
  function DataCost(calls: seq<Call>): nat {
    if calls == [] then 0 else CounterSize(calls[0].timeType) + DataCost(calls[1..])
  }

  function KeyCost(calls: seq<Call>): nat {
    if calls == [] then 0 else EntrySize(calls[0].key) + KeyCost(calls[1..])
  }

  /** The 5-byte positions suffice for these calls. */
  predicate HasRoom(data: Bytes, keys: Bytes, calls: seq<Call>) {
    |data| + DataCost(calls) < 0x80_0000_0000 && |keys| + KeyCost(calls) < 0x80_0000_0000
  }

  predicate GrownBy(data: Bytes, keys: Bytes, data': Bytes, keys': Bytes, calls: seq<Call>) {
    |data| <= |data'| <= |data| + DataCost(calls) && |keys'| <= |keys| + KeyCost(calls)
  }

  /** The data file, with what it holds. */
  datatype Files = Files(file: Bytes, table: Table, offs: Offsets)

  const NO_FILES: Files := Files([], map[], map[])

  /** What one call makes of them. */
  function Called(s: Files, c: Call): Files
    requires |c.value| == 8
  {
    var bucket := HhmmToBucket(c.hhmm, c.timeType);
    var known := c.key in s.table && c.key in s.offs;
    Files(if known then Updated(s.file, s.offs[c.key], bucket, c.value)
          else s.file + EncCounter(BlankWith(c.timeType, bucket, c.value)),
          Written(s.table, c.key, c.timeType, bucket, c.value),
          if known then s.offs else s.offs[c.key := |s.file|])
  }

  function FilesAfter(s: Files, calls: seq<Call>): Files
    requires Allowed(s.table, calls)
    decreases |calls|
  {
    if calls == [] then s else FilesAfter(Called(s, calls[0]), calls[1..])
  }

  ghost function FilesOf(store: CounterStore): Files
    reads store, store.dataFile
  {
    Files(store.dataFile.Contents(), store.table, store.offs)
  }

  lemma OffsetsAreKnown(store: CounterStore)
    requires store.Valid()
    ensures store.offs.Keys == store.table.Keys
  {
  }

  /** Makes any calls that are allowed and fit, one after the other. */
  method WriteAll(store: CounterStore, calls: seq<Call>)
    requires store.Valid() && Allowed(store.table, calls)
    requires HasRoom(store.dataFile.Contents(), store.index.keyFile.bytes, calls)
    modifies store.Repr()
    ensures store.Valid() && FilesOf(store) == FilesAfter(old(FilesOf(store)), calls)
    ensures store.Same(TableAfter(old(store.table), calls), old(store.writes) + WritesOf(calls), old(store.saved))
    ensures GrownBy(old(store.dataFile.Contents()), old(store.index.keyFile.bytes),
                    store.dataFile.Contents(), store.index.keyFile.bytes, calls)
    decreases |calls|
  {
    hide CounterStore.Valid, HhmmToBucket, BucketCount, Written, CounterSize, EntrySize, Updated, EncCounter, BlankWith;
    OffsetsAreKnown(store);
    if calls == [] {
      assert store.writes + [] == store.writes;
      return;
    }
    var c := calls[0];
    ghost var writes, w := store.writes, CounterWrite(c.key, HhmmToBucket(c.hhmm, c.timeType), c.value);
    store.Write(c.key, c.hhmm, c.value, c.timeType);
    assert FilesOf(store) == Called(old(FilesOf(store)), c);
    WriteAll(store, calls[1..]);
    assert (writes + [w]) + WritesOf(calls[1..]) == writes + ([w] + WritesOf(calls[1..]));
  }

  // ---------- a run with a crash ----------

  /** The positions suffice for all calls of a run that starts in an empty directory. */
  predicate RunFits(calls: seq<Call>) {
    DataCost(calls) < 0x80_0000_0000 && |MAGIC| + KeyCost(calls) < 0x80_0000_0000
  }

  lemma {:induction false} CostsAdd(a: seq<Call>, b: seq<Call>)
    ensures DataCost(a + b) == DataCost(a) + DataCost(b) && KeyCost(a + b) == KeyCost(a) + KeyCost(b)
  {
    hide CounterSize, EntrySize;
    if a == [] {
      assert a + b == b;
    } else {
      CostsAdd(a[1..], b);
      assert (a + b)[1..] == a[1..] + b;
    }
  }

  /** A store with this table and these writes, whose files are no larger than the calls spent on
      them. */
  ghost predicate Stands(store: CounterStore, table: Table, writes: seq<CounterWrite>, saved: set<Bytes>,
                         spent: seq<Call>)
    reads store, store.Repr(), store.index.Repr, store.index.keyFile
  {
    && store.Valid() && store.Same(table, writes, saved)
    && |store.dataFile.Contents()| <= DataCost(spent)
    && |store.index.keyFile.bytes| <= |MAGIC| + KeyCost(spent)
  }

  method OpenEmpty(memSize: nat) returns (store: CounterStore)
    requires memSize >= KEY_LENGTH
    ensures Stands(store, map[], [], {}, []) && fresh(store.Repr())
  {
    hide CounterStore.Valid, FilesHoldCounters;
    EmptyDirectoryHoldsNothing(memSize);
    store := new CounterStore.Open(StoreFiles([], [], []), memSize, [], KI.NoHeads(memSize), [], map[], map[], []);
  }

  /** Makes the next calls of a run. */
  method Continue(store: CounterStore, next: seq<Call>, ghost table: Table, ghost writes: seq<CounterWrite>,
                  ghost saved: set<Bytes>, ghost spent: seq<Call>, ghost later: seq<Call>)
    requires Stands(store, table, writes, saved, spent)
    requires Allowed(table, next) && RunFits(spent + next + later)
    modifies store.Repr()
    ensures Stands(store, TableAfter(table, next), writes + WritesOf(next), saved, spent + next)
  {
    hide CounterStore.Valid, TableAfter, Allowed, WritesOf, DataCost, KeyCost;
    CostsAdd(spent + next, later);
    CostsAdd(spent, next);
    WriteAll(store, next);
  }

  method FlushAll(store: CounterStore, ghost table: Table, ghost writes: seq<CounterWrite>, ghost saved: set<Bytes>,
                  ghost spent: seq<Call>)
    requires Stands(store, table, writes, saved, spent)
    modifies store.Repr()
    ensures Stands(store, table, writes, table.Keys, spent)
  {
    hide CounterStore.Valid, DataCost, KeyCost;
    store.Flush();
  }

  /** A crash that keeps what has left the write buffer, and some of what has not. */
  method CrashSomewhere(store: CounterStore, extra: nat, ghost table: Table, ghost writes: seq<CounterWrite>,
                        ghost saved: set<Bytes>, ghost spent: seq<Call>)
    returns (again: CounterStore)
    requires Stands(store, table, writes, saved, spent)
    ensures Stands(again, Only(table, saved), OnlyWrites(writes, saved), saved, spent) && fresh(again.Repr())
  {
    hide StoreState, SavedState, DataCost, KeyCost, KI.IndexKeyFile.Valid;
    var left := |store.dataFile.pending|;
    again := CrashAndReopen(store, |store.dataFile.disk| + if extra < left then extra else left);
  }

  /** The counters that a crash leaves after `first` was flushed and `second` was not. */
  function Survivors(first: seq<Call>, second: seq<Call>): Table {
    var flushed := TableAfter(map[], first);
    Only(TableAfter(flushed, second), flushed.Keys)
  }

  /** The writes to them. */
  function SurvivingWrites(first: seq<Call>, second: seq<Call>): seq<CounterWrite> {
    OnlyWrites(WritesOf(first) + WritesOf(second), TableAfter(map[], first).Keys)
  }

  /** Updates after a flush survive, new counters do not: `first` is written in an empty directory and
      flushed, `second` is written but not flushed when a crash comes, and `third` is written to what
      is left. A read then shows, in every bucket of every counter that `first` created, the last
      value that `first`, `second` or `third` wrote there, and of the counters that only `second`
      wrote nothing. */
  method RunThroughCrash(memSize: nat, first: seq<Call>, second: seq<Call>, third: seq<Call>, extra: nat, key: Bytes)
    returns (r: Option<CounterRecord>)
    requires memSize >= KEY_LENGTH && RunFits(first + second + third)
    requires Allowed(map[], first) && Allowed(TableAfter(map[], first), second)
    requires Allowed(Survivors(first, second), third)
    ensures r.Some? <==> key in TableAfter(Survivors(first, second), third)
    ensures r.Some? ==>
              var c := TableAfter(Survivors(first, second), third)[key];
              r.value == CounterRecord(VALUE_TYPE_DOUBLE, c.timeType, c.values)
    ensures r.Some? ==>
              var writes := SurvivingWrites(first, second) + WritesOf(third);
              forall b: nat | b < |r.value.values| :: r.value.values[b] == LastWritten(writes, key, b)
  {
    hide Stands, Allowed, TableAfter, WritesOf, RunFits, Only, OnlyWrites, LastWritten;
    assert [] + first + (second + third) == first + second + third && [] + first == first;
    assert first + second + third + [] == first + second + third && [] + WritesOf(first) == WritesOf(first);
    ghost var flushed := TableAfter(map[], first);
    var store := OpenEmpty(memSize);
    Continue(store, first, map[], [], {}, [], second + third);
    var _ := Query(store, key, flushed, WritesOf(first), {}, first);
    FlushAll(store, flushed, WritesOf(first), {}, first);
    Continue(store, second, flushed, WritesOf(first), flushed.Keys, first, third);
    ghost var table, writes := TableAfter(flushed, second), WritesOf(first) + WritesOf(second);
    var again := CrashSomewhere(store, extra, table, writes, flushed.Keys, first + second);
    table, writes := Only(table, flushed.Keys), OnlyWrites(writes, flushed.Keys);
    Continue(again, third, table, writes, flushed.Keys, first + second, []);
    table, writes := TableAfter(table, third), writes + WritesOf(third);
    r := Query(again, key, table, writes, flushed.Keys, first + second + third);
  }

  method Query(store: CounterStore, key: Bytes, ghost table: Table, ghost writes: seq<CounterWrite>,
               ghost saved: set<Bytes>, ghost spent: seq<Call>)
    returns (r: Option<CounterRecord>)
    requires Stands(store, table, writes, saved, spent)
    modifies store.dataFile
    ensures Stands(store, table, writes, saved, spent)
    ensures r.Some? <==> key in table
    ensures r.Some? ==> r.value == CounterRecord(VALUE_TYPE_DOUBLE, table[key].timeType, table[key].values)
    ensures r.Some? ==> forall b: nat | b < |r.value.values| :: r.value.values[b] == LastWritten(writes, key, b)
  {
    hide CounterStore.Valid, DataCost, KeyCost;
    r := store.Read(key);
  }

  // ---------- updates that leave their record ----------

  /** The records after any run hold, one behind the other. */
  lemma {:induction false} RunHolds(s: Files, calls: seq<Call>)
    requires Allowed(s.table, calls) && RecordsHold(s.file, s.table, s.offs)
    requires |s.file| + DataCost(calls) < 0x80_0000_0000
    ensures var t := FilesAfter(s, calls);
            RecordsHold(t.file, t.table, t.offs) && |s.file| <= |t.file| <= |s.file| + DataCost(calls)
    decreases |calls|
  {
    hide RecordsHold, Called, Written, HhmmToBucket, CounterSize;
    if calls != [] {
      CallHolds(s, calls[0]);
      RunHolds(Called(s, calls[0]), calls[1..]);
    }
  }

  lemma CallHolds(s: Files, c: Call)
    requires RecordsHold(s.file, s.table, s.offs) && |s.file| < 0x80_0000_0000 && CallAllowed(s.table, c)
    ensures var t := Called(s, c);
            && t.table == Written(s.table, c.key, c.timeType, HhmmToBucket(c.hhmm, c.timeType), c.value)
            && RecordsHold(t.file, t.table, t.offs)
            && |t.file| == |s.file| + (if c.key in s.table then 0 else CounterSize(c.timeType))
  {
    assert s.offs.Keys == s.table.Keys;
    var bucket := HhmmToBucket(c.hhmm, c.timeType);
    hide HhmmToBucket, EncCounter, Updated, CounterSize, RecordsHold, BlankWith, Written;
    if c.key in s.table {
      UpdateKeepsRecords(s, c.key, c.timeType, bucket, c.value);
    } else {
      BlankWithIsWritten(s.table, c.key, c.timeType, bucket, c.value);
      EncCounterLength(BlankWith(c.timeType, bucket, c.value));
      AppendHolds(s.file, s.table, s.offs, c.key, BlankWith(c.timeType, bucket, c.value));
    }
  }

  lemma UpdateKeepsRecords(s: Files, key: Bytes, timeType: i8, bucket: nat, value: Bytes)
    requires RecordsHold(s.file, s.table, s.offs) && key in s.table && |value| == 8
    requires bucket < BucketCount(s.table[key].timeType)
    ensures key in s.offs && |Updated(s.file, s.offs[key], bucket, value)| == |s.file|
    ensures RecordsHold(Updated(s.file, s.offs[key], bucket, value), Written(s.table, key, timeType, bucket, value),
                        s.offs)
  {
    hide BucketCount, EncCounter, Updated, WriteAt, CounterSize, RecordsHold;
    UpdatedInside(s.file, s.table, s.offs, key, bucket, value);
    UpdateHolds(s.file, s.table, s.offs, key, bucket, value);
  }

  /** After any run of calls that the store allows, an update of this bucket in a record of this type
      leaves the records of all other counters alone. */
  ghost predicate HarmlessInRuns(bucket: nat, recordType: i8) {
    forall calls: seq<Call>, key: Bytes, value: Bytes | InRun(calls, key, recordType) && |value| == 8 ::
      SparesOthers(FilesAfter(NO_FILES, calls), key, bucket, value)
  }

  ghost predicate InRun(calls: seq<Call>, key: Bytes, recordType: i8) {
    && Allowed(map[], calls) && DataCost(calls) < 0x80_0000_0000
    && var s := FilesAfter(NO_FILES, calls);
    && key in s.table && key in s.offs && s.table[key].timeType == recordType
  }

  ghost predicate SparesOthers(s: Files, key: Bytes, bucket: nat, value: Bytes)
    requires key in s.offs && |value| == 8
  {
    OthersHold(Updated(s.file, s.offs[key], bucket, value), s.table, s.offs, key)
  }

  /** The exact condition for an update with any time of day and any time type: the bucket they give
      is one that the record has. It is the same for the files that runs leave and for all files. */
  lemma UpdateHarmlessIff(hhmm: i32, timeType: i8, recordType: i8)
    ensures HarmlessInRuns(HhmmToBucket(hhmm, timeType), recordType)
       <==> HhmmToBucket(hhmm, timeType) < BucketCount(recordType)
    ensures Harmless(HhmmToBucket(hhmm, timeType), recordType)
       <==> HhmmToBucket(hhmm, timeType) < BucketCount(recordType)
  {
    hide BucketCount, HhmmToBucket, HarmlessInRuns, Harmless;
    var bucket := HhmmToBucket(hhmm, timeType);
    if bucket < BucketCount(recordType) {
      InsideIsHarmlessAnywhere(bucket, recordType);
    } else {
      BucketIsSmall(hhmm, timeType);
      OutsideOverwrites(bucket, recordType);
    }
    if Harmless(bucket, recordType) {
      HarmlessHoldsInRuns(bucket, recordType);
    }
  }

  lemma HarmlessHoldsInRuns(bucket: nat, recordType: i8)
    requires Harmless(bucket, recordType)
    ensures HarmlessInRuns(bucket, recordType)
  {
    hide RecordsHold, OthersHold, Updated, Allowed, FilesAfter;
    forall calls: seq<Call>, key: Bytes, value: Bytes | InRun(calls, key, recordType) && |value| == 8
      ensures SparesOthers(FilesAfter(NO_FILES, calls), key, bucket, value)
    {
      RunRecordsHold(calls);
    }
  }

  lemma RunRecordsHold(calls: seq<Call>)
    requires Allowed(map[], calls) && DataCost(calls) < 0x80_0000_0000
    ensures var s := FilesAfter(NO_FILES, calls); RecordsHold(s.file, s.table, s.offs)
  {
    assert RecordsHold([], map[], map[]);
    hide RecordsHold;
    RunHolds(NO_FILES, calls);
  }

  // ---------- a run that an update outside its record harms ----------

  /** A new counter of one bucket, with the value 0. */
  function BlankCall(i: nat): Call { Call(ToBytes5(i), 0, ZERO, 0) }

  /** n new counters, with keys made from the numbers from i on. */
  function Blanks(i: nat, n: nat): seq<Call>
    decreases n
  {
    if n == 0 then [] else [BlankCall(i)] + Blanks(i + 1, n - 1)
  }

  const BLANK_SIZE: nat := 10

  /** The counters made from i on do not exist yet. */
  ghost predicate Unused(s: Files, i: nat) {
    s.offs.Keys == s.table.Keys && forall j: nat | i <= j < 0x80_0000_0000 :: ToBytes5(j) !in s.table
  }

  lemma CallBlank(s: Files, i: nat)
    requires Unused(s, i) && i < 0x80_0000_0000
    ensures Allowed(s.table, [BlankCall(i)]) && CounterSize(0) == BLANK_SIZE
    ensures Called(s, BlankCall(i))
         == Files(s.file + EncCounter(Blank(0)), s.table[ToBytes5(i) := Blank(0)], s.offs[ToBytes5(i) := |s.file|])
    ensures |EncCounter(Blank(0))| == BLANK_SIZE
    ensures Unused(Called(s, BlankCall(i)), i + 1)
    ensures BlankCall(i).key !in s.table
         && Called(s, BlankCall(i)).table == Written(s.table, BlankCall(i).key, 0, HhmmToBucket(0, 0), ZERO)
  {
    BlankIsWellFormed(0);
    NewBlank(0);
    hide ToBytes5, ToLong5, EncCounter;
    forall j: nat | i + 1 <= j < 0x80_0000_0000
      ensures ToBytes5(j) != ToBytes5(i)
    {
      Long5RoundTrip(i);
      Long5RoundTrip(j);
    }
  }

  lemma NewBlank(timeType: i8)
    ensures HhmmToBucket(0, timeType) == 0 && 0 < BucketCount(timeType)
    ensures BlankWith(timeType, 0, ZERO) == Blank(timeType)
    ensures forall table: Table, key: Bytes | key !in table ::
              Written(table, key, timeType, 0, ZERO) == table[key := Blank(timeType)]
  {
    assert Blank(timeType).values[0 := ZERO] == Blank(timeType).values;
  }

  /** The blank counter made from number x, when the one made from i is at `start`. */
  ghost predicate BlankAt(s: Files, x: nat, i: nat, start: nat)
    requires i <= x
  {
    var k := ToBytes5(x);
    k in s.table && k in s.offs && s.table[k] == Blank(0) && s.offs[k] == start + BLANK_SIZE * (x - i)
  }

  ghost predicate BlanksFrom(s: Files, i: nat, n: nat, start: nat) {
    forall x | i <= x < i + n :: BlankAt(s, x, i, start)
  }

  /** What a run of new blank counters leaves. */
  ghost predicate WithBlanks(s: Files, t: Files, i: nat, n: nat) {
    && |t.file| == |s.file| + BLANK_SIZE * n && Unused(t, i + n)
    && (forall k | k in s.table && k in s.offs ::
          k in t.table && k in t.offs && t.table[k] == s.table[k] && t.offs[k] == s.offs[k])
    && (forall k | k in t.table :: k in s.table || |k| == 5)
    && BlanksFrom(t, i, n, |s.file|)
  }

  lemma {:induction false} RunBlanks(s: Files, i: nat, n: nat)
    requires Unused(s, i) && i + n < 0x80_0000_0000
    ensures Allowed(s.table, Blanks(i, n)) && DataCost(Blanks(i, n)) == BLANK_SIZE * n
    ensures WithBlanks(s, FilesAfter(s, Blanks(i, n)), i, n)
    decreases n
  {
    hide ToBytes5, EncCounter, Called, WithBlanks, CounterSize, Written, HhmmToBucket;
    if n == 0 {
      NoBlanks(s, i);
    } else {
      var c, t := BlankCall(i), Called(s, BlankCall(i));
      CallBlank(s, i);
      RunBlanks(t, i + 1, n - 1);
      assert Blanks(i, n)[1..] == Blanks(i + 1, n - 1);
      assert Written(s.table, c.key, c.timeType, HhmmToBucket(c.hhmm, c.timeType), c.value) == t.table;
      OneMoreBlank(s, t, FilesAfter(t, Blanks(i + 1, n - 1)), i, n);
    }
  }

  lemma NoBlanks(s: Files, i: nat)
    requires Unused(s, i)
    ensures WithBlanks(s, s, i, 0)
  {
  }

  lemma OneMoreBlank(s: Files, t: Files, u: Files, i: nat, n: nat)
    requires n > 0 && s.offs.Keys == s.table.Keys && ToBytes5(i) !in s.table
    requires t == Files(s.file + EncCounter(Blank(0)), s.table[ToBytes5(i) := Blank(0)],
                        s.offs[ToBytes5(i) := |s.file|])
    requires |EncCounter(Blank(0))| == BLANK_SIZE && WithBlanks(t, u, i + 1, n - 1)
    ensures WithBlanks(s, u, i, n)
  {
    hide ToBytes5, EncCounter, Unused, BlanksFrom;
    assert ToBytes5(i) in t.table && ToBytes5(i) in t.offs;
    assert BlankAt(u, i, i, |s.file|);
    hide BlankAt;
    BlanksFromFront(u, i, n, |s.file|);
    FilesGrow(s, t, u, i);
  }

  lemma BlanksFromFront(s: Files, i: nat, n: nat, start: nat)
    requires n > 0 && BlankAt(s, i, i, start) && BlanksFrom(s, i + 1, n - 1, start + BLANK_SIZE)
    ensures BlanksFrom(s, i, n, start)
  {
    hide ToBytes5;
    forall x | i + 1 <= x < i + n
      ensures BlankAt(s, x, i, start)
    {
      assert BlankAt(s, x, i + 1, start + BLANK_SIZE);
    }
  }

  /** What was there before a new counter is there after what follows it. */
  lemma FilesGrow(s: Files, t: Files, u: Files, i: nat)
    requires s.offs.Keys == s.table.Keys && ToBytes5(i) !in s.table
    requires t.table == s.table[ToBytes5(i) := Blank(0)] && t.offs == s.offs[ToBytes5(i) := |s.file|]
    requires forall k | k in t.table && k in t.offs ::
               k in u.table && k in u.offs && u.table[k] == t.table[k] && u.offs[k] == t.offs[k]
    requires forall k | k in u.table :: k in t.table || |k| == 5
    ensures forall k | k in s.table && k in s.offs ::
              k in u.table && k in u.offs && u.table[k] == s.table[k] && u.offs[k] == s.offs[k]
    ensures forall k | k in u.table :: k in s.table || |k| == 5
  {
    assert |ToBytes5(i)| == 5;
    hide ToBytes5;
  }

  lemma {:induction false} RunConcat(s: Files, a: seq<Call>, b: seq<Call>)
    requires Allowed(s.table, a) && Allowed(FilesAfter(s, a).table, b)
    ensures Allowed(s.table, a + b) && FilesAfter(s, a + b) == FilesAfter(FilesAfter(s, a), b)
    decreases |a|
  {
    hide Called, CallAllowed, FilesAfter, Allowed;
    if a == [] {
      NoCalls(s);
      assert a + b == b;
    } else {
      FirstCall(s, a);
      RunConcat(Called(s, a[0]), a[1..], b);
      ConsCall(s, a[0], a[1..] + b);
      assert a + b == [a[0]] + (a[1..] + b);
    }
  }

  lemma NoCalls(s: Files)
    ensures Allowed(s.table, []) && FilesAfter(s, []) == s
  {
  }

  lemma FirstCall(s: Files, calls: seq<Call>)
    requires Allowed(s.table, calls) && calls != []
    ensures CallAllowed(s.table, calls[0]) && |calls[0].value| == 8
    ensures Allowed(Called(s, calls[0]).table, calls[1..])
    ensures FilesAfter(s, calls) == FilesAfter(Called(s, calls[0]), calls[1..])
  {
    hide Written, Updated, EncCounter, BlankWith, HhmmToBucket, BucketCount;
  }

  lemma ConsCall(s: Files, c: Call, rest: seq<Call>)
    requires CallAllowed(s.table, c) && |c.value| == 8 && Allowed(Called(s, c).table, rest)
    ensures Allowed(s.table, [c] + rest) && FilesAfter(s, [c] + rest) == FilesAfter(Called(s, c), rest)
    ensures DataCost([c] + rest) == CounterSize(c.timeType) + DataCost(rest)
  {
    hide Written, Updated, EncCounter, BlankWith, HhmmToBucket, BucketCount, CounterSize;
    assert ([c] + rest)[1..] == rest;
  }

  /** Blank counters, one counter of the given type, and as many blank ones behind it. */
  function Surrounded(recordType: i8, n: nat): seq<Call> {
    Blanks(0, n) + ([Call([], 0, ZERO, recordType)] + Blanks(n, n))
  }

  /** The record of the given type is behind n blank records, and n blank records are behind it. */
  ghost predicate IsSurrounded(s: Files, recordType: i8, n: nat) {
    && [] in s.table && [] in s.offs && s.table[[]] == Blank(recordType) && s.offs[[]] == BLANK_SIZE * n
    && BlanksFrom(s, 0, n, 0) && BlanksFrom(s, n, n, BLANK_SIZE * n + CounterSize(recordType))
  }

  lemma RunSurrounded(recordType: i8, n: nat)
    requires n <= 0x8000_0001
    ensures InRun(Surrounded(recordType, n), [], recordType)
    ensures IsSurrounded(FilesAfter(NO_FILES, Surrounded(recordType, n)), recordType, n)
  {
    hide ToBytes5, EncCounter, FilesAfter, Allowed, Blanks, DataCost, Called, HhmmToBucket, BucketCount, Written,
         WithBlanks, Unused, BlankAt;
    var c := Call([], 0, ZERO, recordType);
    NothingUsed();
    RunBlanks(NO_FILES, 0, n);
    var s := FilesAfter(NO_FILES, Blanks(0, n));
    CallInside(NO_FILES, s, n, c);
    RunBlanks(Called(s, c), n, n);
    ConsCall(s, c, Blanks(n, n));
    RunConcat(NO_FILES, Blanks(0, n), [c] + Blanks(n, n));
    CostsAdd(Blanks(0, n), [c] + Blanks(n, n));
    SizeIsSmall(recordType);
    NowSurrounded(s, FilesAfter(Called(s, c), Blanks(n, n)), recordType, n);
  }

  lemma NothingUsed()
    ensures Unused(NO_FILES, 0)
  {
  }

  lemma SizeIsSmall(timeType: i8)
    ensures CounterSize(timeType) <= 11522
  {
  }

  /** The call in the middle makes a new record. */
  lemma CallInside(r: Files, s: Files, n: nat, c: Call)
    requires r == NO_FILES && WithBlanks(r, s, 0, n) && c == Call([], 0, ZERO, c.timeType)
    ensures [] !in s.table && Unused(Called(s, c), n)
    ensures Called(s, c) == Files(s.file + EncCounter(Blank(c.timeType)), s.table[[] := Blank(c.timeType)],
                                  s.offs[[] := |s.file|])
    ensures |EncCounter(Blank(c.timeType))| == CounterSize(c.timeType)
  {
    hide EncCounter, BlanksFrom, Called, ToBytes5, CounterSize;
    BlankIsWellFormed(c.timeType);
    assert [] !in s.table;
    CallNew(s, c);
    StillUnused(s, Called(s, c), n);
  }

  /** Writing the value 0 at midnight creates a blank counter. */
  lemma CallNew(s: Files, c: Call)
    requires c.key !in s.table && c.hhmm == 0 && c.value == ZERO
    ensures Called(s, c) == Files(s.file + EncCounter(Blank(c.timeType)), s.table[c.key := Blank(c.timeType)],
                                  s.offs[c.key := |s.file|])
  {
    NewBlank(c.timeType);
    hide EncCounter, BucketCount, HhmmToBucket, BlankWith, Written, Updated;
  }

  lemma StillUnused(s: Files, t: Files, n: nat)
    requires Unused(s, n) && t.table.Keys == s.table.Keys + {[]} && t.offs.Keys == s.offs.Keys + {[]}
    ensures Unused(t, n)
  {
    forall j: nat | n <= j < 0x80_0000_0000
      ensures ToBytes5(j) !in t.table
    {
      assert ToBytes5(j) in t.table.Keys <==> ToBytes5(j) in s.table.Keys + {[]};
      assert |ToBytes5(j)| == 5;
    }
  }

  lemma NowSurrounded(s: Files, t: Files, recordType: i8, n: nat)
    requires WithBlanks(NO_FILES, s, 0, n) && [] !in s.table
    requires var c := Files(s.file + EncCounter(Blank(recordType)), s.table[[] := Blank(recordType)],
                            s.offs[[] := |s.file|]);
             WithBlanks(c, t, n, n)
    requires |EncCounter(Blank(recordType))| == CounterSize(recordType)
    ensures IsSurrounded(t, recordType, n)
  {
    hide EncCounter, ToBytes5, BucketCount, CounterSize, Unused;
    var c := Files(s.file + EncCounter(Blank(recordType)), s.table[[] := Blank(recordType)], s.offs[[] := |s.file|]);
    assert [] in c.table && [] in c.offs && [] in t.table;
    forall x | 0 <= x < n
      ensures BlankAt(t, x, 0, 0)
    {
      assert BlankAt(s, x, 0, |NO_FILES.file|);
      assert ToBytes5(x) != [];
      assert ToBytes5(x) in c.table && ToBytes5(x) in c.offs;
    }
  }

  /** The blank record that a position before or behind the middle one falls into. */
  lemma BlankRecordAt(s: Files, recordType: i8, n: nat, at: int) returns (x: nat, b: nat)
    requires IsSurrounded(s, recordType, n)
    requires 0 <= at < BLANK_SIZE * n
          || 0 <= at - BLANK_SIZE * n - CounterSize(recordType) < BLANK_SIZE * n
    ensures ToBytes5(x) in s.table && ToBytes5(x) in s.offs
    ensures s.table[ToBytes5(x)] == Blank(0) && s.offs[ToBytes5(x)] == b <= at < b + BLANK_SIZE
  {
    hide CounterSize, ToBytes5;
    if at < BLANK_SIZE * n {
      x, b := at / BLANK_SIZE, BLANK_SIZE * (at / BLANK_SIZE);
      assert BlankAt(s, x, 0, 0);
    } else {
      var behind := BLANK_SIZE * n + CounterSize(recordType);
      x, b := n + (at - behind) / BLANK_SIZE, behind + BLANK_SIZE * ((at - behind) / BLANK_SIZE);
      assert BlankAt(s, x, n, behind);
    }
  }

  /** A bucket behind the record reaches a record behind it, and a wrapped-around one a record in front
      of it. */
  lemma OutsideOverwrites(bucket: nat, recordType: i8)
    requires bucket >= BucketCount(recordType) && exists m: i32 :: bucket == AsUsize(m)
    ensures !HarmlessInRuns(bucket, recordType)
  {
    var m: i32 :| bucket == AsUsize(m);
    var n: nat := if m < 0 then 1 - m else 1 + m;
    var at := BLANK_SIZE * n + 2 + 8 * m;
    assert ValueOffset(BLANK_SIZE * n, bucket, 8) == at;
    hide BucketCount, ValueOffset, HarmlessInRuns, ToBytes5, EncCounter, Updated;
    var calls := Surrounded(recordType, n);
    RunSurrounded(recordType, n);
    var s := FilesAfter(NO_FILES, calls);
    hide FilesAfter, Allowed, Surrounded;
    var x, b := BlankRecordAt(s, recordType, n, at);
    RunRecordsHold(calls);
    LandsOnNeighbour(s.file, recordType, BLANK_SIZE * n, b, bucket);
    HarmedInRun(calls, ToBytes5(x), recordType, bucket);
  }

  lemma HarmedInRun(calls: seq<Call>, other: Bytes, recordType: i8, bucket: nat)
    requires InRun(calls, [], recordType)
    requires var s := FilesAfter(NO_FILES, calls);
             && other in s.table && other in s.offs && other != []
             && !Holds(Updated(s.file, s.offs[[]], bucket, ONES), s.offs[other], EncCounter(s.table[other]))
    ensures !HarmlessInRuns(bucket, recordType)
  {
    hide FilesAfter, Allowed, Updated, EncCounter, Holds;
    assert !SparesOthers(FilesAfter(NO_FILES, calls), [], bucket, ONES);
  }

  // ---------- one write and what is read after it ----------

  /** A record shows a value written at minute t of the day in the bucket of w minutes that contains it,
      and every other bucket as before: 0 in a new counter. */
  ghost predicate Shows(before: Table, key: Bytes, w: i8, t: nat, value: Bytes, r: CounterRecord) {
    && r.timeType == w && w * |r.values| == 1440
    && (forall b: nat | b < |r.values| && Contains(w, b, t) :: r.values[b] == value)
    && (forall b: nat | b < |r.values| && !Contains(w, b, t) ::
          r.values[b] == if key in before && b < |before[key].values| then before[key].values[b]
                         else [0, 0, 0, 0, 0, 0, 0, 0])
  }

  ghost predicate TableShows(before: Table, after: Table, key: Bytes, w: i8, t: nat, value: Bytes) {
    && key in after
    && Shows(before, key, w, t, value, CounterRecord(VALUE_TYPE_DOUBLE, after[key].timeType, after[key].values))
  }

  /** Bucket b of w minutes contains minute t. */
  predicate Contains(w: int, b: nat, t: nat) { w * b <= t < w * (b + 1) }

  lemma WrittenShows(before: Table, key: Bytes, hours: int, minutes: int, value: Bytes, w: i8)
    requires 0 <= hours < 24 && 0 <= minutes < 60 && (w == 1 || w == 5 || w == 10 || w == 60)
    requires key in before ==> before[key].timeType == w && |before[key].values| == BucketCount(w)
    ensures TableShows(before, Written(before, key, w, HhmmToBucket(100 * hours + minutes, w), value),
                       key, w, 60 * hours + minutes, value)
  {
    BucketOfClock(hours, minutes, w);
    hide HhmmToBucket, BucketCount, Blank, Contains;
    BlankIsZero(w);
    OneBucketContains(w, HhmmToBucket(100 * hours + minutes, w), 60 * hours + minutes);
  }

  /** Every time on the clock can be written to a counter of the same type. */
  method WriteThenRead(store: CounterStore, key: Bytes, hours: int, minutes: int, value: Bytes, w: i8)
    returns (r: Option<CounterRecord>)
    requires store.Valid() && |value| == 8 && 0 <= hours < 24 && 0 <= minutes < 60
    requires w == 1 || w == 5 || w == 10 || w == 60
    requires key in store.table ==> store.table[key].timeType == w
    requires |key| < 0x8000 && |store.dataFile.Contents()| < 0x80_0000_0000
    requires |store.index.keyFile.bytes| < 0x80_0000_0000
    modifies store.Repr()
    ensures store.Valid() && r.Some?
    ensures Shows(old(store.table), key, w, 60 * hours + minutes, value, r.value)
  {
    hide CounterStore.Valid, HhmmToBucket, BucketCount, Updated, EncCounter, BlankWith, LastWritten, Shows, Written,
         CounterSize, EntrySize;
    TableIsWellFormed(store, key);
    CanBeWritten(store.table, key, hours, minutes, value, w);
    store.Write(key, 100 * hours + minutes, value, w);
    r := store.Read(key);
  }

  lemma CanBeWritten(before: Table, key: Bytes, hours: int, minutes: int, value: Bytes, w: i8)
    requires 0 <= hours < 24 && 0 <= minutes < 60 && (w == 1 || w == 5 || w == 10 || w == 60)
    requires key in before ==> before[key].timeType == w && |before[key].values| == BucketCount(w)
    ensures key in before ==> HhmmToBucket(100 * hours + minutes, w) < BucketCount(before[key].timeType)
    ensures TableShows(before, Written(before, key, w, HhmmToBucket(100 * hours + minutes, w), value),
                       key, w, 60 * hours + minutes, value)
  {
    hide HhmmToBucket, BucketCount, TableShows, Written;
    ClockTimesHaveBuckets(hours, minutes, w);
    WrittenShows(before, key, hours, minutes, value, w);
  }

  lemma TableIsWellFormed(store: CounterStore, key: Bytes)
    requires store.Valid()
    ensures key in store.table ==> |store.table[key].values| == BucketCount(store.table[key].timeType)
  {
  }

  lemma BlankIsZero(timeType: i8)
    ensures Blank(timeType).timeType == timeType && |Blank(timeType).values| == BucketCount(timeType)
    ensures forall b | 0 <= b < BucketCount(timeType) :: Blank(timeType).values[b] == [0, 0, 0, 0, 0, 0, 0, 0]
  {
  }

  lemma OneBucketContains(w: nat, b: nat, t: nat)
    requires w == 1 || w == 5 || w == 10 || w == 60
    requires w * b <= t < w * (b + 1)
    ensures forall c: nat :: Contains(w, c, t) <==> c == b
  {
  }
}
