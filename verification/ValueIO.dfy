/** Reading and writing values through the cursor and the buffer, step by step, against the codec
    of Values. */
module ValueIO {
  import opened ByteCodec
  import opened DataOutput
  import opened DataInput
  import opened Values

  // ---------- writing ----------

  lemma {:induction false} EncManyAppend<T>(enc: T -> Bytes, items: seq<T>, x: T)
    ensures EncMany(enc, items + [x]) == EncMany(enc, items) + enc(x)
  {
    if items == [] {
      assert [x][1..] == [];
    } else {
      EncManyAppend(enc, items[1..], x);
      assert (items + [x])[1..] == items[1..] + [x];
    }
  }

  lemma {:induction false} ConcatAppend(parts: seq<Bytes>, p: Bytes)
    ensures Concat(parts + [p]) == Concat(parts) + p
  {
    if parts == [] {
      assert [p][1..] == [];
    } else {
      ConcatAppend(parts[1..], p);
      assert (parts + [p])[1..] == parts[1..] + [p];
    }
  }

  lemma {:induction false} ConcatEntriesAppend(keys: seq<Text>, parts: seq<Bytes>, k: Text, p: Bytes)
    requires |keys| == |parts|
    ensures ConcatEntries(keys + [k], parts + [p]) == ConcatEntries(keys, parts) + EncBlob(k) + p
  {
    hide EncBlob;
    if keys == [] {
      assert [k][1..] == [] && [p][1..] == [];
    } else {
      ConcatEntriesAppend(keys[1..], parts[1..], k, p);
      assert (keys + [k])[1..] == keys[1..] + [k] && (parts + [p])[1..] == parts[1..] + [p];
    }
  }

  /** The buffer has grown by exactly this. */
  twostate predicate Grew(dout: DataOutputX, new added: Bytes)
    reads dout
  {
    dout.buf == old(dout.buf) + added
  }

  /** `write_value`: the type code, then the body. Returns, for the proof, the bytes it added. */
  method WriteValue(dout: DataOutputX, v: Value) returns (ghost added: Bytes)
    requires Storable(v)
    modifies dout
    ensures Grew(dout, added) && EncodesItem(v, added)
    decreases v, 1
  {
    hide EncodesBody, Storable;
    var code := TypeCode(v);
    dout.WriteByte(code);
    ghost var body := WriteBody(dout, v);
    added := [code] + body;
    assert added[1..] == body;
  }

  method WriteBody(dout: DataOutputX, v: Value) returns (ghost added: Bytes)
    requires Storable(v)
    modifies dout
    ensures Grew(dout, added) && EncodesBody(v, added)
    decreases v, 0
  {
    hide EncBlob, EncDecimal, ToBE, EncMany, Concat, ConcatEntries, EncodesItem;
    ghost var start := dout.buf;
    match v {
      case Null =>
      case Boolean(b) => dout.WriteBoolean(b);
      case Decimal(n) => dout.WriteDecimal(n);
      case Float(bits) => dout.WriteInt(bits);
      case Double(bits) => dout.WriteRaw(ToBE(bits, 8));
      case DoubleSummary(count, sum, min, max) => WriteSummary(dout, count, sum, min, max);
      case LongSummary(count, sum, min, max) => WriteSummary(dout, count, sum, min, max);
      case TextValue(t) => dout.WriteBlob(t);
      case TextHash(h) => dout.WriteInt(h);
      case Blob(b) => dout.WriteBlob(b);
      case Ip4(b) => dout.WriteBlob(b);
      case List(items) => added := WriteList(dout, v, items);
      case IntArray(ints) => WriteInts(dout, ints);
      case FloatArray(floats) => WriteFloats(dout, floats);
      case TextArray(texts) => WriteTexts(dout, texts);
      case LongArray(longs) => WriteLongs(dout, longs);
      case MapValue(table) => added := WriteMap(dout, v, table);
    }
    if !v.List? && !v.MapValue? {
      added := dout.buf[|start|..];
    }
  }

  method WriteSummary(dout: DataOutputX, count: i32, sum: int, min: int, max: int)
    modifies dout
    ensures Grew(dout, ToBE(count, 4) + (ToBE(sum, 8) + (ToBE(min, 8) + ToBE(max, 8))))
  {
    hide ToBE;
    dout.WriteInt(count);
    dout.WriteRaw(ToBE(sum, 8));
    dout.WriteRaw(ToBE(min, 8));
    dout.WriteRaw(ToBE(max, 8));
  }

  method WriteList(dout: DataOutputX, ghost v: Value, items: seq<Value>) returns (ghost added: Bytes)
    requires v == List(items) && Storable(v)
    modifies dout
    ensures Grew(dout, added) && EncodesBody(v, added)
    decreases v, 0, 0
  {
    hide EncDecimal, Concat, EncodesItem;
    ghost var start := dout.buf;
    ghost var parts: seq<Bytes> := [];
    dout.WriteDecimal(|items|);
    EmptyConcat();
    for i := 0 to |items|
      invariant |parts| == i
      invariant dout.buf == start + (EncDecimal(|items|) + Concat(parts))
      invariant forall j | 0 <= j < i :: EncodesItem(items[j], parts[j])
    {
      ghost var part := WriteValue(dout, items[i]);
      ConcatAppend(parts, part);
      parts := parts + [part];
    }
    added := EncDecimal(|items|) + Concat(parts);
  }

  lemma EmptyConcat()
    ensures Concat([]) == [] && ConcatEntries([], []) == []
  {
  }

  /** The hash table yields its entries in an order of its own. */
  method WriteMap(dout: DataOutputX, ghost v: Value, table: map<Text, Value>) returns (ghost added: Bytes)
    requires v == MapValue(table) && Storable(v)
    modifies dout
    ensures Grew(dout, added) && EncodesBody(v, added)
    decreases v, 0, 0
  {
    hide EncDecimal, EncBlob, ConcatEntries, EncodesItem, Written, Storable;
    StorableEntries(table);
    ghost var start := dout.buf;
    ghost var keys: seq<Text>, parts: seq<Bytes> := [], [];
    dout.WriteDecimal(|table|);
    EmptyConcat();
    var unwritten := table.Keys;
    NothingWritten(table);
    while unwritten != {}
      invariant |keys| == |parts| && unwritten <= table.Keys && Written(table, unwritten, keys, parts)
      invariant dout.buf == start + (EncDecimal(|table|) + ConcatEntries(keys, parts))
      decreases unwritten
    {
      var key: Text :| key in unwritten;
      dout.WriteBlob(key);
      ghost var part := WriteValue(dout, table[key]);
      ConcatEntriesAppend(keys, parts, key, part);
      WrittenNext(table, unwritten, keys, parts, key, part);
      keys, parts := keys + [key], parts + [part];
      unwritten := unwritten - {key};
    }
    added := EncDecimal(|table|) + ConcatEntries(keys, parts);
    AllWritten(table, keys, parts);
  }

  /** Every entry of the table is either still unwritten or written once, with its encoding. */
  ghost predicate Written(table: map<Text, Value>, unwritten: set<Text>, keys: seq<Text>, parts: seq<Bytes>)
    requires |keys| == |parts|
  {
    && |keys| + |unwritten| == |table|
    && (forall j | 0 <= j < |keys| :: keys[j] in table && EncodesItem(table[keys[j]], parts[j]))
    && (forall k | k in table :: k in keys || k in unwritten)
  }

  lemma NothingWritten(table: map<Text, Value>)
    ensures Written(table, table.Keys, [], [])
  {
  }

  lemma WrittenNext(table: map<Text, Value>, unwritten: set<Text>, keys: seq<Text>, parts: seq<Bytes>, key: Text,
                    part: Bytes)
    requires |keys| == |parts| && Written(table, unwritten, keys, parts)
    requires key in unwritten && key in table && EncodesItem(table[key], part)
    ensures Written(table, unwritten - {key}, keys + [key], parts + [part])
  {
    hide EncodesItem;
    forall k | k in table
      ensures k in keys + [key] || k in unwritten - {key}
    {
      if k in keys {
        var j :| 0 <= j < |keys| && keys[j] == k;
        assert (keys + [key])[j] == k;
      } else {
        assert (keys + [key])[|keys|] == key;
      }
    }
  }

  lemma AllWritten(table: map<Text, Value>, keys: seq<Text>, parts: seq<Bytes>)
    requires |keys| == |parts| && Written(table, {}, keys, parts)
    ensures EncodesBody(MapValue(table), EncDecimal(|table|) + ConcatEntries(keys, parts))
  {
    hide EncodesItem, EncDecimal, ConcatEntries;
    assert IsOrder(keys, table);
  }

  method WriteInts(dout: DataOutputX, ints: seq<i32>)
    requires |ints| < 0x8000_0000_0000_0000
    modifies dout
    ensures Grew(dout, EncDecimal(|ints|) + EncMany(EncIntItem, ints))
  {
    hide EncDecimal;
    dout.WriteDecimal(|ints|);
    for i := 0 to |ints|
      invariant dout.buf == old(dout.buf) + (EncDecimal(|ints|) + EncMany(EncIntItem, ints[..i]))
    {
      dout.WriteDecimal(ints[i]);
      EncManyAppend(EncIntItem, ints[..i], ints[i]);
      assert ints[..i + 1] == ints[..i] + [ints[i]];
    }
    assert ints[..|ints|] == ints;
  }

  method WriteLongs(dout: DataOutputX, longs: seq<i64>)
    requires |longs| < 0x8000_0000_0000_0000
    modifies dout
    ensures Grew(dout, EncDecimal(|longs|) + EncMany(EncDecimalItem, longs))
  {
    hide EncDecimal;
    dout.WriteDecimal(|longs|);
    for i := 0 to |longs|
      invariant dout.buf == old(dout.buf) + (EncDecimal(|longs|) + EncMany(EncDecimalItem, longs[..i]))
    {
      dout.WriteDecimal(longs[i]);
      EncManyAppend(EncDecimalItem, longs[..i], longs[i]);
      assert longs[..i + 1] == longs[..i] + [longs[i]];
    }
    assert longs[..|longs|] == longs;
  }

  method WriteFloats(dout: DataOutputX, floats: seq<u32>)
    requires |floats| < 0x8000_0000_0000_0000
    modifies dout
    ensures Grew(dout, EncDecimal(|floats|) + EncMany(EncFloatItem, floats))
  {
    hide EncDecimal, ToBE;
    dout.WriteDecimal(|floats|);
    for i := 0 to |floats|
      invariant dout.buf == old(dout.buf) + (EncDecimal(|floats|) + EncMany(EncFloatItem, floats[..i]))
    {
      dout.WriteInt(floats[i]);
      EncManyAppend(EncFloatItem, floats[..i], floats[i]);
      assert floats[..i + 1] == floats[..i] + [floats[i]];
    }
    assert floats[..|floats|] == floats;
  }

  method WriteTexts(dout: DataOutputX, texts: seq<Text>)
    requires |texts| < 0x8000_0000_0000_0000
    modifies dout
    ensures Grew(dout, EncDecimal(|texts|) + EncMany(EncTextItem, texts))
  {
    hide EncDecimal, EncBlob;
    dout.WriteDecimal(|texts|);
    for i := 0 to |texts|
      invariant dout.buf == old(dout.buf) + (EncDecimal(|texts|) + EncMany(EncTextItem, texts[..i]))
    {
      dout.WriteBlob(texts[i]);
      EncManyAppend(EncTextItem, texts[..i], texts[i]);
      assert texts[..i + 1] == texts[..i] + [texts[i]];
    }
    assert texts[..|texts|] == texts;
  }

  // ---------- reading ----------

  /** `read_text`. */
  method ReadText(din: DataInputX) returns (r: Result<Text>)
    requires din.Valid()
    modifies din
    ensures din.Reads(r, DecText(old(din.Rest())))
  {
    hide DecBlob, ValidUtf8;
    var b := din.ReadBlob();
    r := if b.Ok? && ValidUtf8(b.value) then Ok(b.value) else Err;
  }

  /** Joins what a loop has read so far to what the decoder says about the rest. */
  function Join<T>(done: seq<T>, rest: Parse<seq<T>>): Parse<seq<T>> {
    match rest
    case Fail => Fail
    case Got(items, left) => Got(done + items, left)
  }

  lemma JoinNone<T>(p: Parse<seq<T>>)
    ensures Join([], p) == p
  {
    if p.Got? {
      assert [] + p.value == p.value;
    }
  }

  lemma JoinNext<T>(done: seq<T>, v: T, p: Parse<seq<T>>)
    ensures Join(done, Prepend(v, p)) == Join(done + [v], p)
  {
    if p.Got? {
      assert done + ([v] + p.value) == (done + [v]) + p.value;
    }
  }

  /** `read_value`: the type code, then the body for it. */
  method ReadValue(din: DataInputX) returns (r: Result<Value>)
    requires din.Valid()
    modifies din
    ensures din.Reads(r, DecValue(old(din.Rest())))
    decreases |din.Rest()|, 1
  {
    hide DecBody;
    var code := din.ReadUnsignedByte();
    if code.Err? {
      return Err;
    }
    r := ReadBody(code.value, din);
  }

  method ReadBody(code: Byte, din: DataInputX) returns (r: Result<Value>)
    requires din.Valid()
    modifies din
    ensures din.Reads(r, DecBody(code, old(din.Rest())))
    decreases |din.Rest()|, 0
  {
    hide DecBool, DecDecimal, DecFloatItem, DecDoubleItem, DecText, DecI32, DecBlob, DecList, DecEntries, DecArray,
         DecDoubleSummary, DecLongSummary;
    if code == 0 {
      r := Ok(Null);
    } else if code == 10 {
      var b := din.ReadBoolean();
      r := if b.Ok? then Ok(Boolean(b.value)) else Err;
    } else if code == 20 {
      var n := din.ReadDecimal();
      r := if n.Ok? then Ok(Decimal(n.value)) else Err;
    } else if code == 50 {
      var t := ReadText(din);
      r := if t.Ok? then Ok(TextValue(t.value)) else Err;
    } else if code == 60 {
      var b := din.ReadBlob();
      r := if b.Ok? then Ok(Blob(b.value)) else Err;
    } else if code == 61 {
      var b := din.ReadBlob();
      r := if b.Ok? then Ok(Ip4(b.value)) else Err;
    } else if code == 70 {
      r := ReadList(din);
    } else if code == 80 {
      r := ReadMap(din);
    } else {
      r := ReadFlat(code, din);
    }
  }

  method ReadFloat(din: DataInputX) returns (r: Result<u32>)
    requires din.Valid()
    modifies din
    ensures din.Reads(r, DecFloatItem(old(din.Rest())))
  {
    Pow256Values();
    var b := din.ReadN(4);
    if b.Ok? {
      ToFromBE(b.value);
    }
    r := if b.Ok? then Ok(FromBE(b.value)) else Err;
  }

  method ReadDouble(din: DataInputX) returns (r: Result<u64>)
    requires din.Valid()
    modifies din
    ensures din.Reads(r, DecDoubleItem(old(din.Rest())))
  {
    Pow256Values();
    var b := din.ReadN(8);
    if b.Ok? {
      ToFromBE(b.value);
    }
    r := if b.Ok? then Ok(FromBE(b.value)) else Err;
  }

  method ReadI32(din: DataInputX) returns (r: Result<i32>)
    requires din.Valid()
    modifies din
    ensures din.Reads(r, DecI32(old(din.Rest())))
  {
    Pow256Values();
    var n := din.ReadInt();
    r := n;
  }

  method ReadI64(din: DataInputX) returns (r: Result<i64>)
    requires din.Valid()
    modifies din
    ensures din.Reads(r, DecI64(old(din.Rest())))
  {
    Pow256Values();
    var n := din.ReadLong();
    r := n;
  }

  /** The kinds without nested values that are not read by a single call of the cursor. */
  method ReadFlat(code: Byte, din: DataInputX) returns (r: Result<Value>)
    requires din.Valid() && code !in {0, 10, 20, 50, 60, 61, 70, 80}
    modifies din
    ensures din.Reads(r, DecBody(code, old(din.Rest())))
  {
    hide DecFloatItem, DecDoubleItem, DecI32, DecArray, DecDoubleSummary, DecLongSummary, DecList, DecEntries,
         DecDecimal, DecBlob, DecText, DecBool;
    if code == 30 {
      var bits := ReadFloat(din);
      r := if bits.Ok? then Ok(Float(bits.value)) else Err;
    } else if code == 40 {
      var bits := ReadDouble(din);
      r := if bits.Ok? then Ok(Double(bits.value)) else Err;
    } else if code == 45 {
      r := ReadDoubleSummary(din);
    } else if code == 46 {
      r := ReadLongSummary(din);
    } else if code == 51 {
      var h := ReadI32(din);
      r := if h.Ok? then Ok(TextHash(h.value)) else Err;
    } else if code == 71 {
      r := ReadInts(din);
    } else if code == 72 {
      r := ReadFloats(din);
    } else if code == 73 {
      r := ReadTexts(din);
    } else if code == 74 {
      r := ReadLongs(din);
    } else {
      r := Err;
    }
  }

  method ReadDoubleSummary(din: DataInputX) returns (r: Result<Value>)
    requires din.Valid()
    modifies din
    ensures din.Reads(r, DecDoubleSummary(old(din.Rest())))
  {
    hide DecI32, DecDoubleItem;
    var count := ReadI32(din);
    if count.Err? { return Err; }
    var sum := ReadDouble(din);
    if sum.Err? { return Err; }
    var min := ReadDouble(din);
    if min.Err? { return Err; }
    var max := ReadDouble(din);
    if max.Err? { return Err; }
    r := Ok(DoubleSummary(count.value, sum.value, min.value, max.value));
  }

  method ReadLongSummary(din: DataInputX) returns (r: Result<Value>)
    requires din.Valid()
    modifies din
    ensures din.Reads(r, DecLongSummary(old(din.Rest())))
  {
    hide DecI32, DecI64;
    var count := ReadI32(din);
    if count.Err? { return Err; }
    var sum := ReadI64(din);
    if sum.Err? { return Err; }
    var min := ReadI64(din);
    if min.Err? { return Err; }
    var max := ReadI64(din);
    if max.Err? { return Err; }
    r := Ok(LongSummary(count.value, sum.value, min.value, max.value));
  }

  method ReadInts(din: DataInputX) returns (r: Result<Value>)
    requires din.Valid()
    modifies din
    ensures din.Reads(r, MapParse(DecArray(DecIntItem, old(din.Rest())), ints => IntArray(ints)))
  {
    hide DecDecimal;
    var n := din.ReadDecimal();
    if n.Err? {
      return Err;
    }
    var count := AsUsize(n.value);
    ghost var start := din.Rest();
    var ints: seq<i32> := [];
    JoinNone(DecMany(DecIntItem, count, start));
    for i := 0 to count
      invariant din.Valid()
      invariant din.offset + |din.Rest()| == old(din.offset) + |old(din.Rest())|
      invariant Join(ints, DecMany(DecIntItem, count - i, din.Rest())) == DecMany(DecIntItem, count, start)
    {
      var v := din.ReadDecimal();
      if v.Err? {
        return Err;
      }
      JoinNext(ints, AsI32(v.value), DecMany(DecIntItem, count - i - 1, din.Rest()));
      ints := ints + [AsI32(v.value)];
    }
    assert ints + [] == ints;
    r := Ok(IntArray(ints));
  }

  method ReadLongs(din: DataInputX) returns (r: Result<Value>)
    requires din.Valid()
    modifies din
    ensures din.Reads(r, MapParse(DecArray(DecDecimalItem, old(din.Rest())), longs => LongArray(longs)))
  {
    hide DecDecimal;
    var n := din.ReadDecimal();
    if n.Err? {
      return Err;
    }
    var count := AsUsize(n.value);
    ghost var start := din.Rest();
    var longs: seq<i64> := [];
    JoinNone(DecMany(DecDecimalItem, count, start));
    for i := 0 to count
      invariant din.Valid()
      invariant din.offset + |din.Rest()| == old(din.offset) + |old(din.Rest())|
      invariant Join(longs, DecMany(DecDecimalItem, count - i, din.Rest())) == DecMany(DecDecimalItem, count, start)
    {
      var v := din.ReadDecimal();
      if v.Err? {
        return Err;
      }
      JoinNext(longs, v.value, DecMany(DecDecimalItem, count - i - 1, din.Rest()));
      longs := longs + [v.value];
    }
    assert longs + [] == longs;
    r := Ok(LongArray(longs));
  }

  method ReadFloats(din: DataInputX) returns (r: Result<Value>)
    requires din.Valid()
    modifies din
    ensures din.Reads(r, MapParse(DecArray(DecFloatItem, old(din.Rest())), floats => FloatArray(floats)))
  {
    hide DecDecimal, DecUnsigned;
    var n := din.ReadDecimal();
    if n.Err? {
      return Err;
    }
    var count := AsUsize(n.value);
    ghost var start := din.Rest();
    var floats: seq<u32> := [];
    JoinNone(DecMany(DecFloatItem, count, start));
    for i := 0 to count
      invariant din.Valid()
      invariant din.offset + |din.Rest()| == old(din.offset) + |old(din.Rest())|
      invariant Join(floats, DecMany(DecFloatItem, count - i, din.Rest())) == DecMany(DecFloatItem, count, start)
    {
      var v := ReadFloat(din);
      if v.Err? {
        return Err;
      }
      JoinNext(floats, v.value, DecMany(DecFloatItem, count - i - 1, din.Rest()));
      floats := floats + [v.value];
    }
    assert floats + [] == floats;
    r := Ok(FloatArray(floats));
  }

  method ReadTexts(din: DataInputX) returns (r: Result<Value>)
    requires din.Valid()
    modifies din
    ensures din.Reads(r, MapParse(DecArray(DecTextItem, old(din.Rest())), texts => TextArray(texts)))
  {
    hide DecDecimal, DecText;
    var n := din.ReadDecimal();
    if n.Err? {
      return Err;
    }
    var count := AsUsize(n.value);
    ghost var start := din.Rest();
    var texts: seq<Text> := [];
    JoinNone(DecMany(DecTextItem, count, start));
    for i := 0 to count
      invariant din.Valid()
      invariant din.offset + |din.Rest()| == old(din.offset) + |old(din.Rest())|
      invariant Join(texts, DecMany(DecTextItem, count - i, din.Rest())) == DecMany(DecTextItem, count, start)
    {
      var v := ReadText(din);
      if v.Err? {
        return Err;
      }
      JoinNext(texts, v.value, DecMany(DecTextItem, count - i - 1, din.Rest()));
      texts := texts + [v.value];
    }
    assert texts + [] == texts;
    r := Ok(TextArray(texts));
  }

  method ReadList(din: DataInputX) returns (r: Result<Value>)
    requires din.Valid()
    modifies din
    ensures din.Reads(r, DecBody(70, old(din.Rest())))
    decreases |din.Rest()|, 0, 0
  {
    hide DecDecimal, DecValue;
    var n := din.ReadDecimal();
    if n.Err? {
      return Err;
    }
    var count := AsUsize(n.value);
    ghost var start := din.Rest();
    var list: seq<Value> := [];
    JoinNone(DecList(count, start));
    for i := 0 to count
      invariant din.Valid() && |din.Rest()| <= |start|
      invariant din.offset + |din.Rest()| == old(din.offset) + |old(din.Rest())|
      invariant Join(list, DecList(count - i, din.Rest())) == DecList(count, start)
    {
      var v := ReadValue(din);
      if v.Err? {
        return Err;
      }
      JoinNext(list, v.value, DecList(count - i - 1, din.Rest()));
      list := list + [v.value];
    }
    assert list + [] == list;
    r := Ok(List(list));
  }

  method ReadMap(din: DataInputX) returns (r: Result<Value>)
    requires din.Valid()
    modifies din
    ensures din.Reads(r, DecBody(80, old(din.Rest())))
    decreases |din.Rest()|, 0, 0
  {
    hide DecDecimal, DecText, DecValue;
    var n := din.ReadDecimal();
    if n.Err? {
      return Err;
    }
    var count := AsUsize(n.value);
    ghost var start := din.Rest();
    var table: map<Text, Value> := map[];
    for i := 0 to count
      invariant din.Valid() && |din.Rest()| <= |start|
      invariant din.offset + |din.Rest()| == old(din.offset) + |old(din.Rest())|
      invariant DecEntries(count - i, din.Rest(), table) == DecEntries(count, start, map[])
    {
      var key := ReadText(din);
      if key.Err? {
        return Err;
      }
      var v := ReadValue(din);
      if v.Err? {
        return Err;
      }
      table := table[key.value := v.value];
    }
    r := Ok(MapValue(table));
  }
}
