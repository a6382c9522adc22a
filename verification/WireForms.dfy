/** The forms of the wire protocol, byte by byte: what the writers put out for every kind of value, and
    what the readers make of any bytes, including those the writers never produce. */
module WireForms {
  import opened ByteCodec
  import opened DataOutput
  import opened DataInput
  import opened Values

  // ---------- decimals ----------

  /** The tag is the number of bytes that follow: none for 0, else the fewest of 1 to 5 and 8. */
  lemma DecimalIs(v: i64)
    ensures v == 0 ==> EncDecimal(v) == [0]
    ensures v != 0 && -128 <= v <= 127 ==> EncDecimal(v) == [1] + ToBE(v, 1)
    ensures -0x8000 <= v < -128 || 127 < v <= 0x7FFF ==> EncDecimal(v) == [2] + ToBE(v, 2)
    ensures -0x80_0000 <= v < -0x8000 || 0x7FFF < v <= 0x7F_FFFF ==> EncDecimal(v) == [3] + ToBE(v, 3)
    ensures -0x8000_0000 <= v < -0x80_0000 || 0x7F_FFFF < v <= 0x7FFF_FFFF ==> EncDecimal(v) == [4] + ToBE(v, 4)
    ensures -0x80_0000_0000 <= v < -0x8000_0000 || 0x7FFF_FFFF < v <= 0x7F_FFFF_FFFF ==>
              EncDecimal(v) == [5] + ToBE(v, 5)
    ensures v < -0x80_0000_0000 || v > 0x7F_FFFF_FFFF ==> EncDecimal(v) == [8] + ToBE(v, 8)
  {
    hide ToBE;
  }

  /** A reader takes any tag: 0 is zero, 1 to 5 are widths, and every other one means eight bytes. */
  lemma DecimalReads(tag: Byte, s: Bytes)
    ensures DecDecimal([]).Fail?
    ensures tag == 0 ==> DecDecimal([tag] + s) == Got(0, s)
    ensures 1 <= tag <= 5 ==>
              DecDecimal([tag] + s) == if |s| < tag then Fail else Got(SignedBE(s[..tag]), s[tag..])
    ensures tag > 5 ==> DecDecimal([tag] + s) == if |s| < 8 then Fail else Got(SignedBE(s[..8]), s[8..])
  {
    hide SignedBE;
    assert ([tag] + s)[1..] == s;
  }

  // ---------- length-prefixed bytes ----------

  lemma BlobIs(v: Bytes)
    ensures |v| <= 253 ==> EncBlob(v) == [|v|] + v
    ensures 253 < |v| <= 65535 ==> EncBlob(v) == [255] + ToBE(|v|, 2) + v
    ensures |v| > 65535 ==> EncBlob(v) == [254] + ToBE(|v|, 4) + v
  {
  }

  lemma BlobReads(tag: Byte, s: Bytes)
    ensures DecBlob([]).Fail?
    ensures tag == 255 && |s| >= 2 ==>
              var n := FromBE(s[..2]);
              DecBlob([tag] + s) == if |s| - 2 < n then Fail else Got(s[2..][..n], s[2..][n..])
    ensures tag == 254 && |s| >= 4 ==>
              var n := SignedBE(s[..4]);
              DecBlob([tag] + s) == if n < 0 || |s| - 4 < n then Fail else Got(s[4..][..n], s[4..][n..])
    ensures (tag == 255 && |s| < 2) || (tag == 254 && |s| < 4) ==> DecBlob([tag] + s).Fail?
    ensures tag < 254 ==> DecBlob([tag] + s) == if |s| < tag then Fail else Got(s[..tag], s[tag..])
  {
    hide SignedBE, FromBE;
    assert ([tag] + s)[1..] == s;
    assert s[..0] == [] && s[0..] == s;
  }

  // ---------- values ----------

  /** Every kind has its own type code in front. */
  lemma CodesAre(v: Value, s: Bytes)
    requires EncodesItem(v, s)
    ensures s != [] && EncodesBody(v, s[1..])
    ensures v.Null? ==> s[0] == 0
    ensures v.Boolean? ==> s[0] == 10
    ensures v.Decimal? ==> s[0] == 20
    ensures v.Float? ==> s[0] == 30
    ensures v.Double? ==> s[0] == 40
    ensures v.DoubleSummary? ==> s[0] == 45
    ensures v.LongSummary? ==> s[0] == 46
    ensures v.TextValue? ==> s[0] == 50
    ensures v.TextHash? ==> s[0] == 51
    ensures v.Blob? ==> s[0] == 60
    ensures v.Ip4? ==> s[0] == 61
    ensures v.List? ==> s[0] == 70
    ensures v.IntArray? ==> s[0] == 71
    ensures v.FloatArray? ==> s[0] == 72
    ensures v.TextArray? ==> s[0] == 73
    ensures v.LongArray? ==> s[0] == 74
    ensures v.MapValue? ==> s[0] == 80
  {
    hide EncodesBody;
  }

  /** A code the protocol does not know is an error, and the others give a value of their own kind. */
  lemma CodesDecide(s: Bytes)
    requires s != []
    ensures s[0] !in {0, 10, 20, 30, 40, 45, 46, 50, 51, 60, 61, 70, 71, 72, 73, 74, 80} ==> DecValue(s).Fail?
    ensures DecValue(s).Got? ==>
              var v := DecValue(s).value;
              && (s[0] == 0 <==> v.Null?) && (s[0] == 10 <==> v.Boolean?) && (s[0] == 20 <==> v.Decimal?)
              && (s[0] == 30 <==> v.Float?) && (s[0] == 40 <==> v.Double?) && (s[0] == 45 <==> v.DoubleSummary?)
              && (s[0] == 46 <==> v.LongSummary?) && (s[0] == 50 <==> v.TextValue?) && (s[0] == 51 <==> v.TextHash?)
              && (s[0] == 60 <==> v.Blob?) && (s[0] == 61 <==> v.Ip4?) && (s[0] == 70 <==> v.List?)
              && (s[0] == 71 <==> v.IntArray?) && (s[0] == 72 <==> v.FloatArray?) && (s[0] == 73 <==> v.TextArray?)
              && (s[0] == 74 <==> v.LongArray?) && (s[0] == 80 <==> v.MapValue?)
  {
    hide DecBool, DecDecimal, DecFloatItem, DecDoubleItem, DecText, DecI32, DecBlob, DecList, DecArray, DecEntries;
  }

  lemma ScalarBodiesAre(s: Bytes, b: bool, n: i64, bits: u32, dbits: u64, h: i32)
    ensures EncodesBody(Null, s) <==> s == []
    ensures EncodesBody(Boolean(b), s) <==> s == [if b then 1 else 0]
    ensures EncodesBody(Decimal(n), s) <==> s == EncDecimal(n)
    ensures EncodesBody(Float(bits), s) <==> s == ToBE(bits, 4)
    ensures EncodesBody(Double(dbits), s) <==> s == ToBE(dbits, 8)
    ensures EncodesBody(TextHash(h), s) <==> s == ToBE(h, 4)
  {
    hide EncDecimal, ToBE;
  }

  lemma TextBodiesAre(s: Bytes, t: Text, b: Bytes)
    ensures EncodesBody(TextValue(t), s) <==> s == EncBlob(t)
    ensures EncodesBody(Blob(b), s) <==> s == EncBlob(b)
    ensures EncodesBody(Ip4(b), s) <==> s == EncBlob(b)
  {
    hide EncBlob;
  }

  /** The count, then the sum, the minimum and the maximum. */
  lemma DoubleSummaryBodyIs(s: Bytes, count: i32, sum: u64, min: u64, max: u64)
    ensures EncodesBody(DoubleSummary(count, sum, min, max), s) <==>
              s == ToBE(count, 4) + (ToBE(sum, 8) + (ToBE(min, 8) + ToBE(max, 8)))
  {
    hide ToBE;
  }

  lemma LongSummaryBodyIs(s: Bytes, count: i32, sum: i64, min: i64, max: i64)
    ensures EncodesBody(LongSummary(count, sum, min, max), s) <==>
              s == ToBE(count, 4) + (ToBE(sum, 8) + (ToBE(min, 8) + ToBE(max, 8)))
  {
    hide ToBE;
  }

  /** A count and the parts one after the other. */
  ghost predicate IsCounted(s: Bytes, parts: seq<Bytes>) { s == EncDecimal(|parts|) + Concat(parts) }

  lemma ConcatIs(part: Bytes, parts: seq<Bytes>)
    ensures Concat([]) == [] && Concat([part] + parts) == part + Concat(parts)
  {
    assert ([part] + parts)[1..] == parts;
  }

  lemma {:induction false} ManyAre<T>(enc: T -> Bytes, items: seq<T>, parts: seq<Bytes>)
    requires |parts| == |items| && forall i | 0 <= i < |items| :: parts[i] == enc(items[i])
    ensures EncMany(enc, items) == Concat(parts)
  {
    if items != [] {
      ManyAre(enc, items[1..], parts[1..]);
    }
  }

  /** An array is its count and its items, each without a code. */
  lemma IntArrayIs(s: Bytes, ints: seq<i32>, parts: seq<Bytes>)
    requires |parts| == |ints| && forall i | 0 <= i < |ints| :: parts[i] == EncDecimal(ints[i])
    ensures EncodesBody(IntArray(ints), s) <==> IsCounted(s, parts)
  {
    hide EncDecimal;
    ManyAre(EncIntItem, ints, parts);
  }

  lemma FloatArrayIs(s: Bytes, floats: seq<u32>, parts: seq<Bytes>)
    requires |parts| == |floats| && forall i | 0 <= i < |floats| :: parts[i] == ToBE(floats[i], 4)
    ensures EncodesBody(FloatArray(floats), s) <==> IsCounted(s, parts)
  {
    hide EncDecimal, ToBE;
    ManyAre(EncFloatItem, floats, parts);
  }

  lemma TextArrayIs(s: Bytes, texts: seq<Text>, parts: seq<Bytes>)
    requires |parts| == |texts| && forall i | 0 <= i < |texts| :: parts[i] == EncBlob(texts[i])
    ensures EncodesBody(TextArray(texts), s) <==> IsCounted(s, parts)
  {
    hide EncDecimal, EncBlob;
    ManyAre(EncTextItem, texts, parts);
  }

  lemma LongArrayIs(s: Bytes, longs: seq<i64>, parts: seq<Bytes>)
    requires |parts| == |longs| && forall i | 0 <= i < |longs| :: parts[i] == EncDecimal(longs[i])
    ensures EncodesBody(LongArray(longs), s) <==> IsCounted(s, parts)
  {
    hide EncDecimal;
    ManyAre(EncDecimalItem, longs, parts);
  }

  /** A list is its count and its items, each with its code. */
  lemma ListIs(s: Bytes, items: seq<Value>)
    ensures EncodesBody(List(items), s) <==>
              exists parts: seq<Bytes> :: IsCounted(s, parts) && AreItems(parts, items)
  {
    hide EncDecimal, EncodesItem, Concat;
    if EncodesBody(List(items), s) {
      var parts := PartsOfList(items, s);
      assert IsCounted(s, parts) && AreItems(parts, items);
    }
    if exists parts: seq<Bytes> :: IsCounted(s, parts) && AreItems(parts, items) {
      var parts: seq<Bytes> :| IsCounted(s, parts) && AreItems(parts, items);
      assert |parts| == |items| && s == EncDecimal(|items|) + Concat(parts);
    }
  }

  ghost predicate AreItems(parts: seq<Bytes>, items: seq<Value>) {
    |parts| == |items| && forall i | 0 <= i < |items| :: EncodesItem(items[i], parts[i])
  }

  /** A map is its count and its entries in any order, each the key and then the value with its code. */
  lemma MapIs(s: Bytes, table: map<Text, Value>)
    ensures EncodesBody(MapValue(table), s) <==>
              exists keys, parts :: IsCounted(s, parts) && AreEntries(parts, keys, table)
  {
    hide EncodesBody, IsCounted, AreEntries;
    if EncodesBody(MapValue(table), s) {
      MapIsEntries(s, table);
    }
    if exists keys, parts :: IsCounted(s, parts) && AreEntries(parts, keys, table) {
      var keys, parts :| IsCounted(s, parts) && AreEntries(parts, keys, table);
      EntriesAreMap(s, table, keys, parts);
    }
  }

  lemma MapIsEntries(s: Bytes, table: map<Text, Value>)
    requires EncodesBody(MapValue(table), s)
    ensures exists keys, parts :: IsCounted(s, parts) && AreEntries(parts, keys, table)
  {
    hide EncodesBody, EncDecimal, EncodesItem, Concat, ConcatEntries, IsOrder, EncBlob, AreEntries;
    var (keys, values) := PartsOfMap(table, s);
    var parts := Pairs(keys, values);
    EntriesAre(keys, values, parts);
    OrderSize(keys, table);
    EntriesOfTable(table, keys, values, parts);
    assert IsCounted(s, parts);
  }

  lemma EntriesAreMap(s: Bytes, table: map<Text, Value>, keys: seq<Text>, parts: seq<Bytes>)
    requires IsCounted(s, parts) && AreEntries(parts, keys, table)
    ensures EncodesBody(MapValue(table), s)
  {
    hide EncodesBody, EncDecimal, EncodesItem, Concat, ConcatEntries, IsOrder, EncBlob;
    var values := ValueParts(table, keys, parts);
    EntriesAre(keys, values, parts);
    OrderSize(keys, table);
    BodyOfMap(s, table, keys, values);
  }

  lemma BodyOfMap(s: Bytes, table: map<Text, Value>, keys: seq<Text>, values: seq<Bytes>)
    requires |values| == |keys| && IsOrder(keys, table) && s == EncDecimal(|table|) + ConcatEntries(keys, values)
    requires forall i | 0 <= i < |keys| :: EncodesItem(table[keys[i]], values[i])
    ensures EncodesBody(MapValue(table), s)
  {
    hide EncDecimal, EncodesItem, ConcatEntries, IsOrder;
  }

  ghost predicate AreEntries(parts: seq<Bytes>, keys: seq<Text>, table: map<Text, Value>) {
    && |parts| == |keys| && IsOrder(keys, table)
    && forall i | 0 <= i < |keys| :: keys[i] in table && IsEntry(parts[i], keys[i], table[keys[i]])
  }

  ghost predicate IsEntry(part: Bytes, key: Text, v: Value) {
    exists value: Bytes :: part == EncBlob(key) + value && EncodesItem(v, value)
  }

  function Pairs(keys: seq<Text>, values: seq<Bytes>): (parts: seq<Bytes>)
    requires |keys| == |values|
    ensures |parts| == |keys| && forall i | 0 <= i < |keys| :: parts[i] == EncBlob(keys[i]) + values[i]
  {
    seq(|keys|, i requires 0 <= i < |keys| => EncBlob(keys[i]) + values[i])
  }

  lemma {:induction false} EntriesAre(keys: seq<Text>, values: seq<Bytes>, parts: seq<Bytes>)
    requires |parts| == |keys| == |values|
    requires forall i | 0 <= i < |keys| :: parts[i] == EncBlob(keys[i]) + values[i]
    ensures ConcatEntries(keys, values) == Concat(parts)
  {
    hide EncBlob;
    if keys != [] {
      EntriesAre(keys[1..], values[1..], parts[1..]);
    }
  }

  lemma OrderSize(keys: seq<Text>, table: map<Text, Value>)
    requires IsOrder(keys, table)
    ensures |keys| == |table| && forall i | 0 <= i < |keys| :: keys[i] in table
  {
  }

  lemma EntriesOfTable(table: map<Text, Value>, keys: seq<Text>, values: seq<Bytes>, parts: seq<Bytes>)
    requires IsOrder(keys, table) && |values| == |parts| == |keys|
    requires forall i | 0 <= i < |keys| :: keys[i] in table && EncodesItem(table[keys[i]], values[i])
    requires forall i | 0 <= i < |keys| :: parts[i] == EncBlob(keys[i]) + values[i]
    ensures AreEntries(parts, keys, table)
  {
    hide EncBlob, EncodesItem, IsOrder;
  }

  ghost function ValueParts(table: map<Text, Value>, keys: seq<Text>, parts: seq<Bytes>): (values: seq<Bytes>)
    requires AreEntries(parts, keys, table)
    ensures |values| == |keys|
    ensures forall i | 0 <= i < |keys| ::
              keys[i] in table && EncodesItem(table[keys[i]], values[i]) && parts[i] == EncBlob(keys[i]) + values[i]
  {
    seq(|keys|, i requires 0 <= i < |keys| => ValuePart(parts[i], keys[i], table[keys[i]]))
  }

  ghost function ValuePart(part: Bytes, key: Text, v: Value): (value: Bytes)
    requires IsEntry(part, key, v)
    ensures part == EncBlob(key) + value && EncodesItem(v, value)
  {
    var value: Bytes :| part == EncBlob(key) + value && EncodesItem(v, value);
    value
  }
}
