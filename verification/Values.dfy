/** Values of the wire protocol: seventeen kinds, three of which nest. A map is written in the
    arbitrary order in which its hash table happens to iterate. */
module Values {
  import opened ByteCodec
  import opened DataOutput
  import opened DataInput

  type u32 = x: int | 0 <= x < 0x1_0000_0000
  type u64 = x: int | 0 <= x < 0x1_0000_0000_0000_0000

  // ---------- text ----------

  predicate Continuation(b: Byte) { 0x80 <= b < 0xC0 }

  /** The length of the well-formed UTF-8 sequence at the front, or 0 (`String::from_utf8`; the
      table of well-formed byte sequences of the Unicode Standard). */
  function SequenceLength(s: Bytes): (n: nat)
    requires s != []
    ensures n <= |s|
  {
    var b := s[0];
    if b < 0x80 then 1
    else if |s| >= 2 && 0xC2 <= b < 0xE0 && Continuation(s[1]) then 2
    else if |s| >= 3 && 0xE0 <= b < 0xF0 && Continuation(s[1]) && Continuation(s[2])
         && (b == 0xE0 ==> s[1] >= 0xA0) && (b == 0xED ==> s[1] < 0xA0) then 3
    else if |s| >= 4 && 0xF0 <= b < 0xF5 && Continuation(s[1]) && Continuation(s[2]) && Continuation(s[3])
         && (b == 0xF0 ==> s[1] >= 0x90) && (b == 0xF4 ==> s[1] < 0x90) then 4
    else 0
  }

  predicate ValidUtf8(s: Bytes) {
    s == [] || (SequenceLength(s) > 0 && ValidUtf8(s[SequenceLength(s)..]))
  }

  type Text = s: Bytes | ValidUtf8(s) witness []

  /** `read_text`: a blob that must be UTF-8. */
  function DecText(s: Bytes): (r: Parse<Text>)
    ensures r.Got? ==> |r.rest| < |s|
  {
    match DecBlob(s)
    case Fail => Fail
    case Got(b, rest) => if ValidUtf8(b) then Got(b, rest) else Fail
  }

  // ---------- values ----------

  /** Floats and doubles are their bit patterns. */
  datatype Value =
    | Null
    | Boolean(b: bool)
    | Decimal(n: i64)
    | Float(bits: u32)
    | Double(dbits: u64)
    | DoubleSummary(count: i32, sum: u64, min: u64, max: u64)
    | LongSummary(lcount: i32, lsum: i64, lmin: i64, lmax: i64)
    | TextValue(text: Text)
    | TextHash(hash: i32)
    | Blob(blob: Bytes)
    | Ip4(addr: Bytes)
    | List(items: seq<Value>)
    | IntArray(ints: seq<i32>)
    | FloatArray(floats: seq<u32>)
    | TextArray(texts: seq<Text>)
    | LongArray(longs: seq<i64>)
    | MapValue(table: map<Text, Value>)

  /** `type_code`. */
  function TypeCode(v: Value): Byte {
    match v
    case Null => 0
    case Boolean(_) => 10
    case Decimal(_) => 20
    case Float(_) => 30
    case Double(_) => 40
    case DoubleSummary(_, _, _, _) => 45
    case LongSummary(_, _, _, _) => 46
    case TextValue(_) => 50
    case TextHash(_) => 51
    case Blob(_) => 60
    case Ip4(_) => 61
    case List(_) => 70
    case IntArray(_) => 71
    case FloatArray(_) => 72
    case TextArray(_) => 73
    case LongArray(_) => 74
    case MapValue(_) => 80
  }

  /** Lengths stay below the limits of their prefixes: 2^31 bytes for blobs and texts, 2^63 for
      element counts. */
  ghost predicate Storable(v: Value) {
    match v
    case TextValue(t) => |t| <= 0x7FFF_FFFF
    case Blob(b) => |b| <= 0x7FFF_FFFF
    case Ip4(b) => |b| <= 0x7FFF_FFFF
    case List(items) => |items| < 0x8000_0000_0000_0000 && forall i | 0 <= i < |items| :: Storable(items[i])
    case IntArray(ints) => |ints| < 0x8000_0000_0000_0000
    case FloatArray(floats) => |floats| < 0x8000_0000_0000_0000
    case TextArray(texts) =>
      |texts| < 0x8000_0000_0000_0000 && forall i | 0 <= i < |texts| :: |texts[i]| <= 0x7FFF_FFFF
    case LongArray(longs) => |longs| < 0x8000_0000_0000_0000
    case MapValue(table) =>
      |table| < 0x8000_0000_0000_0000 && forall k | k in table :: |k| <= 0x7FFF_FFFF && Storable(table[k])
    case _ => true
  }

  // ---------- what counts as an encoding ----------

  function EncMany<T>(enc: T -> Bytes, items: seq<T>): Bytes {
    if items == [] then [] else enc(items[0]) + EncMany(enc, items[1..])
  }

  function EncDecimalItem(n: i64): Bytes { EncDecimal(n) }

  function EncFloatItem(bits: u32): Bytes { ToBE(bits, 4) }

  function EncTextItem(t: Text): Bytes { EncBlob(t) }

  function EncIntItem(n: i32): Bytes { EncDecimal(n) }

  function Concat(parts: seq<Bytes>): Bytes {
    if parts == [] then [] else parts[0] + Concat(parts[1..])
  }

  function ConcatEntries(keys: seq<Text>, parts: seq<Bytes>): Bytes
    requires |keys| == |parts|
  {
    if keys == [] then [] else EncBlob(keys[0]) + parts[0] + ConcatEntries(keys[1..], parts[1..])
  }

  /** The keys of a table in some order, each once. */
  ghost predicate IsOrder(keys: seq<Text>, table: map<Text, Value>) {
    && |keys| == |table|
    && (forall i | 0 <= i < |keys| :: keys[i] in table)
    && (forall k | k in table :: k in keys)
  }

  /** s is what follows the type code when v is written, for some iteration order of every map
      inside v. */
  ghost predicate EncodesBody(v: Value, s: Bytes)
    decreases v, 0
  {
    match v
    case Null => s == []
    case Boolean(b) => s == EncBool(b)
    case Decimal(n) => s == EncDecimal(n)
    case Float(bits) => s == ToBE(bits, 4)
    case Double(bits) => s == ToBE(bits, 8)
    case DoubleSummary(count, sum, min, max) => s == ToBE(count, 4) + (ToBE(sum, 8) + (ToBE(min, 8) + ToBE(max, 8)))
    case LongSummary(count, sum, min, max) => s == ToBE(count, 4) + (ToBE(sum, 8) + (ToBE(min, 8) + ToBE(max, 8)))
    case TextValue(t) => s == EncBlob(t)
    case TextHash(h) => s == ToBE(h, 4)
    case Blob(b) => s == EncBlob(b)
    case Ip4(b) => s == EncBlob(b)
    case List(items) =>
      exists parts: seq<Bytes> ::
        && |parts| == |items|
        && s == EncDecimal(|items|) + Concat(parts)
        && forall i | 0 <= i < |items| :: EncodesItem(items[i], parts[i])
    case IntArray(ints) => s == EncDecimal(|ints|) + EncMany(EncIntItem, ints)
    case FloatArray(floats) => s == EncDecimal(|floats|) + EncMany(EncFloatItem, floats)
    case TextArray(texts) => s == EncDecimal(|texts|) + EncMany(EncTextItem, texts)
    case LongArray(longs) => s == EncDecimal(|longs|) + EncMany(EncDecimalItem, longs)
    case MapValue(table) =>
      exists keys: seq<Text>, parts: seq<Bytes> ::
        && |parts| == |keys| && IsOrder(keys, table)
        && s == EncDecimal(|table|) + ConcatEntries(keys, parts)
        && forall i | 0 <= i < |keys| :: EncodesItem(table[keys[i]], parts[i])
  }

  /** The type code and the body. */
  ghost predicate EncodesItem(v: Value, s: Bytes)
    decreases v, 1
  {
    s != [] && s[0] == TypeCode(v) && EncodesBody(v, s[1..])
  }

  // ---------- the decoder ----------

  function DecMany<T>(dec: Bytes -> Parse<T>, n: nat, s: Bytes): Parse<seq<T>>
    decreases n
  {
    if n == 0 then Got([], s)
    else
      match dec(s)
      case Fail => Fail
      case Got(v, rest) => Prepend(v, DecMany(dec, n - 1, rest))
  }

  function Prepend<T>(v: T, p: Parse<seq<T>>): Parse<seq<T>> {
    match p
    case Fail => Fail
    case Got(vs, rest) => Got([v] + vs, rest)
  }

  function DecDecimalItem(s: Bytes): Parse<i64> { DecDecimal(s) }

  function DecTextItem(s: Bytes): Parse<Text> { DecText(s) }

  function DecIntItem(s: Bytes): Parse<i32> {
    match DecDecimal(s)
    case Fail => Fail
    case Got(n, rest) => Got(AsI32(n), rest)
  }

  function DecFloatItem(s: Bytes): (r: Parse<u32>)
    ensures r.Got? ==> |r.rest| < |s|
  {
    Pow256Values();
    DecUnsigned(s, 4)
  }

  function DecDoubleItem(s: Bytes): (r: Parse<u64>)
    ensures r.Got? ==> |r.rest| < |s|
  {
    Pow256Values();
    DecUnsigned(s, 8)
  }

  function DecI32(s: Bytes): (r: Parse<i32>)
    ensures r.Got? ==> |r.rest| < |s|
  {
    Pow256Values();
    DecSigned(s, 4)
  }

  function DecI64(s: Bytes): (r: Parse<i64>)
    ensures r.Got? ==> |r.rest| < |s|
  {
    Pow256Values();
    DecSigned(s, 8)
  }

  function MapParse<T, U>(p: Parse<T>, f: T -> U): (r: Parse<U>)
    ensures p.Fail? ==> r.Fail?
    ensures p.Got? ==> r == Got(f(p.value), p.rest)
  {
    match p
    case Fail => Fail
    case Got(v, rest) => Got(f(v), rest)
  }

  lemma {:induction false} DecManyShrinks<T>(dec: Bytes -> Parse<T>, n: nat, s: Bytes)
    requires forall t: Bytes :: dec(t).Got? ==> |dec(t).rest| <= |t|
    ensures DecMany(dec, n, s).Got? ==> |DecMany(dec, n, s).rest| <= |s|
    decreases n
  {
    if n > 0 && dec(s).Got? {
      DecManyShrinks(dec, n - 1, dec(s).rest);
    }
  }

  /** A count and that many items of one simple kind. */
  function DecArray<T>(dec: Bytes -> Parse<T>, s: Bytes): (r: Parse<seq<T>>)
    requires forall t: Bytes :: dec(t).Got? ==> |dec(t).rest| <= |t|
    ensures r.Got? ==> |r.rest| <= |s|
  {
    match DecDecimal(s)
    case Fail => Fail
    case Got(n, rest) => DecManyShrinks(dec, AsUsize(n), rest); DecMany(dec, AsUsize(n), rest)
  }

  /** `Value::read`. */
  function DecBody(code: Byte, s: Bytes): (r: Parse<Value>)
    ensures r.Got? ==> |r.rest| <= |s|
    decreases |s|, 0
  {
    match code
    case 0 => Got(Null, s)
    case 10 => MapParse(DecBool(s), b => Boolean(b))
    case 20 => MapParse(DecDecimal(s), n => Decimal(n))
    case 30 => MapParse(DecFloatItem(s), bits => Float(bits))
    case 40 => MapParse(DecDoubleItem(s), bits => Double(bits))
    case 45 => DecDoubleSummary(s)
    case 46 => DecLongSummary(s)
    case 50 => MapParse(DecText(s), t => TextValue(t))
    case 51 => MapParse(DecI32(s), h => TextHash(h))
    case 60 => MapParse(DecBlob(s), b => Blob(b))
    case 61 => MapParse(DecBlob(s), b => Ip4(b))
    case 70 =>
      (match DecDecimal(s)
       case Fail => Fail
       case Got(n, rest) => MapParse(DecList(AsUsize(n), rest), items => List(items)))
    case 71 => MapParse(DecArray(DecIntItem, s), ints => IntArray(ints))
    case 72 => MapParse(DecArray(DecFloatItem, s), floats => FloatArray(floats))
    case 73 => MapParse(DecArray(DecTextItem, s), texts => TextArray(texts))
    case 74 => MapParse(DecArray(DecDecimalItem, s), longs => LongArray(longs))
    case 80 =>
      (match DecDecimal(s)
       case Fail => Fail
       case Got(n, rest) => MapParse(DecEntries(AsUsize(n), rest, map[]), table => MapValue(table)))
    case _ => Fail
  }

  function DecDoubleSummary(s: Bytes): (r: Parse<Value>)
    ensures r.Got? ==> |r.rest| <= |s|
  {
    match DecI32(s)
    case Fail => Fail
    case Got(count, s1) =>
      match DecDoubleItem(s1)
      case Fail => Fail
      case Got(sum, s2) =>
        match DecDoubleItem(s2)
        case Fail => Fail
        case Got(min, s3) =>
          match DecDoubleItem(s3)
          case Fail => Fail
          case Got(max, s4) => Got(DoubleSummary(count, sum, min, max), s4)
  }

  function DecLongSummary(s: Bytes): (r: Parse<Value>)
    ensures r.Got? ==> |r.rest| <= |s|
  {
    match DecI32(s)
    case Fail => Fail
    case Got(count, s1) =>
      match DecI64(s1)
      case Fail => Fail
      case Got(sum, s2) =>
        match DecI64(s2)
        case Fail => Fail
        case Got(min, s3) =>
          match DecI64(s3)
          case Fail => Fail
          case Got(max, s4) => Got(LongSummary(count, sum, min, max), s4)
  }

  /** `read_value`. On every input it terminates, because each call that returns a value has
      consumed at least its type code. */
  function DecValue(s: Bytes): (r: Parse<Value>)
    ensures r.Got? ==> |r.rest| < |s|
    decreases |s|, 1
  {
    if s == [] then Fail else DecBody(s[0], s[1..])
  }

  function DecList(n: nat, s: Bytes): (r: Parse<seq<Value>>)
    ensures r.Got? ==> |r.rest| <= |s| && |r.value| == n
    decreases |s|, 2
  {
    if n == 0 then Got([], s)
    else
      match DecValue(s)
      case Fail => Fail
      case Got(v, rest) => Prepend(v, DecList(n - 1, rest))
  }

  /** Entries are put into the table one by one; a repeated key replaces the earlier value. */
  function DecEntries(n: nat, s: Bytes, table: map<Text, Value>): (r: Parse<map<Text, Value>>)
    ensures r.Got? ==> |r.rest| <= |s|
    decreases |s|, 2
  {
    if n == 0 then Got(table, s)
    else
      match DecText(s)
      case Fail => Fail
      case Got(key, s1) =>
        match DecValue(s1)
        case Fail => Fail
        case Got(v, s2) => DecEntries(n - 1, s2, table[key := v])
  }

  // ---------- round trip ----------

  /** Reading the encoding of x, whatever follows it, gives x back and leaves what followed. */
  ghost predicate Inverts<T(!new)>(enc: T -> Bytes, dec: Bytes -> Parse<T>, x: T) {
    forall t: Bytes :: dec(enc(x) + t) == Got(x, t)
  }

  ghost predicate ReadsBack(v: Value, s: Bytes) {
    forall t: Bytes :: DecValue(s + t) == Got(v, t)
  }

  lemma {:induction false} ManyRoundTrip<T(!new)>(enc: T -> Bytes, dec: Bytes -> Parse<T>, items: seq<T>, rest: Bytes)
    requires forall i | 0 <= i < |items| :: Inverts(enc, dec, items[i])
    ensures DecMany(dec, |items|, EncMany(enc, items) + rest) == Got(items, rest)
  {
    if items != [] {
      ManyRoundTrip(enc, dec, items[1..], rest);
      var tail := EncMany(enc, items[1..]) + rest;
      assert EncMany(enc, items) + rest == enc(items[0]) + tail;
      assert Inverts(enc, dec, items[0]);
      assert [items[0]] + items[1..] == items;
    }
  }

  lemma ArrayRoundTrip<T(!new)>(enc: T -> Bytes, dec: Bytes -> Parse<T>, items: seq<T>, rest: Bytes)
    requires forall t: Bytes :: dec(t).Got? ==> |dec(t).rest| <= |t|
    requires |items| < 0x8000_0000_0000_0000
    requires forall i | 0 <= i < |items| :: Inverts(enc, dec, items[i])
    ensures DecArray(dec, EncDecimal(|items|) + EncMany(enc, items) + rest) == Got(items, rest)
  {
    hide Inverts, EncDecimal, DecDecimal;
    var body := EncMany(enc, items) + rest;
    assert EncDecimal(|items|) + EncMany(enc, items) + rest == EncDecimal(|items|) + body;
    DecimalRoundTrip(|items|, body);
    ManyRoundTrip(enc, dec, items, rest);
  }

  lemma TextRoundTrip(t: Text, rest: Bytes)
    requires |t| <= 0x7FFF_FFFF
    ensures DecText(EncBlob(t) + rest) == Got(t, rest)
  {
    BlobRoundTrip(t, rest);
  }

  lemma I32RoundTrip(n: i32, rest: Bytes)
    ensures DecI32(ToBE(n, 4) + rest) == Got(n, rest)
  {
    Pow256Values();
    DecSignedOfEnc(n, 4, rest);
  }

  lemma I64RoundTrip(n: i64, rest: Bytes)
    ensures DecI64(ToBE(n, 8) + rest) == Got(n, rest)
  {
    Pow256Values();
    DecSignedOfEnc(n, 8, rest);
  }

  lemma FloatRoundTrip(bits: u32, rest: Bytes)
    ensures DecFloatItem(ToBE(bits, 4) + rest) == Got(bits, rest)
  {
    Pow256Values();
    DecUnsignedOfEnc(bits, 4, rest);
  }

  lemma DoubleRoundTrip(bits: u64, rest: Bytes)
    ensures DecDoubleItem(ToBE(bits, 8) + rest) == Got(bits, rest)
  {
    Pow256Values();
    DecUnsignedOfEnc(bits, 8, rest);
  }

  lemma DecimalInverts(n: i64)
    ensures Inverts(EncDecimalItem, DecDecimalItem, n)
  {
    hide EncDecimal, DecDecimal;
    forall t: Bytes
      ensures DecDecimalItem(EncDecimalItem(n) + t) == Got(n, t)
    {
      DecimalRoundTrip(n, t);
    }
  }

  lemma IntInverts(n: i32)
    ensures Inverts(EncIntItem, DecIntItem, n)
  {
    hide EncDecimal, DecDecimal;
    forall t: Bytes
      ensures DecIntItem(EncIntItem(n) + t) == Got(n, t)
    {
      DecimalRoundTrip(n, t);
    }
  }

  lemma FloatInverts(bits: u32)
    ensures Inverts(EncFloatItem, DecFloatItem, bits)
  {
    forall t: Bytes
      ensures DecFloatItem(EncFloatItem(bits) + t) == Got(bits, t)
    {
      FloatRoundTrip(bits, t);
    }
  }

  lemma TextInverts(text: Text)
    requires |text| <= 0x7FFF_FFFF
    ensures Inverts(EncTextItem, DecTextItem, text)
  {
    hide EncBlob, DecText;
    forall t: Bytes
      ensures DecTextItem(EncTextItem(text) + t) == Got(text, t)
    {
      TextRoundTrip(text, t);
    }
  }

  lemma {:induction false} ListRoundTrip(items: seq<Value>, parts: seq<Bytes>, i: nat, rest: Bytes)
    requires |parts| == |items| && i <= |items|
    requires forall j | i <= j < |items| :: ReadsBack(items[j], parts[j])
    ensures DecList(|items| - i, Concat(parts[i..]) + rest) == Got(items[i..], rest)
    decreases |items| - i
  {
    hide DecValue;
    if i < |items| {
      ListRoundTrip(items, parts, i + 1, rest);
      var tail := Concat(parts[i + 1..]) + rest;
      assert parts[i..][1..] == parts[i + 1..];
      assert Concat(parts[i..]) + rest == parts[i] + tail;
      assert ReadsBack(items[i], parts[i]);
      assert [items[i]] + items[i + 1..] == items[i..];
      ListStep(|items| - i, parts[i], items[i], tail);
    } else {
      assert parts[i..] == [] && items[i..] == [] && [] + rest == rest;
    }
  }

  lemma ListStep(n: nat, part: Bytes, v: Value, tail: Bytes)
    requires n > 0 && DecValue(part + tail) == Got(v, tail)
    ensures DecList(n, part + tail) == Prepend(v, DecList(n - 1, tail))
  {
    hide DecValue;
  }

  /** Reading the entries of a table in any order rebuilds it. */
  lemma {:induction false} EntriesRoundTrip(table: map<Text, Value>, keys: seq<Text>, parts: seq<Bytes>, i: nat,
                                            rest: Bytes, acc: map<Text, Value>)
    requires |parts| == |keys| && i <= |keys| && IsOrder(keys, table)
    requires forall j | i <= j < |keys| :: |keys[j]| <= 0x7FFF_FFFF
    requires forall j | i <= j < |keys| :: ReadsBack(table[keys[j]], parts[j])
    requires forall k | k in acc :: k in table && acc[k] == table[k]
    requires forall j | 0 <= j < i :: keys[j] in acc
    ensures DecEntries(|keys| - i, ConcatEntries(keys[i..], parts[i..]) + rest, acc) == Got(table, rest)
    decreases |keys| - i
  {
    hide DecValue, DecText, EncBlob, DecEntries, ConcatEntries, IsOrder;
    if i < |keys| {
      KeyIsInTable(table, keys, i);
      var next := acc[keys[i] := table[keys[i]]];
      EntriesRoundTrip(table, keys, parts, i + 1, rest, next);
      var tail := ConcatEntries(keys[i + 1..], parts[i + 1..]) + rest;
      EntriesAt(keys, parts, i, rest);
      TextRoundTrip(keys[i], parts[i] + tail);
      assert ReadsBack(table[keys[i]], parts[i]);
      EntriesStep(|keys| - i, keys[i], parts[i], table[keys[i]], tail, acc);
    } else {
      assert keys[i..] == [] && parts[i..] == [];
      AllKeysCovered(table, keys, acc);
      NoEntries(rest, acc);
    }
  }

  lemma KeyIsInTable(table: map<Text, Value>, keys: seq<Text>, i: nat)
    requires IsOrder(keys, table) && i < |keys|
    ensures keys[i] in table
  {
  }

  lemma NoEntries(rest: Bytes, acc: map<Text, Value>)
    ensures DecEntries(0, ConcatEntries([], []) + rest, acc) == Got(acc, rest)
  {
    assert [] + rest == rest;
  }

  lemma EntriesAt(keys: seq<Text>, parts: seq<Bytes>, i: nat, rest: Bytes)
    requires i < |keys| == |parts|
    ensures ConcatEntries(keys[i..], parts[i..]) + rest
         == EncBlob(keys[i]) + (parts[i] + (ConcatEntries(keys[i + 1..], parts[i + 1..]) + rest))
  {
    hide EncBlob;
    assert keys[i..][1..] == keys[i + 1..] && parts[i..][1..] == parts[i + 1..];
  }

  lemma AllKeysCovered(table: map<Text, Value>, keys: seq<Text>, acc: map<Text, Value>)
    requires IsOrder(keys, table)
    requires forall k | k in acc :: k in table && acc[k] == table[k]
    requires forall j | 0 <= j < |keys| :: keys[j] in acc
    ensures acc == table
  {
    assert forall k | k in table :: k in acc;
  }

  lemma EntriesStep(n: nat, key: Text, part: Bytes, v: Value, tail: Bytes, acc: map<Text, Value>)
    requires n > 0
    requires DecText(EncBlob(key) + (part + tail)) == Got(key, part + tail)
    requires DecValue(part + tail) == Got(v, tail)
    ensures DecEntries(n, EncBlob(key) + (part + tail), acc) == DecEntries(n - 1, tail, acc[key := v])
  {
    hide DecValue, DecText, EncBlob;
  }

  lemma DoubleSummaryRoundTrip(count: i32, sum: u64, min: u64, max: u64, s: Bytes, rest: Bytes)
    requires s == ToBE(count, 4) + (ToBE(sum, 8) + (ToBE(min, 8) + ToBE(max, 8)))
    ensures DecDoubleSummary(s + rest) == Got(DoubleSummary(count, sum, min, max), rest)
  {
    hide DecI32, DecDoubleItem, ToBE;
    SplitFour(s, rest, ToBE(count, 4), ToBE(sum, 8), ToBE(min, 8), ToBE(max, 8));
    I32RoundTrip(count, ToBE(sum, 8) + (ToBE(min, 8) + (ToBE(max, 8) + rest)));
    DoubleRoundTrip(sum, ToBE(min, 8) + (ToBE(max, 8) + rest));
    DoubleRoundTrip(min, ToBE(max, 8) + rest);
    DoubleRoundTrip(max, rest);
  }

  lemma LongSummaryRoundTrip(count: i32, sum: i64, min: i64, max: i64, s: Bytes, rest: Bytes)
    requires s == ToBE(count, 4) + (ToBE(sum, 8) + (ToBE(min, 8) + ToBE(max, 8)))
    ensures DecLongSummary(s + rest) == Got(LongSummary(count, sum, min, max), rest)
  {
    hide DecI32, DecI64, ToBE;
    SplitFour(s, rest, ToBE(count, 4), ToBE(sum, 8), ToBE(min, 8), ToBE(max, 8));
    I32RoundTrip(count, ToBE(sum, 8) + (ToBE(min, 8) + (ToBE(max, 8) + rest)));
    I64RoundTrip(sum, ToBE(min, 8) + (ToBE(max, 8) + rest));
    I64RoundTrip(min, ToBE(max, 8) + rest);
    I64RoundTrip(max, rest);
  }

  lemma SplitFour(s: Bytes, rest: Bytes, a: Bytes, b: Bytes, c: Bytes, d: Bytes)
    requires s == a + (b + (c + d))
    ensures s + rest == a + (b + (c + (d + rest)))
  {
  }

  lemma ArraysRoundTrip(v: Value, s: Bytes, rest: Bytes)
    requires Storable(v) && EncodesBody(v, s)
    requires v.IntArray? || v.FloatArray? || v.TextArray? || v.LongArray?
    ensures v.IntArray? ==> DecArray(DecIntItem, s + rest) == Got(v.ints, rest)
    ensures v.FloatArray? ==> DecArray(DecFloatItem, s + rest) == Got(v.floats, rest)
    ensures v.TextArray? ==> DecArray(DecTextItem, s + rest) == Got(v.texts, rest)
    ensures v.LongArray? ==> DecArray(DecDecimalItem, s + rest) == Got(v.longs, rest)
  {
    hide EncDecimal, DecArray, EncMany, Inverts, DecIntItem, DecTextItem;
    match v
    case IntArray(ints) =>
      forall i | 0 <= i < |ints| ensures Inverts(EncIntItem, DecIntItem, ints[i]) { IntInverts(ints[i]); }
      ItemsShrink();
      ArrayRoundTrip(EncIntItem, DecIntItem, ints, rest);
    case FloatArray(floats) =>
      forall i | 0 <= i < |floats| ensures Inverts(EncFloatItem, DecFloatItem, floats[i]) { FloatInverts(floats[i]); }
      ArrayRoundTrip(EncFloatItem, DecFloatItem, floats, rest);
    case TextArray(texts) =>
      forall i | 0 <= i < |texts| ensures Inverts(EncTextItem, DecTextItem, texts[i]) { TextInverts(texts[i]); }
      ItemsShrink();
      ArrayRoundTrip(EncTextItem, DecTextItem, texts, rest);
    case LongArray(longs) =>
      forall i | 0 <= i < |longs|
        ensures Inverts(EncDecimalItem, DecDecimalItem, longs[i])
      {
        DecimalInverts(longs[i]);
      }
      ArrayRoundTrip(EncDecimalItem, DecDecimalItem, longs, rest);
  }

  lemma ItemsShrink()
    ensures forall t: Bytes :: DecIntItem(t).Got? ==> |DecIntItem(t).rest| <= |t|
    ensures forall t: Bytes :: DecTextItem(t).Got? ==> |DecTextItem(t).rest| <= |t|
  {
  }

  predicate IsScalar(v: Value) {
    v.Null? || v.Boolean? || v.Decimal? || v.Float? || v.Double? || v.TextHash?
  }

  lemma ScalarRoundTrip(v: Value, s: Bytes, rest: Bytes)
    requires IsScalar(v) && EncodesBody(v, s)
    ensures DecBody(TypeCode(v), s + rest) == Got(v, rest)
  {
    hide EncDecimal, ToBE, DecDecimal, DecI32, DecFloatItem, DecDoubleItem, DecArray, DecText, DecBlob,
         DecDoubleSummary, DecLongSummary;
    match v
    case Null => assert s + rest == rest;
    case Boolean(b) => assert (s + rest)[1..] == rest;
    case Decimal(n) => DecimalRoundTrip(n, rest);
    case Float(bits) => FloatRoundTrip(bits, rest);
    case Double(bits) => DoubleRoundTrip(bits, rest);
    case TextHash(h) => I32RoundTrip(h, rest);
  }

  /** The bodies of the kinds that do not nest. */
  lemma FlatRoundTrip(v: Value, s: Bytes, rest: Bytes)
    requires Storable(v) && EncodesBody(v, s) && !v.List? && !v.MapValue?
    ensures DecBody(TypeCode(v), s + rest) == Got(v, rest)
  {
    hide EncBlob, EncDecimal, ToBE, DecBlob, DecDecimal, DecText, DecI32, DecFloatItem, DecDoubleItem, DecArray,
         DecDoubleSummary, DecLongSummary, EncMany, DecBool;
    if IsScalar(v) {
      ScalarRoundTrip(v, s, rest);
    } else if v.DoubleSummary? || v.LongSummary? {
      SummaryRoundTrip(v, s, rest);
    } else if v.TextValue? {
      TextRoundTrip(v.text, rest);
    } else if v.Blob? {
      BlobRoundTrip(v.blob, rest);
    } else if v.Ip4? {
      BlobRoundTrip(v.addr, rest);
    } else {
      ArraysRoundTrip(v, s, rest);
    }
  }

  lemma SummaryRoundTrip(v: Value, s: Bytes, rest: Bytes)
    requires (v.DoubleSummary? || v.LongSummary?) && EncodesBody(v, s)
    ensures DecBody(TypeCode(v), s + rest) == Got(v, rest)
  {
    hide ToBE, DecDoubleSummary, DecLongSummary;
    if v.DoubleSummary? {
      DoubleSummaryRoundTrip(v.count, v.sum, v.min, v.max, s, rest);
    } else {
      LongSummaryRoundTrip(v.lcount, v.lsum, v.lmin, v.lmax, s, rest);
    }
  }

  /** Reading any encoding of v, in whatever order its maps were iterated, followed by any bytes,
      yields v and leaves exactly those bytes. */
  lemma {:induction false} ValueRoundTrip(v: Value, s: Bytes, rest: Bytes)
    requires Storable(v) && EncodesItem(v, s)
    ensures DecValue(s + rest) == Got(v, rest)
    decreases v, 2
  {
    hide EncodesBody, DecBody, Storable;
    var body := s[1..];
    assert (s + rest)[1..] == body + rest;
    match v
    case List(items) => NestedListRoundTrip(v, items, body, rest);
    case MapValue(table) => NestedMapRoundTrip(v, table, body, rest);
    case _ => FlatRoundTrip(v, body, rest);
  }

  lemma {:induction false} NestedListRoundTrip(v: Value, items: seq<Value>, s: Bytes, rest: Bytes)
    requires v == List(items) && Storable(v) && EncodesBody(v, s)
    ensures DecBody(TypeCode(v), s + rest) == Got(v, rest)
    decreases v, 1
  {
    hide EncDecimal, DecDecimal, DecValue, EncodesItem, ReadsBack, DecList, Concat;
    var parts := PartsOfList(items, s);
    forall i | 0 <= i < |items|
      ensures ReadsBack(items[i], parts[i])
    {
      ItemReadsBack(items[i], parts[i]);
    }
    assert s + rest == EncDecimal(|items|) + (Concat(parts) + rest);
    DecimalRoundTrip(|items|, Concat(parts) + rest);
    ListRoundTrip(items, parts, 0, rest);
    assert parts[0..] == parts && items[0..] == items;
  }

  ghost function PartsOfList(items: seq<Value>, s: Bytes): (parts: seq<Bytes>)
    requires EncodesBody(List(items), s)
    ensures |parts| == |items| && s == EncDecimal(|items|) + Concat(parts)
    ensures forall i | 0 <= i < |items| :: EncodesItem(items[i], parts[i])
  {
    var parts: seq<Bytes> :| |parts| == |items| && s == EncDecimal(|items|) + Concat(parts)
                          && forall i | 0 <= i < |items| :: EncodesItem(items[i], parts[i]);
    parts
  }

  lemma ItemReadsBack(v: Value, s: Bytes)
    requires Storable(v) && EncodesItem(v, s)
    ensures ReadsBack(v, s)
    decreases v, 3
  {
    hide EncodesItem, DecValue, Storable;
    forall t: Bytes
      ensures DecValue(s + t) == Got(v, t)
    {
      ValueRoundTrip(v, s, t);
    }
  }

  lemma {:induction false} NestedMapRoundTrip(v: Value, table: map<Text, Value>, s: Bytes, rest: Bytes)
    requires v == MapValue(table) && Storable(v) && EncodesBody(v, s)
    ensures DecBody(TypeCode(v), s + rest) == Got(v, rest)
    decreases v, 1
  {
    hide EncDecimal, DecDecimal, DecValue, EncodesItem, EncodesBody, Storable, ReadsBack, DecBody, ConcatEntries;
    var (keys, parts) := PartsOfMap(table, s);
    StorableEntries(table);
    forall i | 0 <= i < |keys|
      ensures |keys[i]| <= 0x7FFF_FFFF && ReadsBack(table[keys[i]], parts[i])
    {
      ItemReadsBack(table[keys[i]], parts[i]);
    }
    MapBodyRoundTrip(table, keys, parts, rest);
    assert s + rest == EncDecimal(|table|) + (ConcatEntries(keys, parts) + rest);
  }

  lemma StorableEntries(table: map<Text, Value>)
    requires Storable(MapValue(table))
    ensures |table| < 0x8000_0000_0000_0000
    ensures forall k | k in table :: |k| <= 0x7FFF_FFFF && Storable(table[k])
  {
  }

  lemma MapBodyRoundTrip(table: map<Text, Value>, keys: seq<Text>, parts: seq<Bytes>, rest: Bytes)
    requires |parts| == |keys| && IsOrder(keys, table) && |table| < 0x8000_0000_0000_0000
    requires forall i | 0 <= i < |keys| :: |keys[i]| <= 0x7FFF_FFFF
    requires forall i | 0 <= i < |keys| :: ReadsBack(table[keys[i]], parts[i])
    ensures DecBody(80, EncDecimal(|table|) + (ConcatEntries(keys, parts) + rest)) == Got(MapValue(table), rest)
  {
    hide EncDecimal, DecDecimal, DecValue, ReadsBack, DecEntries, ConcatEntries;
    DecimalRoundTrip(|table|, ConcatEntries(keys, parts) + rest);
    EntriesRoundTrip(table, keys, parts, 0, rest, map[]);
    assert keys[0..] == keys && parts[0..] == parts;
  }

  ghost function PartsOfMap(table: map<Text, Value>, s: Bytes): (p: (seq<Text>, seq<Bytes>))
    requires EncodesBody(MapValue(table), s)
    ensures |p.1| == |p.0| && IsOrder(p.0, table)
    ensures s == EncDecimal(|table|) + ConcatEntries(p.0, p.1)
    ensures forall i | 0 <= i < |p.0| :: EncodesItem(table[p.0[i]], p.1[i])
  {
    var keys: seq<Text>, parts: seq<Bytes> :|
      && |parts| == |keys| && IsOrder(keys, table)
      && s == EncDecimal(|table|) + ConcatEntries(keys, parts)
      && forall i | 0 <= i < |keys| :: EncodesItem(table[keys[i]], parts[i]);
    (keys, parts)
  }
}
