/** The transaction log pack: 43 fields in one length-prefixed envelope. The first 20 are always
    there; the rest form optional groups that older senders leave out at the end. */
module XLogPack {
  import opened ByteCodec
  import opened DataOutput
  import opened DataInput
  import opened Values

  datatype XLogPack = XLogPack(
    endTime: i64, objHash: i32, service: i32, txid: i64, caller: i64, gxid: i64, elapsed: i32, error: i32, cpu: i32,
    sqlCount: i32, sqlTime: i32, ipaddr: Bytes, kbytes: i32, status: i32, userid: i64, userAgent: i32, referer: i32,
    group: i32, apicallCount: i32, apicallTime: i32, countryCode: Text, city: i32, xType: i8, login: i32, desc: i32,
    webHash: i32, webTime: i32, hasDump: i8, threadNameHash: i32, text1: Text, text2: Text, queuingHostHash: i32,
    queuingTime: i32, queuing2ndHostHash: i32, queuing2ndTime: i32, text3: Text, text4: Text, text5: Text,
    profileCount: i32, b3Mode: bool, profileSize: i32, discardType: i8, ignoreGlobalConsequentSampling: bool)

  /** `XLogPack::default`. */
  const DEFAULT_PACK: XLogPack := XLogPack(
    0, 0, 0, 0, 0, 0, 0, 0, 0, 0, 0, [], 0, 0, 0, 0, 0, 0, 0, 0, [], 0, 0, 0, 0, 0, 0, 0, 0, [], [], 0, 0, 0, 0, [],
    [], [], 0, false, 0, 0, false)

  // ---------- fields ----------

  datatype Kind = KDec | KInt | KLong | KOctet | KStr | KRaw | KFlag

  datatype Kinds = End | Then(kind: Kind, more: Kinds)

  datatype Field =
    | Dec(d: i64)
    | Int(n: i32)
    | Long(l: i64)
    | Octet(o: i8)
    | Str(t: Text)
    | Raw(b: Bytes)
    | Flag(f: bool)

  function KindOf(f: Field): Kind {
    match f
    case Dec(_) => KDec
    case Int(_) => KInt
    case Long(_) => KLong
    case Octet(_) => KOctet
    case Str(_) => KStr
    case Raw(_) => KRaw
    case Flag(_) => KFlag
  }

  function EncField(f: Field): (s: Bytes)
    ensures s != []
  {
    match f
    case Dec(d) => EncDecimal(d)
    case Int(n) => EncDecimal(n)
    case Long(l) => ToBE(l, 8)
    case Octet(o) => [o % 256]
    case Str(t) => EncBlob(t)
    case Raw(b) => EncBlob(b)
    case Flag(f) => EncBool(f)
  }

  function DecField(k: Kind, s: Bytes): (r: Parse<Field>)
    ensures r.Got? ==> KindOf(r.value) == k && |r.rest| < |s|
  {
    match k
    case KDec => MapParse(DecDecimal(s), d => Dec(d))
    case KInt => MapParse(DecIntItem(s), n => Int(n))
    case KLong => MapParse(DecI64(s), l => Long(l))
    case KOctet => MapParse(DecOctet(s), o => Octet(o))
    case KStr => MapParse(DecText(s), t => Str(t))
    case KRaw => MapParse(DecBlob(s), b => Raw(b))
    case KFlag => MapParse(DecBool(s), f => Flag(f))
  }

  function DecOctet(s: Bytes): (r: Parse<i8>)
    ensures r.Got? ==> |r.rest| < |s|
  {
    Pow256Values();
    DecSigned(s, 1)
  }

  function EncFields(fs: seq<Field>): Bytes {
    if fs == [] then [] else EncField(fs[0]) + EncFields(fs[1..])
  }

  function DecFields(ks: Kinds, s: Bytes): (r: Parse<seq<Field>>)
    ensures r.Got? ==> |r.rest| <= |s|
  {
    match ks
    case End => Got([], s)
    case Then(k, more) =>
      match DecField(k, s)
      case Fail => Fail
      case Got(f, rest) => Prepend(f, DecFields(more, rest))
  }

  /** DecFields for up to four fields, unrolled. */
  function DecFour(ks: Kinds, s: Bytes): Parse<seq<Field>> {
    match ks
    case End => Got([], s)
    case Then(k1, ks1) =>
      match DecField(k1, s)
      case Fail => Fail
      case Got(f1, s1) => Prepend(f1,
        match ks1
        case End => Got([], s1)
        case Then(k2, ks2) =>
          match DecField(k2, s1)
          case Fail => Fail
          case Got(f2, s2) => Prepend(f2,
            match ks2
            case End => Got([], s2)
            case Then(k3, ks3) =>
              match DecField(k3, s2)
              case Fail => Fail
              case Got(f3, s3) => Prepend(f3,
                match ks3
                case End => Got([], s3)
                case Then(k4, _) =>
                  match DecField(k4, s3)
                  case Fail => Fail
                  case Got(f4, s4) => Prepend(f4, Got([], s4)))))
  }

  predicate AtMostFour(ks: Kinds) {
    ks.Then? && ks.more.Then? && ks.more.more.Then? && ks.more.more.more.Then? ==> ks.more.more.more.more.End?
  }

  lemma Unroll(ks: Kinds, s: Bytes)
    requires AtMostFour(ks)
    ensures DecFields(ks, s) == DecFour(ks, s)
  {
    hide DecField;
    if ks.Then? && DecField(ks.kind, s).Got? {
      var s1 := DecField(ks.kind, s).rest;
      var r1 := DecFields(ks.more, s1);
      if ks.more.Then? && DecField(ks.more.kind, s1).Got? {
        var s2 := DecField(ks.more.kind, s1).rest;
        var r2 := DecFields(ks.more.more, s2);
        if ks.more.more.Then? && DecField(ks.more.more.kind, s2).Got? {
          var s3 := DecField(ks.more.more.kind, s2).rest;
          var r3 := DecFields(ks.more.more.more, s3);
          if ks.more.more.more.Then? && DecField(ks.more.more.more.kind, s3).Got? {
            var r4 := DecFields(End, DecField(ks.more.more.more.kind, s3).rest);
          }
        }
      }
    }
  }

  function KindsOf(fs: seq<Field>): Kinds {
    if fs == [] then End else Then(KindOf(fs[0]), KindsOf(fs[1..]))
  }

  function DecAt(fs: seq<Field>, i: nat): i64 { if i < |fs| && fs[i].Dec? then fs[i].d else 0 }

  function IntAt(fs: seq<Field>, i: nat): i32 { if i < |fs| && fs[i].Int? then fs[i].n else 0 }

  function LongAt(fs: seq<Field>, i: nat): i64 { if i < |fs| && fs[i].Long? then fs[i].l else 0 }

  function OctetAt(fs: seq<Field>, i: nat): i8 { if i < |fs| && fs[i].Octet? then fs[i].o else 0 }

  function StrAt(fs: seq<Field>, i: nat): Text { if i < |fs| && fs[i].Str? then fs[i].t else [] }

  function RawAt(fs: seq<Field>, i: nat): Bytes { if i < |fs| && fs[i].Raw? then fs[i].b else [] }

  predicate FlagAt(fs: seq<Field>, i: nat) { i < |fs| && fs[i].Flag? && fs[i].f }

  // ---------- the wire layout ----------

  /** The groups in wire order. Groups below FIXED are always on the wire. */
  const GROUPS: nat := 17

  const FIXED: nat := 5

  /** The fields of group i of a pack, in the order the writer emits them. */
  function Group(i: nat, p: XLogPack): seq<Field>
    requires i < GROUPS
  {
    match i
    case 0 => [Dec(p.endTime), Int(p.objHash), Int(p.service), Long(p.txid)]
    case 1 => [Long(p.caller), Long(p.gxid), Int(p.elapsed), Int(p.error)]
    case 2 => [Int(p.cpu), Int(p.sqlCount), Int(p.sqlTime), Raw(p.ipaddr)]
    case 3 => [Int(p.kbytes), Int(p.status), Dec(p.userid), Int(p.userAgent)]
    case 4 => [Int(p.referer), Int(p.group), Int(p.apicallCount), Int(p.apicallTime)]
    case 5 => [Str(p.countryCode), Int(p.city)]
    case 6 => [Octet(p.xType)]
    case 7 => [Int(p.login), Int(p.desc)]
    case 8 => [Int(p.webHash), Int(p.webTime)]
    case 9 => [Octet(p.hasDump)]
    case 10 => [Int(p.threadNameHash)]
    case 11 => [Str(p.text1), Str(p.text2)]
    case 12 => [Int(p.queuingHostHash), Int(p.queuingTime), Int(p.queuing2ndHostHash), Int(p.queuing2ndTime)]
    case 13 => [Str(p.text3), Str(p.text4), Str(p.text5)]
    case 14 => [Int(p.profileCount)]
    case 15 => [Flag(p.b3Mode)]
    case _ => [Int(p.profileSize), Octet(p.discardType), Flag(p.ignoreGlobalConsequentSampling)]
  }

  /** What the reader expects in group i. */
  function Layout(i: nat): Kinds
    requires i < GROUPS
  {
    match i
    case 0 => Then(KDec, Then(KInt, Then(KInt, Then(KLong, End))))
    case 1 => Then(KLong, Then(KLong, Then(KInt, Then(KInt, End))))
    case 2 => Then(KInt, Then(KInt, Then(KInt, Then(KRaw, End))))
    case 3 => Then(KInt, Then(KInt, Then(KDec, Then(KInt, End))))
    case 4 => Then(KInt, Then(KInt, Then(KInt, Then(KInt, End))))
    case 5 => Then(KStr, Then(KInt, End))
    case 6 => Then(KOctet, End)
    case 7 => Then(KInt, Then(KInt, End))
    case 8 => Then(KInt, Then(KInt, End))
    case 9 => Then(KOctet, End)
    case 10 => Then(KInt, End)
    case 11 => Then(KStr, Then(KStr, End))
    case 12 => Then(KInt, Then(KInt, Then(KInt, Then(KInt, End))))
    case 13 => Then(KStr, Then(KStr, Then(KStr, End)))
    case 14 => Then(KInt, End)
    case 15 => Then(KFlag, End)
    case _ => Then(KInt, Then(KOctet, Then(KFlag, End)))
  }

  /** The pack with the fields of group i assigned as the reader assigns them. */
  function Assign(i: nat, p: XLogPack, fs: seq<Field>): XLogPack
    requires i < GROUPS
  {
    match i
    case 0 => p.(endTime := DecAt(fs, 0), objHash := IntAt(fs, 1), service := IntAt(fs, 2), txid := LongAt(fs, 3))
    case 1 => p.(caller := LongAt(fs, 0), gxid := LongAt(fs, 1), elapsed := IntAt(fs, 2), error := IntAt(fs, 3))
    case 2 => p.(cpu := IntAt(fs, 0), sqlCount := IntAt(fs, 1), sqlTime := IntAt(fs, 2), ipaddr := RawAt(fs, 3))
    case 3 => p.(kbytes := IntAt(fs, 0), status := IntAt(fs, 1), userid := DecAt(fs, 2), userAgent := IntAt(fs, 3))
    case 4 => p.(referer := IntAt(fs, 0), group := IntAt(fs, 1),
                 apicallCount := IntAt(fs, 2), apicallTime := IntAt(fs, 3))
    case 5 => p.(countryCode := StrAt(fs, 0), city := IntAt(fs, 1))
    case 6 => p.(xType := OctetAt(fs, 0))
    case 7 => p.(login := IntAt(fs, 0), desc := IntAt(fs, 1))
    case 8 => p.(webHash := IntAt(fs, 0), webTime := IntAt(fs, 1))
    case 9 => p.(hasDump := OctetAt(fs, 0))
    case 10 => p.(threadNameHash := IntAt(fs, 0))
    case 11 => p.(text1 := StrAt(fs, 0), text2 := StrAt(fs, 1))
    case 12 => p.(queuingHostHash := IntAt(fs, 0), queuingTime := IntAt(fs, 1),
                  queuing2ndHostHash := IntAt(fs, 2), queuing2ndTime := IntAt(fs, 3))
    case 13 => p.(text3 := StrAt(fs, 0), text4 := StrAt(fs, 1), text5 := StrAt(fs, 2))
    case 14 => p.(profileCount := IntAt(fs, 0))
    case 15 => p.(b3Mode := FlagAt(fs, 0))
    case _ => p.(profileSize := IntAt(fs, 0), discardType := OctetAt(fs, 1),
                 ignoreGlobalConsequentSampling := FlagAt(fs, 2))
  }

  /** p as a sender that knows only the first k groups would describe it: the rest at defaults. */
  function Truncated(p: XLogPack, k: nat): XLogPack {
    XLogPack(
      if k > 0 then p.endTime else 0, if k > 0 then p.objHash else 0, if k > 0 then p.service else 0,
      if k > 0 then p.txid else 0, if k > 1 then p.caller else 0, if k > 1 then p.gxid else 0,
      if k > 1 then p.elapsed else 0, if k > 1 then p.error else 0, if k > 2 then p.cpu else 0,
      if k > 2 then p.sqlCount else 0, if k > 2 then p.sqlTime else 0, if k > 2 then p.ipaddr else [],
      if k > 3 then p.kbytes else 0, if k > 3 then p.status else 0, if k > 3 then p.userid else 0,
      if k > 3 then p.userAgent else 0, if k > 4 then p.referer else 0, if k > 4 then p.group else 0,
      if k > 4 then p.apicallCount else 0, if k > 4 then p.apicallTime else 0, if k > 5 then p.countryCode else [],
      if k > 5 then p.city else 0, if k > 6 then p.xType else 0, if k > 7 then p.login else 0,
      if k > 7 then p.desc else 0, if k > 8 then p.webHash else 0, if k > 8 then p.webTime else 0,
      if k > 9 then p.hasDump else 0, if k > 10 then p.threadNameHash else 0, if k > 11 then p.text1 else [],
      if k > 11 then p.text2 else [], if k > 12 then p.queuingHostHash else 0, if k > 12 then p.queuingTime else 0,
      if k > 12 then p.queuing2ndHostHash else 0, if k > 12 then p.queuing2ndTime else 0,
      if k > 13 then p.text3 else [], if k > 13 then p.text4 else [], if k > 13 then p.text5 else [],
      if k > 14 then p.profileCount else 0, if k > 15 then p.b3Mode else false, if k > 16 then p.profileSize else 0,
      if k > 16 then p.discardType else 0, if k > 16 then p.ignoreGlobalConsequentSampling else false)
  }

  /** Groups i to k - 1 of p on the wire. */
  function EncFrom(p: XLogPack, i: nat, k: nat): Bytes
    requires i <= k <= GROUPS
    decreases k - i
  {
    if i == k then [] else EncFields(Group(i, p)) + EncFrom(p, i + 1, k)
  }

  function Payload(p: XLogPack): Bytes { EncFrom(p, 0, GROUPS) }

  function EncPack(p: XLogPack): Bytes { EncBlob(Payload(p)) }

  /** An optional group is read only when bytes are left. */
  function DecGroup(i: nat, p: XLogPack, s: Bytes): (r: Parse<XLogPack>)
    requires i < GROUPS
  {
    if i >= FIXED && s == [] then Got(p, s)
    else
      match DecFields(Layout(i), s)
      case Fail => Fail
      case Got(fs, rest) => Got(Assign(i, p, fs), rest)
  }

  /** Groups i to k - 1. */
  function DecRange(i: nat, k: nat, p: XLogPack, s: Bytes): Parse<XLogPack>
    requires i <= k <= GROUPS
    decreases k - i
  {
    if i == k then Got(p, s)
    else
      match DecGroup(i, p, s)
      case Fail => Fail
      case Got(q, rest) => DecRange(i + 1, k, q, rest)
  }

  function DecFrom(i: nat, p: XLogPack, s: Bytes): Parse<XLogPack>
    requires i <= GROUPS
  {
    DecRange(i, GROUPS, p, s)
  }

  lemma {:induction false} RangesCompose(i: nat, j: nat, k: nat, p: XLogPack, s: Bytes)
    requires i <= j <= k <= GROUPS
    ensures DecRange(i, j, p, s).Fail? ==> DecRange(i, k, p, s).Fail?
    ensures DecRange(i, j, p, s).Got? ==>
              DecRange(i, k, p, s) == DecRange(j, k, DecRange(i, j, p, s).value, DecRange(i, j, p, s).rest)
    decreases j - i
  {
    hide DecGroup;
    if i < j && DecGroup(i, p, s).Got? {
      RangesCompose(i + 1, j, k, DecGroup(i, p, s).value, DecGroup(i, p, s).rest);
    }
  }

  /** Whatever the envelope holds after the groups is ignored. */
  function DecPack(s: Bytes): Parse<XLogPack> {
    match DecBlob(s)
    case Fail => Fail
    case Got(blob, rest) =>
      match DecFrom(0, DEFAULT_PACK, blob)
      case Fail => Fail
      case Got(p, _) => Got(p, rest)
  }

  // ---------- round trips ----------

  lemma FieldRoundTrip(f: Field, rest: Bytes)
    requires |EncField(f)| <= 0x7FFF_FFFF
    ensures DecField(KindOf(f), EncField(f) + rest) == Got(f, rest)
  {
    hide EncDecimal, DecDecimal, EncBlob, DecBlob, DecI64, DecText, ToBE;
    match f
    case Dec(d) => DecimalRoundTrip(d, rest);
    case Int(n) => DecimalRoundTrip(n, rest);
    case Long(l) => I64RoundTrip(l, rest);
    case Octet(o) => OctetRoundTrip(o, rest);
    case Str(t) => BlobHolds(t); TextRoundTrip(t, rest);
    case Raw(b) => BlobHolds(b); BlobRoundTrip(b, rest);
    case Flag(b) => assert (EncBool(b) + rest)[1..] == rest;
  }

  lemma BlobHolds(b: Bytes)
    ensures |b| <= |EncBlob(b)|
  {
  }

  lemma OctetRoundTrip(o: i8, rest: Bytes)
    ensures DecOctet([o % 256] + rest) == Got(o, rest)
  {
    Pow256Values();
    assert ToBE(o, 1) == [o % 256];
    DecSignedOfEnc(o, 1, rest);
  }

  lemma {:induction false} FieldsRoundTrip(fs: seq<Field>, rest: Bytes)
    requires |EncFields(fs)| <= 0x7FFF_FFFF
    ensures DecFields(KindsOf(fs), EncFields(fs) + rest) == Got(fs, rest)
  {
    hide EncField, DecField;
    if fs == [] {
      assert [] + rest == rest;
    } else {
      var tail := EncFields(fs[1..]) + rest;
      assert EncFields(fs) + rest == EncField(fs[0]) + tail;
      FieldRoundTrip(fs[0], tail);
      FieldsRoundTrip(fs[1..], rest);
      assert [fs[0]] + fs[1..] == fs;
    }
  }

  /** The reader expects what the writer emits. */
  lemma LayoutMatches(i: nat, p: XLogPack)
    requires i < GROUPS
    ensures KindsOf(Group(i, p)) == Layout(i) && Group(i, p) != []
  {
    hide KindsOf;
    KindsOfFew(Group(i, p));
  }

  lemma KindsOfFew(fs: seq<Field>)
    requires 1 <= |fs| <= 4
    ensures |fs| == 1 ==> KindsOf(fs) == Then(KindOf(fs[0]), End)
    ensures |fs| == 2 ==> KindsOf(fs) == Then(KindOf(fs[0]), Then(KindOf(fs[1]), End))
    ensures |fs| == 3 ==> KindsOf(fs) == Then(KindOf(fs[0]), Then(KindOf(fs[1]), Then(KindOf(fs[2]), End)))
    ensures |fs| == 4 ==>
              KindsOf(fs) == Then(KindOf(fs[0]), Then(KindOf(fs[1]), Then(KindOf(fs[2]), Then(KindOf(fs[3]), End))))
  {
    if |fs| > 1 {
      KindsOfFew(fs[1..]);
    }
  }

  /** Assigning a group adds exactly that group to what is known of the pack. */
  lemma AssignExtends(i: nat, p: XLogPack)
    requires i < GROUPS
    ensures Assign(i, Truncated(p, i), Group(i, p)) == Truncated(p, i + 1)
  {
    match i
    case 0 => assert Assign(0, Truncated(p, 0), Group(0, p)) == Truncated(p, 1);
    case 1 => assert Assign(1, Truncated(p, 1), Group(1, p)) == Truncated(p, 2);
    case 2 => assert Assign(2, Truncated(p, 2), Group(2, p)) == Truncated(p, 3);
    case 3 => assert Assign(3, Truncated(p, 3), Group(3, p)) == Truncated(p, 4);
    case 4 => assert Assign(4, Truncated(p, 4), Group(4, p)) == Truncated(p, 5);
    case 5 => assert Assign(5, Truncated(p, 5), Group(5, p)) == Truncated(p, 6);
    case 6 => assert Assign(6, Truncated(p, 6), Group(6, p)) == Truncated(p, 7);
    case 7 => assert Assign(7, Truncated(p, 7), Group(7, p)) == Truncated(p, 8);
    case 8 => assert Assign(8, Truncated(p, 8), Group(8, p)) == Truncated(p, 9);
    case 9 => assert Assign(9, Truncated(p, 9), Group(9, p)) == Truncated(p, 10);
    case 10 => assert Assign(10, Truncated(p, 10), Group(10, p)) == Truncated(p, 11);
    case 11 => assert Assign(11, Truncated(p, 11), Group(11, p)) == Truncated(p, 12);
    case 12 => assert Assign(12, Truncated(p, 12), Group(12, p)) == Truncated(p, 13);
    case 13 => assert Assign(13, Truncated(p, 13), Group(13, p)) == Truncated(p, 14);
    case 14 => assert Assign(14, Truncated(p, 14), Group(14, p)) == Truncated(p, 15);
    case 15 => assert Assign(15, Truncated(p, 15), Group(15, p)) == Truncated(p, 16);
    case _ => assert Assign(16, Truncated(p, 16), Group(16, p)) == Truncated(p, 17);
  }

  lemma TruncatedEnds(p: XLogPack)
    ensures Truncated(p, 0) == DEFAULT_PACK && Truncated(p, GROUPS) == p
  {
  }

  lemma GroupRoundTrip(i: nat, q: XLogPack, p: XLogPack, rest: Bytes)
    requires i < GROUPS && |EncFields(Group(i, p))| <= 0x7FFF_FFFF
    ensures DecGroup(i, q, EncFields(Group(i, p)) + rest) == Got(Assign(i, q, Group(i, p)), rest)
    ensures EncFields(Group(i, p)) != []
  {
    hide Assign, Group, Layout, EncField, DecField;
    LayoutMatches(i, p);
    FieldsRoundTrip(Group(i, p), rest);
  }

  lemma {:induction false} GroupsRoundTrip(i: nat, p: XLogPack, k: nat, rest: Bytes)
    requires i <= k <= GROUPS && k >= FIXED && (k == GROUPS || rest == [])
    requires |EncFrom(p, i, k)| <= 0x7FFF_FFFF
    ensures DecFrom(i, Truncated(p, i), EncFrom(p, i, k) + rest) == Got(Truncated(p, k), rest)
    decreases GROUPS - i
  {
    hide Assign, Group, Layout, EncFields, DecGroup, Truncated;
    if i == GROUPS {
      assert [] + rest == rest;
    } else if i == k {
      assert [] + rest == rest;
      NothingLeft(k, Truncated(p, k));
    } else {
      var tail := EncFrom(p, i + 1, k) + rest;
      assert EncFrom(p, i, k) + rest == EncFields(Group(i, p)) + tail;
      GroupRoundTrip(i, Truncated(p, i), p, tail);
      AssignExtends(i, p);
      GroupsRoundTrip(i + 1, p, k, rest);
    }
  }

  lemma {:induction false} NothingLeft(i: nat, p: XLogPack)
    requires FIXED <= i <= GROUPS
    ensures DecFrom(i, p, []) == Got(p, [])
    decreases GROUPS - i
  {
    if i < GROUPS {
      NothingLeft(i + 1, p);
    }
  }

  /** Reading a written pack gives every field back and leaves what followed. */
  lemma PackRoundTrip(p: XLogPack, rest: Bytes)
    requires |Payload(p)| <= 0x7FFF_FFFF
    ensures DecPack(EncPack(p) + rest) == Got(p, rest)
  {
    hide EncFrom, DecFrom, Truncated, EncBlob, DecBlob;
    NewerSender(p, [], rest);
    assert Payload(p) + [] == Payload(p);
  }

  /** A newer sender's unknown bytes at the end of the payload change nothing. */
  lemma NewerSender(p: XLogPack, extra: Bytes, rest: Bytes)
    requires |Payload(p) + extra| <= 0x7FFF_FFFF
    ensures DecPack(EncBlob(Payload(p) + extra) + rest) == Got(p, rest)
  {
    hide EncFrom, DecFrom, Truncated, EncBlob, DecBlob;
    BlobRoundTrip(Payload(p) + extra, rest);
    GroupsRoundTrip(0, p, GROUPS, extra);
    TruncatedEnds(p);
  }

  /** An older sender's payload, which stops after k groups, gives p with the later groups at
      their defaults. */
  lemma OlderSender(p: XLogPack, k: nat, rest: Bytes)
    requires FIXED <= k <= GROUPS && |EncFrom(p, 0, k)| <= 0x7FFF_FFFF
    ensures DecPack(EncBlob(EncFrom(p, 0, k)) + rest) == Got(Truncated(p, k), rest)
  {
    hide EncFrom, DecFrom, Truncated, EncBlob, DecBlob;
    BlobRoundTrip(EncFrom(p, 0, k), rest);
    GroupsRoundTrip(0, p, k, []);
    TruncatedEnds(p);
    assert EncFrom(p, 0, k) + [] == EncFrom(p, 0, k);
  }

  // ---------- cuts anywhere else ----------

  /** A decoder that succeeds looks only at the bytes it consumes. */
  lemma FieldIsLocal(k: Kind, s: Bytes, t: Bytes)
    requires DecField(k, s).Got?
    ensures DecField(k, s + t) == Got(DecField(k, s).value, DecField(k, s).rest + t)
  {
    hide DecBlob, DecDecimal;
    match k
    case KDec => DecimalExtends(s, t);
    case KInt => DecimalExtends(s, t);
    case KLong => Pow256Values(); TakeExtends(s, t, 8);
    case KOctet => Pow256Values(); TakeExtends(s, t, 1);
    case KStr => BlobExtends(s, t);
    case KRaw => BlobExtends(s, t);
    case KFlag => assert (s + t)[1..] == s[1..] + t;
  }

  lemma {:induction false} FieldsAreLocal(ks: Kinds, s: Bytes, t: Bytes)
    requires DecFields(ks, s).Got?
    ensures DecFields(ks, s + t) == Got(DecFields(ks, s).value, DecFields(ks, s).rest + t)
  {
    hide DecField;
    if ks.Then? {
      FieldIsLocal(ks.kind, s, t);
      FieldsAreLocal(ks.more, DecField(ks.kind, s).rest, t);
    }
  }

  /** The fields of a group cannot be read from a proper prefix of their encoding. */
  lemma CutGroupFails(i: nat, p: XLogPack, n: nat)
    requires i < GROUPS && n < |EncFields(Group(i, p))| <= 0x7FFF_FFFF
    ensures DecFields(Layout(i), EncFields(Group(i, p))[..n]).Fail?
  {
    hide EncFields, DecFields, Group, Layout;
    var e := EncFields(Group(i, p));
    LayoutMatches(i, p);
    FieldsRoundTrip(Group(i, p), []);
    assert e + [] == e && e[..n] + e[n..] == e;
    if DecFields(Layout(i), e[..n]).Got? {
      FieldsAreLocal(Layout(i), e[..n], e[n..]);
    }
  }

  /** n bytes end exactly where some optional group ends, or where the fixed part does. */
  ghost predicate AtBoundary(p: XLogPack, i: nat, n: nat)
    requires i <= GROUPS
  {
    exists k :: i <= k <= GROUPS && FIXED <= k && n == |EncFrom(p, i, k)|
  }

  lemma {:induction false} CutFromReadsIff(i: nat, q: XLogPack, p: XLogPack, n: nat)
    requires i <= GROUPS && n <= |EncFrom(p, i, GROUPS)| <= 0x7FFF_FFFF
    ensures DecFrom(i, q, EncFrom(p, i, GROUPS)[..n]).Got? <==> AtBoundary(p, i, n)
    decreases GROUPS - i
  {
    hide Group, Assign, Layout, EncFields, DecFields;
    var all := EncFrom(p, i, GROUPS);
    if i == GROUPS {
      assert n == |EncFrom(p, i, GROUPS)|;
    } else {
      var e := EncFields(Group(i, p));
      var tail := EncFrom(p, i + 1, GROUPS);
      GroupRoundTrip(i, q, p, []);
      if n < |e| {
        CutGroupFails(i, p, n);
        assert all[..n] == e[..n];
        if n == 0 && i >= FIXED {
          NothingLeft(i, q);
          assert n == |EncFrom(p, i, i)|;
        }
      } else {
        assert all[..n] == e + tail[..n - |e|];
        GroupRoundTrip(i, q, p, tail[..n - |e|]);
        CutFromReadsIff(i + 1, Assign(i, q, Group(i, p)), p, n - |e|);
        BoundaryShifts(p, i, n);
      }
    }
  }

  lemma BoundaryShifts(p: XLogPack, i: nat, n: nat)
    requires i < GROUPS && 0 < |EncFields(Group(i, p))| <= n
    ensures AtBoundary(p, i, n) <==> AtBoundary(p, i + 1, n - |EncFields(Group(i, p))|)
  {
    hide Group, EncFields;
    var e := |EncFields(Group(i, p))|;
    if AtBoundary(p, i + 1, n - e) {
      var k :| i + 1 <= k <= GROUPS && FIXED <= k && n - e == |EncFrom(p, i + 1, k)|;
      assert n == |EncFrom(p, i, k)|;
    }
    if AtBoundary(p, i, n) {
      var k :| i <= k <= GROUPS && FIXED <= k && n == |EncFrom(p, i, k)|;
      assert n - e == |EncFrom(p, i + 1, k)|;
    }
  }

  /** A payload cut short can be read exactly when the cut falls on a group boundary at or after
      the fixed part; a cut anywhere else is an error, never a wrong pack. */
  lemma CutReadsIff(p: XLogPack, n: nat, rest: Bytes)
    requires n <= |Payload(p)| <= 0x7FFF_FFFF
    ensures DecPack(EncBlob(Payload(p)[..n]) + rest).Got? <==> AtBoundary(p, 0, n)
  {
    hide EncFrom, DecFrom, EncBlob, DecBlob, AtBoundary;
    BlobRoundTrip(Payload(p)[..n], rest);
    CutFromReadsIff(0, DEFAULT_PACK, p, n);
  }
}
