/** Reading and writing the transaction log pack through the cursor and the buffer, field by field,
    against the codec of XLogPack. */
module XLogPackIO {
  import opened ByteCodec
  import opened DataOutput
  import opened DataInput
  import opened Values
  import opened ValueIO
  import opened XLogPack
  import opened XLogWire

  // ---------- reading ----------

  /** `read_decimal()? as i32`. */
  method ReadAsI32(din: DataInputX) returns (r: Result<i32>)
    requires din.Valid()
    modifies din
    ensures din.Reads(r, DecIntItem(old(din.Rest())))
  {
    hide DecDecimal;
    var n :- din.ReadDecimal();
    r := Ok(AsI32(n));
  }

  method ReadOctet(din: DataInputX) returns (r: Result<i8>)
    requires din.Valid()
    modifies din
    ensures din.Reads(r, DecOctet(old(din.Rest())))
  {
    Pow256Values();
    r := din.ReadByte();
  }

  method ReadHead(d: DataInputX, p: XLogPack) returns (r: Result<XLogPack>)
    requires d.Valid()
    modifies d
    ensures d.Reads(r, DecGroup(0, p, old(d.Rest())))
  {
    hide DecDecimal, DecIntItem, DecI64, DecOctet, DecText, DecBlob, DecBool, DecFields;
    Unroll(Layout(0), d.Rest());
    var endTime :- d.ReadDecimal();
    var objHash :- ReadAsI32(d);
    var service :- ReadAsI32(d);
    var txid :- ReadI64(d);
    r := Ok(p.(endTime := endTime, objHash := objHash, service := service, txid := txid));
  }

  method ReadLoad(d: DataInputX, p: XLogPack) returns (r: Result<XLogPack>)
    requires d.Valid()
    modifies d
    ensures d.Reads(r, DecGroup(1, p, old(d.Rest())))
  {
    hide DecDecimal, DecIntItem, DecI64, DecOctet, DecText, DecBlob, DecBool, DecFields;
    Unroll(Layout(1), d.Rest());
    var caller :- ReadI64(d);
    var gxid :- ReadI64(d);
    var elapsed :- ReadAsI32(d);
    var error :- ReadAsI32(d);
    r := Ok(p.(caller := caller, gxid := gxid, elapsed := elapsed, error := error));
  }

  method ReadSql(d: DataInputX, p: XLogPack) returns (r: Result<XLogPack>)
    requires d.Valid()
    modifies d
    ensures d.Reads(r, DecGroup(2, p, old(d.Rest())))
  {
    hide DecDecimal, DecIntItem, DecI64, DecOctet, DecText, DecBlob, DecBool, DecFields;
    Unroll(Layout(2), d.Rest());
    var cpu :- ReadAsI32(d);
    var sqlCount :- ReadAsI32(d);
    var sqlTime :- ReadAsI32(d);
    var ipaddr :- d.ReadBlob();
    r := Ok(p.(cpu := cpu, sqlCount := sqlCount, sqlTime := sqlTime, ipaddr := ipaddr));
  }

  method ReadUser(d: DataInputX, p: XLogPack) returns (r: Result<XLogPack>)
    requires d.Valid()
    modifies d
    ensures d.Reads(r, DecGroup(3, p, old(d.Rest())))
  {
    hide DecDecimal, DecIntItem, DecI64, DecOctet, DecText, DecBlob, DecBool, DecFields;
    Unroll(Layout(3), d.Rest());
    var kbytes :- ReadAsI32(d);
    var status :- ReadAsI32(d);
    var userid :- d.ReadDecimal();
    var userAgent :- ReadAsI32(d);
    r := Ok(p.(kbytes := kbytes, status := status, userid := userid, userAgent := userAgent));
  }

  method ReadApi(d: DataInputX, p: XLogPack) returns (r: Result<XLogPack>)
    requires d.Valid()
    modifies d
    ensures d.Reads(r, DecGroup(4, p, old(d.Rest())))
  {
    hide DecDecimal, DecIntItem, DecI64, DecOctet, DecText, DecBlob, DecBool, DecFields;
    Unroll(Layout(4), d.Rest());
    var referer :- ReadAsI32(d);
    var group :- ReadAsI32(d);
    var apicallCount :- ReadAsI32(d);
    var apicallTime :- ReadAsI32(d);
    r := Ok(p.(referer := referer, group := group, apicallCount := apicallCount, apicallTime := apicallTime));
  }

  method ReadPlace(d: DataInputX, p: XLogPack) returns (r: Result<XLogPack>)
    requires d.Valid()
    modifies d
    ensures d.Reads(r, DecGroup(5, p, old(d.Rest())))
  {
    hide DecDecimal, DecIntItem, DecI64, DecOctet, DecText, DecBlob, DecBool, DecFields;
    Unroll(Layout(5), d.Rest());
    var available := d.Available();
    if available == 0 {
      return Ok(p);
    }
    var countryCode :- ReadText(d);
    var city :- ReadAsI32(d);
    r := Ok(p.(countryCode := countryCode, city := city));
  }

  method ReadType(d: DataInputX, p: XLogPack) returns (r: Result<XLogPack>)
    requires d.Valid()
    modifies d
    ensures d.Reads(r, DecGroup(6, p, old(d.Rest())))
  {
    hide DecDecimal, DecIntItem, DecI64, DecOctet, DecText, DecBlob, DecBool, DecFields;
    Unroll(Layout(6), d.Rest());
    var available := d.Available();
    if available == 0 {
      return Ok(p);
    }
    var xType :- ReadOctet(d);
    r := Ok(p.(xType := xType));
  }

  method ReadLogin(d: DataInputX, p: XLogPack) returns (r: Result<XLogPack>)
    requires d.Valid()
    modifies d
    ensures d.Reads(r, DecGroup(7, p, old(d.Rest())))
  {
    hide DecDecimal, DecIntItem, DecI64, DecOctet, DecText, DecBlob, DecBool, DecFields;
    Unroll(Layout(7), d.Rest());
    var available := d.Available();
    if available == 0 {
      return Ok(p);
    }
    var login :- ReadAsI32(d);
    var desc :- ReadAsI32(d);
    r := Ok(p.(login := login, desc := desc));
  }

  method ReadWeb(d: DataInputX, p: XLogPack) returns (r: Result<XLogPack>)
    requires d.Valid()
    modifies d
    ensures d.Reads(r, DecGroup(8, p, old(d.Rest())))
  {
    hide DecDecimal, DecIntItem, DecI64, DecOctet, DecText, DecBlob, DecBool, DecFields;
    Unroll(Layout(8), d.Rest());
    var available := d.Available();
    if available == 0 {
      return Ok(p);
    }
    var webHash :- ReadAsI32(d);
    var webTime :- ReadAsI32(d);
    r := Ok(p.(webHash := webHash, webTime := webTime));
  }

  method ReadDump(d: DataInputX, p: XLogPack) returns (r: Result<XLogPack>)
    requires d.Valid()
    modifies d
    ensures d.Reads(r, DecGroup(9, p, old(d.Rest())))
  {
    hide DecDecimal, DecIntItem, DecI64, DecOctet, DecText, DecBlob, DecBool, DecFields;
    Unroll(Layout(9), d.Rest());
    var available := d.Available();
    if available == 0 {
      return Ok(p);
    }
    var hasDump :- ReadOctet(d);
    r := Ok(p.(hasDump := hasDump));
  }

  method ReadThread(d: DataInputX, p: XLogPack) returns (r: Result<XLogPack>)
    requires d.Valid()
    modifies d
    ensures d.Reads(r, DecGroup(10, p, old(d.Rest())))
  {
    hide DecDecimal, DecIntItem, DecI64, DecOctet, DecText, DecBlob, DecBool, DecFields;
    Unroll(Layout(10), d.Rest());
    var available := d.Available();
    if available == 0 {
      return Ok(p);
    }
    var threadNameHash :- ReadAsI32(d);
    r := Ok(p.(threadNameHash := threadNameHash));
  }

  method ReadTexts(d: DataInputX, p: XLogPack) returns (r: Result<XLogPack>)
    requires d.Valid()
    modifies d
    ensures d.Reads(r, DecGroup(11, p, old(d.Rest())))
  {
    hide DecDecimal, DecIntItem, DecI64, DecOctet, DecText, DecBlob, DecBool, DecFields;
    Unroll(Layout(11), d.Rest());
    var available := d.Available();
    if available == 0 {
      return Ok(p);
    }
    var text1 :- ReadText(d);
    var text2 :- ReadText(d);
    r := Ok(p.(text1 := text1, text2 := text2));
  }

  method ReadQueuing(d: DataInputX, p: XLogPack) returns (r: Result<XLogPack>)
    requires d.Valid()
    modifies d
    ensures d.Reads(r, DecGroup(12, p, old(d.Rest())))
  {
    hide DecDecimal, DecIntItem, DecI64, DecOctet, DecText, DecBlob, DecBool, DecFields;
    Unroll(Layout(12), d.Rest());
    var available := d.Available();
    if available == 0 {
      return Ok(p);
    }
    var queuingHostHash :- ReadAsI32(d);
    var queuingTime :- ReadAsI32(d);
    var queuing2ndHostHash :- ReadAsI32(d);
    var queuing2ndTime :- ReadAsI32(d);
    r := Ok(p.(queuingHostHash := queuingHostHash, queuingTime := queuingTime,
               queuing2ndHostHash := queuing2ndHostHash, queuing2ndTime := queuing2ndTime));
  }

  method ReadMoreTexts(d: DataInputX, p: XLogPack) returns (r: Result<XLogPack>)
    requires d.Valid()
    modifies d
    ensures d.Reads(r, DecGroup(13, p, old(d.Rest())))
  {
    hide DecDecimal, DecIntItem, DecI64, DecOctet, DecText, DecBlob, DecBool, DecFields;
    Unroll(Layout(13), d.Rest());
    var available := d.Available();
    if available == 0 {
      return Ok(p);
    }
    var text3 :- ReadText(d);
    var text4 :- ReadText(d);
    var text5 :- ReadText(d);
    r := Ok(p.(text3 := text3, text4 := text4, text5 := text5));
  }

  method ReadProfile(d: DataInputX, p: XLogPack) returns (r: Result<XLogPack>)
    requires d.Valid()
    modifies d
    ensures d.Reads(r, DecGroup(14, p, old(d.Rest())))
  {
    hide DecDecimal, DecIntItem, DecI64, DecOctet, DecText, DecBlob, DecBool, DecFields;
    Unroll(Layout(14), d.Rest());
    var available := d.Available();
    if available == 0 {
      return Ok(p);
    }
    var profileCount :- ReadAsI32(d);
    r := Ok(p.(profileCount := profileCount));
  }

  method ReadB3(d: DataInputX, p: XLogPack) returns (r: Result<XLogPack>)
    requires d.Valid()
    modifies d
    ensures d.Reads(r, DecGroup(15, p, old(d.Rest())))
  {
    hide DecDecimal, DecIntItem, DecI64, DecOctet, DecText, DecBlob, DecBool, DecFields;
    Unroll(Layout(15), d.Rest());
    var available := d.Available();
    if available == 0 {
      return Ok(p);
    }
    var b3Mode :- d.ReadBoolean();
    r := Ok(p.(b3Mode := b3Mode));
  }

  method ReadDiscard(d: DataInputX, p: XLogPack) returns (r: Result<XLogPack>)
    requires d.Valid()
    modifies d
    ensures d.Reads(r, DecGroup(16, p, old(d.Rest())))
  {
    hide DecDecimal, DecIntItem, DecI64, DecOctet, DecText, DecBlob, DecBool, DecFields;
    Unroll(Layout(16), d.Rest());
    var available := d.Available();
    if available == 0 {
      return Ok(p);
    }
    var profileSize :- ReadAsI32(d);
    var discardType :- ReadOctet(d);
    var ignoreGlobalConsequentSampling :- d.ReadBoolean();
    r := Ok(p.(profileSize := profileSize, discardType := discardType,
               ignoreGlobalConsequentSampling := ignoreGlobalConsequentSampling));
  }

  /** The fixed part. */
  method ReadFixed(d: DataInputX, p0: XLogPack) returns (r: Result<XLogPack>)
    requires d.Valid()
    modifies d
    ensures d.Reads(r, DecRange(0, 5, p0, old(d.Rest())))
  {
    hide DecGroup;
    var p := p0;
    p :- ReadHead(d, p);
    assert DecRange(0, 5, p0, old(d.Rest())) == DecRange(1, 5, p, d.Rest());
    p :- ReadLoad(d, p);
    assert DecRange(0, 5, p0, old(d.Rest())) == DecRange(2, 5, p, d.Rest());
    p :- ReadSql(d, p);
    assert DecRange(0, 5, p0, old(d.Rest())) == DecRange(3, 5, p, d.Rest());
    p :- ReadUser(d, p);
    assert DecRange(0, 5, p0, old(d.Rest())) == DecRange(4, 5, p, d.Rest());
    p :- ReadApi(d, p);
    assert DecRange(0, 5, p0, old(d.Rest())) == DecRange(5, 5, p, d.Rest());
    r := Ok(p);
  }

  /** The first six optional groups. */
  method ReadMiddle(d: DataInputX, p0: XLogPack) returns (r: Result<XLogPack>)
    requires d.Valid()
    modifies d
    ensures d.Reads(r, DecRange(5, 11, p0, old(d.Rest())))
  {
    hide DecGroup;
    var p := p0;
    p :- ReadPlace(d, p);
    assert DecRange(5, 11, p0, old(d.Rest())) == DecRange(6, 11, p, d.Rest());
    p :- ReadType(d, p);
    assert DecRange(5, 11, p0, old(d.Rest())) == DecRange(7, 11, p, d.Rest());
    p :- ReadLogin(d, p);
    assert DecRange(5, 11, p0, old(d.Rest())) == DecRange(8, 11, p, d.Rest());
    p :- ReadWeb(d, p);
    assert DecRange(5, 11, p0, old(d.Rest())) == DecRange(9, 11, p, d.Rest());
    p :- ReadDump(d, p);
    assert DecRange(5, 11, p0, old(d.Rest())) == DecRange(10, 11, p, d.Rest());
    p :- ReadThread(d, p);
    assert DecRange(5, 11, p0, old(d.Rest())) == DecRange(11, 11, p, d.Rest());
    r := Ok(p);
  }

  /** The last six optional groups. */
  method ReadLast(d: DataInputX, p0: XLogPack) returns (r: Result<XLogPack>)
    requires d.Valid()
    modifies d
    ensures d.Reads(r, DecRange(11, 17, p0, old(d.Rest())))
  {
    hide DecGroup;
    var p := p0;
    p :- ReadTexts(d, p);
    assert DecRange(11, 17, p0, old(d.Rest())) == DecRange(12, 17, p, d.Rest());
    p :- ReadQueuing(d, p);
    assert DecRange(11, 17, p0, old(d.Rest())) == DecRange(13, 17, p, d.Rest());
    p :- ReadMoreTexts(d, p);
    assert DecRange(11, 17, p0, old(d.Rest())) == DecRange(14, 17, p, d.Rest());
    p :- ReadProfile(d, p);
    assert DecRange(11, 17, p0, old(d.Rest())) == DecRange(15, 17, p, d.Rest());
    p :- ReadB3(d, p);
    assert DecRange(11, 17, p0, old(d.Rest())) == DecRange(16, 17, p, d.Rest());
    p :- ReadDiscard(d, p);
    assert DecRange(11, 17, p0, old(d.Rest())) == DecRange(17, 17, p, d.Rest());
    r := Ok(p);
  }

  /** `XLogPack::read`. */
  method Read(din: DataInputX) returns (r: Result<XLogPack>)
    requires din.Valid()
    modifies din
    ensures din.Reads(r, DecPack(old(din.Rest())))
    ensures forall p | Arrives(old(din.Rest()), p) :: r == Ok(p)
  {
    hide DecRange, DecBlob, Arrives;
    ArrivalReads(din.Rest());
    var blob :- din.ReadBlob();
    var d := new DataInputX.FromBytes(blob);
    RangesCompose(0, FIXED, GROUPS, DEFAULT_PACK, blob);
    var p :- ReadFixed(d, DEFAULT_PACK);
    RangesCompose(5, 11, GROUPS, p, d.Rest());
    p :- ReadMiddle(d, p);
    p :- ReadLast(d, p);
    r := Ok(p);
  }

  // ---------- writing ----------

  /** What is on the wire after one more group, write by write. */
  lemma GroupOnWire(p: XLogPack, i: nat)
    requires i < GROUPS
    ensures var before, fs, after := EncFrom(p, 0, i), Group(i, p), EncFrom(p, 0, i + 1);
            && (|fs| == 1 ==> after == before + EncField(fs[0]))
            && (|fs| == 2 ==> after == before + EncField(fs[0]) + EncField(fs[1]))
            && (|fs| == 3 ==> after == before + EncField(fs[0]) + EncField(fs[1]) + EncField(fs[2]))
            && (|fs| == 4 ==> after == before + EncField(fs[0]) + EncField(fs[1]) + EncField(fs[2]) + EncField(fs[3]))
  {
    hide Group, EncFrom, EncField;
    EncFromAppend(p, 0, i);
    EncFew(EncFrom(p, 0, i), Group(i, p));
  }

  method WriteTimes(p: XLogPack, o: DataOutputX)
    requires o.buf == EncFrom(p, 0, 0)
    modifies o
    ensures o.buf == EncFrom(p, 0, 2)
  {
    hide EncBlob, EncFields, EncFrom, EncDecimal, ToBE, EncBool;
    GroupOnWire(p, 0);
    o.WriteDecimal(p.endTime);
    o.WriteDecimal(p.objHash);
    o.WriteDecimal(p.service);
    o.WriteLong(p.txid);
    assert o.buf == EncFrom(p, 0, 1);
    GroupOnWire(p, 1);
    o.WriteLong(p.caller);
    o.WriteLong(p.gxid);
    o.WriteDecimal(p.elapsed);
    o.WriteDecimal(p.error);
    assert o.buf == EncFrom(p, 0, 2);
  }

  method WriteCounts(p: XLogPack, o: DataOutputX)
    requires o.buf == EncFrom(p, 0, 2)
    modifies o
    ensures o.buf == EncFrom(p, 0, 4)
  {
    hide EncBlob, EncFields, EncFrom, EncDecimal, ToBE, EncBool;
    GroupOnWire(p, 2);
    o.WriteDecimal(p.cpu);
    o.WriteDecimal(p.sqlCount);
    o.WriteDecimal(p.sqlTime);
    o.WriteBlob(p.ipaddr);
    assert o.buf == EncFrom(p, 0, 3);
    GroupOnWire(p, 3);
    o.WriteDecimal(p.kbytes);
    o.WriteDecimal(p.status);
    o.WriteDecimal(p.userid);
    o.WriteDecimal(p.userAgent);
    assert o.buf == EncFrom(p, 0, 4);
  }

  method WriteCalls(p: XLogPack, o: DataOutputX)
    requires o.buf == EncFrom(p, 0, 4)
    modifies o
    ensures o.buf == EncFrom(p, 0, 6)
  {
    hide EncBlob, EncFields, EncFrom, EncDecimal, ToBE, EncBool;
    GroupOnWire(p, 4);
    o.WriteDecimal(p.referer);
    o.WriteDecimal(p.group);
    o.WriteDecimal(p.apicallCount);
    o.WriteDecimal(p.apicallTime);
    assert o.buf == EncFrom(p, 0, 5);
    GroupOnWire(p, 5);
    o.WriteBlob(p.countryCode);
    o.WriteDecimal(p.city);
    assert o.buf == EncFrom(p, 0, 6);
  }

  method WriteOrigin(p: XLogPack, o: DataOutputX)
    requires o.buf == EncFrom(p, 0, 6)
    modifies o
    ensures o.buf == EncFrom(p, 0, 11)
  {
    hide EncBlob, EncFields, EncFrom, EncDecimal, ToBE, EncBool;
    GroupOnWire(p, 6);
    o.WriteByte(p.xType);
    assert o.buf == EncFrom(p, 0, 7);
    GroupOnWire(p, 7);
    o.WriteDecimal(p.login);
    o.WriteDecimal(p.desc);
    assert o.buf == EncFrom(p, 0, 8);
    GroupOnWire(p, 8);
    o.WriteDecimal(p.webHash);
    o.WriteDecimal(p.webTime);
    assert o.buf == EncFrom(p, 0, 9);
    GroupOnWire(p, 9);
    o.WriteByte(p.hasDump);
    assert o.buf == EncFrom(p, 0, 10);
    GroupOnWire(p, 10);
    o.WriteDecimal(p.threadNameHash);
    assert o.buf == EncFrom(p, 0, 11);
  }

  method WriteTexts(p: XLogPack, o: DataOutputX)
    requires o.buf == EncFrom(p, 0, 11)
    modifies o
    ensures o.buf == EncFrom(p, 0, 13)
  {
    hide EncBlob, EncFields, EncFrom, EncDecimal, ToBE, EncBool;
    GroupOnWire(p, 11);
    o.WriteBlob(p.text1);
    o.WriteBlob(p.text2);
    assert o.buf == EncFrom(p, 0, 12);
    GroupOnWire(p, 12);
    o.WriteDecimal(p.queuingHostHash);
    o.WriteDecimal(p.queuingTime);
    o.WriteDecimal(p.queuing2ndHostHash);
    o.WriteDecimal(p.queuing2ndTime);
    assert o.buf == EncFrom(p, 0, 13);
  }

  method WriteMoreTexts(p: XLogPack, o: DataOutputX)
    requires o.buf == EncFrom(p, 0, 13)
    modifies o
    ensures o.buf == EncFrom(p, 0, 15)
  {
    hide EncBlob, EncFields, EncFrom, EncDecimal, ToBE, EncBool;
    GroupOnWire(p, 13);
    o.WriteBlob(p.text3);
    o.WriteBlob(p.text4);
    o.WriteBlob(p.text5);
    assert o.buf == EncFrom(p, 0, 14);
    GroupOnWire(p, 14);
    o.WriteDecimal(p.profileCount);
    assert o.buf == EncFrom(p, 0, 15);
  }

  method WriteTail(p: XLogPack, o: DataOutputX)
    requires o.buf == EncFrom(p, 0, 15)
    modifies o
    ensures o.buf == EncFrom(p, 0, 17)
  {
    hide EncBlob, EncFields, EncFrom, EncDecimal, ToBE, EncBool;
    GroupOnWire(p, 15);
    o.WriteBoolean(p.b3Mode);
    assert o.buf == EncFrom(p, 0, 16);
    GroupOnWire(p, 16);
    o.WriteDecimal(p.profileSize);
    o.WriteByte(p.discardType);
    o.WriteBoolean(p.ignoreGlobalConsequentSampling);
    assert o.buf == EncFrom(p, 0, 17);
  }

  /** `XLogPack::write`: the 43 fields into a buffer of their own, and that as one blob. */
  method Write(p: XLogPack, out: DataOutputX)
    modifies out
    ensures out.buf == old(out.buf) + EncPack(p)
    ensures exists payload :: Spells(payload, p) && out.buf == old(out.buf) + EncBlob(payload)
  {
    hide EncBlob, EncFrom, Spells;
    var o := new DataOutputX();
    EncFromNone(p, 0);
    WriteTimes(p, o);
    WriteCounts(p, o);
    WriteCalls(p, o);
    WriteOrigin(p, o);
    WriteTexts(p, o);
    WriteMoreTexts(p, o);
    WriteTail(p, o);
    PayloadIsSpelled(p, o.buf);
    out.WriteBlob(o.buf);
  }
}
