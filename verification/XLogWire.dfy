/** The transaction log pack on the wire, field by field. */
module XLogWire {
  import opened ByteCodec
  import opened DataOutput
  import opened Values
  import opened XLogPack

  // ---------- groups in a row ----------

  lemma EncFromNone(p: XLogPack, i: nat)
    requires i <= GROUPS
    ensures EncFrom(p, i, i) == []
  {
  }

  lemma {:induction false} EncFromAppend(p: XLogPack, i: nat, k: nat)
    requires i <= k < GROUPS
    ensures EncFrom(p, i, k + 1) == EncFrom(p, i, k) + EncFields(Group(k, p))
    decreases k - i
  {
    hide Group, EncFields;
    if i < k {
      EncFromAppend(p, i + 1, k);
    } else {
      assert EncFrom(p, k + 1, k + 1) == [];
    }
  }

  lemma EncFew(before: Bytes, fs: seq<Field>)
    ensures |fs| == 1 ==> before + EncFields(fs) == before + EncField(fs[0])
    ensures |fs| == 2 ==> before + EncFields(fs) == before + EncField(fs[0]) + EncField(fs[1])
    ensures |fs| == 3 ==> before + EncFields(fs) == before + EncField(fs[0]) + EncField(fs[1]) + EncField(fs[2])
    ensures |fs| == 4 ==>
              before + EncFields(fs) == before + EncField(fs[0]) + EncField(fs[1]) + EncField(fs[2]) + EncField(fs[3])
    decreases |fs|
  {
    hide EncField;
    if fs != [] {
      var more := before + EncField(fs[0]);
      EncFew(more, fs[1..]);
      assert more + EncFields(fs[1..]) == before + EncFields(fs);
      assert |fs| == 1 ==> EncFields(fs[1..]) == [];
    }
  }

  lemma FewFields(fs: seq<Field>)
    ensures |fs| == 1 ==> EncFields(fs) == EncField(fs[0])
    ensures |fs| == 2 ==> EncFields(fs) == EncField(fs[0]) + EncField(fs[1])
    ensures |fs| == 3 ==> EncFields(fs) == EncField(fs[0]) + EncField(fs[1]) + EncField(fs[2])
    ensures |fs| == 4 ==> EncFields(fs) == EncField(fs[0]) + EncField(fs[1]) + EncField(fs[2]) + EncField(fs[3])
  {
    hide EncFields, EncField;
    EncFew([], fs);
    assert [] + EncFields(fs) == EncFields(fs);
    assert |fs| > 0 ==> [] + EncField(fs[0]) == EncField(fs[0]);
  }

  lemma FiveInARow(p: XLogPack)
    ensures EncFrom(p, 0, 5) ==
              EncFields(Group(0, p)) + EncFields(Group(1, p)) + EncFields(Group(2, p)) + EncFields(Group(3, p)) +
              EncFields(Group(4, p))
  {
    hide Group, EncFrom, EncFields;
    EncFromNone(p, 0);
    EncFromAppend(p, 0, 0);
    EncFromAppend(p, 0, 1);
    EncFromAppend(p, 0, 2);
    EncFromAppend(p, 0, 3);
    EncFromAppend(p, 0, 4);
    assert [] + EncFields(Group(0, p)) == EncFields(Group(0, p));
  }

  lemma MiddleInARow(p: XLogPack)
    ensures EncFrom(p, 5, 11) ==
              EncFields(Group(5, p)) + EncFields(Group(6, p)) + EncFields(Group(7, p)) + EncFields(Group(8, p)) +
              EncFields(Group(9, p)) + EncFields(Group(10, p))
  {
    hide Group, EncFrom, EncFields;
    EncFromNone(p, 5);
    EncFromAppend(p, 5, 5);
    EncFromAppend(p, 5, 6);
    EncFromAppend(p, 5, 7);
    EncFromAppend(p, 5, 8);
    EncFromAppend(p, 5, 9);
    EncFromAppend(p, 5, 10);
    assert [] + EncFields(Group(5, p)) == EncFields(Group(5, p));
  }

  lemma LastInARow(p: XLogPack)
    ensures EncFrom(p, 11, 17) ==
              EncFields(Group(11, p)) + EncFields(Group(12, p)) + EncFields(Group(13, p)) +
              EncFields(Group(14, p)) + EncFields(Group(15, p)) + EncFields(Group(16, p))
  {
    hide Group, EncFrom, EncFields;
    EncFromNone(p, 11);
    EncFromAppend(p, 11, 11);
    EncFromAppend(p, 11, 12);
    EncFromAppend(p, 11, 13);
    EncFromAppend(p, 11, 14);
    EncFromAppend(p, 11, 15);
    EncFromAppend(p, 11, 16);
    assert [] + EncFields(Group(11, p)) == EncFields(Group(11, p));
  }

  lemma {:induction false} EncFromJoins(p: XLogPack, i: nat, j: nat, k: nat)
    requires i <= j <= k <= GROUPS
    ensures EncFrom(p, i, k) == EncFrom(p, i, j) + EncFrom(p, j, k)
    decreases j - i
  {
    hide Group, EncFields;
    if i < j {
      EncFromJoins(p, i + 1, j, k);
      var e := EncFields(Group(i, p));
      assert e + (EncFrom(p, i + 1, j) + EncFrom(p, j, k)) == (e + EncFrom(p, i + 1, j)) + EncFrom(p, j, k);
    } else {
      assert [] + EncFrom(p, i, k) == EncFrom(p, i, k);
    }
  }

  // ---------- every byte of the payload ----------

  lemma FixedGroupsAre(p: XLogPack)
    ensures EncFields(Group(0, p)) ==
              EncDecimal(p.endTime) + EncDecimal(p.objHash) + EncDecimal(p.service) + ToBE(p.txid, 8)
    ensures EncFields(Group(1, p)) ==
              ToBE(p.caller, 8) + ToBE(p.gxid, 8) + EncDecimal(p.elapsed) + EncDecimal(p.error)
    ensures EncFields(Group(2, p)) ==
              EncDecimal(p.cpu) + EncDecimal(p.sqlCount) + EncDecimal(p.sqlTime) + EncBlob(p.ipaddr)
    ensures EncFields(Group(3, p)) ==
              EncDecimal(p.kbytes) + EncDecimal(p.status) + EncDecimal(p.userid) + EncDecimal(p.userAgent)
    ensures EncFields(Group(4, p)) ==
              EncDecimal(p.referer) + EncDecimal(p.group) + EncDecimal(p.apicallCount) + EncDecimal(p.apicallTime)
    ensures FIXED == 5 && GROUPS == 17
  {
    hide EncFields, EncDecimal, EncBlob, ToBE;
    FewFields(Group(0, p));
    FewFields(Group(1, p));
    FewFields(Group(2, p));
    FewFields(Group(3, p));
    FewFields(Group(4, p));
  }

  lemma MiddleGroupsAre(p: XLogPack)
    ensures EncFields(Group(5, p)) == EncBlob(p.countryCode) + EncDecimal(p.city)
    ensures EncFields(Group(6, p)) == [p.xType % 256]
    ensures EncFields(Group(7, p)) == EncDecimal(p.login) + EncDecimal(p.desc)
    ensures EncFields(Group(8, p)) == EncDecimal(p.webHash) + EncDecimal(p.webTime)
    ensures EncFields(Group(9, p)) == [p.hasDump % 256]
    ensures EncFields(Group(10, p)) == EncDecimal(p.threadNameHash)
  {
    hide EncFields, EncDecimal, EncBlob, ToBE;
    FewFields(Group(5, p));
    FewFields(Group(6, p));
    FewFields(Group(7, p));
    FewFields(Group(8, p));
    FewFields(Group(9, p));
    FewFields(Group(10, p));
  }

  lemma LastGroupsAre(p: XLogPack)
    ensures EncFields(Group(11, p)) == EncBlob(p.text1) + EncBlob(p.text2)
    ensures EncFields(Group(12, p)) ==
              EncDecimal(p.queuingHostHash) + EncDecimal(p.queuingTime) + EncDecimal(p.queuing2ndHostHash) +
              EncDecimal(p.queuing2ndTime)
    ensures EncFields(Group(13, p)) == EncBlob(p.text3) + EncBlob(p.text4) + EncBlob(p.text5)
    ensures EncFields(Group(14, p)) == EncDecimal(p.profileCount)
    ensures EncFields(Group(15, p)) == [if p.b3Mode then 1 else 0]
    ensures EncFields(Group(16, p)) ==
              EncDecimal(p.profileSize) + [p.discardType % 256] + [if p.ignoreGlobalConsequentSampling then 1 else 0]
  {
    hide EncFields, EncDecimal, EncBlob, ToBE;
    FewFields(Group(11, p));
    FewFields(Group(12, p));
    FewFields(Group(13, p));
    FewFields(Group(14, p));
    FewFields(Group(15, p));
    FewFields(Group(16, p));
  }

  /** The fixed part is the first 20 fields. */
  lemma FixedPartIs(p: XLogPack)
    ensures EncFrom(p, 0, 5) ==
              (EncDecimal(p.endTime) + EncDecimal(p.objHash) + EncDecimal(p.service) + ToBE(p.txid, 8))
              + (ToBE(p.caller, 8) + ToBE(p.gxid, 8) + EncDecimal(p.elapsed) + EncDecimal(p.error))
              + (EncDecimal(p.cpu) + EncDecimal(p.sqlCount) + EncDecimal(p.sqlTime) + EncBlob(p.ipaddr))
              + (EncDecimal(p.kbytes) + EncDecimal(p.status) + EncDecimal(p.userid) + EncDecimal(p.userAgent))
              + (EncDecimal(p.referer) + EncDecimal(p.group) + EncDecimal(p.apicallCount) +
                 EncDecimal(p.apicallTime))
  {
    hide Group, EncFrom, EncFields, EncDecimal, EncBlob, ToBE;
    FixedGroupsAre(p);
    FiveInARow(p);
  }

  lemma MiddlePartIs(p: XLogPack)
    ensures EncFrom(p, 5, 11) ==
              (EncBlob(p.countryCode) + EncDecimal(p.city))
              + [p.xType % 256]
              + (EncDecimal(p.login) + EncDecimal(p.desc))
              + (EncDecimal(p.webHash) + EncDecimal(p.webTime))
              + [p.hasDump % 256]
              + EncDecimal(p.threadNameHash)
  {
    hide Group, EncFrom, EncFields, EncDecimal, EncBlob, ToBE;
    MiddleGroupsAre(p);
    MiddleInARow(p);
  }

  lemma LastPartIs(p: XLogPack)
    ensures EncFrom(p, 11, 17) ==
              (EncBlob(p.text1) + EncBlob(p.text2))
              + (EncDecimal(p.queuingHostHash) + EncDecimal(p.queuingTime) + EncDecimal(p.queuing2ndHostHash) +
                 EncDecimal(p.queuing2ndTime))
              + (EncBlob(p.text3) + EncBlob(p.text4) + EncBlob(p.text5))
              + EncDecimal(p.profileCount)
              + [if p.b3Mode then 1 else 0]
              + (EncDecimal(p.profileSize) + [p.discardType % 256] +
                 [if p.ignoreGlobalConsequentSampling then 1 else 0])
  {
    hide Group, EncFrom, EncFields, EncDecimal, EncBlob, ToBE;
    LastGroupsAre(p);
    LastInARow(p);
  }

  /** The payload is the 43 fields, each in its own form, in this order. */
  lemma PayloadIs(p: XLogPack, head: Bytes, middle: Bytes, last: Bytes)
    requires head ==
              (EncDecimal(p.endTime) + EncDecimal(p.objHash) + EncDecimal(p.service) + ToBE(p.txid, 8))
              + (ToBE(p.caller, 8) + ToBE(p.gxid, 8) + EncDecimal(p.elapsed) + EncDecimal(p.error))
              + (EncDecimal(p.cpu) + EncDecimal(p.sqlCount) + EncDecimal(p.sqlTime) + EncBlob(p.ipaddr))
              + (EncDecimal(p.kbytes) + EncDecimal(p.status) + EncDecimal(p.userid) + EncDecimal(p.userAgent))
              + (EncDecimal(p.referer) + EncDecimal(p.group) + EncDecimal(p.apicallCount) + EncDecimal(p.apicallTime))
    requires middle ==
              (EncBlob(p.countryCode) + EncDecimal(p.city))
              + [p.xType % 256]
              + (EncDecimal(p.login) + EncDecimal(p.desc))
              + (EncDecimal(p.webHash) + EncDecimal(p.webTime))
              + [p.hasDump % 256]
              + EncDecimal(p.threadNameHash)
    requires last ==
              (EncBlob(p.text1) + EncBlob(p.text2))
              + (EncDecimal(p.queuingHostHash) + EncDecimal(p.queuingTime) + EncDecimal(p.queuing2ndHostHash) +
                 EncDecimal(p.queuing2ndTime))
              + (EncBlob(p.text3) + EncBlob(p.text4) + EncBlob(p.text5))
              + EncDecimal(p.profileCount)
              + [if p.b3Mode then 1 else 0]
              + (EncDecimal(p.profileSize) + [p.discardType % 256] +
                 [if p.ignoreGlobalConsequentSampling then 1 else 0])
    ensures Payload(p) == head + middle + last
  {
    hide Group, EncFrom, EncFields, EncDecimal, EncBlob, ToBE;
    FixedPartIs(p);
    MiddlePartIs(p);
    LastPartIs(p);
    EncFromJoins(p, 0, 5, 11);
    EncFromJoins(p, 0, 11, 17);
  }

  /** The 43 fields in this order, each in its own form. */
  ghost predicate Spells(payload: Bytes, p: XLogPack) {
    var head :=
      (EncDecimal(p.endTime) + EncDecimal(p.objHash) + EncDecimal(p.service) + ToBE(p.txid, 8))
      + (ToBE(p.caller, 8) + ToBE(p.gxid, 8) + EncDecimal(p.elapsed) + EncDecimal(p.error))
      + (EncDecimal(p.cpu) + EncDecimal(p.sqlCount) + EncDecimal(p.sqlTime) + EncBlob(p.ipaddr))
      + (EncDecimal(p.kbytes) + EncDecimal(p.status) + EncDecimal(p.userid) + EncDecimal(p.userAgent))
      + (EncDecimal(p.referer) + EncDecimal(p.group) + EncDecimal(p.apicallCount) + EncDecimal(p.apicallTime));
    var middle :=
      (EncBlob(p.countryCode) + EncDecimal(p.city))
      + [p.xType % 256]
      + (EncDecimal(p.login) + EncDecimal(p.desc))
      + (EncDecimal(p.webHash) + EncDecimal(p.webTime))
      + [p.hasDump % 256]
      + EncDecimal(p.threadNameHash);
    var last :=
      (EncBlob(p.text1) + EncBlob(p.text2))
      + (EncDecimal(p.queuingHostHash) + EncDecimal(p.queuingTime) + EncDecimal(p.queuing2ndHostHash) +
         EncDecimal(p.queuing2ndTime))
      + (EncBlob(p.text3) + EncBlob(p.text4) + EncBlob(p.text5))
      + EncDecimal(p.profileCount)
      + [if p.b3Mode then 1 else 0]
      + (EncDecimal(p.profileSize) + [p.discardType % 256] +
         [if p.ignoreGlobalConsequentSampling then 1 else 0]);
    payload == head + middle + last
  }

  /** Bytes that are the 43 fields in this order, and whatever a newer sender adds to them, read as the
      pack with each field at its place. */
  lemma WireReads(p: XLogPack, payload: Bytes, extra: Bytes, rest: Bytes)
    requires Spells(payload, p) && |payload + extra| <= 0x7FFF_FFFF
    ensures DecPack(EncBlob(payload + extra) + rest) == Got(p, rest)
  {
    hide EncFrom, DecPack, EncDecimal, EncBlob, ToBE, Spells;
    PayloadIsSpelled(p, payload);
    NewerSender(p, extra, rest);
  }

  lemma PayloadIsSpelled(p: XLogPack, payload: Bytes)
    ensures Spells(payload, p) <==> payload == Payload(p)
  {
    hide EncFrom, EncDecimal, EncBlob, ToBE;
    FixedPartIs(p);
    MiddlePartIs(p);
    LastPartIs(p);
    PayloadIs(p, EncFrom(p, 0, 5), EncFrom(p, 5, 11), EncFrom(p, 11, 17));
  }

  /** s starts with what a sender of p, or a newer one, sends. */
  ghost predicate Arrives(s: Bytes, p: XLogPack) {
    exists payload: Bytes, extra: Bytes, after: Bytes ::
      Spells(payload, p) && |payload + extra| <= 0x7FFF_FFFF && s == EncBlob(payload + extra) + after
  }

  lemma ArrivalReads(s: Bytes)
    ensures forall p | Arrives(s, p) :: DecPack(s).Got? && DecPack(s).value == p
  {
    hide Spells, DecPack, EncBlob;
    forall p | Arrives(s, p)
      ensures DecPack(s).Got? && DecPack(s).value == p
    {
      var payload: Bytes, extra: Bytes, after: Bytes :|
        Spells(payload, p) && |payload + extra| <= 0x7FFF_FFFF && s == EncBlob(payload + extra) + after;
      WireReads(p, payload, extra, after);
    }
  }

  /** The fixed part alone reads as a pack whose other 23 fields are zero, false or empty. */
  lemma FixedWireReads(p: XLogPack, payload: Bytes, rest: Bytes)
    requires |payload| <= 0x7FFF_FFFF
    requires payload ==
              (EncDecimal(p.endTime) + EncDecimal(p.objHash) + EncDecimal(p.service) + ToBE(p.txid, 8))
              + (ToBE(p.caller, 8) + ToBE(p.gxid, 8) + EncDecimal(p.elapsed) + EncDecimal(p.error))
              + (EncDecimal(p.cpu) + EncDecimal(p.sqlCount) + EncDecimal(p.sqlTime) + EncBlob(p.ipaddr))
              + (EncDecimal(p.kbytes) + EncDecimal(p.status) + EncDecimal(p.userid) + EncDecimal(p.userAgent))
              + (EncDecimal(p.referer) + EncDecimal(p.group) + EncDecimal(p.apicallCount) +
                 EncDecimal(p.apicallTime))
    ensures DecPack(EncBlob(payload) + rest) ==
              Got(p.(countryCode := [], city := 0, xType := 0, login := 0, desc := 0, webHash := 0, webTime := 0,
                     hasDump := 0, threadNameHash := 0, text1 := [], text2 := [], queuingHostHash := 0,
                     queuingTime := 0, queuing2ndHostHash := 0, queuing2ndTime := 0, text3 := [], text4 := [],
                     text5 := [], profileCount := 0, b3Mode := false, profileSize := 0, discardType := 0,
                     ignoreGlobalConsequentSampling := false), rest)
  {
    hide DecPack, EncFrom, EncDecimal, EncBlob, ToBE;
    FixedPartIs(p);
    OlderSender(p, 5, rest);
  }

  lemma {:induction false} CutBeforeFixed(i: nat, q: XLogPack, p: XLogPack, n: nat)
    requires i < FIXED && n < |EncFrom(p, i, FIXED)| <= 0x7FFF_FFFF
    ensures DecFrom(i, q, EncFrom(p, i, FIXED)[..n]).Fail?
    decreases FIXED - i
  {
    hide Group, Assign, Layout, EncFields, DecFields;
    var all, e, tail := EncFrom(p, i, FIXED), EncFields(Group(i, p)), EncFrom(p, i + 1, FIXED);
    if n < |e| {
      CutGroupFails(i, p, n);
      assert all[..n] == e[..n];
    } else {
      assert all[..n] == e + tail[..n - |e|];
      GroupRoundTrip(i, q, p, tail[..n - |e|]);
      CutBeforeFixed(i + 1, Assign(i, q, Group(i, p)), p, n - |e|);
    }
  }

  /** A payload that stops inside the fixed part is an error. */
  lemma CutFixedPartFails(p: XLogPack, payload: Bytes, n: nat, rest: Bytes)
    requires n < |payload| <= 0x7FFF_FFFF
    requires payload ==
              (EncDecimal(p.endTime) + EncDecimal(p.objHash) + EncDecimal(p.service) + ToBE(p.txid, 8))
              + (ToBE(p.caller, 8) + ToBE(p.gxid, 8) + EncDecimal(p.elapsed) + EncDecimal(p.error))
              + (EncDecimal(p.cpu) + EncDecimal(p.sqlCount) + EncDecimal(p.sqlTime) + EncBlob(p.ipaddr))
              + (EncDecimal(p.kbytes) + EncDecimal(p.status) + EncDecimal(p.userid) + EncDecimal(p.userAgent))
              + (EncDecimal(p.referer) + EncDecimal(p.group) + EncDecimal(p.apicallCount) +
                 EncDecimal(p.apicallTime))
    ensures DecPack(EncBlob(payload[..n]) + rest).Fail?
  {
    hide DecFrom, EncFrom, EncDecimal, EncBlob, DecBlob, ToBE;
    FixedPartIs(p);
    BlobRoundTrip(payload[..n], rest);
    CutBeforeFixed(0, DEFAULT_PACK, p, n);
  }
}
