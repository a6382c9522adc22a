/** The frames of the transaction-log data file and what the three indexes make of them. */
module XLogFrames {
  import opened ByteCodec
  import opened DataInput
  import opened RealKeyFile
  import opened KeyLog
  import opened SlotChains
  import opened KeyIndex
  import opened TimeRange

  datatype XLogEntry = XLogEntry(time: i64, txid: i64, gxid: i64, data: Bytes)

  /** Everything written, oldest first. */
  type XLog = seq<XLogEntry>

  // ---------- frames ----------

  /** [short: length][bytes]; the length keeps its low 16 bits. */
  function Frame(data: Bytes): Bytes { ToBE(|data|, 2) + data }

  /** `read_data_at`: the length is read signed, and a negative one cannot be allocated. */
  function FrameAt(file: Bytes, at: int): Result<Bytes> {
    match ReadAt(file, at, 2)
    case Err => Err
    case Ok(b) =>
      var len := SignedBE(b);
      if len == 0 then Ok([]) else if len < 0 then Err else ReadAt(file, at + 2, len)
  }

  /** What a complete frame reads back as: the part of its data that the low 16 bits of the length
      tell, or nothing when they are negative as a signed number. */
  function Readback(data: Bytes): Result<Bytes> {
    var n := |data| % 0x1_0000;
    if n < 0x8000 then Ok(data[..n]) else Err
  }

  lemma FrameReads(file: Bytes, at: nat, data: Bytes)
    requires Holds(file, at, Frame(data))
    ensures FrameAt(file, at) == Readback(data)
  {
    hide ToBE, SignedBE;
    var word, n := ToBE(|data|, 2), |data| % 0x1_0000;
    assert Frame(data) == [] + word + data;
    HoldsPart(file, at, [], word, data);
    LowShort(|data|);
    assert Frame(data) == word + data[..n] + data[n..];
    HoldsPart(file, at, word, data[..n], data[n..]);
  }

  /** A frame reads back exactly when its payload has at most 32767 bytes. */
  lemma FrameReadsBackIff(file: Bytes, at: nat, data: Bytes)
    requires Holds(file, at, Frame(data))
    ensures FrameAt(file, at) == Ok(data) <==> |data| <= 0x7FFF
  {
    hide FrameAt;
    FrameReads(file, at, data);
    if |data| <= 0x7FFF {
      assert data[..|data|] == data;
    }
  }

  /** Every entry has a complete frame at its offset. */
  ghost predicate FramesHold(file: Bytes, log: XLog, offs: seq<nat>) {
    && |offs| == |log|
    && (forall i | 0 <= i < |log| :: offs[i] < 0x80_0000_0000)
    && (forall i | 0 <= i < |log| :: Holds(file, offs[i], Frame(log[i].data)))
  }

  lemma FramesSurviveGrowth(file: Bytes, more: Bytes, log: XLog, offs: seq<nat>)
    requires FramesHold(file, log, offs)
    ensures FramesHold(file + more, log, offs)
  {
    hide Frame;
    forall i | 0 <= i < |log|
      ensures Holds(file + more, offs[i], Frame(log[i].data))
    {
      HoldsExtends(file, offs[i], Frame(log[i].data), more);
    }
  }

  lemma FrameAppended(file: Bytes, log: XLog, offs: seq<nat>, e: XLogEntry)
    requires FramesHold(file, log, offs) && |file| < 0x80_0000_0000
    ensures FramesHold(file + Frame(e.data), log + [e], offs + [|file|])
  {
    hide Frame;
    FramesSurviveGrowth(file, Frame(e.data), log, offs);
    assert (file + Frame(e.data))[|file|..] == Frame(e.data);
  }

  // ---------- what the indexes hold ----------

  /** `to_long5_from_slice` and `to_long5_from_bytes`. */
  function PosOf(b: Bytes): int { if |b| < 5 then 0 else ToLong5(b[..5]) }

  /** The key of an entry in the txid index or, for gx, in the gxid index. */
  function Id(e: XLogEntry, gx: bool): i64 { if gx then e.gxid else e.txid }

  /** Entries without a global id are left out of the gxid index. */
  predicate Indexed(e: XLogEntry, gx: bool) { gx ==> e.gxid != 0 }

  function IndexOps(log: XLog, offs: seq<nat>, gx: bool): History
    requires |offs| == |log|
  {
    if log == [] then []
    else
      var n := |log| - 1;
      IndexOps(log[..n], offs[..n], gx)
      + (if Indexed(log[n], gx) then [Put(ToBE(Id(log[n], gx), 8), ToBytes5(offs[n]))] else [])
  }

  function TimeEntries(log: XLog, offs: seq<nat>): Entries
    requires |offs| == |log|
  {
    if log == [] then []
    else
      var n := |log| - 1;
      TimeEntries(log[..n], offs[..n]) + [TimeToData(log[n].time, ToBytes5(offs[n]))]
  }

  /** The data written under an id, newest first. */
  function DataOf(log: XLog, gx: bool, id: i64): seq<Bytes> {
    if log == [] then []
    else
      var e, older := log[|log| - 1], DataOf(log[..|log| - 1], gx, id);
      if Indexed(e, gx) && Id(e, gx) == id then [e.data] + older else older
  }

  /** The log as the time queries see it. */
  function Timed(log: XLog): Entries {
    if log == [] then []
    else Timed(log[..|log| - 1]) + [TimeToData(log[|log| - 1].time, log[|log| - 1].data)]
  }

  lemma IndexOpsAppend(log: XLog, offs: seq<nat>, e: XLogEntry, off: nat, gx: bool)
    requires |offs| == |log|
    ensures IndexOps(log + [e], offs + [off], gx)
         == IndexOps(log, offs, gx) + (if Indexed(e, gx) then [Put(ToBE(Id(e, gx), 8), ToBytes5(off))] else [])
    ensures TimeEntries(log + [e], offs + [off]) == TimeEntries(log, offs) + [TimeToData(e.time, ToBytes5(off))]
  {
    assert (log + [e])[..|log|] == log && (offs + [off])[..|offs|] == offs;
  }

  /** Each position looked up in an index is the start of a complete frame with the matching data, in
      the same order. */
  lemma {:induction false} LookupLeadsToData(file: Bytes, log: XLog, offs: seq<nat>, gx: bool, id: i64)
    requires FramesHold(file, log, offs)
    ensures var found := Replay(IndexOps(log, offs, gx), ToBE(id, 8));
            && |found| == |DataOf(log, gx, id)|
            && forall j | 0 <= j < |found| ::
                 FrameAt(file, PosOf(found[j])) == Readback(DataOf(log, gx, id)[j])
  {
    hide Frame, FrameAt, ToLong5, ToBytes5, Readback, ToBE, PosOf;
    if log != [] {
      var n := |log| - 1;
      var older := IndexOps(log[..n], offs[..n], gx);
      LookupLeadsToData(file, log[..n], offs[..n], gx, id);
      if Indexed(log[n], gx) {
        assert (older + [Put(ToBE(Id(log[n], gx), 8), ToBytes5(offs[n]))])[..|older|] == older;
        SameId(Id(log[n], gx), id);
        PosLeads(file, offs[n], log[n].data);
      } else {
        assert IndexOps(log, offs, gx) == older;
      }
    }
  }

  lemma SameId(a: i64, b: i64)
    ensures ToBE(a, 8) == ToBE(b, 8) <==> a == b
  {
    hide ToBE;
    Pow256Values();
    if ToBE(a, 8) == ToBE(b, 8) {
      SignedToBEInjective(a, b, 8);
    }
  }

  lemma PosLeads(file: Bytes, off: nat, data: Bytes)
    requires Holds(file, off, Frame(data)) && off < 0x80_0000_0000
    ensures FrameAt(file, PosOf(ToBytes5(off))) == Readback(data)
  {
    hide Frame, FrameAt, ToBytes5, Readback, PosOf;
    PosIsOffset(off);
    FrameReads(file, off, data);
  }

  // ---------- the answers in terms of the fields ----------

  /** Entry i is the last one logged for the transaction. */
  ghost predicate IsNewest(log: XLog, txid: i64, i: nat) {
    i < |log| && log[i].txid == txid && forall j | i < j < |log| :: log[j].txid != txid
  }

  ghost predicate NeverLogged(log: XLog, txid: i64) { forall i | 0 <= i < |log| :: log[i].txid != txid }

  /** The numbers of the entries of a group, newest first; 0 is no group. */
  ghost predicate IsGroup(log: XLog, gxid: i64, numbers: seq<nat>) {
    && (forall k | 0 <= k < |numbers| :: numbers[k] < |log|)
    && (forall j, k | 0 <= j < k < |numbers| :: numbers[j] > numbers[k])
    && (forall i | 0 <= i < |log| :: i in numbers <==> log[i].gxid == gxid && gxid != 0)
  }

  lemma {:induction false} TransactionData(log: XLog, txid: i64)
    ensures forall i: nat | IsNewest(log, txid, i) ::
              DataOf(log, false, txid) != [] && DataOf(log, false, txid)[0] == log[i].data
    ensures NeverLogged(log, txid) ==> DataOf(log, false, txid) == []
  {
    if log != [] {
      var n := |log| - 1;
      TransactionData(log[..n], txid);
      forall i: nat | IsNewest(log, txid, i)
        ensures DataOf(log, false, txid) != [] && DataOf(log, false, txid)[0] == log[i].data
      {
        if i < n {
          assert IsNewest(log[..n], txid, i) && log[n].txid != txid;
        }
      }
    }
  }

  lemma {:induction false} GroupData(log: XLog, gxid: i64) returns (numbers: seq<nat>)
    ensures IsGroup(log, gxid, numbers) && LeadTo(log, numbers, DataOf(log, true, gxid))
  {
    hide IsGroup, LeadTo;
    numbers := [];
    if log == [] {
      NoGroup(gxid);
    } else {
      var n := |log| - 1;
      numbers := GroupData(log[..n], gxid);
      OneMoreInGroup(log, gxid, numbers);
      OneMoreLeads(log, numbers, DataOf(log[..n], true, gxid));
      if log[n].gxid == gxid && gxid != 0 {
        numbers := [n] + numbers;
      }
    }
  }

  /** These are the data of these entries. */
  ghost predicate LeadTo(log: XLog, numbers: seq<nat>, datas: seq<Bytes>) {
    && |datas| == |numbers|
    && forall k | 0 <= k < |numbers| :: numbers[k] < |log| && datas[k] == log[numbers[k]].data
  }

  lemma NoGroup(gxid: i64)
    ensures IsGroup([], gxid, []) && LeadTo([], [], DataOf([], true, gxid))
  {
  }

  lemma OneMoreLeads(log: XLog, numbers: seq<nat>, datas: seq<Bytes>)
    requires log != [] && LeadTo(log[..|log| - 1], numbers, datas)
    ensures LeadTo(log, numbers, datas) && LeadTo(log, [|log| - 1] + numbers, [log[|log| - 1].data] + datas)
  {
  }

  lemma OneMoreInGroup(log: XLog, gxid: i64, numbers: seq<nat>)
    requires log != [] && IsGroup(log[..|log| - 1], gxid, numbers)
    ensures var n := |log| - 1;
            IsGroup(log, gxid, if log[n].gxid == gxid && gxid != 0 then [n] + numbers else numbers)
  {
    var n := |log| - 1;
    var all := if log[n].gxid == gxid && gxid != 0 then [n] + numbers else numbers;
    assert n !in numbers;
    forall i | 0 <= i < |log|
      ensures i in all <==> log[i].gxid == gxid && gxid != 0
    {
      assert i == n || log[..n][i] == log[i];
    }
  }

  /** For the time queries entry i is its time with its data. */
  lemma {:induction false} TimedIs(log: XLog)
    ensures |Timed(log)| == |log|
    ensures forall i | 0 <= i < |log| :: Timed(log)[i] == TimeToData(log[i].time, log[i].data)
  {
    if log != [] {
      TimedIs(log[..|log| - 1]);
    }
  }

  /** What a time query hands out lists the entries of the range by their numbers: each once, earlier
      times first, and of equal times the one logged later first. Entries whose data cannot be read back are
      left out. */
  ghost predicate ListsLog(log: XLog, from: int, to: int, calls: Entries, numbers: seq<nat>) {
    && CallsAre(log, calls, numbers)
    && forall i: nat | i < |log| :: i in numbers <==> from <= log[i].time <= to && |log[i].data| % 0x1_0000 < 0x8000
  }

  ghost predicate CallsAre(log: XLog, calls: Entries, numbers: seq<nat>) {
    && |calls| == |numbers| && InLog(log, numbers) && InTurn(log, numbers)
    && forall k | 0 <= k < |calls| :: IsCallFor(log[numbers[k]], calls[k])
  }

  predicate IsCallFor(e: XLogEntry, call: TimeToData) {
    call == TimeToData(e.time, e.data[..|e.data| % 0x1_0000])
  }

  ghost predicate InTurn(log: XLog, numbers: seq<nat>)
    requires InLog(log, numbers)
  {
    forall j, k | 0 <= j < k < |numbers| :: ComesBefore(log, numbers[j], numbers[k])
  }

  ghost predicate InLog(log: XLog, numbers: seq<nat>) { forall k | 0 <= k < |numbers| :: numbers[k] < |log| }

  predicate ComesBefore(log: XLog, a: nat, b: nat)
    requires a < |log| && b < |log|
  {
    log[a].time < log[b].time || (log[a].time == log[b].time && a > b)
  }

  ghost predicate ListsSomeLog(log: XLog, from: int, to: int, calls: Entries) {
    exists numbers :: ListsLog(log, from, to, calls, numbers)
  }

  lemma TimeQueryLists(log: XLog, zone: int, from: int, to: int)
    requires from <= to && to - from < 86_400_000 && (from + zone) % 500 <= (to + zone) % 500
    ensures ListsSomeLog(log, from, to, Delivered(Filtered(Timed(log), zone, from, from, to, TIME_SLOTS)))
  {
    hide Filtered, Timed, Lists, Delivered, ListsLog;
    RangeReadLists(Timed(log), zone, from, to);
    var hits := Filtered(Timed(log), zone, from, from, to, TIME_SLOTS);
    var numbers :| Lists(Timed(log), from, to, hits, numbers);
    HitsOfLog(log, from, to, hits, numbers);
    var kept := DeliveredAre(log, hits, numbers);
    CallsOfLog(log, from, to, hits, numbers, kept);
  }

  ghost predicate HitsAre(log: XLog, hits: Entries, numbers: seq<nat>) {
    && |hits| == |numbers| && InLog(log, numbers) && InTurn(log, numbers)
    && forall k | 0 <= k < |hits| :: hits[k] == TimeToData(log[numbers[k]].time, log[numbers[k]].data)
  }

  lemma HitsOfLog(log: XLog, from: int, to: int, hits: Entries, numbers: seq<nat>)
    requires Lists(Timed(log), from, to, hits, numbers)
    ensures HitsAre(log, hits, numbers)
    ensures forall i: nat | i < |log| :: i in numbers <==> from <= log[i].time <= to
  {
    TimedIs(log);
    hide Timed;
    forall k | 0 <= k < |hits|
      ensures hits[k] == TimeToData(log[numbers[k]].time, log[numbers[k]].data)
    {
      assert hits[k] == Timed(log)[numbers[k]];
    }
  }

  lemma CallsOfLog(log: XLog, from: int, to: int, hits: Entries, numbers: seq<nat>, kept: seq<nat>)
    requires CallsAre(log, Delivered(hits), kept)
    requires forall i: nat | i < |log| :: i in numbers <==> from <= log[i].time <= to
    requires forall i: nat | i < |log| :: i in kept <==> i in numbers && |log[i].data| % 0x1_0000 < 0x8000
    ensures ListsLog(log, from, to, Delivered(hits), kept)
  {
    hide CallsAre;
  }

  /** Of the entries hit those are delivered whose data reads back. */
  lemma {:induction false} DeliveredAre(log: XLog, hits: Entries, numbers: seq<nat>) returns (kept: seq<nat>)
    requires HitsAre(log, hits, numbers)
    ensures CallsAre(log, Delivered(hits), kept)
    ensures forall i: nat | i < |log| :: i in kept <==> i in numbers && |log[i].data| % 0x1_0000 < 0x8000
    decreases |hits|
  {
    kept := [];
    if hits != [] {
      kept := DeliveredAre(log, hits[1..], numbers[1..]);
      assert forall i: nat :: i in numbers <==> i == numbers[0] || i in numbers[1..];
      if |log[numbers[0]].data| % 0x1_0000 < 0x8000 {
        FirstCall(log, hits, numbers, kept);
        assert forall i: nat :: i in [numbers[0]] + kept <==> i == numbers[0] || i in kept;
        kept := [numbers[0]] + kept;
      }
    }
  }

  lemma FirstCall(log: XLog, hits: Entries, numbers: seq<nat>, kept: seq<nat>)
    requires hits != [] && HitsAre(log, hits, numbers) && |log[numbers[0]].data| % 0x1_0000 < 0x8000
    requires CallsAre(log, Delivered(hits[1..]), kept)
    requires forall i: nat | i < |log| :: i in kept ==> i in numbers[1..]
    ensures CallsAre(log, Delivered(hits), [numbers[0]] + kept)
  {
    var calls := Delivered(hits[1..]);
    var call := TimeToData(hits[0].time, hits[0].dataPos[..|hits[0].dataPos| % 0x1_0000]);
    assert Delivered(hits) == [call] + calls;
    assert IsCallFor(log[numbers[0]], call);
    hide Delivered, IsCallFor;
    FirstInTurn(log, numbers, kept);
  }

  lemma FirstInTurn(log: XLog, numbers: seq<nat>, kept: seq<nat>)
    requires numbers != [] && InLog(log, numbers) && InTurn(log, numbers) && InLog(log, kept) && InTurn(log, kept)
    requires forall i: nat | i < |log| :: i in kept ==> i in numbers[1..]
    ensures InLog(log, [numbers[0]] + kept) && InTurn(log, [numbers[0]] + kept)
  {
    hide ComesBefore;
    forall k | 0 <= k < |kept|
      ensures ComesBefore(log, numbers[0], kept[k])
    {
      assert kept[k] in kept;
      var m :| 0 <= m < |numbers[1..]| && numbers[1..][m] == kept[k];
      assert numbers[m + 1] == kept[k];
    }
  }

  // ---------- from positions to data in time queries ----------

  /** What a time query hands out: entries whose frame cannot be read are skipped. */
  function Resolve(hits: Entries, file: Bytes): Entries {
    if hits == [] then []
    else
      var rest := Resolve(hits[1..], file);
      match FrameAt(file, PosOf(hits[0].dataPos))
      case Ok(data) => [TimeToData(hits[0].time, data)] + rest
      case Err => rest
  }

  /** The entries whose data reads back, with what it reads back as. */
  function Delivered(entries: Entries): Entries {
    if entries == [] then []
    else
      match Readback(entries[0].dataPos)
      case Ok(data) => [TimeToData(entries[0].time, data)] + Delivered(entries[1..])
      case Err => Delivered(entries[1..])
  }

  lemma {:induction false} ShortDataIsDelivered(entries: Entries)
    requires forall i | 0 <= i < |entries| :: |entries[i].dataPos| <= 0x7FFF
    ensures Delivered(entries) == entries
  {
    if entries != [] {
      ShortDataIsDelivered(entries[1..]);
      assert entries[0].dataPos[..|entries[0].dataPos|] == entries[0].dataPos;
    }
  }

  /** Entry by entry, the position in a leads to the data in b, at the same time. */
  ghost predicate Leads(file: Bytes, a: Entries, b: Entries) {
    && |a| == |b|
    && forall i | 0 <= i < |a| :: a[i].time == b[i].time && FrameAt(file, PosOf(a[i].dataPos)) == Readback(b[i].dataPos)
  }

  lemma {:induction false} ResolveLeads(file: Bytes, a: Entries, b: Entries)
    requires Leads(file, a, b)
    ensures Resolve(a, file) == Delivered(b)
  {
    hide FrameAt, PosOf, Readback;
    if a != [] {
      ResolveLeads(file, a[1..], b[1..]);
    }
  }

  lemma {:induction false} TimedLeads(file: Bytes, log: XLog, offs: seq<nat>)
    requires FramesHold(file, log, offs)
    ensures Leads(file, TimeEntries(log, offs), Timed(log))
  {
    hide Frame, FrameAt, ToLong5, ToBytes5, Readback, PosOf;
    if log != [] {
      var n := |log| - 1;
      TimedLeads(file, log[..n], offs[..n]);
      PosLeads(file, offs[n], log[n].data);
    }
  }

  lemma {:induction false} NewestLeads(file: Bytes, a: Entries, b: Entries, zone: int, slot: nat)
    requires Leads(file, a, b)
    ensures Leads(file, Newest(a, zone, slot), Newest(b, zone, slot))
  {
    hide FrameAt, PosOf, Readback, TimeSlot;
    if a != [] {
      NewestLeads(file, a[..|a| - 1], b[..|b| - 1], zone, slot);
    }
  }

  lemma {:induction false} InsertLeads(file: Bytes, e: TimeToData, f: TimeToData, a: Entries, b: Entries)
    requires Leads(file, [e], [f]) && Leads(file, a, b)
    ensures Leads(file, Insert(e, a), Insert(f, b))
  {
    hide FrameAt, PosOf, Readback;
    assert [e][0].time == [f][0].time;
    if a != [] && e.time > a[0].time {
      InsertLeads(file, e, f, a[1..], b[1..]);
    }
  }

  lemma {:induction false} SortLeads(file: Bytes, a: Entries, b: Entries)
    requires Leads(file, a, b)
    ensures Leads(file, SortByTime(a), SortByTime(b))
  {
    hide FrameAt, PosOf, Readback, Insert;
    if a != [] {
      SortLeads(file, a[1..], b[1..]);
      InsertLeads(file, a[0], b[0], SortByTime(a[1..]), SortByTime(b[1..]));
    }
  }

  lemma {:induction false} WithinLeads(file: Bytes, a: Entries, b: Entries, from: int, to: int)
    requires Leads(file, a, b)
    ensures Leads(file, Within(a, from, to), Within(b, from, to))
  {
    hide FrameAt, PosOf, Readback;
    if a != [] {
      WithinLeads(file, a[1..], b[1..], from, to);
    }
  }

  /** A range read of positions leads, entry by entry, to the same range read of the data. */
  lemma {:induction false} FilteredLeads(file: Bytes, a: Entries, b: Entries, zone: int, from: int, t: int, to: int,
                                         n: nat)
    requires Leads(file, a, b)
    ensures Leads(file, Filtered(a, zone, from, t, to, n), Filtered(b, zone, from, t, to, n))
    decreases n
  {
    hide FrameAt, PosOf, Readback, Newest, SortByTime, Within, TimeSlot;
    if n > 0 && t <= to {
      NewestLeads(file, a, b, zone, TimeSlot(zone, t));
      SortLeads(file, Newest(a, zone, TimeSlot(zone, t)), Newest(b, zone, TimeSlot(zone, t)));
      WithinLeads(file, Bucket(a, zone, t), Bucket(b, zone, t), from, to);
      FilteredLeads(file, a, b, zone, from, t + 500, to, n - 1);
    }
  }

  /** A time query answers from the log alone: no trace of positions or files remains. */
  lemma TimeQueryIsOnLog(file: Bytes, log: XLog, offs: seq<nat>, zone: int, from: int, to: int)
    requires FramesHold(file, log, offs)
    ensures Resolve(Filtered(TimeEntries(log, offs), zone, from, from, to, TIME_SLOTS), file)
         == Delivered(Filtered(Timed(log), zone, from, from, to, TIME_SLOTS))
  {
    hide Filtered, Resolve, Delivered, FrameAt, PosOf;
    TimedLeads(file, log, offs);
    FilteredLeads(file, TimeEntries(log, offs), Timed(log), zone, from, from, to, TIME_SLOTS);
    ResolveLeads(file, Filtered(TimeEntries(log, offs), zone, from, from, to, TIME_SLOTS),
                 Filtered(Timed(log), zone, from, from, to, TIME_SLOTS));
  }

  // ---------- what one index makes of the data file ----------

  /** The part of the log that one index answers for, where its frames are, and how much of it the
      index would still answer for after a crash. */
  datatype View = View(log: XLog, offs: seq<nat>, flushed: nat)

  /** Every frame is complete in the file, and the frames of the flushed part are complete in the
      part of the file that a crash leaves. */
  ghost predicate ViewHolds(file: Bytes, synced: nat, v: View) {
    && |v.offs| == |v.log| && v.flushed <= |v.log| && synced <= |file|
    && FramesHold(file, v.log, v.offs)
    && FramesHold(file[..synced], v.log[..v.flushed], v.offs[..v.flushed])
  }

  ghost predicate Sized(v: View) { |v.offs| == |v.log| && v.flushed <= |v.log| }

  function Extended(v: View, e: XLogEntry, off: nat): View { View(v.log + [e], v.offs + [off], v.flushed) }

  function AllFlushed(v: View): View { v.(flushed := |v.log|) }

  /** What is left of a view after a crash. */
  function Saved(v: View): View
    requires Sized(v)
  {
    View(v.log[..v.flushed], v.offs[..v.flushed], v.flushed)
  }

  lemma ViewIsSized(file: Bytes, synced: nat, v: View)
    requires ViewHolds(file, synced, v)
    ensures Sized(v)
  {
  }

  lemma PrefixOfAppend<T>(s: seq<T>, x: T, n: nat)
    requires n <= |s|
    ensures (s + [x])[..n] == s[..n]
  {
  }

  lemma SavedOfExtended(v: View, e: XLogEntry, off: nat)
    requires Sized(v)
    ensures Sized(Extended(v, e, off)) && Saved(Extended(v, e, off)) == Saved(v)
  {
    PrefixOfAppend(v.log, e, v.flushed);
    PrefixOfAppend(v.offs, off, v.flushed);
  }

  /** A frame was appended, indexed or not. */
  lemma ViewAfterFrame(file: Bytes, synced: nat, v: View, e: XLogEntry)
    requires ViewHolds(file, synced, v) && |file| < 0x80_0000_0000
    ensures ViewHolds(file + Frame(e.data), synced, v)
    ensures ViewHolds(file + Frame(e.data), synced, Extended(v, e, |file|))
  {
    hide Frame, FramesHold;
    FramesSurviveGrowth(file, Frame(e.data), v.log, v.offs);
    FrameAppended(file, v.log, v.offs, e);
    SavedOfExtended(v, e, |file|);
    assert (file + Frame(e.data))[..synced] == file[..synced];
  }

  /** Data that was flushed can be relied on, whether or not the index was. */
  lemma ViewAfterDataFlush(file: Bytes, synced: nat, v: View)
    requires ViewHolds(file, synced, v)
    ensures ViewHolds(file, |file|, v)
  {
    assert file[..|file|] == file;
  }

  /** Flushing an index is right only when the data file has been flushed before. */
  lemma ViewAfterIndexFlush(file: Bytes, v: View)
    requires ViewHolds(file, |file|, v)
    ensures ViewHolds(file, |file|, AllFlushed(v)) && Saved(AllFlushed(v)) == AllFlushed(v)
  {
    assert file[..|file|] == file && v.log[..|v.log|] == v.log && v.offs[..|v.log|] == v.offs;
  }

  /** The index flushed before its data points past the end of what a crash leaves. */
  lemma IndexBeforeDataLosesFrames(v: View, e: XLogEntry)
    requires v == View([e], [0], 0)
    ensures ViewHolds(Frame(e.data), 0, v) && !ViewHolds(Frame(e.data), 0, AllFlushed(v))
    ensures FrameAt(Frame(e.data)[..0], v.offs[0]) == Err
  {
    assert v.log[..1] == [e] && v.offs[..1] == [0];
    assert Frame(e.data)[0..|Frame(e.data)|] == Frame(e.data);
    assert !Holds(Frame(e.data)[..0], [0][0], Frame([e][0].data));
  }

  lemma ViewAfterCrash(file: Bytes, synced: nat, v: View, cut: nat)
    requires ViewHolds(file, synced, v) && synced <= cut <= |file|
    ensures ViewHolds(file[..cut], cut, Saved(v)) && AllFlushed(Saved(v)) == Saved(v)
  {
    hide FramesHold;
    assert file[..cut] == file[..synced] + file[synced..cut] && file[..cut][..cut] == file[..cut];
    FramesSurviveGrowth(file[..synced], file[synced..cut], Saved(v).log, Saved(v).offs);
    assert Saved(v).log[..v.flushed] == Saved(v).log && Saved(v).offs[..v.flushed] == Saved(v).offs;
  }

  // ---------- an index that reached the disk ahead of some frames ----------

  /** How many bytes of the data reading its frame asks for. */
  function ReadLength(data: Bytes): nat {
    var n := |data| % 0x1_0000;
    if n < 0x8000 then n else 0
  }

  /** Of a frame that the end of the file may cut, reading gives what it gave before if all bytes it
      asks for are there, and an error otherwise. */
  lemma CutFrameReads(file: Bytes, at: nat, data: Bytes, cut: nat)
    requires Holds(file, at, Frame(data)) && cut <= |file|
    ensures FrameAt(file[..cut], at) == if at + 2 + ReadLength(data) <= cut then Readback(data) else Err
  {
    hide ToBE, SignedBE;
    var n := |data| % 0x1_0000;
    FrameReads(file, at, data);
    if at + 2 <= cut {
      assert file[..cut][at..at + 2] == file[at..at + 2];
      HoldsPart(file, at, [], ToBE(|data|, 2), data);
      assert Frame(data) == [] + ToBE(|data|, 2) + data;
      LowShort(|data|);
      if at + 2 + n <= cut {
        assert file[..cut][at + 2..at + 2 + n] == file[at + 2..at + 2 + n];
      }
    }
  }

  /** What following the positions of an id gives in a file cut short, newest first. */
  function DataWithin(log: XLog, offs: seq<nat>, gx: bool, id: i64, cut: nat): seq<Result<Bytes>>
    requires |offs| == |log|
  {
    if log == [] then []
    else
      var n := |log| - 1;
      var e, older := log[n], DataWithin(log[..n], offs[..n], gx, id, cut);
      if Indexed(e, gx) && Id(e, gx) == id
      then [if offs[n] + 2 + ReadLength(e.data) <= cut then Readback(e.data) else Err] + older
      else older
  }

  /** For a transaction the first of them is that of the entry logged last. */
  lemma TransactionWithin(log: XLog, offs: seq<nat>, txid: i64, cut: nat)
    requires |offs| == |log|
    ensures forall i: nat | IsNewest(log, txid, i) ::
              && DataWithin(log, offs, false, txid, cut) != []
              && DataWithin(log, offs, false, txid, cut)[0]
                 == (if offs[i] + 2 + ReadLength(log[i].data) <= cut then Readback(log[i].data) else Err)
    ensures NeverLogged(log, txid) ==> DataWithin(log, offs, false, txid, cut) == []
  {
    hide Readback, ReadLength, DataWithin;
    forall i: nat | IsNewest(log, txid, i)
      ensures DataWithin(log, offs, false, txid, cut) != []
      ensures DataWithin(log, offs, false, txid, cut)[0]
           == if offs[i] + 2 + ReadLength(log[i].data) <= cut then Readback(log[i].data) else Err
    {
      NewestWithin(log, offs, txid, cut, i);
    }
    if NeverLogged(log, txid) {
      NothingWithin(log, offs, txid, cut);
    }
  }

  lemma {:induction false} NewestWithin(log: XLog, offs: seq<nat>, txid: i64, cut: nat, i: nat)
    requires |offs| == |log| && IsNewest(log, txid, i)
    ensures DataWithin(log, offs, false, txid, cut) != []
    ensures DataWithin(log, offs, false, txid, cut)[0]
         == if offs[i] + 2 + ReadLength(log[i].data) <= cut then Readback(log[i].data) else Err
  {
    hide Readback, ReadLength;
    var n := |log| - 1;
    if i < n {
      assert log[n].txid != txid;
      NewestWithin(log[..n], offs[..n], txid, cut, i);
    }
  }

  lemma {:induction false} NothingWithin(log: XLog, offs: seq<nat>, txid: i64, cut: nat)
    requires |offs| == |log| && NeverLogged(log, txid)
    ensures DataWithin(log, offs, false, txid, cut) == []
  {
    if log != [] {
      NothingWithin(log[..|log| - 1], offs[..|log| - 1], txid, cut);
    }
  }

  /** An index that knows all entries, over a data file that a crash has cut anywhere: the entries
      whose frames lie in front of the cut are read as ever, among them all that were written before
      the data was last flushed, and the others are errors. */
  lemma {:induction false} LookupAfterCut(file: Bytes, log: XLog, offs: seq<nat>, gx: bool, id: i64, cut: nat)
    requires FramesHold(file, log, offs) && cut <= |file|
    ensures var found := Replay(IndexOps(log, offs, gx), ToBE(id, 8));
            && |found| == |DataWithin(log, offs, gx, id, cut)|
            && forall j | 0 <= j < |found| ::
                 FrameAt(file[..cut], PosOf(found[j])) == DataWithin(log, offs, gx, id, cut)[j]
  {
    hide Frame, FrameAt, ToLong5, ToBytes5, Readback, ToBE, PosOf, ReadLength;
    if log != [] {
      var n := |log| - 1;
      var older := IndexOps(log[..n], offs[..n], gx);
      LookupAfterCut(file, log[..n], offs[..n], gx, id, cut);
      if Indexed(log[n], gx) {
        assert (older + [Put(ToBE(Id(log[n], gx), 8), ToBytes5(offs[n]))])[..|older|] == older;
        SameId(Id(log[n], gx), id);
        PosIsOffset(offs[n]);
        CutFrameReads(file, offs[n], log[n].data, cut);
      } else {
        assert IndexOps(log, offs, gx) == older;
      }
    }
  }

  lemma PosIsOffset(off: nat)
    requires off < 0x80_0000_0000
    ensures PosOf(ToBytes5(off)) == off
  {
    hide ToLong5, ToBytes5;
    Long5RoundTrip(off);
    assert ToBytes5(off)[..5] == ToBytes5(off);
  }

  /** An input: the position of a frame that is gone altogether hands out the next frame written. */
  lemma LostPositionIsTaken(file: Bytes, off: nat, other: Bytes)
    requires off == |file|
    ensures FrameAt(file, off) == Err && FrameAt(file + Frame(other), off) == Readback(other)
  {
    hide Frame, Readback;
    assert (file + Frame(other))[|file|..] == Frame(other);
    FrameReads(file + Frame(other), off, other);
  }
}
