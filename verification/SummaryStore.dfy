/** The summary store: one data file shared by four indexes, one per family of summary types. */
module SummaryStore {
  import opened ByteCodec
  import opened RealKeyFile
  import opened KeyLog
  import opened SlotBuffer
  import opened SlotChains
  import opened KeyIndex
  import opened KeyScan
  import opened SummaryFrames
  import RDF = RealDataFile
  import KI = IndexKeyFile

  const SUMMARY_APP: Byte := 1
  const SUMMARY_SQL: Byte := 2
  const SUMMARY_IP: Byte := 4
  const SUMMARY_USER_AGENT: Byte := 5
  const SUMMARY_SERVICE_ERROR: Byte := 6

  datatype Route = App | Sql | EndUser | Other

  /** `index_for_stype`. */
  function RouteOf(stype: Byte): Route {
    if stype == SUMMARY_APP || stype == SUMMARY_SERVICE_ERROR then App
    else if stype == SUMMARY_SQL then Sql
    else if stype == SUMMARY_IP || stype == SUMMARY_USER_AGENT then EndUser
    else Other
  }

  datatype Summary = Summary(stype: Byte, hhmm: i32, idHash: i32, data: Bytes)

  /** Everything written, oldest first. */
  type Summaries = seq<Summary>

  function KeyOf(hhmm: i32, idHash: i32): (key: Bytes)
    ensures |key| == 8
  {
    ToBE(hhmm, 4) + ToBE(idHash, 4)
  }

  /** The offset of every summary's frame is known; of those marked whole, the file holds the frame. */
  ghost predicate FramesHold(file: Bytes, log: Summaries, offs: seq<nat>, whole: seq<bool>) {
    && |offs| == |log| == |whole|
    && (forall i | 0 <= i < |log| :: offs[i] < 0x80_0000_0000)
    && (forall i | 0 <= i < |log| && whole[i] :: Holds(file, offs[i], Frame(log[i].data)))
  }

  lemma FrameAppended(file: Bytes, log: Summaries, offs: seq<nat>, whole: seq<bool>, e: Summary)
    requires FramesHold(file, log, offs, whole) && |file| < 0x80_0000_0000
    ensures FramesHold(file + Frame(e.data), log + [e], offs + [|file|], whole + [true])
  {
    hide Frame;
    var longer := file + Frame(e.data);
    assert longer[|file|..] == Frame(e.data);
    forall i | 0 <= i < |log| && whole[i]
      ensures Holds(longer, offs[i], Frame(log[i].data))
    {
      HoldsExtends(file, offs[i], Frame(log[i].data), Frame(e.data));
    }
  }

  /** Every frame of a family is in the data file. */
  ghost predicate FamilyWhole(log: Summaries, whole: seq<bool>, route: Route) {
    forall i | 0 <= i < |log| && i < |whole| && RouteOf(log[i].stype) == route :: whole[i]
  }

  /** The frames of which a cut of the file leaves all. */
  function Uncut(log: Summaries, offs: seq<nat>, whole: seq<bool>, cut: nat): seq<bool>
    requires |offs| == |log| == |whole|
  {
    seq(|log|, i requires 0 <= i < |log| => whole[i] && offs[i] + |Frame(log[i].data)| <= cut)
  }

  lemma FramesAfterCut(file: Bytes, log: Summaries, offs: seq<nat>, whole: seq<bool>, cut: nat)
    requires FramesHold(file, log, offs, whole) && cut <= |file|
    ensures FramesHold(file[..cut], log, offs, Uncut(log, offs, whole, cut))
  {
    hide Frame;
    forall i | 0 <= i < |log| && Uncut(log, offs, whole, cut)[i]
      ensures Holds(file[..cut], offs[i], Frame(log[i].data))
    {
      var n := offs[i] + |Frame(log[i].data)|;
      assert file[..cut][offs[i]..n] == file[offs[i]..n];
    }
  }

  // ---------- what the indexes hold ----------

  /** What one index holds: the key and the position of every summary of its family. */
  function RoutedPairs(log: Summaries, offs: seq<nat>, route: Route): Pairs
    requires |offs| == |log|
  {
    if log == [] then []
    else
      var n := |log| - 1;
      var before := RoutedPairs(log[..n], offs[..n], route);
      if RouteOf(log[n].stype) == route then before + [(KeyOf(log[n].hhmm, log[n].idHash), ToBE(offs[n], 8))]
      else before
  }

  lemma RoutedPairsAppend(log: Summaries, offs: seq<nat>, e: Summary, off: nat, route: Route)
    requires |offs| == |log|
    ensures RoutedPairs(log + [e], offs + [off], route)
         == if RouteOf(e.stype) == route then RoutedPairs(log, offs, route) + [(KeyOf(e.hhmm, e.idHash), ToBE(off, 8))]
            else RoutedPairs(log, offs, route)
  {
    assert (log + [e])[..|log|] == log && (offs + [off])[..|offs|] == offs;
  }

  /** What a query by type hands out, in write order. */
  function ShownOf(log: Summaries, route: Route): Pairs {
    if log == [] then []
    else
      var e, before := log[|log| - 1], ShownOf(log[..|log| - 1], route);
      if RouteOf(e.stype) == route && Visible(e.data).Some?
      then before + [(KeyOf(e.hhmm, e.idHash), Visible(e.data).value)]
      else before
  }

  /** The summaries that a data file of this length still shows. */
  function Within(log: Summaries, offs: seq<nat>, cut: nat): Summaries
    requires |offs| == |log|
  {
    if log == [] then []
    else
      var n := |log| - 1;
      var before, shown := Within(log[..n], offs[..n], cut), Visible(log[n].data);
      if shown.Some? && offs[n] + 4 + |shown.value| > cut then before else before + [log[n]]
  }

  /** The handler calls made for a list of index entries. */
  function Collect(pairs: Pairs, file: Bytes): Pairs {
    if pairs == [] then []
    else
      var before, (key, pos) := Collect(pairs[..|pairs| - 1], file), pairs[|pairs| - 1];
      if |pos| < 8 then before
      else
        match DataAt(file, SignedBE(pos[..8]))
        case None => before
        case Some(data) => before + [(key, data)]
  }

  lemma CollectAppend(pairs: Pairs, key: Bytes, off: nat, file: Bytes)
    requires off < 0x80_0000_0000
    ensures Collect(pairs + [(key, ToBE(off, 8))], file)
         == Collect(pairs, file) + (match DataAt(file, off) case None => [] case Some(data) => [(key, data)])
  {
    hide DataAt;
    assert (pairs + [(key, ToBE(off, 8))])[..|pairs|] == pairs;
    Pow256Values();
    SignedToBE(off, 8);
    assert ToBE(off, 8)[..8] == ToBE(off, 8);
  }

  /** Collecting what one index holds gives that family's summaries in write order, although the
      data file interleaves all four, as long as their frames are whole. */
  lemma {:induction false} CollectIsShown(file: Bytes, log: Summaries, offs: seq<nat>, whole: seq<bool>, route: Route)
    requires FramesHold(file, log, offs, whole)
    requires FamilyWhole(log, whole, route)
    ensures Collect(RoutedPairs(log, offs, route), file) == ShownOf(log, route)
  {
    hide Frame, DataAt, Visible, KeyOf, ToBE, RouteOf;
    if log != [] {
      var n := |log| - 1;
      CollectIsShown(file, log[..n], offs[..n], whole[..n], route);
      if RouteOf(log[n].stype) == route {
        CollectAppend(RoutedPairs(log[..n], offs[..n], route), KeyOf(log[n].hhmm, log[n].idHash), offs[n], file);
        FrameShows(file, offs[n], log[n].data);
      }
    }
  }

  /** After a cut of the file the same entries show exactly the summaries whose data is left:
      flushed or not, and none of those cut off. */
  lemma {:induction false} CollectAfterCut(file: Bytes, log: Summaries, offs: seq<nat>, whole: seq<bool>, route: Route,
                                           cut: nat)
    requires FramesHold(file, log, offs, whole) && cut <= |file|
    requires FamilyWhole(log, whole, route)
    ensures Collect(RoutedPairs(log, offs, route), file[..cut]) == ShownOf(Within(log, offs, cut), route)
  {
    hide Frame, DataAt, Visible, KeyOf, ToBE, RouteOf;
    if log != [] {
      var n := |log| - 1;
      CollectAfterCut(file, log[..n], offs[..n], whole[..n], route, cut);
      var before := Within(log[..n], offs[..n], cut);
      assert (before + [log[n]])[..|before|] == before;
      if RouteOf(log[n].stype) == route {
        CollectAppend(RoutedPairs(log[..n], offs[..n], route), KeyOf(log[n].hhmm, log[n].idHash), offs[n], file[..cut]);
        CutFrameShows(file, offs[n], log[n].data, cut);
      }
    }
  }

  // ---------- the answers in terms of the type numbers ----------

  /** Types 1 and 6 share a family, 4 and 5 share one, 2 has one of its own, and all others share one. */
  predicate SameFamily(a: Byte, b: Byte) {
    || a == b
    || (a in {1, 6} && b in {1, 6})
    || (a in {4, 5} && b in {4, 5})
    || (a !in {1, 2, 4, 5, 6} && b !in {1, 2, 4, 5, 6})
  }

  lemma SameFamilyIff(a: Byte, b: Byte)
    ensures RouteOf(a) == RouteOf(b) <==>
            || a == b
            || (a in {1, 6} && b in {1, 6})
            || (a in {4, 5} && b in {4, 5})
            || (a !in {1, 2, 4, 5, 6} && b !in {1, 2, 4, 5, 6})
    ensures RouteOf(a) == RouteOf(b) <==> SameFamily(a, b)
  {
  }

  /** What is shown of a summary: as many bytes as the low 32 bits of its length tell, which must be
      between 1 and 999999. */
  predicate IsShown(e: Summary) { 0 < |e.data| % 0x1_0000_0000 < 1_000_000 }

  /** The calls for a type list the summaries of its family that are shown, by their numbers, in the
      order they were written. */
  ghost predicate ListsShown(log: Summaries, stype: Byte, calls: Pairs, numbers: seq<nat>) {
    && |calls| == |numbers|
    && (forall k | 0 <= k < |calls| :: numbers[k] < |log| && IsCall(log[numbers[k]], calls[k]))
    && (forall j, k | 0 <= j < k < |numbers| :: numbers[j] < numbers[k])
    && (forall i | 0 <= i < |log| :: i in numbers <==> SameFamily(log[i].stype, stype) && IsShown(log[i]))
  }

  /** The time, the hash and the data of a summary. */
  ghost predicate IsCall(e: Summary, call: (Bytes, Bytes)) {
    call == (ToBE(e.hhmm, 4) + ToBE(e.idHash, 4), e.data[..|e.data| % 0x1_0000_0000])
  }

  lemma {:induction false} ShownLists(log: Summaries, stype: Byte) returns (numbers: seq<nat>)
    ensures ListsShown(log, stype, ShownOf(log, RouteOf(stype)), numbers)
  {
    hide ListsShown, RouteOf;
    numbers := [];
    if log == [] {
      NothingShown(stype);
    } else {
      var n := |log| - 1;
      numbers := ShownLists(log[..n], stype);
      SameFamilyIff(log[n].stype, stype);
      OneMoreShown(log, stype, ShownOf(log[..n], RouteOf(stype)), numbers);
      if SameFamily(log[n].stype, stype) && IsShown(log[n]) {
        numbers := numbers + [n];
      }
    }
  }

  lemma NothingShown(stype: Byte)
    ensures ListsShown([], stype, [], [])
  {
  }

  lemma OneMoreShown(log: Summaries, stype: Byte, calls: Pairs, numbers: seq<nat>)
    requires log != [] && ListsShown(log[..|log| - 1], stype, calls, numbers)
    ensures var n := |log| - 1;
            var call := (KeyOf(log[n].hhmm, log[n].idHash), log[n].data[..|log[n].data| % 0x1_0000_0000]);
            if SameFamily(log[n].stype, stype) && IsShown(log[n])
            then ListsShown(log, stype, calls + [call], numbers + [n])
            else ListsShown(log, stype, calls, numbers)
  {
    hide SameFamily, IsShown, ToBE;
    var n := |log| - 1;
    var more := if SameFamily(log[n].stype, stype) && IsShown(log[n]) then numbers + [n] else numbers;
    assert n !in numbers;
    forall i | 0 <= i < |log|
      ensures i in more <==> SameFamily(log[i].stype, stype) && IsShown(log[i])
    {
      assert i == n || log[..n][i] == log[i];
    }
  }

  /** The same for any data file, whole or not: what is handed out for each summary is what its position
      shows, if it shows anything. */
  ghost predicate ListsCollected(log: Summaries, offs: seq<nat>, file: Bytes, stype: Byte, calls: Pairs,
                                 numbers: seq<nat>)
    requires |offs| == |log|
  {
    && |calls| == |numbers|
    && (forall k | 0 <= k < |calls| ::
          && numbers[k] < |log|
          && IsCallAt(log[numbers[k]], DataAt(file, offs[numbers[k]]), calls[k]))
    && (forall j, k | 0 <= j < k < |numbers| :: numbers[j] < numbers[k])
    && (forall i | 0 <= i < |log| ::
          i in numbers <==> SameFamily(log[i].stype, stype) && DataAt(file, offs[i]).Some?)
  }

  ghost predicate IsCallAt(e: Summary, data: Option<Bytes>, call: (Bytes, Bytes)) {
    data.Some? && call == (ToBE(e.hhmm, 4) + ToBE(e.idHash, 4), data.value)
  }

  lemma {:induction false} CollectedLists(log: Summaries, offs: seq<nat>, file: Bytes, stype: Byte)
    returns (numbers: seq<nat>)
    requires |offs| == |log| && forall i | 0 <= i < |log| :: offs[i] < 0x80_0000_0000
    ensures ListsCollected(log, offs, file, stype, Collect(RoutedPairs(log, offs, RouteOf(stype)), file), numbers)
  {
    hide ListsCollected, RouteOf, DataAt, KeyOf, ToBE;
    numbers := [];
    if log == [] {
      NothingCollected(file, stype);
    } else {
      var n := |log| - 1;
      numbers := CollectedLists(log[..n], offs[..n], file, stype);
      SameFamilyIff(log[n].stype, stype);
      var pairs := RoutedPairs(log[..n], offs[..n], RouteOf(stype));
      OneMoreCollected(log, offs, file, stype, Collect(pairs, file), numbers);
      if SameFamily(log[n].stype, stype) {
        CollectAppend(pairs, KeyOf(log[n].hhmm, log[n].idHash), offs[n], file);
        if DataAt(file, offs[n]).Some? {
          numbers := numbers + [n];
        } else {
          assert Collect(pairs, file) + [] == Collect(pairs, file);
        }
      }
    }
  }

  lemma NothingCollected(file: Bytes, stype: Byte)
    ensures ListsCollected([], [], file, stype, [], [])
  {
  }

  lemma OneMoreCollected(log: Summaries, offs: seq<nat>, file: Bytes, stype: Byte, calls: Pairs, numbers: seq<nat>)
    requires log != [] && |offs| == |log|
    requires ListsCollected(log[..|log| - 1], offs[..|log| - 1], file, stype, calls, numbers)
    ensures var n := |log| - 1;
            var shown := DataAt(file, offs[n]);
            if SameFamily(log[n].stype, stype) && shown.Some?
            then ListsCollected(log, offs, file, stype, calls + [(KeyOf(log[n].hhmm, log[n].idHash), shown.value)],
                                numbers + [n])
            else ListsCollected(log, offs, file, stype, calls, numbers)
  {
    hide SameFamily, DataAt, ToBE;
    var n := |log| - 1;
    var shown := DataAt(file, offs[n]);
    var more := if SameFamily(log[n].stype, stype) && shown.Some? then numbers + [n] else numbers;
    assert n !in numbers;
    forall i | 0 <= i < |log|
      ensures i in more <==> SameFamily(log[i].stype, stype) && DataAt(file, offs[i]).Some?
    {
      assert i == n || (log[..n][i] == log[i] && offs[..n][i] == offs[i]);
    }
  }

  /** The answer for a type: what the positions of its family show; when the data file holds all frames
      of the family, its summaries. */
  ghost predicate TypeAnswer(log: Summaries, offs: seq<nat>, whole: seq<bool>, file: Bytes, stype: Byte, calls: Pairs) {
    && |offs| == |log| == |whole|
    && (exists numbers :: ListsCollected(log, offs, file, stype, calls, numbers))
    && ((forall i | 0 <= i < |log| && SameFamily(log[i].stype, stype) :: whole[i]) ==>
          exists numbers :: ListsShown(log, stype, calls, numbers))
  }

  lemma TypeAnswers(log: Summaries, offs: seq<nat>, whole: seq<bool>, file: Bytes, stype: Byte)
    requires FramesHold(file, log, offs, whole)
    ensures |offs| == |log|
    ensures TypeAnswer(log, offs, whole, file, stype, Collect(RoutedPairs(log, offs, RouteOf(stype)), file))
  {
    hide Frame, ListsCollected, ListsShown, RouteOf, Collect, RoutedPairs;
    var numbers := CollectedLists(log, offs, file, stype);
    if forall i | 0 <= i < |log| && SameFamily(log[i].stype, stype) :: whole[i] {
      forall i | 0 <= i < |log| && RouteOf(log[i].stype) == RouteOf(stype)
        ensures whole[i]
      {
        SameFamilyIff(log[i].stype, stype);
      }
      CollectIsShown(file, log, offs, whole, RouteOf(stype));
      var shown := ShownLists(log, stype);
    }
  }

  // ---------- what later writes can do to the entries of a cut file ----------

  lemma {:induction false} CollectGrows(file: Bytes, datas: seq<Bytes>, log: Summaries, offs: seq<nat>, route: Route)
    requires |offs| == |log| && forall i | 0 <= i < |log| :: offs[i] < 0x80_0000_0000
    ensures var now, later := Collect(RoutedPairs(log, offs, route), file),
                              Collect(RoutedPairs(log, offs, route), file + Frames(datas));
            && |now| <= |later|
            && ((exists i :: 0 <= i < |log| && RouteOf(log[i].stype) == route && DataAt(file, offs[i]) == None
                             && DataAt(file + Frames(datas), offs[i]).Some?) ==> |now| < |later|)
            && ((forall i | 0 <= i < |log| && RouteOf(log[i].stype) == route ::
                   DataAt(file + Frames(datas), offs[i]) == DataAt(file, offs[i])) ==> now == later)
  {
    hide DataAt, Frames, KeyOf, ToBE, RouteOf;
    if log != [] {
      var n := |log| - 1;
      CollectGrows(file, datas, log[..n], offs[..n], route);
      if RouteOf(log[n].stype) == route {
        var before, key := RoutedPairs(log[..n], offs[..n], route), KeyOf(log[n].hhmm, log[n].idHash);
        CollectAppend(before, key, offs[n], file);
        CollectAppend(before, key, offs[n], file + Frames(datas));
        if DataAt(file, offs[n]).Some? {
          ShownStays(file, offs[n], Frames(datas));
        }
      }
    }
  }

  lemma ShownStays(file: Bytes, at: nat, more: Bytes)
    requires DataAt(file, at).Some?
    ensures DataAt(file + more, at) == DataAt(file, at)
  {
    hide DataAt, Settled;
    if !Settled(file, at) {
      UnsettledShowsNothing(file, at);
    }
    SettledStays(file, at, more);
  }

  /** The exact condition, on the file a crash leaves: however the writes go on, the entries made
      before the crash keep showing what they show now if and only if all their positions are
      settled. */
  lemma LaterWritesKeepIff(file: Bytes, log: Summaries, offs: seq<nat>, route: Route)
    requires |offs| == |log| && forall i | 0 <= i < |log| :: offs[i] < 0x80_0000_0000
    ensures (forall datas: seq<Bytes> ::
               Collect(RoutedPairs(log, offs, route), file + Frames(datas))
               == Collect(RoutedPairs(log, offs, route), file))
       <==> forall i | 0 <= i < |log| && RouteOf(log[i].stype) == route :: Settled(file, offs[i])
  {
    hide DataAt, Frames, RouteOf, Settled, Intruders, RoutedPairs, Collect;
    if i :| 0 <= i < |log| && RouteOf(log[i].stype) == route && !Settled(file, offs[i]) {
      UnsettledChanges(file, offs[i]);
      var datas := Intruders(file, offs[i]);
      CollectGrows(file, datas, log, offs, route);
      assert Collect(RoutedPairs(log, offs, route), file + Frames(datas))
          != Collect(RoutedPairs(log, offs, route), file);
    } else {
      forall datas: seq<Bytes>
        ensures Collect(RoutedPairs(log, offs, route), file + Frames(datas))
             == Collect(RoutedPairs(log, offs, route), file)
      {
        forall i | 0 <= i < |log| && RouteOf(log[i].stype) == route
          ensures DataAt(file + Frames(datas), offs[i]) == DataAt(file, offs[i])
        {
          SettledStays(file, offs[i], Frames(datas));
        }
        CollectGrows(file, datas, log, offs, route);
      }
    }
  }

  // ---------- the indexes ----------

  const TABLE_SIZE: nat := 1024 * 1024

  ghost predicate SmallRecords(log: Log) {
    forall i | 0 <= i < |log| :: |log[i].key| == 8 && |log[i].value| == 8
  }

  lemma SmallAppend(log: Log, longer: Log)
    requires SmallRecords(log) && |longer| == |log| + 1 && longer[..|log|] == log
    requires |longer[|log|].key| == 8 && |longer[|log|].value| == 8
    ensures SmallRecords(longer)
  {
    forall i | 0 <= i < |log|
      ensures longer[i] == log[i]
    {
      assert longer[..|log|][i] == longer[i];
    }
  }

  lemma SmallFits(log: Log)
    requires SmallRecords(log)
    ensures FitWindow(log)
  {
  }

  /** The file of an index holds the entries of its family, reachable or not, and nothing that a
      scan would trip over. */
  ghost predicate Routed(index: KI.IndexKeyFile, log: Summaries, offs: seq<nat>, route: Route)
    requires |offs| == |log|
    reads index
  {
    && PairsOf(index.kept) == RoutedPairs(log, offs, route)
    && SmallRecords(index.log)
  }

  ghost predicate RightIndex(index: KI.IndexKeyFile, log: Summaries, offs: seq<nat>, route: Route)
    requires |offs| == |log|
    reads index, index.Repr
  {
    index.Valid() && index.hashBlock.memSize == TABLE_SIZE && Routed(index, log, offs, route)
  }

  lemma RoutedMeans(index: KI.IndexKeyFile, log: Summaries, offs: seq<nat>, route: Route)
    requires |offs| == |log|
    ensures Routed(index, log, offs, route) <==>
            PairsOf(index.kept) == RoutedPairs(log, offs, route) && SmallRecords(index.log)
  {
  }

  /** An index that a summary is not routed to stays right when the summary is logged. */
  lemma RoutedElsewhere(index: KI.IndexKeyFile, log: Summaries, offs: seq<nat>, e: Summary, off: nat, route: Route)
    requires |offs| == |log| && RightIndex(index, log, offs, route) && RouteOf(e.stype) != route
    ensures RightIndex(index, log + [e], offs + [off], route)
  {
    RoutedPairsAppend(log, offs, e, off, route);
  }

  /** The size of an entry in a key file: the fixed fields, an 8-byte key and an 8-byte position. */
  const ENTRY_SIZE: nat := 25

  lemma EntrySize(key: Bytes, value: Bytes)
    requires |key| == 8 && |value| == 8
    ensures RecordSize(key, value) == ENTRY_SIZE
  {
  }

  lemma PairsAfterPut(kept: seq<Kept>, key: Bytes, value: Bytes)
    ensures PairsOf(AfterPut(kept, key, value)) == PairsOf(kept) + [(key, value)]
  {
  }

  /** The content of the files of one index on disk, [] for a missing one, and what they hold. */
  datatype IndexFiles = IndexFiles(table: Bytes, keys: Bytes)

  datatype Held = Held(log: Log, heads: Heads, ops: History)

  ghost predicate IndexFilesHold(files: IndexFiles, held: Held, log: Summaries, offs: seq<nat>, route: Route)
    requires |offs| == |log|
  {
    && KI.FilesHold(Loaded(files.table, TABLE_SIZE), KeyContent(files.keys), held.log, held.heads, held.ops)
    && Live(held.log) == RoutedPairs(log, offs, route) && SmallRecords(held.log)
  }

  /** Opens the index over its two files. */
  method OpenIndex(files: IndexFiles, ghost held: Held, ghost log: Summaries, ghost offs: seq<nat>, ghost route: Route)
    returns (index: KI.IndexKeyFile)
    requires |offs| == |log| && IndexFilesHold(files, held, log, offs, route)
    ensures fresh(index.Repr) && {index, index.keyFile} <= index.Repr && RightIndex(index, log, offs, route)
    ensures index.hashBlock.disk == files.table && index.keyFile.bytes == KeyContent(files.keys)
  {
    hide KI.IndexKeyFile.Valid, KI.FilesHold, Loaded, SmallRecords, PairsOf, KI.Keeps, Live;
    index := new KI.IndexKeyFile.Open(files.table, files.keys, TABLE_SIZE, held.log, held.heads, held.ops, false);
    KeptPairsAreLive(Loaded(files.table, TABLE_SIZE), held.log, held.heads, held.heads, index.kept);
  }

  lemma KeptPairsAreLive(table: Bytes, log: Log, heads: Heads, saved: Heads, kept: seq<Kept>)
    requires KI.Keeps(table, log, heads, saved, kept)
    ensures PairsOf(kept) == Live(log)
  {
    KeptIsLive(KI.Bucket(|table|), log, heads, saved, |log|);
    assert log[..|log|] == log;
  }

  /** What a crash leaves of an index: the table as last flushed, and every byte of the key file. */
  lemma CrashedIndexHolds(index: KI.IndexKeyFile, log: Summaries, offs: seq<nat>, route: Route)
    requires |offs| == |log| && RightIndex(index, log, offs, route)
    ensures IndexFilesHold(IndexFiles(index.hashBlock.disk, index.keyFile.bytes),
                           Held(index.log, index.savedHeads, index.durable), log, offs, route)
  {
    hide KI.IndexState, KI.FilesHold, Loaded, KI.Keeps, Live, PairsOf, SmallRecords;
    KI.SavedTableHolds(index.hashBlock.buf[..], Loaded(index.hashBlock.disk, TABLE_SIZE), index.keyFile.bytes,
                       index.log, index.heads, index.savedHeads, index.ops, index.durable, index.intact);
    KeptPairsAreLive(index.hashBlock.buf[..], index.log, index.heads, index.savedHeads, index.kept);
  }

  // ---------- the store ----------

  /** The content of the store's files on disk. */
  datatype StoreFiles = StoreFiles(data: Bytes, app: IndexFiles, sql: IndexFiles, enduser: IndexFiles,
                                   other: IndexFiles)

  datatype HeldRecords = HeldRecords(app: Held, sql: Held, enduser: Held, other: Held)

  ghost predicate FilesHoldLog(files: StoreFiles, held: HeldRecords, log: Summaries, offs: seq<nat>, whole: seq<bool>) {
    && FramesHold(files.data, log, offs, whole)
    && IndexFilesHold(files.app, held.app, log, offs, App)
    && IndexFilesHold(files.sql, held.sql, log, offs, Sql)
    && IndexFilesHold(files.enduser, held.enduser, log, offs, EndUser)
    && IndexFilesHold(files.other, held.other, log, offs, Other)
  }

  datatype KeyContents = KeyContents(app: Bytes, sql: Bytes, enduser: Bytes, other: Bytes)

  predicate HasRoom(keys: KeyContents) {
    && |keys.app| < 0x80_0000_0000 && |keys.sql| < 0x80_0000_0000
    && |keys.enduser| < 0x80_0000_0000 && |keys.other| < 0x80_0000_0000
  }

  /** Every key file has grown by at most n bytes. */
  predicate GrownBy(before: KeyContents, after: KeyContents, n: nat) {
    && |after.app| <= |before.app| + n && |after.sql| <= |before.sql| + n
    && |after.enduser| <= |before.enduser| + n && |after.other| <= |before.other| + n
  }

  const NO_INDEX: IndexFiles := IndexFiles([], [])
  const NO_FILES: StoreFiles := StoreFiles([], NO_INDEX, NO_INDEX, NO_INDEX, NO_INDEX)

  ghost function NothingHeld(): HeldRecords {
    var none := Held([], KI.NoHeads(TABLE_SIZE), []);
    HeldRecords(none, none, none, none)
  }

  /** An empty directory holds the empty log. */
  lemma EmptyDirectoryHoldsNothing()
    ensures FilesHoldLog(NO_FILES, NothingHeld(), [], [], [])
  {
    hide KI.FilesHold, Loaded;
    KI.NoFilesHoldNothing(TABLE_SIZE);
    forall route: Route
      ensures IndexFilesHold(NO_INDEX, Held([], KI.NoHeads(TABLE_SIZE), []), [], [], route)
    {
    }
  }

  class SummaryStore {
    const dataFile: RDF.RealDataFile
    const appIndex: KI.IndexKeyFile
    const sqlIndex: KI.IndexKeyFile
    const enduserIndex: KI.IndexKeyFile
    const otherIndex: KI.IndexKeyFile

    /** Every summary the indexes have an entry for, where its frame was written, and whether the
        data file still holds that frame. */
    ghost var log: Summaries
    ghost var offs: seq<nat>
    ghost var whole: seq<bool>

    ghost function Repr(): set<object> {
      {this, dataFile} + appIndex.Repr + sqlIndex.Repr + enduserIndex.Repr + otherIndex.Repr
    }

    /** The five files share nothing. */
    ghost predicate Apart() {
      && {this, dataFile} !! appIndex.Repr
      && {this, dataFile} + appIndex.Repr !! sqlIndex.Repr
      && {this, dataFile} + appIndex.Repr + sqlIndex.Repr !! enduserIndex.Repr
      && {this, dataFile} + appIndex.Repr + sqlIndex.Repr + enduserIndex.Repr !! otherIndex.Repr
      && {appIndex, appIndex.keyFile} <= appIndex.Repr && {sqlIndex, sqlIndex.keyFile} <= sqlIndex.Repr
      && {enduserIndex, enduserIndex.keyFile} <= enduserIndex.Repr
         && {otherIndex, otherIndex.keyFile} <= otherIndex.Repr
    }

    /** Every index holds the positions of its family. */
    ghost predicate Indexed(log: Summaries, offs: seq<nat>)
      requires |offs| == |log| && Apart()
      reads Repr()
    {
      && RightIndex(appIndex, log, offs, App) && RightIndex(sqlIndex, log, offs, Sql)
      && RightIndex(enduserIndex, log, offs, EndUser) && RightIndex(otherIndex, log, offs, Other)
    }

    ghost predicate Valid()
      reads Repr()
    {
      && Apart()
      && dataFile.Valid()
      && FramesHold(dataFile.Contents(), log, offs, whole)
      && Indexed(log, offs)
    }

    /** The content of the four key files. */
    ghost function KeyFiles(): KeyContents
      requires Apart()
      reads Repr()
    {
      KeyContents(appIndex.keyFile.bytes, sqlIndex.keyFile.bytes, enduserIndex.keyFile.bytes, otherIndex.keyFile.bytes)
    }

    /** There is room for one more summary. */
    ghost predicate Roomy()
      requires Apart()
      reads Repr()
    {
      |dataFile.Contents()| < 0x80_0000_0000 && HasRoom(KeyFiles())
    }

    /** Opens the store over its files, which must hold some log. */
    constructor Open(files: StoreFiles, ghost held: HeldRecords, ghost log: Summaries, ghost offs: seq<nat>,
                     ghost whole: seq<bool>)
      requires FilesHoldLog(files, held, log, offs, whole)
      ensures Valid() && fresh(Repr())
      ensures this.log == log && this.offs == offs && this.whole == whole
      ensures dataFile.Contents() == files.data && dataFile.synced == |files.data|
      ensures KeyFiles() == KeyContents(KeyContent(files.app.keys), KeyContent(files.sql.keys),
                                        KeyContent(files.enduser.keys), KeyContent(files.other.keys))
    {
      hide FramesHold, IndexFilesHold, RightIndex;
      FramesAreCounted(files.data, log, offs, whole);
      dataFile := new RDF.RealDataFile.Open(files.data);
      var app := OpenIndex(files.app, held.app, log, offs, App);
      var sql := OpenIndex(files.sql, held.sql, log, offs, Sql);
      var enduser := OpenIndex(files.enduser, held.enduser, log, offs, EndUser);
      var other := OpenIndex(files.other, held.other, log, offs, Other);
      appIndex, sqlIndex, enduserIndex, otherIndex := app, sql, enduser, other;
      this.log, this.offs, this.whole := log, offs, whole;
    }

    method IndexForStype(stype: Byte) returns (index: KI.IndexKeyFile)
      ensures index == match RouteOf(stype)
                       case App => appIndex
                       case Sql => sqlIndex
                       case EndUser => enduserIndex
                       case Other => otherIndex
      ensures index == if stype in {1, 6} then appIndex
                       else if stype == 2 then sqlIndex
                       else if stype in {4, 5} then enduserIndex
                       else otherIndex
    {
      if stype == SUMMARY_APP || stype == SUMMARY_SERVICE_ERROR {
        index := appIndex;
      } else if stype == SUMMARY_SQL {
        index := sqlIndex;
      } else if stype == SUMMARY_IP || stype == SUMMARY_USER_AGENT {
        index := enduserIndex;
      } else {
        index := otherIndex;
      }
    }

    /** Appends a frame and records its position in the index of the summary's family. */
    method Write(stype: Byte, hhmm: i32, idHash: i32, data: Bytes)
      requires Valid() && Roomy()
      modifies Repr()
      ensures Valid()
      ensures log == old(log) + [Summary(stype, hhmm, idHash, data)]
      ensures offs == old(offs) + [|old(dataFile.Contents())|] && whole == old(whole) + [true]
      ensures dataFile.Contents() == old(dataFile.Contents()) + Frame(data) && dataFile.synced == old(dataFile.synced)
      ensures GrownBy(old(KeyFiles()), KeyFiles(), ENTRY_SIZE)
    {
      hide FramesHold, RightIndex, Frame;
      ghost var before, e := dataFile.Contents(), Summary(stype, hhmm, idHash, data);
      FrameAppended(before, log, offs, whole, e);
      FramesAreCounted(before, log, offs, whole);
      var offset := WriteFrame(data);
      Record(stype, hhmm, idHash, offset, e);
      log := log + [e];
      offs := offs + [|before|];
      whole := whole + [true];
    }

    method Record(stype: Byte, hhmm: i32, idHash: i32, offset: nat, ghost e: Summary)
      requires e.stype == stype && e.hhmm == hhmm && e.idHash == idHash
      requires Apart() && |offs| == |log| && Indexed(log, offs)
      requires HasRoom(KeyFiles())
      modifies appIndex.Repr, sqlIndex.Repr, enduserIndex.Repr, otherIndex.Repr
      ensures Indexed(log + [e], offs + [offset])
      ensures GrownBy(old(KeyFiles()), KeyFiles(), ENTRY_SIZE)
    {
      hide KI.IndexKeyFile.Valid, RoutedPairs, ToBE, RecordSize, KeyOf, SmallRecords, RouteOf, Routed, PairsOf,
           AfterPut;
      ghost var route := RouteOf(stype);
      var index := IndexForStype(stype);
      ghost var records, kept := index.log, index.kept;
      RoutedMeans(index, log, offs, route);
      RoutedPairsAppend(log, offs, e, offset, route);
      index.Put(KeyOf(hhmm, idHash), ToBE(offset, 8));
      SmallAppend(records, index.log);
      EntrySize(KeyOf(hhmm, idHash), ToBE(offset, 8));
      PairsAfterPut(kept, KeyOf(hhmm, idHash), ToBE(offset, 8));
      RoutedMeans(index, log + [e], offs + [offset], route);
      hide RightIndex;
      if route != App {
        RoutedElsewhere(appIndex, log, offs, e, offset, App);
      }
      if route != Sql {
        RoutedElsewhere(sqlIndex, log, offs, e, offset, Sql);
      }
      if route != EndUser {
        RoutedElsewhere(enduserIndex, log, offs, e, offset, EndUser);
      }
      if route != Other {
        RoutedElsewhere(otherIndex, log, offs, e, offset, Other);
      }
    }

    method WriteFrame(data: Bytes) returns (offset: nat)
      requires dataFile.Valid()
      modifies dataFile
      ensures dataFile.Valid() && offset == |old(dataFile.Contents())|
      ensures dataFile.Contents() == old(dataFile.Contents()) + Frame(data) && dataFile.synced == old(dataFile.synced)
    {
      offset := dataFile.Write(ToBE(|data|, 4));
      var _ := dataFile.Write(data);
    }

    /** The data first, then the four indexes. */
    method Flush()
      requires Valid()
      modifies Repr()
      ensures Valid() && log == old(log) && offs == old(offs) && whole == old(whole)
      ensures dataFile.Contents() == old(dataFile.Contents()) && dataFile.synced == |dataFile.Contents()|
      ensures KeyFiles() == old(KeyFiles())
    {
      hide FramesHold, RightIndex;
      FramesAreCounted(dataFile.Contents(), log, offs, whole);
      dataFile.Flush();
      FlushIndex(appIndex, log, offs, App);
      FlushIndex(sqlIndex, log, offs, Sql);
      FlushIndex(enduserIndex, log, offs, EndUser);
      FlushIndex(otherIndex, log, offs, Other);
    }

    /** What the handler receives for a type: for every entry of its family, reachable by lookups or
        not, what its position shows. When the data file holds all their frames, that is the
        family's summaries in write order. */
    method ReadByType(stype: Byte) returns (calls: Pairs)
      requires Valid()
      modifies dataFile
      ensures Valid() && log == old(log) && offs == old(offs) && whole == old(whole)
      ensures dataFile.Contents() == old(dataFile.Contents())
      ensures KeyFiles() == old(KeyFiles())
      ensures calls == Collect(RoutedPairs(log, offs, RouteOf(stype)), dataFile.Contents())
      ensures FamilyWhole(log, whole, RouteOf(stype)) ==> calls == ShownOf(log, RouteOf(stype))
      ensures TypeAnswer(log, offs, whole, dataFile.Contents(), stype, calls)
    {
      hide KI.IndexKeyFile.Valid, FramesHold, RoutedPairs, ScanFrom, ShownOf, SmallRecords, DataAt, PairsOf, RouteOf,
           Collect, TypeAnswer;
      TypeAnswers(log, offs, whole, dataFile.Contents(), stype);
      var index := IndexForStype(stype);
      var entries := index.ReadAll();
      SmallFits(index.log);
      if FamilyWhole(log, whole, RouteOf(stype)) {
        CollectIsShown(dataFile.Contents(), log, offs, whole, RouteOf(stype));
      }
      calls := CollectData(entries);
    }

    /** The handler: follows each position into the data file. */
    method CollectData(entries: Pairs) returns (calls: Pairs)
      requires dataFile.Valid()
      modifies dataFile
      ensures dataFile.Valid() && dataFile.Contents() == old(dataFile.Contents())
      ensures calls == Collect(entries, dataFile.Contents())
    {
      hide DataAt;
      calls := [];
      for i := 0 to |entries|
        invariant dataFile.Valid() && dataFile.Contents() == old(dataFile.Contents())
        invariant calls == Collect(entries[..i], dataFile.Contents())
      {
        assert entries[..i + 1][..i] == entries[..i];
        var (key, pos) := entries[i];
        if |pos| >= 8 {
          var data := ReadData(SignedBE(pos[..8]));
          if data.Some? {
            calls := calls + [(key, data.value)];
          }
        }
      }
      assert entries[..|entries|] == entries;
    }

    method ReadData(offset: int) returns (r: Option<Bytes>)
      requires dataFile.Valid()
      modifies dataFile
      ensures dataFile.Valid() && dataFile.Contents() == old(dataFile.Contents())
      ensures r == DataAt(dataFile.Contents(), offset)
    {
      var lenBytes := dataFile.Read(offset, 4);
      if lenBytes.Err? {
        return None;
      }
      var len := SignedBE(lenBytes.value);
      if 0 < len < MAX_DATA {
        var data := dataFile.Read(offset + 4, len);
        return if data.Ok? then Some(data.value) else None;
      }
      r := None;
    }
  }

  lemma FramesAreCounted(file: Bytes, log: Summaries, offs: seq<nat>, whole: seq<bool>)
    requires FramesHold(file, log, offs, whole)
    ensures |offs| == |log| == |whole|
  {
  }

  method FlushIndex(index: KI.IndexKeyFile, ghost log: Summaries, ghost offs: seq<nat>, ghost route: Route)
    requires |offs| == |log| && RightIndex(index, log, offs, route)
    modifies index.Repr
    ensures RightIndex(index, log, offs, route) && index.keyFile.bytes == old(index.keyFile.bytes)
  {
    hide KI.IndexKeyFile.Valid, RoutedPairs, SmallRecords, PairsOf, AfterFlush;
    PairsAfterFlush(index.kept);
    index.Flush();
  }

  lemma PairsAfterFlush(kept: seq<Kept>)
    ensures PairsOf(AfterFlush(kept)) == PairsOf(kept)
  {
  }

  /** After a crash: the slot tables are as last flushed, the key files keep every byte, and the data
      file is cut anywhere at or beyond its last flushed length. A scan does not use the slot tables,
      so the reopened store has an entry for every summary, flushed or not, and shows those whose
      data the cut has left. */
  method CrashAndReopen(store: SummaryStore, cut: nat) returns (again: SummaryStore)
    requires store.Valid() && store.dataFile.synced <= cut <= |store.dataFile.Contents()|
    ensures again.Valid() && fresh(again.Repr())
    ensures again.log == store.log && again.offs == store.offs && |store.offs| == |store.log| == |store.whole|
    ensures again.whole == Uncut(store.log, store.offs, store.whole, cut)
    ensures again.dataFile.Contents() == store.dataFile.Contents()[..cut]
    ensures again.KeyFiles() == store.KeyFiles()
    ensures forall route: Route :: FamilyWhole(store.log, store.whole, route) ==>
              Collect(RoutedPairs(again.log, again.offs, route), again.dataFile.Contents())
              == ShownOf(Within(store.log, store.offs, cut), route)
  {
    hide FramesHold, RightIndex, IndexFilesHold, Collect, RoutedPairs, ShownOf, Within, Uncut, RouteOf, FamilyWhole;
    var app, sql, enduser, other := store.appIndex, store.sqlIndex, store.enduserIndex, store.otherIndex;
    ghost var all, log, offs := store.dataFile.Contents(), store.log, store.offs;
    FramesAreCounted(all, log, offs, store.whole);
    FramesAfterCut(all, log, offs, store.whole, cut);
    forall route: Route | FamilyWhole(log, store.whole, route)
      ensures Collect(RoutedPairs(log, offs, route), all[..cut]) == ShownOf(Within(log, offs, cut), route)
    {
      CollectAfterCut(all, log, offs, store.whole, route, cut);
    }
    KeysNotEmpty(app, log, offs, App);
    KeysNotEmpty(sql, log, offs, Sql);
    KeysNotEmpty(enduser, log, offs, EndUser);
    KeysNotEmpty(other, log, offs, Other);
    var data := store.dataFile.disk + store.dataFile.pending;
    var files := StoreFiles(data[..cut], IndexFiles(app.hashBlock.disk, app.keyFile.bytes),
                            IndexFiles(sql.hashBlock.disk, sql.keyFile.bytes),
                            IndexFiles(enduser.hashBlock.disk, enduser.keyFile.bytes),
                            IndexFiles(other.hashBlock.disk, other.keyFile.bytes));
    ghost var held := HeldRecords(Held(app.log, app.savedHeads, app.durable),
                                  Held(sql.log, sql.savedHeads, sql.durable),
                                  Held(enduser.log, enduser.savedHeads, enduser.durable),
                                  Held(other.log, other.savedHeads, other.durable));
    again := new SummaryStore.Open(files, held, log, offs, Uncut(log, offs, store.whole, cut));
  }

  lemma KeysNotEmpty(index: KI.IndexKeyFile, log: Summaries, offs: seq<nat>, route: Route)
    requires |offs| == |log| && RightIndex(index, log, offs, route)
    ensures index.keyFile.bytes != []
    ensures IndexFilesHold(IndexFiles(index.hashBlock.disk, index.keyFile.bytes),
                           Held(index.log, index.savedHeads, index.durable), log, offs, route)
  {
    hide KI.IndexState, KI.FilesHold, Loaded, KI.Keeps, Live, PairsOf, SmallRecords;
    KI.SavedTableHolds(index.hashBlock.buf[..], Loaded(index.hashBlock.disk, TABLE_SIZE), index.keyFile.bytes,
                       index.log, index.heads, index.savedHeads, index.ops, index.durable, index.intact);
    CrashedIndexHolds(index, log, offs, route);
  }

  /** An input for which a crash makes one family show another family's data: a summary of an
      application is written but not flushed, the crash cuts its frame off, and the next frame, of a
      statement, takes its place. */
  method OrphanShowsForeignData(hhmm: i32, idHash: i32, data: Bytes, other: Bytes) returns (calls: Pairs)
    requires Shown(other)
    ensures calls == [(KeyOf(hhmm, idHash), other)]
  {
    hide FramesHold, RightIndex, IndexFilesHold, KeyOf, Frame, DataAt, RouteOf, Within, Collect, RoutedPairs, ShownOf,
         FamilyWhole, Uncut, NothingHeld;
    EmptyDirectoryHoldsNothing();
    var store := new SummaryStore.Open(NO_FILES, NothingHeld(), [], [], []);
    store.Write(SUMMARY_APP, hhmm, idHash, data);
    var again := CrashAndReopen(store, 0);
    again.Write(SUMMARY_SQL, hhmm, idHash, other);
    calls := again.ReadByType(SUMMARY_APP);
    assert again.log == [Summary(SUMMARY_APP, hhmm, idHash, data)] + [Summary(SUMMARY_SQL, hhmm, idHash, other)];
    assert again.offs == [0] + [0];
    assert again.dataFile.Contents() == Frame(other);
    TwoFamilies(hhmm, idHash, data, other, calls);
  }

  lemma TwoFamilies(hhmm: i32, idHash: i32, data: Bytes, other: Bytes, calls: Pairs)
    requires Shown(other)
    requires calls == Collect(RoutedPairs([Summary(SUMMARY_APP, hhmm, idHash, data)]
                                          + [Summary(SUMMARY_SQL, hhmm, idHash, other)],
                                          [0] + [0], RouteOf(SUMMARY_APP)), Frame(other))
    ensures calls == [(KeyOf(hhmm, idHash), other)]
  {
    hide Frame, DataAt, KeyOf, ToBE, Collect, RoutedPairs;
    var app := Summary(SUMMARY_APP, hhmm, idHash, data);
    RoutedPairsAppend([app], [0], Summary(SUMMARY_SQL, hhmm, idHash, other), 0, App);
    RoutedPairsAppend([], [], app, 0, App);
    assert [] + [app] == [app] && [] + [0] == [0];
    NothingRouted(Frame(other));
    CollectAppend([], KeyOf(hhmm, idHash), 0, Frame(other));
    FrameShowsIff(Frame(other), 0, other);
  }

  lemma NothingRouted(file: Bytes)
    ensures RoutedPairs([], [], App) == [] && Collect([], file) == []
  {
  }
}
