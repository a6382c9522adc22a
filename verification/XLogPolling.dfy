/** Polling the transaction log cache in real time. A client sends the number it has reached and
    gets the newer logs together with the number to send next. */
module XLogPolling {
  import opened ByteCodec
  import opened DataOutput
  import opened Values
  import opened ValueIO
  import opened XLogCache

  // ---------- one poll ----------

  const HAS_NEXT: Byte := 0x03
  const PACK_MAP: Byte := 10

  /** The key "index". */
  const INDEX: Text := IndexKey()

  function IndexKey(): (t: Text)
    ensures |t| == 5 && t == [105, 110, 100, 101, 120]
  {
    var t: Bytes := [105, 110, 100, 101, 120];
    assert t[1..] == [110, 100, 101, 120] && t[2..] == [100, 101, 120] && t[3..] == [101, 120] && t[4..] == [120];
    assert ValidUtf8(t[5..]) && t[4..][1..] == t[5..] && t[3..][1..] == t[4..] && t[2..][1..] == t[3..]
        && t[1..][1..] == t[2..];
    t
  }

  /** The number a request carries; a request without one starts at 0. */
  function RequestedIndex(request: map<Text, Value>): nat {
    if INDEX in request && request[INDEX].Decimal? then AsUsize(request[INDEX].n) else 0
  }

  /** A request carries a number only as a decimal under "index"; a negative one counts as unsigned. */
  lemma RequestedIndexIs(request: map<Text, Value>)
    ensures INDEX == [105, 110, 100, 101, 120]
    ensures INDEX !in request || !request[INDEX].Decimal? ==> RequestedIndex(request) == 0
    ensures INDEX in request && request[INDEX].Decimal? ==>
              var n := request[INDEX].n;
              RequestedIndex(request) == if n >= 0 then n else n + 0x1_0000_0000_0000_0000
  {
  }

  /** The reply carries the newest number as a signed decimal under "index". */
  lemma ReplyTableIs(n: nat)
    requires n <= MAX_U64
    ensures ReplyTable(n)
         == map[INDEX := Decimal(if n < 0x8000_0000_0000_0000 then n else n - 0x1_0000_0000_0000_0000)]
    ensures INDEX == [105, 110, 100, 101, 120]
  {
  }

  /** Each log is a byte of 3 and its data. */
  lemma FramesAre(e: Entry, rest: seq<Entry>)
    ensures Frames([]) == [] && Frames([e] + rest) == [3] + e.data + Frames(rest)
  {
    assert ([e] + rest)[1..] == rest;
  }

  /** The request a client makes with the number the last reply gave it asks for that number. */
  lemma RepliedIndexComesBack(n: nat)
    requires n <= MAX_U64
    ensures RequestedIndex(ReplyTable(n)) == n
  {
  }

  function Frames(entries: seq<Entry>): Bytes {
    if entries == [] then [] else [HAS_NEXT] + entries[0].data + Frames(entries[1..])
  }

  lemma {:induction false} FramesAppend(entries: seq<Entry>, e: Entry)
    ensures Frames(entries + [e]) == Frames(entries) + ([HAS_NEXT] + e.data)
  {
    if entries == [] {
      assert [e][1..] == [];
    } else {
      FramesAppend(entries[1..], e);
      assert (entries + [e])[1..] == entries[1..] + [e];
      var first, rest, last := [HAS_NEXT] + entries[0].data, Frames(entries[1..]), [HAS_NEXT] + e.data;
      assert first + (rest + last) == (first + rest) + last;
    }
  }

  method WriteFrames(entries: seq<Entry>, dout: DataOutputX)
    modifies dout
    ensures dout.buf == old(dout.buf) + Frames(entries)
  {
    for i := 0 to |entries|
      invariant dout.buf == old(dout.buf) + Frames(entries[..i])
    {
      dout.WriteByte(HAS_NEXT);
      dout.WriteRaw(entries[i].data);
      FramesAppend(entries[..i], entries[i]);
      assert entries[..i + 1] == entries[..i] + [entries[i]];
    }
    assert entries[..|entries|] == entries;
  }

  function ReplyTable(n: nat): map<Text, Value>
    requires n <= MAX_U64
  {
    map[INDEX := Decimal(AsI64(n))]
  }

  lemma ReplyTableIsStorable(n: nat)
    requires n <= MAX_U64
    ensures Storable(MapValue(ReplyTable(n)))
  {
    assert |ReplyTable(n)| == 1;
  }

  /** `xlog_real_time` with both cache calls made while no log arrives: the unseen logs go out as
      raw frames, then the newest number in a map. */
  method XLogRealTime(cache: XLogCache, request: map<Text, Value>, dout: DataOutputX)
    returns (entries: seq<Entry>, newIndex: nat, ghost meta: Bytes)
    requires cache.Valid() && cache.nextIndex <= MAX_U64
    modifies dout
    ensures entries == Unseen(cache.log, cache.maxSize, RequestedIndex(request))
    ensures newIndex == (if |cache.log| == 0 then 0 else |cache.log| - 1) <= MAX_U64
    ensures INDEX !in request || !request[INDEX].Decimal? ==>
              SinceAnswer(cache.log, cache.maxSize, 0, None, entries)
    ensures INDEX in request && request[INDEX].Decimal? ==>
              var n := request[INDEX].n;
              SinceAnswer(cache.log, cache.maxSize, if n >= 0 then n else n + 0x1_0000_0000_0000_0000, None, entries)
    ensures dout.buf == old(dout.buf) + Frames(entries) + [3, 10] + meta
    ensures EncodesBody(MapValue(ReplyTable(newIndex)), meta)
  {
    hide EncodesBody, Unseen, Frames, ReplyTable, Storable, SinceAnswer;
    RequestedIndexIs(request);
    var index := RequestedIndex(request);
    entries := cache.GetSince(index, None);
    newIndex := cache.LatestIndex();
    WriteFrames(entries, dout);
    ghost var framed := dout.buf;
    dout.WriteByte(HAS_NEXT);
    dout.WriteByte(PACK_MAP);
    assert dout.buf == framed + [HAS_NEXT, PACK_MAP];
    ReplyTableIsStorable(newIndex);
    meta := WriteMap(dout, MapValue(ReplyTable(newIndex)), ReplyTable(newIndex));
  }

  // ---------- chains of polls ----------

  datatype Step = Arrive(e: Entry) | Poll

  /** A client that always sends the number of the last reply, and all it was given. */
  datatype Client = Client(log: seq<Entry>, cursor: nat, out: seq<Entry>)

  function Do(maxSize: nat, c: Client, step: Step): Client {
    match step
    case Arrive(e) => c.(log := c.log + [e.(index := |c.log|)])
    case Poll => c.(out := c.out + Unseen(c.log, maxSize, c.cursor), cursor := Latest(|c.log|))
  }

  function Run(maxSize: nat, c: Client, steps: seq<Step>): Client
    decreases |steps|
  {
    if steps == [] then c else Run(maxSize, Do(maxSize, c, steps[0]), steps[1..])
  }

  /** No poll finds more unread logs than the cache keeps: n logs so far, those up to the cursor read. */
  predicate KeepsUp(maxSize: nat, n: nat, cursor: nat, steps: seq<Step>)
    decreases |steps|
  {
    steps == [] ||
    match steps[0]
    case Arrive(_) => KeepsUp(maxSize, n + 1, cursor, steps[1..])
    case Poll => Unread(n, cursor) <= Window(maxSize) && KeepsUp(maxSize, n, Latest(n), steps[1..])
  }

  /** How many logs are above the cursor. */
  function Unread(n: nat, cursor: nat): int { n - cursor - 1 }

  /** The number from which a chain of polls delivers: the client's own, unless that is newer than
      every log when it first polls. Numbers start again at 0 with the server, so a client from before
      a restart has such a number; its first poll moves it back. */
  function StartOf(n: nat, cursor: nat, steps: seq<Step>): nat
    decreases |steps|
  {
    if steps == [] then cursor
    else
      match steps[0]
      case Arrive(_) => StartOf(n + 1, cursor, steps[1..])
      case Poll => if cursor <= Latest(n) then cursor else Latest(n)
  }

  function Between(log: seq<Entry>, from: nat, to: nat): seq<Entry> {
    if from < to < |log| then log[from + 1..to + 1] else []
  }

  /** Chained polls deliver every log above the starting number exactly once and in order, as far
      as the last poll has read, if and only if no poll comes after more new logs than the cache
      keeps. This holds for any number a client may send. */
  lemma {:induction false} ExactlyOnceIff(maxSize: nat, c: Client, steps: seq<Step>)
    ensures var d := Run(maxSize, c, steps);
            d.out == c.out + Between(d.log, StartOf(|c.log|, c.cursor, steps), d.cursor)
            <==> KeepsUp(maxSize, |c.log|, c.cursor, steps)
    decreases |steps|
  {
    if steps == [] {
      assert c.out + [] == c.out;
    } else if steps[0].Arrive? {
      ExactlyOnceIff(maxSize, Do(maxSize, c, steps[0]), steps[1..]);
    } else if c.cursor <= Latest(|c.log|) {
      CurrentClient(maxSize, c, steps);
    } else {
      NothingNewer(c.log, maxSize, c.cursor);
      var b := Do(maxSize, c, steps[0]);
      assert c.out + [] == c.out && b == c.(cursor := Latest(|c.log|));
      CurrentClient(maxSize, b, steps[1..]);
    }
  }

  /** A client that starts without a number and keeps up gets every log from number 1 on, once and in
      order, as far as its last poll has read. */
  lemma FreshClientGetsAll(maxSize: nat, request: map<Text, Value>, c: Client, steps: seq<Step>)
    requires [105, 110, 100, 101, 120] !in request || !request[[105, 110, 100, 101, 120]].Decimal?
    requires c.cursor == RequestedIndex(request) && KeepsUp(maxSize, |c.log|, c.cursor, steps)
    ensures var d := Run(maxSize, c, steps);
            d.out == c.out + (if 0 < d.cursor < |d.log| then d.log[1..d.cursor + 1] else [])
  {
    hide KeepsUp, Run;
    RequestedIndexIs(request);
    StartOfCurrent(|c.log|, 0, steps);
    ExactlyOnceIff(maxSize, c, steps);
  }

  lemma NothingNewer(log: seq<Entry>, maxSize: nat, cursor: nat)
    requires cursor > Latest(|log|)
    ensures Unseen(log, maxSize, cursor) == []
  {
  }

  /** A chain of polls never delivers a log up to its starting number: a client from before a restart
      gets none of the logs put before its first poll, nor those that its number already covers. */
  lemma {:induction false} NothingBelowStart(maxSize: nat, c: Client, steps: seq<Step>, from: nat)
    requires Numbered(c.log) && from <= StartOf(|c.log|, c.cursor, steps)
    ensures var d := Run(maxSize, c, steps);
            c.out <= d.out && forall i | |c.out| <= i < |d.out| :: d.out[i].index > from
    decreases |steps|
  {
    if steps != [] {
      var b := Do(maxSize, c, steps[0]);
      if steps[0].Poll? {
        StartOfCurrent(|c.log|, Latest(|c.log|), steps[1..]);
      }
      NothingBelowStart(maxSize, b, steps[1..], from);
    }
  }

  lemma {:induction false} StartOfCurrent(n: nat, cursor: nat, steps: seq<Step>)
    requires cursor <= Latest(n)
    ensures StartOf(n, cursor, steps) == cursor
    decreases |steps|
  {
    if steps != [] {
      StartOfCurrent(n + 1, cursor, steps[1..]);
    }
  }

  /** Exactly once for a client whose number is not newer than the newest log. */
  lemma CurrentClient(maxSize: nat, c: Client, steps: seq<Step>)
    requires c.cursor <= Latest(|c.log|)
    ensures var d := Run(maxSize, c, steps);
            d.out == c.out + Between(d.log, c.cursor, d.cursor) <==> KeepsUp(maxSize, |c.log|, c.cursor, steps)
  {
    hide Run, KeepsUp;
    RunDelivers(maxSize, c, steps);
    var d := Run(maxSize, c, steps);
    if d.out == c.out + Between(d.log, c.cursor, d.cursor) {
      assert |Between(d.log, c.cursor, d.cursor)| == d.cursor - c.cursor;
    }
  }

  /** From c to d the cursor advances and the output grows by at most the logs passed; by all of
      them, in order, exactly when `complete`. */
  ghost predicate Progress(c: Client, d: Client, complete: bool) {
    && c.log <= d.log && c.cursor <= d.cursor <= Latest(|d.log|)
    && |d.out| - |c.out| <= d.cursor - c.cursor
    && (complete ==> d.out == c.out + Between(d.log, c.cursor, d.cursor))
    && (!complete ==> |d.out| - |c.out| < d.cursor - c.cursor)
  }

  lemma BetweenJoins(log: seq<Entry>, longer: seq<Entry>, i: nat, j: nat, k: nat)
    requires log <= longer && i <= j <= k && j <= Latest(|log|) && k <= Latest(|longer|)
    ensures Between(longer, i, k) == Between(log, i, j) + Between(longer, j, k)
  {
    if i < j {
      assert longer[i + 1..j + 1] == log[i + 1..j + 1];
    }
  }

  lemma ProgressChains(c: Client, b: Client, d: Client, first: bool, second: bool)
    requires Progress(c, b, first) && Progress(b, d, second)
    ensures Progress(c, d, first && second)
  {
    hide Between;
    if first && second {
      BetweenJoins(b.log, d.log, c.cursor, b.cursor, d.cursor);
      assert c.out + (Between(b.log, c.cursor, b.cursor) + Between(d.log, b.cursor, d.cursor))
          == (c.out + Between(b.log, c.cursor, b.cursor)) + Between(d.log, b.cursor, d.cursor);
    }
  }

  lemma StepProgress(maxSize: nat, c: Client, step: Step)
    requires c.cursor <= Latest(|c.log|)
    ensures Progress(c, Do(maxSize, c, step), step.Arrive? || Unread(|c.log|, c.cursor) <= Window(maxSize))
  {
    if step.Poll? {
      PollDelivers(maxSize, c);
    } else {
      assert c.out + [] == c.out;
    }
  }

  lemma {:induction false} RunDelivers(maxSize: nat, c: Client, steps: seq<Step>)
    requires c.cursor <= Latest(|c.log|)
    ensures Progress(c, Run(maxSize, c, steps), KeepsUp(maxSize, |c.log|, c.cursor, steps))
    decreases |steps|
  {
    if steps == [] {
      assert c.out + [] == c.out;
    } else {
      var b := Do(maxSize, c, steps[0]);
      StepProgress(maxSize, c, steps[0]);
      CursorStaysBehind(maxSize, c, steps[0]);
      RunDelivers(maxSize, b, steps[1..]);
      ChainSteps(maxSize, c, steps);
    }
  }

  lemma CursorStaysBehind(maxSize: nat, c: Client, step: Step)
    requires c.cursor <= Latest(|c.log|)
    ensures Do(maxSize, c, step).cursor <= Latest(|Do(maxSize, c, step).log|)
    ensures |Do(maxSize, c, step).log| == |c.log| + (if step.Arrive? then 1 else 0)
    ensures Do(maxSize, c, step).cursor == if step.Arrive? then c.cursor else Latest(|c.log|)
  {
  }

  lemma ChainSteps(maxSize: nat, c: Client, steps: seq<Step>)
    requires steps != [] && c.cursor <= Latest(|c.log|)
    requires var b := Do(maxSize, c, steps[0]);
             && Progress(c, b, steps[0].Arrive? || Unread(|c.log|, c.cursor) <= Window(maxSize))
             && Progress(b, Run(maxSize, b, steps[1..]), KeepsUp(maxSize, |b.log|, b.cursor, steps[1..]))
    ensures Progress(c, Run(maxSize, c, steps), KeepsUp(maxSize, |c.log|, c.cursor, steps))
  {
    hide Progress, Do, Unread, Window;
    var b := Do(maxSize, c, steps[0]);
    CursorStaysBehind(maxSize, c, steps[0]);
    ProgressChains(c, b, Run(maxSize, b, steps[1..]), steps[0].Arrive? || Unread(|c.log|, c.cursor) <= Window(maxSize),
                   KeepsUp(maxSize, |b.log|, b.cursor, steps[1..]));
  }

  lemma PollDelivers(maxSize: nat, c: Client)
    requires c.cursor <= Latest(|c.log|)
    ensures Unread(|c.log|, c.cursor) <= Window(maxSize)
         ==> Unseen(c.log, maxSize, c.cursor) == Between(c.log, c.cursor, Latest(|c.log|))
    ensures |Unseen(c.log, maxSize, c.cursor)| <= Latest(|c.log|) - c.cursor
    ensures Unread(|c.log|, c.cursor) > Window(maxSize)
         ==> |Unseen(c.log, maxSize, c.cursor)| < Latest(|c.log|) - c.cursor
  {
  }

  /** The count a caller can check: at most as many arrivals as the cache keeps between two polls,
      the logs already waiting at the start included. */
  predicate FewBetweenPolls(limit: nat, count: nat, steps: seq<Step>)
    decreases |steps|
  {
    steps == [] ||
    match steps[0]
    case Arrive(_) => count < limit && FewBetweenPolls(limit, count + 1, steps[1..])
    case Poll => FewBetweenPolls(limit, 0, steps[1..])
  }

  lemma {:induction false} FewBetweenPollsKeepUp(maxSize: nat, n: nat, cursor: nat, count: nat, steps: seq<Step>)
    requires Unread(n, cursor) <= count <= Window(maxSize) && FewBetweenPolls(Window(maxSize), count, steps)
    ensures KeepsUp(maxSize, n, cursor, steps)
    decreases |steps|
  {
    if steps != [] {
      match steps[0]
      case Arrive(_) => FewBetweenPollsKeepUp(maxSize, n + 1, cursor, count + 1, steps[1..]);
      case Poll => FewBetweenPollsKeepUp(maxSize, n, Latest(n), 0, steps[1..]);
    }
  }
}
