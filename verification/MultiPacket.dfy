/** Reassembly of packets that arrive as numbered fragments, several packets at a time, in any order
    and with repeats. */
module MultiPacket {
  import opened ByteCodec

  /** `createdAt` and `now` are readings of the monotonic clock in nanoseconds. */
  datatype Entry = Entry(total: i16, received: map<i16, Bytes>, createdAt: int)

  /** Whole milliseconds from one reading to a later one. */
  function ElapsedMs(since: int, now: int): nat { if now <= since then 0 else (now - since) / 1_000_000 }

  predicate Young(createdAt: int, now: int) { ElapsedMs(createdAt, now) < 1000 }

  function Retained(entries: map<i64, Entry>, now: int): map<i64, Entry> {
    map id | id in entries && Young(entries[id].createdAt, now) :: entries[id]
  }

  /** `as usize` of the total. */
  function Needed(total: i16): nat { if total < 0 then total + 0x1_0000_0000_0000_0000 else total }

  /** The fragments numbered from 0 up to n, in order; missing ones are skipped. */
  function Assembled(received: map<i16, Bytes>, n: nat): Bytes
    requires n <= 0x7FFF
  {
    if n == 0 then [] else Assembled(received, n - 1) + (if n - 1 in received then received[n - 1] else [])
  }

  datatype Arrival = Arrival(now: int, id: i64, total: i16, num: i16, data: Bytes)

  /** The entry an arrival goes to, with the arrival in it. The first fragment decides the total. */
  function Filled(entries: map<i64, Entry>, a: Arrival): Entry {
    var kept := Retained(entries, a.now);
    var entry := if a.id in kept then kept[a.id] else Entry(a.total, map[], a.now);
    entry.(received := entry.received[a.num := a.data])
  }

  function Step(entries: map<i64, Entry>, a: Arrival): map<i64, Entry> {
    var entry := Filled(entries, a);
    if |entry.received| == Needed(entry.total)
    then Retained(entries, a.now) - {a.id}
    else Retained(entries, a.now)[a.id := entry]
  }

  function Answer(entries: map<i64, Entry>, a: Arrival): Option<Bytes> {
    var entry := Filled(entries, a);
    if |entry.received| == Needed(entry.total)
    then Some(Assembled(entry.received, if entry.total < 0 then 0 else entry.total))
    else None
  }

  lemma FilledThenRemoved(kept: map<i64, Entry>, id: i64, e: Entry)
    ensures kept[id := e] - {id} == kept - {id}
  {
  }

  class MultiPacketProcessor {
    var entries: map<i64, Entry>

    constructor ()
      ensures entries == map[]
    {
      entries := map[];
    }

    /** `add`, at clock reading `now`. */
    method Add(now: int, packetId: i64, total: i16, num: i16, data: Bytes) returns (r: Option<Bytes>)
      modifies this
      ensures entries == Step(old(entries), Arrival(now, packetId, total, num, data))
      ensures r == Answer(old(entries), Arrival(now, packetId, total, num, data))
    {
      hide Assembled, Young, Needed;
      ghost var a := Arrival(now, packetId, total, num, data);
      ghost var before := entries;
      entries := map id | id in entries && Young(entries[id].createdAt, now) :: entries[id];
      assert entries == Retained(before, now);
      if packetId !in entries {
        entries := entries[packetId := Entry(total, map[], now)];
      }
      entries := entries[packetId := entries[packetId].(received := entries[packetId].received[num := data])];
      assert entries == Retained(before, now)[packetId := Filled(before, a)];
      hide Retained, Filled;
      var entry := entries[packetId];
      if |entry.received| == Needed(entry.total) {
        FilledThenRemoved(Retained(before, now), packetId, entry);
        entries := entries - {packetId};
        var result := Reassemble(entry);
        r := Some(result);
      } else {
        r := None;
      }
    }
  }

  /** The end of `add`: the fragments in order. */
  method Reassemble(entry: Entry) returns (result: Bytes)
    ensures result == Assembled(entry.received, if entry.total < 0 then 0 else entry.total)
  {
    result := [];
    var i := 0;
    while i < entry.total
      invariant 0 <= i <= (if entry.total < 0 then 0 else entry.total)
      invariant result == Assembled(entry.received, i)
    {
      if i in entry.received {
        result := result + entry.received[i];
      }
      i := i + 1;
    }
  }

  // ---------- runs ----------

  /** The entries after a whole run of arrivals. */
  function After(start: map<i64, Entry>, run: seq<Arrival>): map<i64, Entry> {
    if run == [] then start else Step(After(start, run[..|run| - 1]), run[|run| - 1])
  }

  /** The answer to the last arrival of a run. */
  function LastAnswer(start: map<i64, Entry>, run: seq<Arrival>): Option<Bytes>
    requires run != []
  {
    Answer(After(start, run[..|run| - 1]), run[|run| - 1])
  }

  /** The clock does not run backwards. */
  ghost predicate Ordered(run: seq<Arrival>) {
    forall i, j | 0 <= i <= j < |run| :: run[i].now <= run[j].now
  }

  /** Every fragment of this packet belongs to one and the same division into `frags`. */
  ghost predicate Consistent(run: seq<Arrival>, id: i64, frags: seq<Bytes>) {
    && 1 <= |frags| <= 0x7FFF
    && forall i | 0 <= i < |run| && run[i].id == id ::
         run[i].total == |frags| && 0 <= run[i].num < |frags| && run[i].data == frags[run[i].num]
  }

  /** The fragment numbers of this packet that have arrived at or after a time. */
  function Seen(run: seq<Arrival>, id: i64, from: int): set<i16> {
    if run == [] then {}
    else
      var last := run[|run| - 1];
      Seen(run[..|run| - 1], id, from) + (if last.id == id && last.now >= from then {last.num} else {})
  }

  ghost predicate Complete(seen: set<i16>, frags: seq<Bytes>)
    requires |frags| <= 0x7FFF
  {
    forall n: i16 | 0 <= n < |frags| :: n in seen
  }

  function Joined(frags: seq<Bytes>): Bytes {
    if frags == [] then [] else Joined(frags[..|frags| - 1]) + frags[|frags| - 1]
  }

  lemma PrefixKeeps(run: seq<Arrival>, id: i64, frags: seq<Bytes>)
    requires run != [] && Ordered(run) && Consistent(run, id, frags)
    ensures Ordered(run[..|run| - 1]) && Consistent(run[..|run| - 1], id, frags) && |frags| <= 0x7FFF
  {
  }

  /** The packet is its fragments from the first to the last. */
  lemma {:induction false} JoinedIs(first: Bytes, rest: seq<Bytes>)
    ensures Joined([]) == [] && Joined([first] + rest) == first + Joined(rest)
  {
    var all := [first] + rest;
    if rest == [] {
      assert all[..0] == [] && Joined(all[..0]) == [];
      assert [] + first == first;
    } else {
      var n := |rest| - 1;
      JoinedIs(first, rest[..n]);
      assert all[..n + 1] == [first] + rest[..n];
      assert (first + Joined(rest[..n])) + rest[n] == first + (Joined(rest[..n]) + rest[n]);
    }
  }

  /** The fragments seen of a packet are those that arrived for it from that time on. */
  lemma {:induction false} SeenIff(run: seq<Arrival>, id: i64, from: int, n: i16)
    ensures n in Seen(run, id, from) <==>
              exists i :: 0 <= i < |run| && run[i].id == id && run[i].num == n && run[i].now >= from
  {
    if n in Seen(run, id, from) {
      var i := SeenComesFrom(run, id, from, n);
    }
    forall i | 0 <= i < |run| && run[i].id == id && run[i].num == n && run[i].now >= from
      ensures n in Seen(run, id, from)
    {
      ArrivedIsSeen(run, id, from, i);
    }
  }

  lemma {:induction false} ArrivedIsSeen(run: seq<Arrival>, id: i64, from: int, i: nat)
    requires i < |run| && run[i].id == id && run[i].now >= from
    ensures run[i].num in Seen(run, id, from)
  {
    if i < |run| - 1 {
      ArrivedIsSeen(run[..|run| - 1], id, from, i);
    }
  }

  /** A fragment of a packet under way joins it, under the total its first fragment gave, and replaces one of
      the same number; one that comes 1000 ms later or first starts anew with its own total. */
  lemma FirstTotalCounts(entries: map<i64, Entry>, a: Arrival)
    ensures var e := Filled(entries, a);
            if a.id in entries && a.now - entries[a.id].createdAt < 1_000_000_000
            then e == Entry(entries[a.id].total, entries[a.id].received[a.num := a.data], entries[a.id].createdAt)
            else e == Entry(a.total, map[a.num := a.data], a.now)
    ensures Answer(entries, a).Some? <==>
              var e := Filled(entries, a);
              |e.received| == if e.total >= 0 then e.total else e.total + 0x1_0000_0000_0000_0000
  {
    hide Young;
    if a.id in entries {
      AttemptAges(entries[a.id].createdAt, a.now);
    }
  }

  // ---------- counting ----------

  function Range(n: nat): (s: set<i16>)
    requires n <= 0x7FFF
    ensures forall k: i16 :: k in s <==> 0 <= k < n
    ensures |s| == n
  {
    if n == 0 then {} else Range(n - 1) + {n - 1}
  }

  lemma SubsetOfRange(s: set<i16>, frags: seq<Bytes>)
    requires |frags| <= 0x7FFF && s <= Range(|frags|)
    ensures |s| == |frags| <==> Complete(s, frags)
  {
    if |s| == |frags| && s != Range(|frags|) {
      var k :| k in Range(|frags|) && k !in s;
      CardinalityGrows(s + {k}, Range(|frags|));
    }
    if Complete(s, frags) {
      assert s == Range(|frags|);
    }
  }

  lemma {:induction false} CardinalityGrows(s: set<i16>, t: set<i16>)
    requires s <= t
    ensures |s| <= |t|
  {
    if s != {} {
      var k :| k in s;
      CardinalityGrows(s - {k}, t - {k});
    }
  }

  /** The reassembly of fragments that are all there is their concatenation. */
  lemma {:induction false} AssembledIsJoined(received: map<i16, Bytes>, frags: seq<Bytes>, n: nat)
    requires n <= |frags| <= 0x7FFF
    requires forall k: i16 | 0 <= k < n :: k in received && received[k] == frags[k]
    ensures Assembled(received, n) == Joined(frags[..n])
  {
    if n > 0 {
      AssembledIsJoined(received, frags, n - 1);
      assert frags[..n][..n - 1] == frags[..n - 1];
    }
  }

  // ---------- safety: every run ----------

  /** What is held for the packet is part of what has arrived since the entry was created. */
  ghost predicate Genuine(entries: map<i64, Entry>, run: seq<Arrival>, id: i64, frags: seq<Bytes>)
    requires |frags| <= 0x7FFF
  {
    id in entries ==>
      var e := entries[id];
      && run != [] && e.createdAt <= run[|run| - 1].now
      && e.total == |frags|
      && e.received.Keys <= Seen(run, id, e.createdAt)
      && forall n | n in e.received :: 0 <= n < |frags| && e.received[n] == frags[n]
  }

  lemma {:induction false} EntriesAreGenuine(start: map<i64, Entry>, run: seq<Arrival>, id: i64, frags: seq<Bytes>)
    requires id !in start && Ordered(run) && Consistent(run, id, frags)
    ensures Genuine(After(start, run), run, id, frags)
  {
    if run != [] {
      EntriesAreGenuine(start, run[..|run| - 1], id, frags);
      StepIsGenuine(After(start, run[..|run| - 1]), run, id, frags);
    }
  }

  lemma StepIsGenuine(entries: map<i64, Entry>, run: seq<Arrival>, id: i64, frags: seq<Bytes>)
    requires run != [] && Ordered(run) && Consistent(run, id, frags)
    requires Genuine(entries, run[..|run| - 1], id, frags)
    ensures Genuine(Step(entries, run[|run| - 1]), run, id, frags)
  {
    hide Consistent;
    var a := run[|run| - 1];
    if a.id == id {
      FilledIsGenuine(entries, run, id, frags);
    }
  }

  lemma FilledIsGenuine(entries: map<i64, Entry>, run: seq<Arrival>, id: i64, frags: seq<Bytes>)
    requires run != [] && Ordered(run) && Consistent(run, id, frags) && run[|run| - 1].id == id
    requires Genuine(entries, run[..|run| - 1], id, frags)
    ensures var e := Filled(entries, run[|run| - 1]);
            && e.total == |frags| && e.createdAt <= run[|run| - 1].now
            && (forall n | n in e.received :: 0 <= n < |frags| && e.received[n] == frags[n])
            && e.received.Keys <= Seen(run, id, e.createdAt)
            && Young(e.createdAt, run[|run| - 1].now)
  {
  }

  /** Whatever the timing, the repeats and the other packets: while a fragment of the packet is
      still missing the answer is None, and an answer that is not None is the whole packet. */
  lemma AnswersAreWhole(start: map<i64, Entry>, run: seq<Arrival>, id: i64, frags: seq<Bytes>)
    requires run != [] && run[|run| - 1].id == id
    requires id !in start && Ordered(run) && Consistent(run, id, frags)
    ensures LastAnswer(start, run).Some? ==> Complete(Seen(run, id, run[0].now), frags)
    ensures LastAnswer(start, run).Some? ==> LastAnswer(start, run).value == Joined(frags)
  {
    hide After, Genuine, Filled, Seen, Assembled, Joined, Consistent, Complete, Step;
    var before := After(start, run[..|run| - 1]);
    PrefixKeeps(run, id, frags);
    EntriesAreGenuine(start, run[..|run| - 1], id, frags);
    FilledIsGenuine(before, run, id, frags);
    var e := Filled(before, run[|run| - 1]);
    assert forall n | n in e.received.Keys :: n in Range(|frags|);
    SubsetOfRange(e.received.Keys, frags);
    KeysCount(e.received);
    if LastAnswer(start, run).Some? {
      SeenFromTheStart(run, id, e.createdAt);
      CompleteGrows(e.received.Keys, Seen(run, id, run[0].now), frags);
      CompleteAssembles(e.received, frags);
    }
  }

  lemma CompleteGrows(s: set<i16>, t: set<i16>, frags: seq<Bytes>)
    requires |frags| <= 0x7FFF && s <= t && Complete(s, frags)
    ensures Complete(t, frags)
  {
  }

  lemma CompleteAssembles(received: map<i16, Bytes>, frags: seq<Bytes>)
    requires |frags| <= 0x7FFF && Complete(received.Keys, frags)
    requires forall n | n in received :: 0 <= n < |frags| && received[n] == frags[n]
    ensures Assembled(received, |frags|) == Joined(frags)
  {
    AssembledIsJoined(received, frags, |frags|);
    assert frags[..|frags|] == frags;
  }

  lemma KeysCount(received: map<i16, Bytes>)
    ensures |received| == |received.Keys|
  {
  }

  lemma {:induction false} SeenFromTheStart(run: seq<Arrival>, id: i64, from: int)
    requires run != [] && Ordered(run)
    ensures Seen(run, id, from) <= Seen(run, id, run[0].now)
  {
    if |run| > 1 {
      SeenFromTheStart(run[..|run| - 1], id, from);
    }
  }

  // ---------- exactly when a packet is answered ----------

  /** One attempt at a packet, seen from its sender: when its first fragment arrived and which
      fragments have arrived since. */
  datatype Attempt = Attempt(born: int, seen: set<i16>)

  /** An arrival joins the attempt under way, unless that one is 1000 ms old. */
  function Joining(attempt: Option<Attempt>, a: Arrival): Attempt {
    if attempt.Some? && Young(attempt.value.born, a.now)
    then attempt.value.(seen := attempt.value.seen + {a.num})
    else Attempt(a.now, {a.num})
  }

  /** The attempt under way after a run: only the packet's own arrivals count. One that has all
      fragments is over. */
  ghost function UnderWay(run: seq<Arrival>, id: i64, frags: seq<Bytes>): Option<Attempt>
    requires |frags| <= 0x7FFF
  {
    if run == [] then None
    else
      var before, a := UnderWay(run[..|run| - 1], id, frags), run[|run| - 1];
      if a.id != id then before
      else if Complete(Joining(before, a).seen, frags) then None
      else Some(Joining(before, a))
  }

  /** The attempt that the last arrival of a run belongs to. */
  ghost function LastAttempt(run: seq<Arrival>, id: i64, frags: seq<Bytes>): Attempt
    requires run != [] && |frags| <= 0x7FFF
  {
    Joining(UnderWay(run[..|run| - 1], id, frags), run[|run| - 1])
  }

  /** The entry of a packet holds exactly the attempt under way, or has been dropped because the
      attempt is too old by now. */
  ghost predicate Tracks(entries: map<i64, Entry>, id: i64, attempt: Option<Attempt>, now: int, frags: seq<Bytes>) {
    && (id in entries ==>
          var e := entries[id];
          && attempt == Some(Attempt(e.createdAt, e.received.Keys)) && e.total == |frags|
          && forall n | n in e.received :: 0 <= n < |frags| && e.received[n] == frags[n])
    && (id !in entries && attempt.Some? ==> !Young(attempt.value.born, now))
  }

  /** An arrival for the packet itself finds the attempt under way and joins it. */
  lemma FilledTracks(entries: map<i64, Entry>, attempt: Option<Attempt>, now: int, frags: seq<Bytes>, a: Arrival)
    requires Tracks(entries, a.id, attempt, now, frags) && now <= a.now
    requires a.total == |frags| && 0 <= a.num < |frags| && a.data == frags[a.num]
    ensures var e := Filled(entries, a);
            && Joining(attempt, a) == Attempt(e.createdAt, e.received.Keys) && e.total == |frags|
            && forall n | n in e.received :: 0 <= n < |frags| && e.received[n] == frags[n]
  {
    if attempt.Some? {
      OldStaysOld(attempt.value.born, now, a.now);
    }
  }

  lemma OldStaysOld(born: int, now: int, later: int)
    requires now <= later
    ensures !Young(born, now) ==> !Young(born, later)
  {
  }

  /** The answer tells whether the attempt is complete. */
  lemma AnswerIffComplete(entries: map<i64, Entry>, a: Arrival, frags: seq<Bytes>)
    requires |frags| <= 0x7FFF
    requires var e := Filled(entries, a);
             e.total == |frags| && forall n | n in e.received :: 0 <= n < |frags| && e.received[n] == frags[n]
    ensures var complete := Complete(Filled(entries, a).received.Keys, frags);
            && Answer(entries, a) == (if complete then Some(Joined(frags)) else None)
            && Step(entries, a) == if complete then Retained(entries, a.now) - {a.id}
                                   else Retained(entries, a.now)[a.id := Filled(entries, a)]
  {
    hide Filled, Assembled, Joined, Complete, Retained;
    var e := Filled(entries, a);
    assert forall n | n in e.received.Keys :: n in Range(|frags|);
    SubsetOfRange(e.received.Keys, frags);
    KeysCount(e.received);
    if Complete(e.received.Keys, frags) {
      CompleteAssembles(e.received, frags);
    }
  }

  lemma OwnArrivalTracks(entries: map<i64, Entry>, attempt: Option<Attempt>, now: int, frags: seq<Bytes>, a: Arrival)
    requires Tracks(entries, a.id, attempt, now, frags) && now <= a.now && |frags| <= 0x7FFF
    requires a.total == |frags| && 0 <= a.num < |frags| && a.data == frags[a.num]
    ensures var complete := Complete(Joining(attempt, a).seen, frags);
            && Answer(entries, a) == (if complete then Some(Joined(frags)) else None)
            && Tracks(Step(entries, a), a.id, if complete then None else Some(Joining(attempt, a)), a.now, frags)
  {
    FilledTracks(entries, attempt, now, frags, a);
    hide Filled, Answer, Step, Joined, Complete, Joining, Young;
    AnswerIffComplete(entries, a, frags);
  }

  lemma OtherArrivalTracks(entries: map<i64, Entry>, id: i64, attempt: Option<Attempt>, now: int, frags: seq<Bytes>,
                           a: Arrival)
    requires Tracks(entries, id, attempt, now, frags) && now <= a.now && a.id != id
    ensures Tracks(Step(entries, a), id, attempt, a.now, frags)
  {
    hide Filled;
    assert id in Step(entries, a) <==> id in Retained(entries, a.now);
    if attempt.Some? {
      OldStaysOld(attempt.value.born, now, a.now);
    }
  }

  lemma {:induction false} RunTracks(start: map<i64, Entry>, run: seq<Arrival>, id: i64, frags: seq<Bytes>)
    requires id !in start && Ordered(run) && Consistent(run, id, frags)
    ensures |frags| <= 0x7FFF
    ensures run == [] ==> Tracks(start, id, None, 0, frags)
    ensures run != [] ==> Tracks(After(start, run), id, UnderWay(run, id, frags), run[|run| - 1].now, frags)
  {
    hide Tracks, Joining, Complete, Step, Answer;
    if run == [] {
      NothingTracked(start, id, 0, frags);
    } else {
      var before, a := run[..|run| - 1], run[|run| - 1];
      RunTracks(start, before, id, frags);
      var now := if before == [] then a.now else before[|before| - 1].now;
      if before == [] {
        NothingTracked(start, id, a.now, frags);
      }
      if a.id == id {
        OwnArrivalTracks(After(start, before), UnderWay(before, id, frags), now, frags, a);
      } else {
        OtherArrivalTracks(After(start, before), id, UnderWay(before, id, frags), now, frags, a);
      }
    }
  }

  lemma NothingTracked(start: map<i64, Entry>, id: i64, now: int, frags: seq<Bytes>)
    requires id !in start
    ensures Tracks(start, id, None, now, frags)
  {
  }

  /** For every run, with repeats, other packets and any timing: an arrival is answered if and only
      if it completes the attempt it belongs to, and then with the whole packet. */
  lemma CompletingArrivalAnswersIff(start: map<i64, Entry>, run: seq<Arrival>, id: i64, frags: seq<Bytes>)
    requires run != [] && run[|run| - 1].id == id
    requires id !in start && Ordered(run) && Consistent(run, id, frags)
    ensures LastAnswer(start, run)
         == if Complete(LastAttempt(run, id, frags).seen, frags) then Some(Joined(frags)) else None
  {
    hide Tracks, Joining, Complete, Step, Answer, Joined;
    var before, a := run[..|run| - 1], run[|run| - 1];
    RunTracks(start, before, id, frags);
    if before == [] {
      NothingTracked(start, id, a.now, frags);
    }
    OwnArrivalTracks(After(start, before), UnderWay(before, id, frags),
                     if before == [] then a.now else before[|before| - 1].now, frags, a);
  }

  // ---------- packets that arrive in time ----------

  /** When the first fragment of this packet arrived. */
  function Born(run: seq<Arrival>, id: i64): Option<int> {
    if run == [] then None
    else
      match Born(run[..|run| - 1], id)
      case Some(t) => Some(t)
      case None => if run[|run| - 1].id == id then Some(run[|run| - 1].now) else None
  }

  ghost predicate InTime(run: seq<Arrival>, id: i64) {
    Born(run, id).Some? ==> Young(Born(run, id).value, run[|run| - 1].now)
  }

  lemma {:induction false} BornIsFirst(run: seq<Arrival>, id: i64)
    requires run != [] && Ordered(run)
    ensures Born(run, id).Some? ==> run[0].now <= Born(run, id).value <= run[|run| - 1].now
    ensures Born(run, id).None? ==> Seen(run, id, run[0].now) == {}
  {
    if |run| > 1 {
      BornIsFirst(run[..|run| - 1], id);
    }
  }

  /** In time means: less than 1000 ms after every earlier fragment of the packet. */
  lemma InTimeIff(run: seq<Arrival>, id: i64)
    requires run != [] && Ordered(run)
    ensures InTime(run, id) <==>
              forall i | 0 <= i < |run| && run[i].id == id :: run[|run| - 1].now - run[i].now < 1_000_000_000
  {
    hide Young;
    BornIsEarliest(run, id);
    if Born(run, id).Some? {
      var i := BornAt(run, id);
      AttemptAges(run[i].now, run[|run| - 1].now);
    }
  }

  /** An attempt is dropped 1000 ms after its first fragment. */
  lemma AttemptAges(createdAt: int, now: int)
    ensures Young(createdAt, now) <==> now - createdAt < 1_000_000_000
  {
  }

  lemma {:induction false} BornIsEarliest(run: seq<Arrival>, id: i64)
    requires Ordered(run)
    ensures forall i | 0 <= i < |run| && run[i].id == id :: Born(run, id).Some? && Born(run, id).value <= run[i].now
  {
    if run != [] {
      BornIsEarliest(run[..|run| - 1], id);
      assert forall i | 0 <= i < |run| - 1 :: run[..|run| - 1][i] == run[i];
      if Born(run[..|run| - 1], id).Some? {
        var i := BornAt(run[..|run| - 1], id);
      }
    }
  }

  lemma InTimeEarlier(run: seq<Arrival>, id: i64, frags: seq<Bytes>)
    requires |run| > 1 && Ordered(run) && InTime(run, id) && |frags| <= 0x7FFF
    ensures Ordered(run[..|run| - 1]) && InTime(run[..|run| - 1], id)
    ensures Complete(Seen(run[..|run| - 1], id, run[0].now), frags) ==> Complete(Seen(run, id, run[0].now), frags)
  {
    BornIsFirst(run[..|run| - 1], id);
  }

  /** In time, and as long as fragments are missing, there is one attempt since the first fragment. */
  lemma {:induction false} OneAttempt(run: seq<Arrival>, id: i64, frags: seq<Bytes>)
    requires run != [] && Ordered(run) && InTime(run, id) && |frags| <= 0x7FFF
    requires !Complete(Seen(run, id, run[0].now), frags)
    ensures UnderWay(run, id, frags)
         == if Born(run, id).None? then None else Some(Attempt(Born(run, id).value, Seen(run, id, run[0].now)))
    decreases |run|
  {
    var before, a := run[..|run| - 1], run[|run| - 1];
    if before == [] {
      assert Seen(run, id, run[0].now) == if a.id == id then {a.num} else {};
    } else {
      InTimeEarlier(run, id, frags);
      OneAttempt(before, id, frags);
      if a.id == id {
        AttemptGrows(run, id, frags);
      } else {
        assert Seen(run, id, run[0].now) == Seen(before, id, run[0].now);
      }
    }
  }

  lemma AttemptGrows(run: seq<Arrival>, id: i64, frags: seq<Bytes>)
    requires |run| > 1 && Ordered(run) && InTime(run, id) && |frags| <= 0x7FFF && run[|run| - 1].id == id
    requires var before := run[..|run| - 1];
             (UnderWay(before, id, frags)
              == if Born(before, id).None? then None
                  else Some(Attempt(Born(before, id).value, Seen(before, id, run[0].now))))
    ensures LastAttempt(run, id, frags) == Attempt(Born(run, id).value, Seen(run, id, run[0].now))
  {
    hide Complete, Young;
    BornIsFirst(run[..|run| - 1], id);
  }

  /** A packet whose fragments all arrive within 1000 ms of the first, in any order, with repeats and
      among any other packets, is answered whole by the very arrival that completes it. */
  lemma CompletingArrivalAnswers(start: map<i64, Entry>, run: seq<Arrival>, id: i64, frags: seq<Bytes>)
    requires run != [] && run[|run| - 1].id == id
    requires id !in start && Ordered(run) && Consistent(run, id, frags) && InTime(run, id)
    requires Complete(Seen(run, id, run[0].now), frags)
    requires |run| > 1 ==> !Complete(Seen(run[..|run| - 1], id, run[0].now), frags)
    ensures LastAnswer(start, run) == Some(Joined(frags)) && id !in After(start, run)
  {
    assert |frags| <= 0x7FFF;
    hide Consistent, InTime, Complete, Joined, LastAnswer;
    if |run| > 1 {
      InTimeEarlier(run, id, frags);
      OneAttempt(run[..|run| - 1], id, frags);
      AttemptGrows(run, id, frags);
    } else {
      FirstAttempt(run, id, frags);
    }
    CompletingArrivalAnswersIff(start, run, id, frags);
    RunTracks(start, run, id, frags);
  }

  lemma FirstAttempt(run: seq<Arrival>, id: i64, frags: seq<Bytes>)
    requires |run| == 1 && run[0].id == id && |frags| <= 0x7FFF
    ensures LastAttempt(run, id, frags).seen == Seen(run, id, run[0].now) == {run[0].num}
  {
  }

  /** When no fragment is repeated, being in time is also necessary. */
  ghost predicate NoRepeats(run: seq<Arrival>, id: i64) {
    forall i, j | 0 <= i < j < |run| && run[i].id == id && run[j].id == id :: run[i].num != run[j].num
  }

  lemma AnsweredWithoutRepeatsIff(start: map<i64, Entry>, run: seq<Arrival>, id: i64, frags: seq<Bytes>)
    requires run != [] && run[|run| - 1].id == id
    requires id !in start && Ordered(run) && Consistent(run, id, frags) && NoRepeats(run, id)
    requires Complete(Seen(run, id, run[0].now), frags)
    ensures LastAnswer(start, run) == Some(Joined(frags)) <==> InTime(run, id)
  {
    hide Consistent, Complete;
    if InTime(run, id) {
      if |run| > 1 {
        LastIsMissing(run, id, frags);
      }
      CompletingArrivalAnswers(start, run, id, frags);
    } else {
      LateIsNotAnswered(start, run, id, frags);
    }
  }

  lemma {:induction false} SeenComesFrom(run: seq<Arrival>, id: i64, from: int, n: i16) returns (i: nat)
    requires n in Seen(run, id, from)
    ensures i < |run| && run[i].id == id && run[i].num == n && run[i].now >= from
  {
    var last := run[|run| - 1];
    if last.id == id && last.now >= from && last.num == n {
      i := |run| - 1;
    } else {
      i := SeenComesFrom(run[..|run| - 1], id, from, n);
    }
  }

  lemma LastIsMissing(run: seq<Arrival>, id: i64, frags: seq<Bytes>)
    requires |run| > 1 && run[|run| - 1].id == id && Consistent(run, id, frags) && NoRepeats(run, id)
    ensures !Complete(Seen(run[..|run| - 1], id, run[0].now), frags)
  {
    var n := run[|run| - 1].num;
    if n in Seen(run[..|run| - 1], id, run[0].now) {
      var i := SeenComesFrom(run[..|run| - 1], id, run[0].now, n);
      assert false;
    }
  }

  lemma {:induction false} BornAt(run: seq<Arrival>, id: i64) returns (i: nat)
    requires Born(run, id).Some?
    ensures i < |run| && run[i].id == id && run[i].now == Born(run, id).value
  {
    if Born(run[..|run| - 1], id).Some? {
      i := BornAt(run[..|run| - 1], id);
    } else {
      i := |run| - 1;
    }
  }

  lemma LateIsNotAnswered(start: map<i64, Entry>, run: seq<Arrival>, id: i64, frags: seq<Bytes>)
    requires run != [] && run[|run| - 1].id == id
    requires id !in start && Ordered(run) && Consistent(run, id, frags) && NoRepeats(run, id) && !InTime(run, id)
    ensures LastAnswer(start, run) == None
  {
    var before := After(start, run[..|run| - 1]);
    EntriesAreGenuine(start, run[..|run| - 1], id, frags);
    FilledIsGenuine(before, run, id, frags);
    var e := Filled(before, run[|run| - 1]);
    SubsetOfRange(e.received.Keys, frags);
    KeysCount(e.received);
    var first := BornAt(run, id);
    assert e.createdAt > run[first].now;
    if run[first].num in e.received.Keys {
      var i := SeenComesFrom(run, id, e.createdAt, run[first].num);
      assert false;
    }
  }
}
