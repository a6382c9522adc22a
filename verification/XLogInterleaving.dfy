/** Real-time polling when puts and polls interleave in every way their locks allow. */
module XLogInterleaving {
  import opened ByteCodec
  import opened XLogCache

  /** `put` takes its number and appends its entry under two different locks, and a poll reads the
      entries and the number in two steps. `pending` are the puts between their halves, `snapshot`
      is what a poll has read so far. */
  datatype Shared = Shared(next: nat, entries: seq<Entry>, pending: set<Entry>,
                           cursor: nat, snapshot: Option<seq<Entry>>, out: seq<Entry>)

  datatype Event = TakeNumber(e: Entry) | Append(e: Entry) | Snapshot | Reply

  /** An event that is not possible in a state leaves it unchanged. */
  function Next(maxSize: nat, s: Shared, ev: Event): Shared {
    match ev
    case TakeNumber(e) => s.(next := s.next + 1, pending := s.pending + {e.(index := s.next)})
    case Append(e) =>
      if e in s.pending then s.(pending := s.pending - {e}, entries := Pushed(s.entries, maxSize, e)) else s
    case Snapshot => if s.snapshot.None? then s.(snapshot := Some(Since(s.entries, s.cursor, None))) else s
    case Reply =>
      if s.snapshot.Some?
      then s.(out := s.out + s.snapshot.value, cursor := Latest(s.next), snapshot := None)
      else s
  }

  function Interleave(maxSize: nat, s: Shared, events: seq<Event>): Shared
    decreases |events|
  {
    if events == [] then s else Interleave(maxSize, Next(maxSize, s, events[0]), events[1..])
  }

  function Start(cursor: nat): Shared { Shared(0, [], {}, cursor, None, []) }

  ghost predicate Distinct(entries: seq<Entry>) {
    forall i, j | 0 <= i < j < |entries| :: entries[i].index != entries[j].index
  }

  ghost predicate Below(entries: seq<Entry>, n: nat) { forall i | 0 <= i < |entries| :: entries[i].index < n }

  ghost predicate Above(entries: seq<Entry>, n: nat) { forall i | 0 <= i < |entries| :: entries[i].index > n }

  ghost predicate PendingApart(pending: set<Entry>, entries: seq<Entry>, next: nat) {
    && (forall e | e in pending :: e.index < next)
    && (forall e, f | e in pending && f in pending && e != f :: e.index != f.index)
    && (forall e, i | e in pending && 0 <= i < |entries| :: entries[i].index != e.index)
  }

  ghost predicate Inv(s: Shared) {
    && Distinct(s.entries) && Below(s.entries, s.next)
    && PendingApart(s.pending, s.entries, s.next)
    && Distinct(s.out) && Below(s.out, s.next) && Below(s.out, s.cursor + 1)
    && (s.snapshot.Some? ==>
          Distinct(s.snapshot.value) && Below(s.snapshot.value, s.next) && Above(s.snapshot.value, s.cursor))
  }

  lemma {:induction false} SinceSelects(entries: seq<Entry>, since: nat, n: nat)
    requires Distinct(entries) && Below(entries, n)
    ensures Distinct(Since(entries, since, None)) && Below(Since(entries, since, None), n)
    ensures Above(Since(entries, since, None), since)
    ensures forall e :: e in Since(entries, since, None) ==> e in entries
  {
    if entries != [] {
      var tail := entries[1..];
      assert forall i | 0 <= i < |tail| :: tail[i] == entries[i + 1];
      SinceSelects(tail, since, n);
      var rest := Since(tail, since, None);
      forall j | 0 <= j < |rest|
        ensures rest[j].index != entries[0].index
      {
        assert rest[j] in tail;
      }
      PrependKeeps(entries[0], rest, since, n);
    }
  }

  lemma PrependKeeps(e: Entry, rest: seq<Entry>, since: nat, n: nat)
    requires Distinct(rest) && Below(rest, n) && Above(rest, since) && e.index < n
    requires forall j | 0 <= j < |rest| :: rest[j].index != e.index
    ensures Distinct([] + rest) && Below([] + rest, n) && Above([] + rest, since)
    ensures e.index > since ==> Distinct([e] + rest) && Below([e] + rest, n) && Above([e] + rest, since)
  {
  }

  lemma AppendKeepsApart(maxSize: nat, s: Shared, e: Entry)
    requires Inv(s) && e in s.pending
    ensures Inv(Next(maxSize, s, Append(e)))
  {
  }

  lemma ReplyKeepsDistinct(s: Shared)
    requires Inv(s) && s.snapshot.Some?
    ensures Distinct(s.out + s.snapshot.value) && Below(s.out + s.snapshot.value, s.next)
  {
  }

  lemma NextKeepsInv(maxSize: nat, s: Shared, ev: Event)
    requires Inv(s)
    ensures Inv(Next(maxSize, s, ev))
  {
    match ev
    case TakeNumber(e) =>
    case Append(e) =>
      if e in s.pending {
        AppendKeepsApart(maxSize, s, e);
      }
    case Snapshot => SinceSelects(s.entries, s.cursor, s.next);
    case Reply =>
      if s.snapshot.Some? {
        ReplyKeepsDistinct(s);
      }
  }

  lemma {:induction false} InterleavingKeepsInv(maxSize: nat, s: Shared, events: seq<Event>)
    requires Inv(s)
    ensures Inv(Interleave(maxSize, s, events))
    decreases |events|
  {
    hide Inv, Next;
    if events != [] {
      NextKeepsInv(maxSize, s, events[0]);
      InterleavingKeepsInv(maxSize, Next(maxSize, s, events[0]), events[1..]);
    }
  }

  /** However puts and a chain of polls interleave, and whatever number the chain starts from, no
      log is delivered twice. */
  lemma NeverDeliveredTwice(maxSize: nat, cursor: nat, events: seq<Event>)
    ensures Distinct(Interleave(maxSize, Start(cursor), events).out)
  {
    InterleavingKeepsInv(maxSize, Start(cursor), events);
  }

  ghost predicate Has(entries: seq<Entry>, i: nat) { exists j :: 0 <= j < |entries| && entries[j].index == i }

  /** Once the cursor has passed a number, what was delivered of it is settled: no continuation
      delivers it later. */
  lemma {:induction false} PassedIsSettled(maxSize: nat, s: Shared, events: seq<Event>, i: nat)
    requires Inv(s) && s.cursor <= Latest(s.next) && i <= s.cursor
    ensures Has(Interleave(maxSize, s, events).out, i) <==> Has(s.out, i)
    decreases |events|
  {
    hide Inv, Next, Has;
    if events != [] {
      var t := Next(maxSize, s, events[0]);
      NextKeepsInv(maxSize, s, events[0]);
      StepSettles(maxSize, s, events[0], i);
      PassedIsSettled(maxSize, t, events[1..], i);
    }
  }

  lemma StepSettles(maxSize: nat, s: Shared, ev: Event, i: nat)
    requires Inv(s) && s.cursor <= Latest(s.next) && i <= s.cursor
    ensures var t := Next(maxSize, s, ev);
            t.cursor <= Latest(t.next) && i <= t.cursor && (Has(t.out, i) <==> Has(s.out, i))
  {
    hide Distinct, PendingApart, Since, Pushed;
    if ev.Reply? && s.snapshot.Some? {
      HasEither(s.out, s.snapshot.value, i);
    }
  }

  lemma HasEither(a: seq<Entry>, b: seq<Entry>, i: nat)
    ensures Has(a + b, i) <==> Has(a, i) || Has(b, i)
  {
    if Has(a, i) {
      var j :| 0 <= j < |a| && a[j].index == i;
      assert (a + b)[j].index == i;
    }
    if Has(b, i) {
      var j :| 0 <= j < |b| && b[j].index == i;
      assert (a + b)[|a| + j].index == i;
    }
  }

  // ---------- what one poll delivers ----------

  /** What happens while the poll waits between its two reads: puts, but no step of the poll. */
  predicate Quiet(events: seq<Event>) {
    forall i | 0 <= i < |events| :: events[i].TakeNumber? || events[i].Append?
  }

  function Takes(events: seq<Event>): nat {
    if events == [] then 0 else (if events[0].TakeNumber? then 1 else 0) + Takes(events[1..])
  }

  lemma {:induction false} QuietKeepsPoll(maxSize: nat, s: Shared, events: seq<Event>)
    requires Inv(s) && Quiet(events)
    ensures var t := Interleave(maxSize, s, events);
            && Inv(t) && t.next == s.next + Takes(events)
            && t.snapshot == s.snapshot && t.cursor == s.cursor && t.out == s.out
    decreases |events|
  {
    hide Inv;
    if events != [] {
      NextKeepsInv(maxSize, s, events[0]);
      QuietKeepsPoll(maxSize, Next(maxSize, s, events[0]), events[1..]);
    }
  }

  lemma {:induction false} SinceHas(entries: seq<Entry>, since: nat, i: nat)
    ensures Has(Since(entries, since, None), i) <==> i > since && Has(entries, i)
  {
    if entries != [] {
      SinceHas(entries[1..], since, i);
      var first := if entries[0].index > since then [entries[0]] else [];
      HasEither(first, Since(entries[1..], since, None), i);
      HasEither([entries[0]], entries[1..], i);
      assert entries == [entries[0]] + entries[1..];
      HasOne(entries[0], i);
    }
  }

  lemma HasOne(e: Entry, i: nat)
    ensures Has([e], i) <==> e.index == i
  {
    assert [e][0] == e;
  }

  /** A poll: its snapshot, whatever happens before it goes on, and its reply. */
  function Polled(maxSize: nat, s: Shared, between: seq<Event>): Shared {
    Next(maxSize, Interleave(maxSize, Next(maxSize, s, Snapshot), between), Reply)
  }

  /** Every number above `from` that the cursor has passed is delivered in the end. */
  ghost predicate AllDelivered(maxSize: nat, from: nat, t: Shared, later: seq<Event>) {
    forall i: nat | from < i <= t.cursor :: Has(Interleave(maxSize, t, later).out, i)
  }

  /** A number that a poll passes is ever delivered if and only if its log is in the cache when the
      poll begins. */
  lemma PassedNumberIff(maxSize: nat, s: Shared, between: seq<Event>, later: seq<Event>, i: nat)
    requires Inv(s) && s.snapshot.None? && Quiet(between)
    requires s.cursor < i <= Polled(maxSize, s, between).cursor
    ensures Has(Interleave(maxSize, Polled(maxSize, s, between), later).out, i) <==> Has(s.entries, i)
  {
    hide Distinct, PendingApart, Interleave, Since, Has;
    NextKeepsInv(maxSize, s, Snapshot);
    QuietKeepsPoll(maxSize, Next(maxSize, s, Snapshot), between);
    var mid := Interleave(maxSize, Next(maxSize, s, Snapshot), between);
    NextKeepsInv(maxSize, mid, Reply);
    var t := Polled(maxSize, s, between);
    assert t.out == s.out + Since(s.entries, s.cursor, None);
    HasEither(s.out, Since(s.entries, s.cursor, None), i);
    NothingAbove(s.out, s.cursor, i);
    SinceHas(s.entries, s.cursor, i);
    PassedIsSettled(maxSize, t, later, i);
  }

  lemma NothingAbove(entries: seq<Entry>, n: nat, i: nat)
    requires Below(entries, n + 1) && i > n
    ensures !Has(entries, i)
  {
  }

  /** No put that has taken an unread number is still on its way to the cache. */
  ghost predicate NonePending(s: Shared) { forall e | e in s.pending :: e.index <= s.cursor }

  /** No unread log has been pushed out of the cache. */
  ghost predicate NoneEvicted(s: Shared) {
    forall i: nat | s.cursor < i < s.next && !PendingHas(s, i) :: Has(s.entries, i)
  }

  ghost predicate PendingHas(s: Shared, i: nat) { exists e :: e in s.pending && e.index == i }

  /** No put takes a number above the cursor between the two reads of the poll. */
  predicate NoneTaken(s: Shared, between: seq<Event>) {
    Takes(between) == 0 || s.next + Takes(between) - 1 <= s.cursor
  }

  /** The exact condition, known when the poll begins except for what happens while it waits: every
      number it passes is delivered, now or ever, if and only if no unread put is pending, no
      unread log has been evicted, and no put takes a number before the reply. */
  lemma PollDeliversAllIff(maxSize: nat, s: Shared, between: seq<Event>, later: seq<Event>)
    requires Inv(s) && s.snapshot.None? && Quiet(between)
    ensures AllDelivered(maxSize, s.cursor, Polled(maxSize, s, between), later)
       <==> NonePending(s) && NoneEvicted(s) && NoneTaken(s, between)
  {
    hide Inv, Polled, Has, NonePending, NoneEvicted;
    var t := Polled(maxSize, s, between);
    var final := Interleave(maxSize, t, later).out;
    PolledCursor(maxSize, s, between);
    forall i | s.cursor < i <= t.cursor
      ensures Has(final, i) <==> Has(s.entries, i)
    {
      PassedNumberIff(maxSize, s, between, later, i);
    }
    AllCachedIff(s, between);
  }

  lemma PolledCursor(maxSize: nat, s: Shared, between: seq<Event>)
    requires Inv(s) && s.snapshot.None? && Quiet(between)
    ensures Polled(maxSize, s, between).cursor == Latest(s.next + Takes(between))
  {
    hide Inv, Interleave, Since;
    NextKeepsInv(maxSize, s, Snapshot);
    QuietKeepsPoll(maxSize, Next(maxSize, s, Snapshot), between);
  }

  lemma AllCachedIff(s: Shared, between: seq<Event>)
    requires Inv(s)
    ensures (forall i | s.cursor < i <= Latest(s.next + Takes(between)) :: Has(s.entries, i))
       <==> NonePending(s) && NoneEvicted(s) && NoneTaken(s, between)
  {
    hide Distinct, Takes;
    if e :| e in s.pending && e.index > s.cursor {
      assert !Has(s.entries, e.index);
    }
    if !NoneTaken(s, between) {
      assert !Has(s.entries, s.next + Takes(between) - 1);
    }
  }

  // ---------- with one putting task ----------

  /** Every put completes before the next one begins, as when one task makes them all. */
  ghost predicate OneTask(maxSize: nat, s: Shared, events: seq<Event>)
    decreases |events|
  {
    events == [] || ((events[0].TakeNumber? ==> s.pending == {})
                     && OneTask(maxSize, Next(maxSize, s, events[0]), events[1..]))
  }

  /** How many puts have completed, and the cache keeps the last of them. */
  ghost predicate Ordered(maxSize: nat, s: Shared, done: nat) {
    && (s.pending == {} ==> s.next == done)
    && (s.pending != {} ==> s.next == done + 1 && exists e :: s.pending == {e} && e.index == done)
    && |s.entries| == (if done < Window(maxSize) then done else Window(maxSize))
    && forall i | 0 <= i < |s.entries| :: s.entries[i].index == done - |s.entries| + i
  }

  lemma NextKeepsOrdered(maxSize: nat, s: Shared, ev: Event, done: nat)
    requires Ordered(maxSize, s, done) && (ev.TakeNumber? ==> s.pending == {})
    ensures Ordered(maxSize, Next(maxSize, s, ev), if ev.Append? && ev.e in s.pending then done + 1 else done)
  {
    if ev.TakeNumber? {
      assert {} + {ev.e.(index := s.next)} == {ev.e.(index := s.next)};
    } else if ev.Append? && ev.e in s.pending {
      assert s.pending == {ev.e};
    }
  }

  lemma {:induction false} OneTaskKeepsOrdered(maxSize: nat, s: Shared, events: seq<Event>, done: nat)
    returns (after: nat)
    requires Ordered(maxSize, s, done) && OneTask(maxSize, s, events)
    ensures Ordered(maxSize, Interleave(maxSize, s, events), after)
    decreases |events|
  {
    hide Ordered, Next;
    after := done;
    if events != [] {
      var ev := events[0];
      NextKeepsOrdered(maxSize, s, ev, done);
      after := OneTaskKeepsOrdered(maxSize, Next(maxSize, s, ev), events[1..],
                                   if ev.Append? && ev.e in s.pending then done + 1 else done);
    }
  }

  /** With one putting task a poll delivers everything it passes if and only if it begins when no
      unread put is between its halves, no more logs are unread than the cache keeps, and no put
      begins before the reply. */
  lemma OneTaskPollIff(maxSize: nat, cursor: nat, before: seq<Event>, between: seq<Event>, later: seq<Event>)
    requires OneTask(maxSize, Start(cursor), before) && Quiet(between)
    requires Interleave(maxSize, Start(cursor), before).snapshot.None?
    ensures var s := Interleave(maxSize, Start(cursor), before);
            (AllDelivered(maxSize, s.cursor, Polled(maxSize, s, between), later)
             <==> NonePending(s) && s.next - 1 - s.cursor <= Window(maxSize) && NoneTaken(s, between))
  {
    hide Interleave, Polled, AllDelivered, Inv, Ordered, NoneEvicted, NonePending;
    var s := Interleave(maxSize, Start(cursor), before);
    StartIsRight(maxSize, cursor);
    InterleavingKeepsInv(maxSize, Start(cursor), before);
    var done := OneTaskKeepsOrdered(maxSize, Start(cursor), before, 0);
    PollDeliversAllIff(maxSize, s, between, later);
    if NonePending(s) {
      EvictedIff(maxSize, s, done);
    }
  }

  lemma StartIsRight(maxSize: nat, cursor: nat)
    ensures Inv(Start(cursor)) && Ordered(maxSize, Start(cursor), 0)
  {
  }

  lemma EvictedIff(maxSize: nat, s: Shared, done: nat)
    requires Ordered(maxSize, s, done) && NonePending(s)
    ensures NoneEvicted(s) <==> s.next - 1 - s.cursor <= Window(maxSize)
  {
    if s.next - 1 - s.cursor > Window(maxSize) {
      assert s.pending == {};
      assert !PendingHas(s, s.cursor + 1) && !Has(s.entries, s.cursor + 1);
    } else {
      forall i: nat | s.cursor < i < s.next && !PendingHas(s, i)
        ensures Has(s.entries, i)
      {
        assert s.pending == {};
        assert s.entries[i - (done - |s.entries|)].index == i;
      }
    }
  }

  /** A run of one putting task in which a poll loses a log: a is put, the poll takes its snapshot,
      b is put completely, and the poll replies with the number of b. */
  function LosingRun(a: Entry, b: Entry): seq<Event> {
    [TakeNumber(a)] + ([Append(a.(index := 0))]
                       + ([Snapshot] + ([TakeNumber(b)] + ([Append(b.(index := 1))] + [Reply]))))
  }

  lemma InterleaveCons(maxSize: nat, s: Shared, ev: Event, rest: seq<Event>)
    ensures Interleave(maxSize, s, [ev] + rest) == Interleave(maxSize, Next(maxSize, s, ev), rest)
    ensures OneTask(maxSize, s, [ev] + rest)
       <==> (ev.TakeNumber? ==> s.pending == {}) && OneTask(maxSize, Next(maxSize, s, ev), rest)
  {
    hide Next;
    assert ([ev] + rest)[1..] == rest;
  }

  lemma LosingRunEnds(maxSize: nat, a: Entry, b: Entry)
    requires maxSize >= 2
    ensures OneTask(maxSize, Start(0), LosingRun(a, b))
    ensures Interleave(maxSize, Start(0), LosingRun(a, b))
         == Shared(2, [a.(index := 0), b.(index := 1)], {}, 1, None, [])
  {
    hide Interleave, OneTask;
    var e0, e1 := a.(index := 0), b.(index := 1);
    var r1 := [Reply];
    var r2 := [Append(e1)] + r1;
    var r3 := [TakeNumber(b)] + r2;
    var r4 := [Snapshot] + r3;
    InterleaveCons(maxSize, Start(0), TakeNumber(a), [Append(e0)] + r4);
    var s1 := Shared(1, [], {e0}, 0, None, []);
    assert Next(maxSize, Start(0), TakeNumber(a)) == s1;
    InterleaveCons(maxSize, s1, Append(e0), r4);
    var s2 := Shared(1, [e0], {}, 0, None, []);
    assert Next(maxSize, s1, Append(e0)) == s2;
    InterleaveCons(maxSize, s2, Snapshot, r3);
    var s3 := Shared(1, [e0], {}, 0, Some([]), []);
    assert [e0][1..] == [] && Since([e0], 0, None) == [];
    assert Next(maxSize, s2, Snapshot) == s3;
    InterleaveCons(maxSize, s3, TakeNumber(b), r2);
    var s4 := Shared(2, [e0], {e1}, 0, Some([]), []);
    assert Next(maxSize, s3, TakeNumber(b)) == s4;
    InterleaveCons(maxSize, s4, Append(e1), r1);
    var s5 := Shared(2, [e0, e1], {}, 0, Some([]), []);
    assert Next(maxSize, s4, Append(e1)) == s5;
    assert r1 == [Reply] + [];
    InterleaveCons(maxSize, s5, Reply, []);
    var s6 := Shared(2, [e0, e1], {}, 1, None, []);
    assert Next(maxSize, s5, Reply) == s6;
    NoEvents(maxSize, s6);
  }

  lemma NoEvents(maxSize: nat, s: Shared)
    ensures Interleave(maxSize, s, []) == s && OneTask(maxSize, s, [])
  {
  }

  /** That run loses the log numbered 1 for good, although it is in the cache and no put is ever
      pending while the poll reads. */
  lemma OneTaskCanLose(maxSize: nat, a: Entry, b: Entry, later: seq<Event>)
    requires maxSize >= 2
    ensures OneTask(maxSize, Start(0), LosingRun(a, b))
    ensures var s := Interleave(maxSize, Start(0), LosingRun(a, b));
            Has(s.entries, 1) && !Has(Interleave(maxSize, s, later).out, 1)
  {
    hide Interleave, LosingRun, OneTask;
    LosingRunEnds(maxSize, a, b);
    var s := Interleave(maxSize, Start(0), LosingRun(a, b));
    assert s.entries[1].index == 1 && !Has(s.out, 1);
    PassedIsSettled(maxSize, s, later, 1);
  }
}
