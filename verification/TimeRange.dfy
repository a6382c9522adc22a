/** What the time index promises: a list of timestamped entries, read back by ranges of time. */
module TimeRange {
  import opened ByteCodec
  import opened SlotChains

  datatype TimeToData = TimeToData(time: int, dataPos: Bytes)

  /** All entries ever stored, oldest first. */
  type Entries = seq<TimeToData>

  /** The entries of one slot, newest first: what a walk of the slot's chain collects. */
  function Newest(entries: Entries, zone: int, slot: nat): Entries {
    if entries == [] then []
    else
      var e, older := entries[|entries| - 1], Newest(entries[..|entries| - 1], zone, slot);
      if TimeSlot(zone, e.time) == slot then [e] + older else older
  }

  /** The entries with a time in [from, to], newest first. */
  function Select(entries: Entries, from: int, to: int): Entries {
    if entries == [] then []
    else
      var e, older := entries[|entries| - 1], Select(entries[..|entries| - 1], from, to);
      if from <= e.time <= to then [e] + older else older
  }

  /** Those entries of s with a time in [from, to], in the order of s. */
  function Within(s: Entries, from: int, to: int): Entries {
    if s == [] then []
    else if from <= s[0].time <= to then [s[0]] + Within(s[1..], from, to)
    else Within(s[1..], from, to)
  }

  // ---------- the library's stable sort ----------

  /** Put e before the first entry that is not earlier. */
  function Insert(e: TimeToData, s: Entries): Entries {
    if s == [] || e.time <= s[0].time then [e] + s else [s[0]] + Insert(e, s[1..])
  }

  /** `sort_by_key` on the time. */
  function SortByTime(s: Entries): Entries {
    if s == [] then [] else Insert(s[0], SortByTime(s[1..]))
  }

  ghost predicate Sorted(s: Entries) {
    forall i, j | 0 <= i < j < |s| :: s[i].time <= s[j].time
  }

  lemma ConsSorts(e: TimeToData, s: Entries)
    requires Sorted(s) && forall j | 0 <= j < |s| :: e.time <= s[j].time
    ensures Sorted([e] + s)
  {
  }

  lemma SortedParts(s: Entries)
    requires s != [] && Sorted(s)
    ensures Sorted(s[1..]) && forall x | x in s :: s[0].time <= x.time
  {
  }

  lemma {:induction false} InsertSorts(e: TimeToData, s: Entries)
    requires Sorted(s)
    ensures Sorted(Insert(e, s)) && multiset(Insert(e, s)) == multiset(s) + multiset{e}
  {
    if s == [] {
    } else if e.time <= s[0].time {
      SortedParts(s);
      ConsSorts(e, s);
    } else {
      hide Sorted;
      SortedParts(s);
      InsertSorts(e, s[1..]);
      assert s == [s[0]] + s[1..];
      var rest := Insert(e, s[1..]);
      forall j | 0 <= j < |rest|
        ensures s[0].time <= rest[j].time
      {
        assert rest[j] in multiset(rest);
        assert rest[j] == e || rest[j] in s[1..];
      }
      ConsSorts(s[0], rest);
    }
  }

  /** Sorting orders by time and keeps every entry as often as it occurred. */
  lemma {:induction false} SortSorts(s: Entries)
    ensures Sorted(SortByTime(s)) && multiset(SortByTime(s)) == multiset(s)
  {
    if s != [] {
      SortSorts(s[1..]);
      InsertSorts(s[0], SortByTime(s[1..]));
      assert s == [s[0]] + s[1..];
    }
  }

  lemma {:induction false} InsertIsStable(e: TimeToData, s: Entries, t: int)
    requires Sorted(s)
    ensures Within(Insert(e, s), t, t) == (if e.time == t then [e] else []) + Within(s, t, t)
  {
    if s == [] || e.time <= s[0].time {
      assert ([e] + s)[1..] == s;
    } else {
      InsertIsStable(e, s[1..], t);
      assert ([s[0]] + Insert(e, s[1..]))[1..] == Insert(e, s[1..]);
      if e.time == t {
        NoneBefore(s, t);
      }
    }
  }

  lemma NoneBefore(s: Entries, t: int)
    requires s != [] && s[0].time < t
    ensures Within(s, t, t) == Within(s[1..], t, t)
  {
  }

  /** Entries of equal time keep their order. */
  lemma {:induction false} SortIsStable(s: Entries, t: int)
    ensures Within(SortByTime(s), t, t) == Within(s, t, t)
  {
    if s != [] {
      SortIsStable(s[1..], t);
      SortSorts(s[1..]);
      InsertIsStable(s[0], SortByTime(s[1..]), t);
    }
  }

  // ---------- reading ranges bucket by bucket ----------

  /** One bucket, as `get_bucket_entries` returns it. */
  function Bucket(entries: Entries, zone: int, time: int): Entries {
    SortByTime(Newest(entries, zone, TimeSlot(zone, time)))
  }

  /** `read`: whole buckets, stepping 500 ms forward, at most n of them. */
  function Forward(entries: Entries, zone: int, t: int, to: int, n: nat): Entries
    decreases n
  {
    if n == 0 || t > to then [] else Bucket(entries, zone, t) + Forward(entries, zone, t + 500, to, n - 1)
  }

  /** `read_from_end`: whole buckets reversed, stepping 500 ms backward. */
  function Backward(entries: Entries, zone: int, from: int, t: int, n: nat): Entries
    decreases n
  {
    if n == 0 || from > t then []
    else Reversed(Bucket(entries, zone, t)) + Backward(entries, zone, from, t - 500, n - 1)
  }

  /** `read_with_reader`: the entries it offers to its reader. */
  function Filtered(entries: Entries, zone: int, from: int, t: int, to: int, n: nat): Entries
    decreases n
  {
    if n == 0 || t > to then []
    else Within(Bucket(entries, zone, t), from, to) + Filtered(entries, zone, from, t + 500, to, n - 1)
  }

  lemma {:induction false} ReversedKeepsAll(s: Entries)
    ensures multiset(Reversed(s)) == multiset(s)
  {
    if s != [] {
      ReversedKeepsAll(s[1..]);
      assert s == [s[0]] + s[1..];
    }
  }

  /** The entry at the bottom of a chain. */
  function Oldest(s: Entries): TimeToData
    requires s != []
  {
    s[|s| - 1]
  }

  /** `get_data_pos_first`: the oldest entry of the first visited bucket that has any. */
  function FirstPos(entries: Entries, zone: int, t: int, to: int, n: nat): Option<Bytes>
    decreases n
  {
    if n == 0 || t > to then None
    else
      var bucket := Newest(entries, zone, TimeSlot(zone, t));
      if bucket != [] then Some(Oldest(bucket).dataPos) else FirstPos(entries, zone, t + 500, to, n - 1)
  }

  /** `get_data_pos_last`: the newest entry of the last visited bucket that has any. */
  function LastPos(entries: Entries, zone: int, from: int, t: int, n: nat): Option<Bytes>
    decreases n
  {
    if n == 0 || from > t then None
    else
      var bucket := Newest(entries, zone, TimeSlot(zone, t));
      if bucket != [] then Some(bucket[0].dataPos) else LastPos(entries, zone, from, t - 500, n - 1)
  }

  /** A first position is found exactly when `read` over the same range hands something out, a
      last position exactly when `read_from_end` does; either belongs to an entry handed out. */
  lemma {:induction false} FirstPosIffRead(entries: Entries, zone: int, t: int, to: int, n: nat)
    ensures FirstPos(entries, zone, t, to, n) == None <==> Forward(entries, zone, t, to, n) == []
    ensures FirstPos(entries, zone, t, to, n).Some? ==>
              exists e :: e in Forward(entries, zone, t, to, n) && e.dataPos == FirstPos(entries, zone, t, to, n).value
    decreases n
  {
    hide TimeSlot, Newest, SortByTime;
    if n > 0 && t <= to {
      FirstPosIffRead(entries, zone, t + 500, to, n - 1);
      var bucket := Newest(entries, zone, TimeSlot(zone, t));
      SortSorts(bucket);
      assert |SortByTime(bucket)| == |multiset(SortByTime(bucket))| == |bucket|;
      if bucket != [] {
        assert Oldest(bucket) in multiset(SortByTime(bucket));
      }
    }
  }

  lemma {:induction false} LastPosIffRead(entries: Entries, zone: int, from: int, t: int, n: nat)
    ensures LastPos(entries, zone, from, t, n) == None <==> Backward(entries, zone, from, t, n) == []
    ensures LastPos(entries, zone, from, t, n).Some? ==>
              exists e :: e in Backward(entries, zone, from, t, n)
                  && e.dataPos == LastPos(entries, zone, from, t, n).value
    decreases n
  {
    hide TimeSlot, Newest, SortByTime, Reversed;
    if n > 0 && from <= t {
      LastPosIffRead(entries, zone, from, t - 500, n - 1);
      var bucket := Newest(entries, zone, TimeSlot(zone, t));
      var calls := Reversed(SortByTime(bucket));
      SortSorts(bucket);
      ReversedKeepsAll(SortByTime(bucket));
      assert |calls| == |multiset(calls)| == |bucket|;
      if bucket != [] {
        assert bucket[0] in multiset(calls);
      }
    }
  }

  // ---------- at most once ----------

  /** Stepping by 500 ms steps through the slots one by one, around the clock. */
  lemma StepMovesOneSlot(zone: int, t: int, j: int)
    ensures TimeSlot(zone, t + 500 * j) == (TimeSlot(zone, t) + j) % TIME_SLOTS
  {
    var x := t + zone;
    var q, r := x / DAY_MS, x % DAY_MS;
    var s, p := r / 500, r % 500;
    var m, s' := (s + j) / TIME_SLOTS, (s + j) % TIME_SLOTS;
    assert x + 500 * j == DAY_MS * (q + m) + (500 * s' + p);
    ModOfSum(x + 500 * j, q + m, 500 * s' + p);
    assert (500 * s' + p) / 500 == s';
  }

  lemma ModOfSum(x: int, q: int, r: int)
    requires x == DAY_MS * q + r && 0 <= r < DAY_MS
    ensures x % DAY_MS == r
  {
    assert DAY_MS * (x / DAY_MS - q) + x % DAY_MS == r;
  }

  /** Fewer steps than there are slots never come back to a slot already visited. */
  lemma StepsVisitDistinctSlots(zone: int, t: int, j: int)
    requires 0 < j < TIME_SLOTS || 0 < -j < TIME_SLOTS
    ensures TimeSlot(zone, t + 500 * j) != TimeSlot(zone, t)
  {
    StepMovesOneSlot(zone, t, j);
    var s := TimeSlot(zone, t);
    assert (s + j) % TIME_SLOTS == s + j || (s + j) % TIME_SLOTS == s + j - TIME_SLOTS
        || (s + j) % TIME_SLOTS == s + j + TIME_SLOTS;
  }

  /** The entries whose slot is among the given ones, newest first. */
  ghost function InSlots(entries: Entries, zone: int, slots: set<nat>): Entries {
    if entries == [] then []
    else
      var e, older := entries[|entries| - 1], InSlots(entries[..|entries| - 1], zone, slots);
      if TimeSlot(zone, e.time) in slots then [e] + older else older
  }

  lemma {:induction false} InSlotsAddOne(entries: Entries, zone: int, slots: set<nat>, slot: nat)
    requires slot !in slots
    ensures multiset(InSlots(entries, zone, slots + {slot}))
         == multiset(Newest(entries, zone, slot)) + multiset(InSlots(entries, zone, slots))
  {
    hide TimeSlot;
    if entries != [] {
      InSlotsAddOne(entries[..|entries| - 1], zone, slots, slot);
    }
  }

  lemma {:induction false} InSlotsAreEntries(entries: Entries, zone: int, slots: set<nat>)
    ensures multiset(InSlots(entries, zone, slots)) <= multiset(entries)
  {
    hide TimeSlot;
    if entries != [] {
      var n := |entries| - 1;
      InSlotsAreEntries(entries[..n], zone, slots);
      assert entries == entries[..n] + [entries[n]];
    }
  }

  /** The slots of n steps from t, step milliseconds apart. */
  ghost function SlotsFrom(zone: int, t: int, step: int, n: nat): set<nat>
    decreases n
  {
    if n == 0 then {} else {TimeSlot(zone, t)} + SlotsFrom(zone, t + step, step, n - 1)
  }

  lemma {:induction false} NotAmongLater(zone: int, t: int, step: int, k: nat, n: nat)
    requires step == 500 || step == -500
    requires k > 0 && k + n <= TIME_SLOTS
    ensures TimeSlot(zone, t) !in SlotsFrom(zone, t + step * k, step, n)
    decreases n
  {
    hide TimeSlot;
    if n > 0 {
      var j: int := k;
      StepsVisitDistinctSlots(zone, t, if step == 500 then j else -j);
      NotAmongLater(zone, t, step, k + 1, n - 1);
    }
  }

  /** However long the range, `read` hands out each stored entry at most once. */
  lemma {:induction false} ForwardAtMostOnce(entries: Entries, zone: int, t: int, to: int, n: nat)
    requires n <= TIME_SLOTS
    ensures multiset(Forward(entries, zone, t, to, n)) <= multiset(InSlots(entries, zone, SlotsFrom(zone, t, 500, n)))
    decreases n
  {
    hide TimeSlot, InSlots, SlotsFrom, Newest, SortByTime;
    if n > 0 && t <= to {
      ForwardAtMostOnce(entries, zone, t + 500, to, n - 1);
      NotAmongLater(zone, t, 500, 1, n - 1);
      AddBucket(entries, zone, t, 500, n);
      SortSorts(Newest(entries, zone, TimeSlot(zone, t)));
      ConcatWithin(Bucket(entries, zone, t), Forward(entries, zone, t + 500, to, n - 1),
                   multiset(Newest(entries, zone, TimeSlot(zone, t))),
                   multiset(InSlots(entries, zone, SlotsFrom(zone, t + 500, 500, n - 1))));
    }
  }

  lemma ConcatWithin(s: Entries, t: Entries, a: multiset<TimeToData>, b: multiset<TimeToData>)
    requires multiset(s) <= a && multiset(t) <= b
    ensures multiset(s + t) <= a + b
  {
    assert multiset(s + t) == multiset(s) + multiset(t);
  }

  lemma AddBucket(entries: Entries, zone: int, t: int, step: int, n: nat)
    requires n > 0 && TimeSlot(zone, t) !in SlotsFrom(zone, t + step, step, n - 1)
    ensures multiset(InSlots(entries, zone, SlotsFrom(zone, t, step, n)))
         == multiset(Newest(entries, zone, TimeSlot(zone, t)))
          + multiset(InSlots(entries, zone, SlotsFrom(zone, t + step, step, n - 1)))
  {
    hide TimeSlot;
    InSlotsAddOne(entries, zone, SlotsFrom(zone, t + step, step, n - 1), TimeSlot(zone, t));
    assert SlotsFrom(zone, t, step, n) == SlotsFrom(zone, t + step, step, n - 1) + {TimeSlot(zone, t)};
  }

  lemma {:induction false} BackwardAtMostOnce(entries: Entries, zone: int, from: int, t: int, n: nat)
    requires n <= TIME_SLOTS
    ensures multiset(Backward(entries, zone, from, t, n))
         <= multiset(InSlots(entries, zone, SlotsFrom(zone, t, -500, n)))
    decreases n
  {
    hide TimeSlot, InSlots, SlotsFrom, Newest, SortByTime, Reversed;
    if n > 0 && from <= t {
      BackwardAtMostOnce(entries, zone, from, t - 500, n - 1);
      NotAmongLater(zone, t, -500, 1, n - 1);
      AddBucket(entries, zone, t, -500, n);
      SortSorts(Newest(entries, zone, TimeSlot(zone, t)));
      ReversedKeepsAll(Bucket(entries, zone, t));
      ConcatWithin(Reversed(Bucket(entries, zone, t)), Backward(entries, zone, from, t - 500, n - 1),
                   multiset(Newest(entries, zone, TimeSlot(zone, t))),
                   multiset(InSlots(entries, zone, SlotsFrom(zone, t - 500, -500, n - 1))));
    }
  }

  lemma {:induction false} WithinKeepsSome(s: Entries, from: int, to: int)
    ensures multiset(Within(s, from, to)) <= multiset(s)
  {
    if s != [] {
      WithinKeepsSome(s[1..], from, to);
      assert s == [s[0]] + s[1..];
    }
  }

  /** Every entry occurs among the calls at most as often as it is stored. */
  ghost predicate AtMostOnce(calls: Entries, entries: Entries) { multiset(calls) <= multiset(entries) }

  /** The step bound of the readers equals the number of slots, so none of the three ever hands an
      entry out more often than it was stored. */
  lemma ReadersHandOutAtMostOnce(entries: Entries, zone: int, from: int, to: int)
    ensures AtMostOnce(Forward(entries, zone, from, to, TIME_SLOTS), entries)
    ensures AtMostOnce(Backward(entries, zone, from, to, TIME_SLOTS), entries)
    ensures AtMostOnce(Filtered(entries, zone, from, from, to, TIME_SLOTS), entries)
  {
    ForwardAtMostOnce(entries, zone, from, to, TIME_SLOTS);
    InSlotsAreEntries(entries, zone, SlotsFrom(zone, from, 500, TIME_SLOTS));
    BackwardAtMostOnce(entries, zone, from, to, TIME_SLOTS);
    InSlotsAreEntries(entries, zone, SlotsFrom(zone, to, -500, TIME_SLOTS));
    FilteredIsWithin(entries, zone, from, from, to, TIME_SLOTS);
    WithinKeepsSome(Forward(entries, zone, from, to, TIME_SLOTS), from, to);
  }

  // ---------- a day and longer ----------

  lemma {:induction false} SlotAmongSteps(zone: int, t: int, step: int, n: nat, j: nat)
    requires (step == 500 || step == -500) && j < n
    ensures TimeSlot(zone, t + step * j) in SlotsFrom(zone, t, step, n)
    decreases n
  {
    hide TimeSlot;
    if j > 0 {
      SlotAmongSteps(zone, t + step, step, n - 1, j - 1);
      assert t + step + step * (j - 1) == t + step * j;
    }
  }

  /** As many steps as there are slots meet every slot. */
  lemma StepsMeetEverySlot(zone: int, t: int, step: int, slot: nat)
    requires (step == 500 || step == -500) && slot < TIME_SLOTS
    ensures slot in SlotsFrom(zone, t, step, TIME_SLOTS)
  {
    hide TimeSlot, SlotsFrom;
    var s := TimeSlot(zone, t);
    var ahead: nat := if slot >= s then slot - s else slot + TIME_SLOTS - s;
    if step == 500 {
      StepMovesOneSlot(zone, t, ahead);
      SlotAmongSteps(zone, t, step, TIME_SLOTS, ahead);
    } else {
      var back: int := if ahead == 0 then 0 else TIME_SLOTS - ahead;
      StepMovesOneSlot(zone, t, -back);
      SlotAmongSteps(zone, t, step, TIME_SLOTS, back);
    }
  }

  lemma {:induction false} AllInSlots(entries: Entries, zone: int, slots: set<nat>)
    requires forall slot: nat | slot < TIME_SLOTS :: slot in slots
    ensures multiset(InSlots(entries, zone, slots)) == multiset(entries)
  {
    hide TimeSlot;
    if entries != [] {
      var n := |entries| - 1;
      AllInSlots(entries[..n], zone, slots);
      assert entries == entries[..n] + [entries[n]];
    }
  }

  lemma ConcatIs(s: Entries, t: Entries, a: multiset<TimeToData>, b: multiset<TimeToData>)
    requires multiset(s) == a && multiset(t) == b
    ensures multiset(s + t) == a + b
  {
  }

  lemma {:induction false} ForwardIsAll(entries: Entries, zone: int, t: int, to: int, n: nat)
    requires n <= TIME_SLOTS && (n > 0 ==> t + 500 * (n - 1) <= to)
    ensures multiset(Forward(entries, zone, t, to, n)) == multiset(InSlots(entries, zone, SlotsFrom(zone, t, 500, n)))
    decreases n
  {
    hide TimeSlot, InSlots, SlotsFrom, Newest, SortByTime;
    if n > 0 {
      ForwardIsAll(entries, zone, t + 500, to, n - 1);
      NotAmongLater(zone, t, 500, 1, n - 1);
      AddBucket(entries, zone, t, 500, n);
      SortSorts(Newest(entries, zone, TimeSlot(zone, t)));
      ConcatIs(Bucket(entries, zone, t), Forward(entries, zone, t + 500, to, n - 1),
               multiset(Newest(entries, zone, TimeSlot(zone, t))),
               multiset(InSlots(entries, zone, SlotsFrom(zone, t + 500, 500, n - 1))));
    } else {
      NoSlots(entries, zone, t, 500);
    }
  }

  lemma {:induction false} BackwardIsAll(entries: Entries, zone: int, from: int, t: int, n: nat)
    requires n <= TIME_SLOTS && (n > 0 ==> from <= t - 500 * (n - 1))
    ensures multiset(Backward(entries, zone, from, t, n))
         == multiset(InSlots(entries, zone, SlotsFrom(zone, t, -500, n)))
    decreases n
  {
    hide TimeSlot, InSlots, SlotsFrom, Newest, SortByTime, Reversed;
    if n > 0 {
      BackwardIsAll(entries, zone, from, t - 500, n - 1);
      NotAmongLater(zone, t, -500, 1, n - 1);
      AddBucket(entries, zone, t, -500, n);
      SortSorts(Newest(entries, zone, TimeSlot(zone, t)));
      ReversedKeepsAll(Bucket(entries, zone, t));
      ConcatIs(Reversed(Bucket(entries, zone, t)), Backward(entries, zone, from, t - 500, n - 1),
               multiset(Newest(entries, zone, TimeSlot(zone, t))),
               multiset(InSlots(entries, zone, SlotsFrom(zone, t - 500, -500, n - 1))));
    } else {
      NoSlots(entries, zone, t, -500);
    }
  }

  lemma {:induction false} NoSlots(entries: Entries, zone: int, t: int, step: int)
    ensures InSlots(entries, zone, SlotsFrom(zone, t, step, 0)) == []
  {
    hide TimeSlot;
    if entries != [] {
      NoSlots(entries[..|entries| - 1], zone, t, step);
    }
  }

  lemma {:induction false} WithinConcat(s: Entries, t: Entries, from: int, to: int)
    ensures Within(s + t, from, to) == Within(s, from, to) + Within(t, from, to)
  {
    hide Within;
    if s == [] {
      assert s + t == t;
      WithinStep(s, from, to);
      assert [] + Within(t, from, to) == Within(t, from, to);
    } else {
      WithinConcat(s[1..], t, from, to);
      assert (s + t)[1..] == s[1..] + t;
      WithinStep(s, from, to);
      WithinStep(s + t, from, to);
      var front, back := Within(s[1..], from, to), Within(t, from, to);
      assert [s[0]] + (front + back) == ([s[0]] + front) + back;
    }
  }

  lemma WithinStep(s: Entries, from: int, to: int)
    ensures s == [] ==> Within(s, from, to) == []
    ensures s != [] && from <= s[0].time <= to ==> Within(s, from, to) == [s[0]] + Within(s[1..], from, to)
    ensures s != [] && !(from <= s[0].time <= to) ==> Within(s, from, to) == Within(s[1..], from, to)
  {
  }

  lemma {:induction false} FilteredIsWithin(entries: Entries, zone: int, from: int, t: int, to: int, n: nat)
    ensures Filtered(entries, zone, from, t, to, n) == Within(Forward(entries, zone, t, to, n), from, to)
    decreases n
  {
    hide TimeSlot, Bucket;
    if n > 0 && t <= to {
      FilteredIsWithin(entries, zone, from, t + 500, to, n - 1);
      WithinConcat(Bucket(entries, zone, t), Forward(entries, zone, t + 500, to, n - 1), from, to);
    }
  }

  lemma {:induction false} WithinCount(s: Entries, from: int, to: int, e: TimeToData)
    ensures multiset(Within(s, from, to))[e] == if from <= e.time <= to then multiset(s)[e] else 0
  {
    if s != [] {
      WithinCount(s[1..], from, to, e);
      assert s == [s[0]] + s[1..];
    }
  }

  /** A range of a day or longer meets every slot: reading it either way hands out every entry exactly as
      often as it is stored, and the range read every entry of the range. */
  lemma LongReadsHandOutAll(entries: Entries, zone: int, from: int, to: int)
    requires to - from >= 86_400_000
    ensures multiset(Forward(entries, zone, from, to, TIME_SLOTS)) == multiset(entries)
    ensures multiset(Backward(entries, zone, from, to, TIME_SLOTS)) == multiset(entries)
    ensures forall e ::
              multiset(Filtered(entries, zone, from, from, to, TIME_SLOTS))[e]
              == if from <= e.time <= to then multiset(entries)[e] else 0
  {
    hide Forward, Backward, Filtered, InSlots, SlotsFrom;
    forall slot: nat | slot < TIME_SLOTS
      ensures slot in SlotsFrom(zone, from, 500, TIME_SLOTS) && slot in SlotsFrom(zone, to, -500, TIME_SLOTS)
    {
      StepsMeetEverySlot(zone, from, 500, slot);
      StepsMeetEverySlot(zone, to, -500, slot);
    }
    ForwardIsAll(entries, zone, from, to, TIME_SLOTS);
    BackwardIsAll(entries, zone, from, to, TIME_SLOTS);
    AllInSlots(entries, zone, SlotsFrom(zone, from, 500, TIME_SLOTS));
    AllInSlots(entries, zone, SlotsFrom(zone, to, -500, TIME_SLOTS));
    FilteredIsWithin(entries, zone, from, from, to, TIME_SLOTS);
    forall e
      ensures multiset(Filtered(entries, zone, from, from, to, TIME_SLOTS))[e]
           == if from <= e.time <= to then multiset(entries)[e] else 0
    {
      WithinCount(Forward(entries, zone, from, to, TIME_SLOTS), from, to, e);
    }
  }

  // ---------- exactly the range ----------

  /** The number of the 500 ms bucket a time falls in, counted from the local epoch. */
  function BucketNumber(zone: int, time: int): int { (time + zone) / 500 }

  /** The last millisecond of a time's bucket. */
  function BucketEnd(zone: int, time: int): int { 500 * BucketNumber(zone, time) + 499 - zone }

  /** No two buckets of the range share a slot; the range may cross midnight. */
  predicate OneTurn(zone: int, from: int, to: int) { BucketNumber(zone, to) - BucketNumber(zone, from) < TIME_SLOTS }

  function Later(s: int, t: int): int { if s <= t then t else s }

  function Earlier(s: int, t: int): int { if s <= t then s else t }

  /** Where a range read stops seeing entries: the end of the last bucket it steps into. */
  function Horizon(zone: int, from: int, to: int): int
    requires from <= to
  {
    Earlier(BucketEnd(zone, from + 500 * ((to - from) / 500)), to)
  }

  lemma SlotIsBucket(zone: int, s: int, t: int)
    requires BucketNumber(zone, s) < BucketNumber(zone, t) + TIME_SLOTS
         && BucketNumber(zone, t) < BucketNumber(zone, s) + TIME_SLOTS
    ensures TimeSlot(zone, s) == TimeSlot(zone, t) <==> BucketNumber(zone, s) == BucketNumber(zone, t)
  {
    SlotOfBucket(zone, s);
    SlotOfBucket(zone, t);
    hide TimeSlot, BucketNumber;
  }

  lemma SlotOfBucket(zone: int, s: int)
    ensures BucketNumber(zone, s) == TIME_SLOTS * ((s + zone) / DAY_MS) + TimeSlot(zone, s)
  {
    var q, r := (s + zone) / DAY_MS, (s + zone) % DAY_MS;
    assert s + zone == DAY_MS * q + r;
    assert (DAY_MS * q + r) / 500 == TIME_SLOTS * q + r / 500;
  }

  /** Filtering a visited bucket by the range is selecting the part of the range in that bucket. */
  lemma {:induction false} BucketWithinRange(entries: Entries, zone: int, from: int, to: int, t: int)
    requires from <= t <= to && OneTurn(zone, from, to)
    ensures Within(Newest(entries, zone, TimeSlot(zone, t)), from, to)
         == Select(entries, Later(from, BucketEnd(zone, t) - 499), Earlier(BucketEnd(zone, t), to))
  {
    if entries != [] {
      var e := entries[|entries| - 1];
      BucketWithinRange(entries[..|entries| - 1], zone, from, to, t);
      if from <= e.time <= to {
        SlotIsBucket(zone, e.time, t);
      }
      var rest := Newest(entries[..|entries| - 1], zone, TimeSlot(zone, t));
      assert ([e] + rest)[1..] == rest;
    }
  }

  lemma {:induction false} WithinInsert(e: TimeToData, s: Entries, from: int, to: int)
    requires Sorted(s)
    ensures Within(Insert(e, s), from, to)
         == if from <= e.time <= to then Insert(e, Within(s, from, to)) else Within(s, from, to)
  {
    if s == [] || e.time <= s[0].time {
      assert ([e] + s)[1..] == s;
      WithinAllLater(s, from, to, e.time);
    } else {
      WithinInsert(e, s[1..], from, to);
      assert ([s[0]] + Insert(e, s[1..]))[1..] == Insert(e, s[1..]);
      assert ([s[0]] + Within(s[1..], from, to))[1..] == Within(s[1..], from, to);
    }
  }

  lemma {:induction false} WithinAllLater(s: Entries, from: int, to: int, t: int)
    requires forall i | 0 <= i < |s| :: t <= s[i].time
    ensures forall i | 0 <= i < |Within(s, from, to)| :: t <= Within(s, from, to)[i].time
  {
    if s != [] {
      WithinAllLater(s[1..], from, to, t);
    }
  }

  /** Filtering a sorted bucket is sorting the filtered bucket. */
  lemma {:induction false} WithinOfSorted(s: Entries, from: int, to: int)
    ensures Within(SortByTime(s), from, to) == SortByTime(Within(s, from, to))
  {
    if s != [] {
      WithinOfSorted(s[1..], from, to);
      SortSorts(s[1..]);
      WithinInsert(s[0], SortByTime(s[1..]), from, to);
      if from <= s[0].time <= to {
        assert ([s[0]] + Within(s[1..], from, to))[1..] == Within(s[1..], from, to);
      }
    }
  }

  lemma {:induction false} InsertConcat(e: TimeToData, a: Entries, b: Entries, cut: int)
    requires forall i | 0 <= i < |a| :: a[i].time <= cut
    requires forall i | 0 <= i < |b| :: b[i].time > cut
    ensures Insert(e, a + b) == if e.time <= cut then Insert(e, a) + b else a + Insert(e, b)
  {
    if a == [] {
      assert a + b == b;
      assert [e] + a + b == [e] + b;
    } else if e.time > a[0].time {
      InsertConcat(e, a[1..], b, cut);
      assert (a + b)[1..] == a[1..] + b;
    } else {
      assert [e] + (a + b) == ([e] + a) + b;
    }
  }

  lemma {:induction false} SelectInRange(entries: Entries, from: int, to: int)
    ensures forall i | 0 <= i < |Select(entries, from, to)| :: from <= Select(entries, from, to)[i].time <= to
  {
    if entries != [] {
      SelectInRange(entries[..|entries| - 1], from, to);
    }
  }

  lemma SortedSelectInRange(entries: Entries, from: int, to: int)
    ensures forall i | 0 <= i < |SortByTime(Select(entries, from, to))| ::
              from <= SortByTime(Select(entries, from, to))[i].time <= to
  {
    var s := Select(entries, from, to);
    SelectInRange(entries, from, to);
    SortSorts(s);
    forall i | 0 <= i < |SortByTime(s)|
      ensures from <= SortByTime(s)[i].time <= to
    {
      assert SortByTime(s)[i] in multiset(s);
    }
  }

  /** Two adjacent ranges, each sorted, make the sorted whole. */
  lemma {:induction false} AdjacentRanges(entries: Entries, from: int, cut: int, to: int)
    requires from <= cut + 1 && cut <= to
    ensures SortByTime(Select(entries, from, cut)) + SortByTime(Select(entries, cut + 1, to))
         == SortByTime(Select(entries, from, to))
  {
    if entries != [] {
      var e, front := entries[|entries| - 1], entries[..|entries| - 1];
      AdjacentRanges(front, from, cut, to);
      SortedSelectInRange(front, from, cut);
      SortedSelectInRange(front, cut + 1, to);
      if from <= e.time <= to {
        InsertConcat(e, SortByTime(Select(front, from, cut)), SortByTime(Select(front, cut + 1, to)), cut);
        SortCons(e, Select(front, from, cut));
        SortCons(e, Select(front, cut + 1, to));
        SortCons(e, Select(front, from, to));
      }
    }
  }

  lemma SortCons(e: TimeToData, s: Entries)
    ensures SortByTime([e] + s) == Insert(e, SortByTime(s))
  {
    assert ([e] + s)[1..] == s;
  }

  /** From any step of the loop on, the entries still to be offered are the sorted rest of the
      range up to the horizon. */
  lemma {:induction false} FilteredFromStep(entries: Entries, zone: int, from: int, t: int, to: int, n: nat)
    requires from <= t <= to && (t - from) % 500 == 0 && OneTurn(zone, from, to)
    requires to - t < 500 * n
    ensures Filtered(entries, zone, from, t, to, n)
         == SortByTime(Select(entries, Later(from, BucketEnd(zone, t) - 499), Horizon(zone, from, to)))
    decreases n
  {
    hide TimeSlot, Newest, SortByTime, Select, Within;
    var hi := BucketEnd(zone, t);
    WithinOfSorted(Newest(entries, zone, TimeSlot(zone, t)), from, to);
    BucketWithinRange(entries, zone, from, to, t);
    assert BucketEnd(zone, t + 500) == hi + 500;
    if t + 500 <= to {
      FilteredFromStep(entries, zone, from, t + 500, to, n - 1);
      HorizonBeyond(zone, from, t, to);
      AdjacentRanges(entries, Later(from, hi - 499), hi, Horizon(zone, from, to));
    } else {
      assert t == from + 500 * ((to - from) / 500);
      assert Filtered(entries, zone, from, t + 500, to, n - 1) == [];
    }
  }

  lemma HorizonBeyond(zone: int, from: int, t: int, to: int)
    requires from <= t && t + 500 <= to && (t - from) % 500 == 0
    ensures BucketEnd(zone, t) <= Horizon(zone, from, to) && BucketEnd(zone, t) < to
  {
    var last := from + 500 * ((to - from) / 500);
    assert last >= t + 500;
    assert BucketEnd(zone, last) >= BucketEnd(zone, t + 500) == BucketEnd(zone, t) + 500;
  }

  /** A range read offers exactly the stored entries from `from` up to the horizon, sorted by time,
      entries of equal time newest first, each as often as stored. */
  lemma RangeReadUpToHorizon(entries: Entries, zone: int, from: int, to: int)
    requires from <= to && OneTurn(zone, from, to)
    ensures Filtered(entries, zone, from, from, to, TIME_SLOTS)
         == SortByTime(Select(entries, from, Horizon(zone, from, to)))
  {
    assert to - from < DAY_MS;
    FilteredFromStep(entries, zone, from, from, to, TIME_SLOTS);
  }

  /** `from` lies no later within its 500 ms than `to` does. */
  predicate Aligned(zone: int, from: int, to: int) { (from + zone) % 500 <= (to + zone) % 500 }

  /** The horizon reaches the end of the range exactly when the range is aligned; otherwise it
      stops before the bucket of `to`. */
  lemma HorizonReachesEndIff(zone: int, from: int, to: int)
    requires from <= to
    ensures Horizon(zone, from, to) == to <==> Aligned(zone, from, to)
    ensures !Aligned(zone, from, to) ==> Horizon(zone, from, to) == BucketEnd(zone, to) - 500 < to
  {
    var last := from + 500 * ((to - from) / 500);
    BucketEndIs(zone, last);
    BucketEndIs(zone, to);
    LastStep(from + zone, to + zone);
  }

  lemma BucketEndIs(zone: int, time: int)
    ensures BucketEnd(zone, time) == time - (time + zone) % 500 + 499
  {
  }

  /** The last time the loop visits. */
  lemma LastStep(from: int, to: int)
    requires from <= to
    ensures var last := from + 500 * ((to - from) / 500);
            && last % 500 == from % 500
            && last == to - to % 500 + from % 500 - (if from % 500 <= to % 500 then 0 else 500)
  {
    var last := from + 500 * ((to - from) / 500);
    assert to - 500 < last <= to;
    assert last % 500 == from % 500;
  }

  /** The ranges a read covers completely: shorter than a day, and aligned no worse at the start
      than at the end. */
  predicate Readable(zone: int, from: int, to: int) {
    from <= to && to - from < DAY_MS && Aligned(zone, from, to)
  }

  lemma ReadableTurnsOnce(zone: int, from: int, to: int)
    requires from <= to
    ensures Readable(zone, from, to) <==> OneTurn(zone, from, to) && Aligned(zone, from, to)
  {
    LastStep(from + zone, to + zone);
  }

  lemma RangeReadExact(entries: Entries, zone: int, from: int, to: int)
    requires Readable(zone, from, to)
    ensures Filtered(entries, zone, from, from, to, TIME_SLOTS) == SortByTime(Select(entries, from, to))
  {
    hide Filtered, SortByTime, Select, Horizon;
    ReadableTurnsOnce(zone, from, to);
    HorizonReachesEndIff(zone, from, to);
    RangeReadUpToHorizon(entries, zone, from, to);
  }

  // ---------- what a range read hands out, entry by entry ----------

  /** r lists the stored entries of a range by their numbers: each entry of the range once, earlier
      times first, and of equal times the one put later first. */
  ghost predicate Lists(entries: Entries, from: int, to: int, r: Entries, numbers: seq<nat>) {
    Names(entries, r, numbers) && Covers(entries, from, to, numbers) && InOrder(r, numbers)
  }

  ghost predicate Names(entries: Entries, r: Entries, numbers: seq<nat>) {
    |r| == |numbers| && forall k | 0 <= k < |r| :: numbers[k] < |entries| && r[k] == entries[numbers[k]]
  }

  ghost predicate Covers(entries: Entries, from: int, to: int, numbers: seq<nat>) {
    forall i | 0 <= i < |entries| :: i in numbers <==> from <= entries[i].time <= to
  }

  ghost predicate InOrder(r: Entries, numbers: seq<nat>)
    requires |r| == |numbers|
  {
    forall j, k | 0 <= j < k < |r| ::
      r[j].time < r[k].time || (r[j].time == r[k].time && numbers[j] > numbers[k])
  }

  /** The sorted selection, without reference to selecting or sorting. */
  lemma {:induction false} SelectionLists(entries: Entries, from: int, to: int) returns (numbers: seq<nat>)
    ensures Lists(entries, from, to, SortByTime(Select(entries, from, to)), numbers)
  {
    hide Lists, Select, SortByTime, Insert;
    SelectStep(entries, from, to);
    if entries == [] {
      numbers := [];
      NothingListed(from, to);
    } else {
      var n := |entries| - 1;
      var e := entries[n];
      numbers := SelectionLists(entries[..n], from, to);
      var r := SortByTime(Select(entries[..n], from, to));
      ListedWithin(entries[..n], from, to, r, numbers);
      if from <= e.time <= to {
        var at := InsertedAt(e, r);
        OneMoreListed(entries, from, to, r, numbers, at);
        numbers := numbers[..at] + [n] + numbers[at..];
      } else {
        NoMoreListed(entries, from, to, r, numbers);
      }
    }
  }

  lemma SelectStep(entries: Entries, from: int, to: int)
    ensures entries == [] ==> SortByTime(Select(entries, from, to)) == []
    ensures entries != [] ==>
              var n := |entries| - 1;
              var before := SortByTime(Select(entries[..n], from, to));
              SortByTime(Select(entries, from, to))
              == if from <= entries[n].time <= to then Insert(entries[n], before) else before
  {
    if entries != [] {
      SortCons(entries[|entries| - 1], Select(entries[..|entries| - 1], from, to));
    }
  }

  lemma NothingListed(from: int, to: int)
    ensures Lists([], from, to, [], [])
  {
  }

  lemma ListedWithin(entries: Entries, from: int, to: int, r: Entries, numbers: seq<nat>)
    requires Lists(entries, from, to, r, numbers)
    ensures |r| == |numbers|
  {
  }

  lemma NoMoreListed(entries: Entries, from: int, to: int, r: Entries, numbers: seq<nat>)
    requires entries != [] && !(from <= entries[|entries| - 1].time <= to)
    requires Lists(entries[..|entries| - 1], from, to, r, numbers)
    ensures Lists(entries, from, to, r, numbers)
  {
    var n := |entries| - 1;
    assert n !in numbers;
    forall i | 0 <= i < |entries|
      ensures i in numbers <==> from <= entries[i].time <= to
    {
      assert i == n || entries[..n][i] == entries[i];
    }
  }

  /** Where an entry is put: behind the earlier ones and in front of the others. */
  lemma {:induction false} InsertedAt(e: TimeToData, s: Entries) returns (at: nat)
    ensures at <= |s| && Insert(e, s) == s[..at] + [e] + s[at..]
    ensures forall k | 0 <= k < at :: s[k].time < e.time
    ensures at < |s| ==> e.time <= s[at].time
  {
    if s == [] || e.time <= s[0].time {
      at := 0;
      assert s[..0] + [e] + s[0..] == [e] + s;
    } else {
      var rest := InsertedAt(e, s[1..]);
      at := rest + 1;
      assert s[..at] == [s[0]] + s[1..][..rest] && s[at..] == s[1..][rest..];
    }
  }

  lemma OneMoreListed(entries: Entries, from: int, to: int, r: Entries, numbers: seq<nat>, at: nat)
    requires entries != [] && from <= entries[|entries| - 1].time <= to
    requires Lists(entries[..|entries| - 1], from, to, r, numbers) && at <= |r|
    requires forall k | 0 <= k < at :: r[k].time < entries[|entries| - 1].time
    requires at < |r| ==> entries[|entries| - 1].time <= r[at].time
    ensures |r| == |numbers|
    ensures var n := |entries| - 1;
            Lists(entries, from, to, r[..at] + [entries[n]] + r[at..], numbers[..at] + [n] + numbers[at..])
  {
    hide Covers, InOrder;
    var n := |entries| - 1;
    OneMoreCovered(entries, from, to, numbers, at);
    OneMoreInOrder(r, numbers, entries[n], n, at);
  }

  lemma OneMoreCovered(entries: Entries, from: int, to: int, numbers: seq<nat>, at: nat)
    requires entries != [] && from <= entries[|entries| - 1].time <= to && at <= |numbers|
    requires Covers(entries[..|entries| - 1], from, to, numbers)
    ensures Covers(entries, from, to, numbers[..at] + [|entries| - 1] + numbers[at..])
  {
    var n := |entries| - 1;
    var more := numbers[..at] + [n] + numbers[at..];
    forall i | 0 <= i < |entries|
      ensures i in more <==> from <= entries[i].time <= to
    {
      assert numbers == numbers[..at] + numbers[at..];
      assert i == n || entries[..n][i] == entries[i];
    }
  }

  lemma OneMoreInOrder(r: Entries, numbers: seq<nat>, e: TimeToData, n: nat, at: nat)
    requires |r| == |numbers| && InOrder(r, numbers) && at <= |r|
    requires forall k | 0 <= k < |numbers| :: numbers[k] < n
    requires forall k | 0 <= k < at :: r[k].time < e.time
    requires at < |r| ==> e.time <= r[at].time
    ensures InOrder(r[..at] + [e] + r[at..], numbers[..at] + [n] + numbers[at..])
  {
    var s, more := r[..at] + [e] + r[at..], numbers[..at] + [n] + numbers[at..];
    forall k | at <= k < |r|
      ensures e.time <= r[k].time
    {
      if k > at {
        assert r[at].time <= r[k].time;
      }
    }
    forall j, k | 0 <= j < k < |s|
      ensures s[j].time < s[k].time || (s[j].time == s[k].time && more[j] > more[k])
    {
      var a, b := if j < at then j else j - 1, if k < at then k else k - 1;
      if j != at && k != at {
        assert s[j] == r[a] && s[k] == r[b] && more[j] == numbers[a] && more[k] == numbers[b];
      } else if j == at {
        assert s[j] == e && s[k] == r[b] && more[j] == n && more[k] == numbers[b];
      } else {
        assert s[k] == e && s[j] == r[a];
      }
    }
  }

  // ---------- whole buckets, forward and backward ----------

  /** No entry is a whole turn of the clock away from the range, as in the file of one day. */
  ghost predicate Near(entries: Entries, zone: int, from: int, to: int) {
    forall i | 0 <= i < |entries| ::
      && BucketNumber(zone, entries[i].time) < BucketNumber(zone, from) + TIME_SLOTS
      && BucketNumber(zone, to) < BucketNumber(zone, entries[i].time) + TIME_SLOTS
  }

  /** The entries of a slot are then those of its 500 ms. */
  lemma {:induction false} BucketIsSelection(entries: Entries, zone: int, t: int)
    requires Near(entries, zone, t, t)
    ensures Newest(entries, zone, TimeSlot(zone, t)) == Select(entries, BucketEnd(zone, t) - 499, BucketEnd(zone, t))
  {
    if entries != [] {
      var n := |entries| - 1;
      BucketIsSelection(entries[..n], zone, t);
      SlotIsBucket(zone, entries[n].time, t);
      hide TimeSlot;
      assert BucketNumber(zone, entries[n].time) == BucketNumber(zone, t)
        <==> BucketEnd(zone, t) - 499 <= entries[n].time <= BucketEnd(zone, t);
    }
  }

  lemma NearStep(entries: Entries, zone: int, from: int, to: int, t: int)
    requires Near(entries, zone, from, to) && from <= t <= to
    ensures Near(entries, zone, t, t)
  {
  }

  /** `read` hands out the entries of all buckets from the one of `from` to the last it steps into,
      sorted by time, newest first among equal times. */
  lemma {:induction false} ForwardIsSelection(entries: Entries, zone: int, from: int, t: int, to: int, n: nat)
    requires from <= t <= to && (t - from) % 500 == 0 && Near(entries, zone, from, to) && to - t < 500 * n
    ensures Forward(entries, zone, t, to, n)
         == SortByTime(Select(entries, BucketEnd(zone, t) - 499, BucketEnd(zone, from + 500 * ((to - from) / 500))))
    decreases n
  {
    hide TimeSlot, Newest, SortByTime, Select, Near;
    var hi, last := BucketEnd(zone, t), from + 500 * ((to - from) / 500);
    NearStep(entries, zone, from, to, t);
    BucketIsSelection(entries, zone, t);
    assert BucketEnd(zone, t + 500) == hi + 500;
    if t + 500 <= to {
      ForwardIsSelection(entries, zone, from, t + 500, to, n - 1);
      assert last >= t + 500 && BucketEnd(zone, last) >= hi + 500;
      AdjacentRanges(entries, hi - 499, hi, BucketEnd(zone, last));
    } else {
      assert t == last;
      assert Forward(entries, zone, t + 500, to, n - 1) == [];
    }
  }

  /** `read_from_end` hands out those of all buckets from the one of `to` back to the last it steps
      into, in the opposite order. */
  lemma {:induction false} BackwardIsSelection(entries: Entries, zone: int, from: int, t: int, to: int, n: nat)
    requires from <= t <= to && (to - t) % 500 == 0 && Near(entries, zone, from, to) && t - from < 500 * n
    ensures Backward(entries, zone, from, t, n)
         == Reversed(SortByTime(Select(entries, BucketEnd(zone, to - 500 * ((to - from) / 500)) - 499,
                                       BucketEnd(zone, t))))
    decreases n
  {
    hide TimeSlot, Newest, SortByTime, Select, Near, Reversed;
    var hi, first := BucketEnd(zone, t), to - 500 * ((to - from) / 500);
    NearStep(entries, zone, from, to, t);
    BucketIsSelection(entries, zone, t);
    assert BucketEnd(zone, t - 500) == hi - 500;
    if from <= t - 500 {
      BackwardIsSelection(entries, zone, from, t - 500, to, n - 1);
      assert first <= t - 500 && BucketEnd(zone, first) <= hi - 500;
      AdjacentRanges(entries, BucketEnd(zone, first) - 499, hi - 500, hi);
      ReversedConcat(SortByTime(Select(entries, BucketEnd(zone, first) - 499, hi - 500)),
                     SortByTime(Select(entries, hi - 499, hi)));
    } else {
      assert t == first;
      assert Backward(entries, zone, from, t - 500, n - 1) == [];
    }
  }

  lemma {:induction false} ReversedConcat(a: Entries, b: Entries)
    ensures Reversed(a + b) == Reversed(b) + Reversed(a)
  {
    if a == [] {
      assert a + b == b;
    } else {
      ReversedConcat(a[1..], b);
      assert (a + b)[1..] == a[1..] + b;
    }
  }

  /** What `put` can have stored: positive times and five-byte positions. */
  ghost predicate Storable(entries: Entries) {
    forall i | 0 <= i < |entries| :: 0 < entries[i].time < 0x8000_0000_0000_0000 && |entries[i].dataPos| == 5
  }

  ghost predicate ReadsExactly(zone: int, from: int, to: int) {
    forall entries: Entries | Storable(entries) ::
      Filtered(entries, zone, from, from, to, TIME_SLOTS) == SortByTime(Select(entries, from, to))
  }

  /** The exact condition for any range of times that can be stored: reading it returns every stored
      entry of the range in order, whatever has been stored, if and only if the range is shorter
      than a day and aligned no worse at its start than at its end. */
  lemma RangeReadExactIff(zone: int, from: i64, to: i64)
    requires 0 < from <= to
    ensures ReadsExactly(zone, from, to) <==> to - from < DAY_MS && Aligned(zone, from, to)
  {
    hide Filtered, SortByTime, Select, Horizon, Aligned, OneTurn;
    ReadableTurnsOnce(zone, from, to);
    if Readable(zone, from, to) {
      forall entries: Entries
        ensures Filtered(entries, zone, from, from, to, TIME_SLOTS) == SortByTime(Select(entries, from, to))
      {
        RangeReadExact(entries, zone, from, to);
      }
    } else if OneTurn(zone, from, to) {
      EndIsMissed(zone, from, to);
    } else {
      EndComesFirst(zone, from, to);
    }
  }

  const SOME_POS: Bytes := [0, 0, 0, 0, 0]

  /** In a range that is not aligned an entry at `to` itself is missed. */
  lemma EndIsMissed(zone: int, from: int, to: i64)
    requires from <= to && 0 < to && OneTurn(zone, from, to) && !Aligned(zone, from, to)
    ensures !ReadsExactly(zone, from, to)
  {
    var missed := TimeToData(to, SOME_POS);
    HorizonReachesEndIff(zone, from, to);
    RangeReadUpToHorizon([missed], zone, from, to);
    hide Filtered, OneTurn, Aligned, Horizon;
    assert [missed][..0] == [];
    assert Select([missed], from, to) == [missed];
    assert Select([missed], from, Horizon(zone, from, to)) == [];
    assert SortByTime([missed]) == [missed] by { assert [missed][1..] == []; }
    assert Storable([missed]);
    assert Filtered([missed], zone, from, from, to, TIME_SLOTS) != SortByTime(Select([missed], from, to));
  }

  /** In a range that comes back to the slot it started from, an entry a day later is offered with
      the first bucket, before an earlier entry of the second. */
  lemma EndComesFirst(zone: int, from: i64, to: i64)
    requires 0 < from <= to && !OneTurn(zone, from, to)
    ensures !ReadsExactly(zone, from, to)
  {
    var x := if from + DAY_MS <= to then from + DAY_MS else to;
    assert BucketNumber(zone, x) == BucketNumber(zone, from) + TIME_SLOTS;
    assert from + 500 < x;
    SlotOfBucket(zone, x);
    SlotOfBucket(zone, from);
    SameSlot((x + zone) / DAY_MS, (from + zone) / DAY_MS, TimeSlot(zone, x), TimeSlot(zone, from));
    StepsVisitDistinctSlots(zone, from, 1);
    hide TimeSlot, BucketNumber, OneTurn, ReadsExactly;
    LateComesFirst(zone, from, x, to);
  }

  lemma SameSlot(q: int, p: int, s: nat, t: nat)
    requires TIME_SLOTS * q + s == TIME_SLOTS * p + t + TIME_SLOTS && s < TIME_SLOTS && t < TIME_SLOTS
    ensures s == t
  {
    assert TIME_SLOTS * (q - p - 1) == t - s;
  }

  lemma LateComesFirst(zone: int, from: i64, x: i64, to: i64)
    requires 0 < from && from + 500 < x <= to
    requires TimeSlot(zone, x) == TimeSlot(zone, from) != TimeSlot(zone, from + 500)
    ensures !ReadsExactly(zone, from, to)
  {
    hide TimeSlot, Filtered;
    var late, early := TimeToData(x, SOME_POS), TimeToData(from + 500, SOME_POS);
    var entries := [late, early];
    assert entries[..1] == [late] && [late][..0] == [];
    assert Newest([], zone, TimeSlot(zone, from)) == [];
    assert Newest([late], zone, TimeSlot(zone, from)) == [late];
    FirstBucket(entries, late, zone, from, to);
    assert Select([late], from, to) == [late];
    assert Select(entries, from, to) == [early] + [late];
    SortCons(early, [late]);
    SortCons(late, []);
    assert [late] + [] == [late];
    assert SortByTime(Select(entries, from, to))[0] == early;
    assert Storable(entries);
    assert Filtered(entries, zone, from, from, to, TIME_SLOTS) != SortByTime(Select(entries, from, to));
  }

  lemma FirstBucket(entries: Entries, e: TimeToData, zone: int, from: int, to: int)
    requires Newest(entries, zone, TimeSlot(zone, from)) == [e] && from <= e.time <= to
    ensures Filtered(entries, zone, from, from, to, TIME_SLOTS) != []
    ensures Filtered(entries, zone, from, from, to, TIME_SLOTS)[0] == e
  {
    hide Newest, TimeSlot;
    SortCons(e, []);
    assert [e] + [] == [e];
    assert Within([e], from, to)[0] == e;
  }

  // ---------- the readers, without reference to how they read ----------

  ghost predicate ListsSome(entries: Entries, from: int, to: int, r: Entries) {
    exists numbers :: Lists(entries, from, to, r, numbers)
  }

  /** What `read_with_reader` offers for a range shorter than a day that is aligned no worse at its
      start than at its end: exactly the range. */
  ghost predicate RangeListed(entries: Entries, zone: int, from: int, to: int, hits: Entries) {
    from <= to && to - from < 86_400_000 && (from + zone) % 500 <= (to + zone) % 500 ==>
      ListsSome(entries, from, to, hits)
  }

  /** What `read` hands out: the range from the start of the 500 ms that `from` is in to the end of
      those that its last step is in. */
  ghost predicate ForwardListed(entries: Entries, zone: int, from: int, to: int, calls: Entries) {
    from <= to && to - from < 86_400_000 && Near(entries, zone, from, to) ==>
      var last := to - (to - from) % 500;
      ListsSome(entries, from - (from + zone) % 500, last - (last + zone) % 500 + 499, calls)
  }

  /** What `read_from_end` hands out: the range from the start of the 500 ms that its last step is in to
      the end of those that `to` is in, latest first. */
  ghost predicate BackwardListed(entries: Entries, zone: int, from: int, to: int, calls: Entries) {
    from <= to && to - from < 86_400_000 && Near(entries, zone, from, to) ==>
      var first := from + (to - from) % 500;
      ListsSome(entries, first - (first + zone) % 500, to - (to + zone) % 500 + 499, Reversed(calls))
  }

  /** Over a day or longer `read` and `read_from_end` hand out all there is. */
  ghost predicate AllHandedOut(entries: Entries, from: int, to: int, calls: Entries) {
    to - from >= 86_400_000 ==> multiset(calls) == multiset(entries)
  }

  /** And `read_with_reader` all that is in the range. */
  ghost predicate RangeHandedOut(entries: Entries, from: int, to: int, hits: Entries) {
    to - from >= 86_400_000 ==>
      forall e :: multiset(hits)[e] == if from <= e.time <= to then multiset(entries)[e] else 0
  }

  lemma ReadersHandOut(entries: Entries, zone: int, from: int, to: int)
    ensures AllHandedOut(entries, from, to, Forward(entries, zone, from, to, TIME_SLOTS))
    ensures AllHandedOut(entries, from, to, Backward(entries, zone, from, to, TIME_SLOTS))
    ensures RangeHandedOut(entries, from, to, Filtered(entries, zone, from, from, to, TIME_SLOTS))
  {
    hide Forward, Backward, Filtered;
    if to - from >= 86_400_000 {
      LongReadsHandOutAll(entries, zone, from, to);
    }
  }

  lemma RangeReadLists(entries: Entries, zone: int, from: int, to: int)
    ensures RangeListed(entries, zone, from, to, Filtered(entries, zone, from, from, to, TIME_SLOTS))
  {
    if Readable(zone, from, to) {
      RangeReadExact(entries, zone, from, to);
      var numbers := SelectionLists(entries, from, to);
    }
  }

  lemma ForwardLists(entries: Entries, zone: int, from: int, to: int)
    ensures ForwardListed(entries, zone, from, to, Forward(entries, zone, from, to, TIME_SLOTS))
  {
    hide Forward, Near, Lists, Select, SortByTime, BucketEnd;
    if from <= to && to - from < 86_400_000 && Near(entries, zone, from, to) {
      var last := to - (to - from) % 500;
      assert last == from + 500 * ((to - from) / 500);
      BucketEndIs(zone, from);
      BucketEndIs(zone, last);
      ForwardIsSelection(entries, zone, from, from, to, TIME_SLOTS);
      var numbers := SelectionLists(entries, BucketEnd(zone, from) - 499, BucketEnd(zone, last));
    }
  }

  lemma BackwardLists(entries: Entries, zone: int, from: int, to: int)
    ensures BackwardListed(entries, zone, from, to, Backward(entries, zone, from, to, TIME_SLOTS))
  {
    hide Backward, Near, Lists, Select, SortByTime, Reversed, BucketEnd;
    if from <= to && to - from < 86_400_000 && Near(entries, zone, from, to) {
      var first := from + (to - from) % 500;
      assert first == to - 500 * ((to - from) / 500);
      BucketEndIs(zone, first);
      BucketEndIs(zone, to);
      BackwardIsSelection(entries, zone, from, to, to, TIME_SLOTS);
      var lo := BucketEnd(zone, first) - 499;
      ReversedTwice(SortByTime(Select(entries, lo, BucketEnd(zone, to))));
      var numbers := SelectionLists(entries, lo, BucketEnd(zone, to));
    }
  }

  lemma {:induction false} ReversedTwice(s: Entries)
    ensures Reversed(Reversed(s)) == s
  {
    if s != [] {
      ReversedTwice(s[1..]);
      ReversedConcat(Reversed(s[1..]), [s[0]]);
      assert Reversed([s[0]]) == [s[0]] by { assert [s[0]][1..] == []; }
      assert s == [s[0]] + s[1..];
    }
  }

  /** Every time slot is 500 ms of the local day, counted from midnight. */
  lemma SlotOfClock(zone: int, day: int, slot: nat, ms: nat)
    requires slot < 172_800 && ms < 500
    ensures TimeSlot(zone, 86_400_000 * day + 500 * slot + ms - zone) == slot
  {
    ModOfSum(86_400_000 * day + 500 * slot + ms, day, 500 * slot + ms);
    assert (500 * slot + ms) / 500 == slot;
  }

  // ---------- the first and the last position ----------

  ghost predicate SlotEmpty(entries: Entries, zone: int, slot: nat) {
    forall i | 0 <= i < |entries| :: TimeSlot(zone, entries[i].time) != slot
  }

  /** Entry i is the one of its slot that was put first. */
  ghost predicate PutFirst(entries: Entries, zone: int, slot: nat, i: nat) {
    && i < |entries| && TimeSlot(zone, entries[i].time) == slot
    && forall j | 0 <= j < i :: TimeSlot(zone, entries[j].time) != slot
  }

  ghost predicate PutLast(entries: Entries, zone: int, slot: nat, i: nat) {
    && i < |entries| && TimeSlot(zone, entries[i].time) == slot
    && forall j | i < j < |entries| :: TimeSlot(zone, entries[j].time) != slot
  }

  lemma {:induction false} EndsOfChain(entries: Entries, zone: int, slot: nat) returns (first: nat, last: nat)
    ensures Newest(entries, zone, slot) == [] <==> SlotEmpty(entries, zone, slot)
    ensures Newest(entries, zone, slot) != [] ==>
              && PutFirst(entries, zone, slot, first) && Oldest(Newest(entries, zone, slot)) == entries[first]
              && PutLast(entries, zone, slot, last) && Newest(entries, zone, slot)[0] == entries[last]
  {
    hide TimeSlot;
    first, last := 0, 0;
    if entries != [] {
      var n := |entries| - 1;
      first, last := EndsOfChain(entries[..n], zone, slot);
      if TimeSlot(zone, entries[n].time) == slot {
        last := n;
        if SlotEmpty(entries[..n], zone, slot) {
          first := n;
        }
      }
    }
  }

  /** The first k steps from t meet no entry. */
  ghost predicate StepsEmpty(entries: Entries, zone: int, t: int, step: int, k: nat) {
    forall j | 0 <= j < k :: StepEmpty(entries, zone, t, step, j)
  }

  ghost predicate StepEmpty(entries: Entries, zone: int, t: int, step: int, j: int) {
    SlotEmpty(entries, zone, TimeSlot(zone, t + step * j))
  }

  lemma OneMoreStep(entries: Entries, zone: int, t: int, step: int, k: nat)
    requires step == 500 || step == -500
    requires SlotEmpty(entries, zone, TimeSlot(zone, t)) && StepsEmpty(entries, zone, t + step, step, k)
    ensures StepsEmpty(entries, zone, t, step, k + 1)
  {
    hide TimeSlot, SlotEmpty;
    forall j | 0 <= j < k + 1
      ensures StepEmpty(entries, zone, t, step, j)
    {
      if j > 0 {
        assert StepEmpty(entries, zone, t + step, step, j - 1);
        assert t + step + step * (j - 1) == t + step * j;
      }
    }
  }

  /** Going forward, the position that `get_data_pos_first` finds is that of the entry put first in the
      first slot that has any; it finds none if and only if no slot it steps into has any. */
  lemma {:induction false} FirstPosIs(entries: Entries, zone: int, t: int, to: int, n: nat) returns (k: nat, i: nat)
    ensures k <= n && StepsEmpty(entries, zone, t, 500, k)
    ensures FirstPos(entries, zone, t, to, n) == None ==> k == n || t + 500 * k > to
    ensures FirstPos(entries, zone, t, to, n).Some? ==>
              && k < n && t + 500 * k <= to && PutFirst(entries, zone, TimeSlot(zone, t + 500 * k), i)
              && FirstPos(entries, zone, t, to, n) == Some(entries[i].dataPos)
    decreases n
  {
    hide TimeSlot, Newest, SlotEmpty, PutFirst, StepEmpty;
    k, i := 0, 0;
    if n > 0 && t <= to {
      var first, _ := EndsOfChain(entries, zone, TimeSlot(zone, t));
      if Newest(entries, zone, TimeSlot(zone, t)) != [] {
        i := first;
      } else {
        k, i := FirstPosIs(entries, zone, t + 500, to, n - 1);
        OneMoreStep(entries, zone, t, 500, k);
        assert t + 500 + 500 * k == t + 500 * (k + 1);
        k := k + 1;
      }
    }
  }

  /** Going backward, the position of the entry put last in the first slot that has any. */
  lemma {:induction false} LastPosIs(entries: Entries, zone: int, from: int, t: int, n: nat) returns (k: nat, i: nat)
    ensures k <= n && StepsEmpty(entries, zone, t, -500, k)
    ensures LastPos(entries, zone, from, t, n) == None ==> k == n || from > t - 500 * k
    ensures LastPos(entries, zone, from, t, n).Some? ==>
              && k < n && from <= t - 500 * k && PutLast(entries, zone, TimeSlot(zone, t - 500 * k), i)
              && LastPos(entries, zone, from, t, n) == Some(entries[i].dataPos)
    decreases n
  {
    hide TimeSlot, Newest, SlotEmpty, PutLast, StepEmpty;
    k, i := 0, 0;
    if n > 0 && from <= t {
      var _, last := EndsOfChain(entries, zone, TimeSlot(zone, t));
      if Newest(entries, zone, TimeSlot(zone, t)) != [] {
        i := last;
      } else {
        k, i := LastPosIs(entries, zone, from, t - 500, n - 1);
        OneMoreStep(entries, zone, t, -500, k);
        assert t - 500 - 500 * k == t - 500 * (k + 1);
        k := k + 1;
      }
    }
  }
}
