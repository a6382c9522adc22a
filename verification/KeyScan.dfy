/** Scanning a key file from front to back: what it shows, and what a crash leaves in it. */
module KeyScan {
  import opened ByteCodec
  import opened RealKeyFile
  import opened KeyLog
  import opened SlotChains
  import opened KeyIndex

  /** The records not marked deleted, in file order. */
  function Live(log: Log): Pairs {
    if log == [] then []
    else
      var r := log[|log| - 1];
      Live(log[..|log| - 1]) + (if r.deleted then [] else [(r.key, r.value)])
  }

  lemma LiveAppend(log: Log, r: Record)
    ensures Live(log + [r]) == Live(log) + (if r.deleted then [] else [(r.key, r.value)])
  {
    assert (log + [r])[..|log|] == log;
  }

  /** What a scan from record i delivers: it stops at the first record too long for the window. */
  ghost function ScanFrom(log: Log, i: nat): Pairs
    requires i <= |log|
    decreases |log| - i
  {
    if i == |log| || RecordSize(log[i].key, log[i].value) > RECORD_WINDOW then []
    else (if log[i].deleted then [] else [(log[i].key, log[i].value)]) + ScanFrom(log, i + 1)
  }

  ghost predicate FitWindow(log: Log) {
    forall i | 0 <= i < |log| :: RecordSize(log[i].key, log[i].value) <= RECORD_WINDOW
  }

  /** The scan is exactly the live records, in file order, before the first record longer than the
      65536-byte window; without such a record it is all of them. */
  lemma {:induction false} ScanIsLivePrefix(log: Log, i: nat, end: nat)
    requires i <= end <= |log|
    requires forall j | 0 <= j < end :: RecordSize(log[j].key, log[j].value) <= RECORD_WINDOW
    requires end < |log| ==> RecordSize(log[end].key, log[end].value) > RECORD_WINDOW
    ensures Live(log[..i]) + ScanFrom(log, i) == Live(log[..end])
    decreases end - i
  {
    hide RecordSize, Live;
    if i < end {
      ScanIsLivePrefix(log, i + 1, end);
      assert log[..i + 1] == log[..i] + [log[i]];
      LiveAppend(log[..i], log[i]);
      var here := if log[i].deleted then [] else [(log[i].key, log[i].value)];
      assert Live(log[..i]) + (here + ScanFrom(log, i + 1)) == (Live(log[..i]) + here) + ScanFrom(log, i + 1);
    } else {
      assert Live(log[..i]) + [] == Live(log[..end]);
    }
  }

  // ---------- what a crash leaves in the file ----------

  /** A record that is not marked deleted: whether lookups reach it, and whether they would still
      reach it after a crash. */
  datatype Kept = Kept(key: Bytes, value: Bytes, reachable: bool, saved: bool)

  /** What each operation does to the records that are left, in file order. */
  function AfterPut(kept: seq<Kept>, key: Bytes, value: Bytes): seq<Kept> { kept + [Kept(key, value, true, false)] }

  function AfterDelete(kept: seq<Kept>, key: Bytes): seq<Kept> {
    if kept == [] then []
    else
      var last := kept[|kept| - 1];
      AfterDelete(kept[..|kept| - 1], key) + (if last.reachable && last.key == key then [] else [last])
  }

  function AfterFlush(kept: seq<Kept>): seq<Kept> {
    seq(|kept|, i requires 0 <= i < |kept| => kept[i].(saved := kept[i].reachable))
  }

  function AfterCrash(kept: seq<Kept>): seq<Kept> {
    seq(|kept|, i requires 0 <= i < |kept| => kept[i].(reachable := kept[i].saved))
  }

  function PairsOf(kept: seq<Kept>): Pairs { seq(|kept|, i requires 0 <= i < |kept| => (kept[i].key, kept[i].value)) }

  function ReachablePairs(kept: seq<Kept>): Pairs {
    if kept == [] then []
    else
      var last := kept[|kept| - 1];
      ReachablePairs(kept[..|kept| - 1]) + (if last.reachable then [(last.key, last.value)] else [])
  }

  /** No record is left that lookups cannot reach. */
  ghost predicate NoOrphans(kept: seq<Kept>) { forall i | 0 <= i < |kept| :: kept[i].reachable }

  lemma {:induction false} OrphansAreMissing(kept: seq<Kept>)
    ensures |ReachablePairs(kept)| <= |kept|
    ensures |ReachablePairs(kept)| == |kept| <==> NoOrphans(kept)
    ensures NoOrphans(kept) ==> PairsOf(kept) == ReachablePairs(kept)
  {
    if kept != [] {
      var n := |kept| - 1;
      OrphansAreMissing(kept[..n]);
      assert kept == kept[..n] + [kept[n]];
    }
  }

  /** A scan shows what lookups reach if and only if there are no orphans. */
  lemma ScanShowsReachableIff(kept: seq<Kept>)
    ensures PairsOf(kept) == ReachablePairs(kept) <==> NoOrphans(kept)
  {
    OrphansAreMissing(kept);
  }

  /** The records of a log, with what the heads in memory and the saved heads reach of them. */
  ghost function KeptOf(b: Bucketing, log: Log, heads: Heads, saved: Heads, n: nat): seq<Kept>
    requires Chained(b, log, heads) && Chained(b, log, saved) && n <= |log|
  {
    if n == 0 then []
    else
      var r := log[n - 1];
      KeptOf(b, log, heads, saved, n - 1)
      + (if r.deleted then []
         else [Kept(r.key, r.value, OnChain(b, log, heads, n - 1), OnChain(b, log, saved, n - 1))])
  }

  lemma {:induction false} KeptSame(b: Bucketing, one: Log, ones: Heads, oneSaved: Heads,
                                    two: Log, twos: Heads, twoSaved: Heads, n: nat)
    requires Chained(b, one, ones) && Chained(b, one, oneSaved) && Chained(b, two, twos) && Chained(b, two, twoSaved)
    requires n <= |one| && n <= |two|
    requires forall i: nat | i < n ::
               && one[i].key == two[i].key && one[i].value == two[i].value && one[i].deleted == two[i].deleted
               && OnChain(b, one, ones, i) == OnChain(b, two, twos, i)
               && OnChain(b, one, oneSaved, i) == OnChain(b, two, twoSaved, i)
    ensures KeptOf(b, one, ones, oneSaved, n) == KeptOf(b, two, twos, twoSaved, n)
  {
    hide SlotOf, OnChain;
    if n > 0 {
      KeptSame(b, one, ones, oneSaved, two, twos, twoSaved, n - 1);
    }
  }

  lemma KeptAfterPut(b: Bucketing, log: Log, heads: Heads, saved: Heads, key: Bytes, value: Bytes)
    requires Chained(b, log, heads) && Chained(b, log, saved)
    ensures var log' := log + [NewRecord(b, heads, key, value)];
            var heads' := heads[SlotOf(b, key) := |log|];
            && Chained(b, log', heads') && Chained(b, log', saved)
            && KeptOf(b, log', heads', saved, |log'|) == AfterPut(KeptOf(b, log, heads, saved, |log|), key, value)
  {
    hide SlotOf, OnChain;
    var r := NewRecord(b, heads, key, value);
    var log', heads' := log + [r], heads[SlotOf(b, key) := |log|];
    forall i: nat | i <= |log|
      ensures Chained(b, log', heads') && OnChain(b, log', heads', i) == (i == |log| || OnChain(b, log, heads, i))
      ensures Chained(b, log', saved) && OnChain(b, log', saved, i) == (i < |log| && OnChain(b, log, saved, i))
    {
      ChainsAfterPut(b, log, heads, r, i);
      ChainsAfterGrowth(b, log, heads, saved, r, i);
    }
    KeptSame(b, log', heads', saved, log, heads, saved, |log|);
  }

  lemma {:induction false} KeptAfterDelete(b: Bucketing, log: Log, heads: Heads, saved: Heads, key: Bytes, n: nat)
    requires Chained(b, log, heads) && Chained(b, log, saved) && OnChains(log, heads, saved) && n <= |log|
    ensures var erased := Erase(log, heads[SlotOf(b, key)], key);
            && Chained(b, erased, heads) && Chained(b, erased, saved)
            && KeptOf(b, erased, heads, saved, n) == AfterDelete(KeptOf(b, log, heads, saved, n), key)
  {
    hide SlotOf, Erase, OnChain, OnChains;
    var h := heads[SlotOf(b, key)];
    EraseKeepsChained(b, log, heads, h, key);
    EraseKeepsChained(b, log, saved, h, key);
    if n > 0 {
      KeptAfterDelete(b, log, heads, saved, key, n - 1);
      var r, before := log[n - 1], KeptOf(b, log, heads, saved, n - 1);
      ChainsAfterDelete(b, log, heads, h, key, n - 1);
      ChainsAfterDelete(b, log, saved, h, key, n - 1);
      MarkedIff(b, log, heads, saved, key, n - 1);
      hide AfterDelete;
      if r.deleted {
        assert before + [] == before;
      } else {
        DeleteAppend(before, Kept(r.key, r.value, OnChain(b, log, heads, n - 1), OnChain(b, log, saved, n - 1)), key);
      }
    }
  }

  lemma DeleteAppend(kept: seq<Kept>, k: Kept, key: Bytes)
    ensures AfterDelete(kept + [k], key) == AfterDelete(kept, key) + (if k.reachable && k.key == key then [] else [k])
  {
    assert (kept + [k])[..|kept|] == kept;
  }

  /** A flush saves what is reachable; a crash makes reachable what is saved. */
  lemma {:induction false} KeptAfterFlushAndCrash(b: Bucketing, log: Log, heads: Heads, saved: Heads, n: nat)
    requires Chained(b, log, heads) && Chained(b, log, saved) && n <= |log|
    ensures KeptOf(b, log, heads, heads, n) == AfterFlush(KeptOf(b, log, heads, saved, n))
    ensures KeptOf(b, log, saved, saved, n) == AfterCrash(KeptOf(b, log, heads, saved, n))
  {
    hide SlotOf, OnChain, AfterFlush, AfterCrash;
    var none: seq<Kept> := [];
    FlushAndCrashAppend(none, []);
    if n > 0 {
      KeptAfterFlushAndCrash(b, log, heads, saved, n - 1);
      var r := log[n - 1];
      var more := if r.deleted then []
                  else [Kept(r.key, r.value, OnChain(b, log, heads, n - 1), OnChain(b, log, saved, n - 1))];
      FlushAndCrashAppend(KeptOf(b, log, heads, saved, n - 1), more);
    }
  }

  lemma FlushAndCrashAppend(kept: seq<Kept>, more: seq<Kept>)
    requires |more| <= 1
    ensures AfterFlush(kept + more)
         == AfterFlush(kept) + (if more == [] then [] else [more[0].(saved := more[0].reachable)])
    ensures AfterCrash(kept + more)
         == AfterCrash(kept) + (if more == [] then [] else [more[0].(reachable := more[0].saved)])
    ensures AfterFlush([]) == [] && AfterCrash([]) == []
  {
  }

  lemma PairsAppend(kept: seq<Kept>, k: Kept)
    ensures PairsOf(kept + [k]) == PairsOf(kept) + [(k.key, k.value)]
    ensures ReachablePairs(kept + [k]) == ReachablePairs(kept) + (if k.reachable then [(k.key, k.value)] else [])
  {
    assert (kept + [k])[..|kept|] == kept;
  }

  lemma NothingKept()
    ensures PairsOf([]) == [] && ReachablePairs([]) == []
  {
  }

  /** The kept records are the undeleted ones; those reachable are the ones on the chains. */
  lemma {:induction false} KeptIsLive(b: Bucketing, log: Log, heads: Heads, saved: Heads, n: nat)
    requires Chained(b, log, heads) && Chained(b, log, saved) && n <= |log|
    ensures PairsOf(KeptOf(b, log, heads, saved, n)) == Live(log[..n])
    ensures ReachablePairs(KeptOf(b, log, heads, saved, n)) == Reached(b, log, heads, n)
  {
    hide SlotOf, OnChain, PairsOf, ReachablePairs;
    if n == 0 {
      NothingKept();
    } else {
      KeptIsLive(b, log, heads, saved, n - 1);
      assert log[..n][..n - 1] == log[..n - 1];
      var before := KeptOf(b, log, heads, saved, n - 1);
      if log[n - 1].deleted {
        assert before + [] == before;
        assert Live(log[..n - 1]) + [] == Live(log[..n - 1]);
        assert Reached(b, log, heads, n - 1) + [] == Reached(b, log, heads, n - 1);
      } else {
        PairsAppend(before, Kept(log[n - 1].key, log[n - 1].value, OnChain(b, log, heads, n - 1),
                                 OnChain(b, log, saved, n - 1)));
      }
    }
  }

  // ---------- when a crash leaves orphans ----------

  function RunKept(kept: seq<Kept>, ops: History): seq<Kept> {
    if ops == [] then kept
    else
      var before := RunKept(kept, ops[..|ops| - 1]);
      match ops[|ops| - 1]
      case Put(k, v) => AfterPut(before, k, v)
      case Delete(k) => AfterDelete(before, k)
  }

  lemma RunKeptStep(kept: seq<Kept>, ops: History, n: nat, op: Op)
    requires n <= |ops|
    ensures RunKept(kept, (ops + [op])[n..])
         == match op
            case Put(k, v) => AfterPut(RunKept(kept, ops[n..]), k, v)
            case Delete(k) => AfterDelete(RunKept(kept, ops[n..]), k)
  {
    var tail := (ops + [op])[n..];
    assert tail[..|tail| - 1] == ops[n..];
  }

  /** Right after a flush: what is reachable is saved. */
  ghost predicate JustFlushed(kept: seq<Kept>) { forall i | 0 <= i < |kept| :: kept[i].saved == kept[i].reachable }

  /** Every put is followed by a delete of its key. */
  ghost predicate AllUndone(ops: History) {
    forall i | 0 <= i < |ops| && ops[i].Put? :: exists j :: i < j < |ops| && ops[j] == Delete(ops[i].key)
  }

  /** The keys of the records that are reachable but not saved. */
  function Unsaved(kept: seq<Kept>): seq<Bytes> {
    if kept == [] then []
    else
      var last := kept[|kept| - 1];
      Unsaved(kept[..|kept| - 1]) + (if last.reachable && !last.saved then [last.key] else [])
  }

  function Remove(keys: seq<Bytes>, key: Bytes): seq<Bytes> {
    if keys == [] then []
    else Remove(keys[..|keys| - 1], key) + (if keys[|keys| - 1] == key then [] else [keys[|keys| - 1]])
  }

  /** The keys put and not deleted since. */
  function Pending(ops: History): seq<Bytes> {
    if ops == [] then []
    else
      match ops[|ops| - 1]
      case Put(k, _) => Pending(ops[..|ops| - 1]) + [k]
      case Delete(k) => Remove(Pending(ops[..|ops| - 1]), k)
  }

  function Orphans(kept: seq<Kept>): seq<Kept> {
    if kept == [] then []
    else
      var last := kept[|kept| - 1];
      Orphans(kept[..|kept| - 1]) + (if last.reachable then [] else [last])
  }

  ghost predicate SavedReachable(kept: seq<Kept>) {
    forall i | 0 <= i < |kept| :: kept[i].saved ==> kept[i].reachable
  }

  lemma {:induction false} WhatIsLeft(kept: seq<Kept>)
    requires SavedReachable(kept)
    ensures Orphans(kept) == [] <==> NoOrphans(kept)
    ensures Orphans(kept) == [] && Unsaved(kept) == [] <==> NoOrphans(AfterCrash(kept))
  {
    if kept != [] {
      var n := |kept| - 1;
      WhatIsLeft(kept[..n]);
      assert kept == kept[..n] + [kept[n]];
      assert AfterCrash(kept) == AfterCrash(kept[..n]) + [kept[n].(reachable := kept[n].saved)];
      assert forall i | 0 <= i < n :: AfterCrash(kept[..n])[i] == AfterCrash(kept)[i];
      assert AfterCrash(kept)[n].reachable == kept[n].saved;
    }
  }

  lemma {:induction false} DeleteFilters(kept: seq<Kept>, key: Bytes)
    requires SavedReachable(kept)
    ensures SavedReachable(AfterDelete(kept, key))
    ensures Orphans(AfterDelete(kept, key)) == Orphans(kept)
    ensures Unsaved(AfterDelete(kept, key)) == Remove(Unsaved(kept), key)
  {
    if kept != [] {
      var n := |kept| - 1;
      DeleteFilters(kept[..n], key);
      var front := AfterDelete(kept[..n], key);
      if kept[n].reachable && kept[n].key == key {
        assert AfterDelete(kept, key) == front && Orphans(kept) == Orphans(kept[..n]);
        assert Unsaved(kept[..n]) + [] == Unsaved(kept[..n]);
        RemoveAppend(Unsaved(kept[..n]), key, key);
      } else {
        assert (front + [kept[n]])[..|front|] == front;
        assert Unsaved(kept[..n]) + [] == Unsaved(kept[..n]);
        RemoveAppend(Unsaved(kept[..n]), kept[n].key, key);
      }
    }
  }

  lemma RemoveAppend(keys: seq<Bytes>, k: Bytes, key: Bytes)
    ensures Remove(keys + [k], key) == Remove(keys, key) + (if k == key then [] else [k])
  {
    assert (keys + [k])[..|keys|] == keys;
  }

  /** From a flush on, the orphans stay what they are, and the records a crash would orphan are the
      puts not deleted since. */
  lemma {:induction false} RunLeaves(kept: seq<Kept>, ops: History)
    requires JustFlushed(kept)
    ensures SavedReachable(RunKept(kept, ops))
    ensures Orphans(RunKept(kept, ops)) == Orphans(kept)
    ensures Unsaved(RunKept(kept, ops)) == Pending(ops)
  {
    if ops == [] {
      NothingUnsaved(kept);
    } else {
      var before := RunKept(kept, ops[..|ops| - 1]);
      RunLeaves(kept, ops[..|ops| - 1]);
      match ops[|ops| - 1]
      case Put(k, v) =>
        assert AfterPut(before, k, v)[..|before|] == before;
      case Delete(k) =>
        DeleteFilters(before, k);
    }
  }

  lemma {:induction false} NothingUnsaved(kept: seq<Kept>)
    requires JustFlushed(kept)
    ensures Unsaved(kept) == []
  {
    if kept != [] {
      NothingUnsaved(kept[..|kept| - 1]);
    }
  }

  ghost predicate PutNotUndone(ops: History, key: Bytes, i: nat) {
    i < |ops| && ops[i].Put? && ops[i].key == key && forall j | i < j < |ops| :: ops[j] != Delete(key)
  }

  lemma {:induction false} PendingAre(ops: History, key: Bytes)
    ensures key in Pending(ops) <==> exists i: nat :: PutNotUndone(ops, key, i)
  {
    if ops != [] {
      var n := |ops| - 1;
      PendingAre(ops[..n], key);
      forall i: nat
        ensures PutNotUndone(ops, key, i) <==>
                if i < n then PutNotUndone(ops[..n], key, i) && ops[n] != Delete(key)
                else i == n && ops[n].Put? && ops[n].key == key
      {
        OneMoreOp(ops, key, i);
      }
      if ops[n].Delete? {
        InRemoved(Pending(ops[..n]), ops[n].key, key);
      }
      hide PutNotUndone;
      if ops[n].Put? && ops[n].key == key {
        assert PutNotUndone(ops, key, n);
      } else if i: nat :| PutNotUndone(ops[..n], key, i) {
        InPrefix(ops[..n], key, i);
        assert ops[n] != Delete(key) ==> PutNotUndone(ops, key, i);
      }
    }
  }

  lemma OneMoreOp(ops: History, key: Bytes, i: nat)
    requires ops != []
    ensures var n := |ops| - 1;
            PutNotUndone(ops, key, i) <==>
              if i < n then PutNotUndone(ops[..n], key, i) && ops[n] != Delete(key)
              else i == n && ops[n].Put? && ops[n].key == key
  {
  }

  lemma InPrefix(ops: History, key: Bytes, i: nat)
    requires PutNotUndone(ops, key, i)
    ensures i < |ops|
  {
  }

  lemma {:induction false} InRemoved(keys: seq<Bytes>, k: Bytes, key: Bytes)
    ensures key in Remove(keys, k) <==> key in keys && key != k
  {
    if keys != [] {
      InRemoved(keys[..|keys| - 1], k, key);
      assert keys == keys[..|keys| - 1] + [keys[|keys| - 1]];
    }
  }

  lemma PendingIff(ops: History)
    ensures Pending(ops) == [] <==> AllUndone(ops)
  {
    if Pending(ops) != [] {
      var key := Pending(ops)[0];
      PendingAre(ops, key);
      var i: nat :| PutNotUndone(ops, key, i);
      assert ops[i].Put? && ops[i].key == key;
    } else {
      forall i | 0 <= i < |ops| && ops[i].Put?
        ensures exists j :: i < j < |ops| && ops[j] == Delete(ops[i].key)
      {
        PendingAre(ops, ops[i].key);
        assert !PutNotUndone(ops, ops[i].key, i);
      }
    }
  }

  /** The exact condition: a crash leaves no orphan if and only if there was none at the last flush
      and every put since then has been followed by a delete of its key. */
  lemma NoOrphansAfterCrashIff(kept: seq<Kept>, ops: History)
    requires JustFlushed(kept)
    ensures NoOrphans(AfterCrash(RunKept(kept, ops))) <==> NoOrphans(kept) && AllUndone(ops)
  {
    RunLeaves(kept, ops);
    WhatIsLeft(RunKept(kept, ops));
    WhatIsLeft(kept);
    PendingIff(ops);
  }
}
