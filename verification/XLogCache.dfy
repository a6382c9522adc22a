/** The in-memory buffer of recent transaction logs. Every log gets the next number; only the last
    ones are kept. */
module XLogCache {
  import opened ByteCodec

  datatype Entry = Entry(objHash: i32, elapsed: i32, hasError: bool, data: Bytes, index: nat)

  const MAX_U64: nat := 0xFFFF_FFFF_FFFF_FFFF

  /** How many entries are kept: a size of 0 still keeps one, because the push follows the pop. */
  function Window(maxSize: nat): nat { if maxSize == 0 then 1 else maxSize }

  function Last<T>(s: seq<T>, n: nat): seq<T> { if |s| <= n then s else s[|s| - n..] }

  ghost predicate Numbered(log: seq<Entry>) { forall i | 0 <= i < |log| :: log[i].index == i }

  /** The second half of `put`: make room, then append. */
  function Pushed(entries: seq<Entry>, maxSize: nat, e: Entry): seq<Entry> {
    (if |entries| >= maxSize && entries != [] then entries[1..] else entries) + [e]
  }

  /** `get_since` over whatever the buffer holds. */
  function Since(entries: seq<Entry>, since: nat, objHash: Option<i32>): seq<Entry> {
    if entries == [] then []
    else
      (if entries[0].index > since && (objHash.Some? ==> entries[0].objHash == objHash.value) then [entries[0]] else [])
      + Since(entries[1..], since, objHash)
  }

  function OfObject(entries: seq<Entry>, objHash: Option<i32>): seq<Entry> {
    if objHash.None? || entries == [] then entries
    else (if entries[0].objHash == objHash.value then [entries[0]] else []) + OfObject(entries[1..], objHash)
  }

  /** What a reader that has seen everything up to `since` can still get: the unseen logs, as far
      back as the window reaches. */
  function Unseen(log: seq<Entry>, maxSize: nat, since: nat): seq<Entry> {
    var kept := Last(log, Window(maxSize));
    var first := |log| - |kept|;
    if since < first then kept else if since < |log| then log[since + 1..] else []
  }

  function Latest(n: nat): nat { if n == 0 then 0 else n - 1 }

  lemma PushKeepsLast(log: seq<Entry>, maxSize: nat, e: Entry)
    requires Numbered(log) && e.index == |log|
    ensures Numbered(log + [e])
    ensures Pushed(Last(log, Window(maxSize)), maxSize, e) == Last(log + [e], Window(maxSize))
  {
  }

  lemma {:induction false} SinceIsUnseenFrom(log: seq<Entry>, i: nat, since: nat, objHash: Option<i32>)
    requires Numbered(log) && i <= |log|
    ensures Since(log[i..], since, objHash)
         == OfObject(if since < i then log[i..] else if since < |log| then log[since + 1..] else [], objHash)
    decreases |log| - i
  {
    if i < |log| {
      SinceIsUnseenFrom(log, i + 1, since, objHash);
      assert log[i..][1..] == log[i + 1..];
    }
  }

  /** Filtering the buffer by number yields exactly the unseen logs. */
  lemma SinceIsUnseen(log: seq<Entry>, maxSize: nat, since: nat, objHash: Option<i32>)
    requires Numbered(log)
    ensures Since(Last(log, Window(maxSize)), since, objHash) == OfObject(Unseen(log, maxSize, since), objHash)
  {
    hide Since, OfObject;
    var first := |log| - |Last(log, Window(maxSize))|;
    assert Last(log, Window(maxSize)) == log[first..];
    SinceIsUnseenFrom(log, first, since, objHash);
  }

  // ---------- the answers number by number ----------

  /** Log i is newer than `since` and still kept. */
  predicate IsUnseen(n: nat, maxSize: nat, since: nat, i: nat) {
    since < i < n && n - i <= if maxSize == 0 then 1 else maxSize
  }

  /** The found logs by their numbers, in order: those unseen and, if one is asked for, of one object. */
  ghost predicate ListsFound(log: seq<Entry>, maxSize: nat, since: nat, objHash: Option<i32>, found: seq<Entry>,
                             numbers: seq<nat>) {
    && |found| == |numbers|
    && (forall k | 0 <= k < |found| :: numbers[k] < |log| && found[k] == log[numbers[k]])
    && (forall j, k | 0 <= j < k < |numbers| :: numbers[j] < numbers[k])
    && (forall i | 0 <= i < |log| ::
          i in numbers <==>
          IsUnseen(|log|, maxSize, since, i) && (objHash == None || objHash == Some(log[i].objHash)))
  }

  ghost predicate SinceAnswer(log: seq<Entry>, maxSize: nat, since: nat, objHash: Option<i32>, found: seq<Entry>) {
    exists numbers :: ListsFound(log, maxSize, since, objHash, found, numbers)
  }

  lemma SinceAnswers(log: seq<Entry>, maxSize: nat, since: nat, objHash: Option<i32>)
    ensures SinceAnswer(log, maxSize, since, objHash, OfObject(Unseen(log, maxSize, since), objHash))
  {
    hide OfObject;
    var kept := Last(log, Window(maxSize));
    var first := |log| - |kept|;
    var from := if since < first then first else if since < |log| then since + 1 else |log|;
    assert Unseen(log, maxSize, since) == log[from..];
    assert forall i: nat | i < |log| :: IsUnseen(|log|, maxSize, since, i) <==> i >= from;
    var numbers := OfObjectLists(log, from, objHash);
    assert ListsFound(log, maxSize, since, objHash, OfObject(log[from..], objHash), numbers);
  }

  ghost predicate FoundFrom(log: seq<Entry>, from: nat, objHash: Option<i32>, found: seq<Entry>, numbers: seq<nat>) {
    && |found| == |numbers|
    && (forall k | 0 <= k < |found| :: numbers[k] < |log| && found[k] == log[numbers[k]])
    && (forall j, k | 0 <= j < k < |numbers| :: numbers[j] < numbers[k])
    && (forall i | 0 <= i < |log| ::
          i in numbers <==> from <= i && (objHash == None || objHash == Some(log[i].objHash)))
  }

  lemma {:induction false} OfObjectLists(log: seq<Entry>, from: nat, objHash: Option<i32>) returns (numbers: seq<nat>)
    requires from <= |log|
    ensures FoundFrom(log, from, objHash, OfObject(log[from..], objHash), numbers)
    decreases |log| - from
  {
    hide FoundFrom, OfObject;
    if from == |log| {
      numbers := [];
      NothingFound(log, objHash);
    } else {
      numbers := OfObjectLists(log, from + 1, objHash);
      OfObjectStep(log, from, objHash);
      OneMoreFound(log, from, objHash, OfObject(log[from + 1..], objHash), numbers);
      if objHash == None || objHash == Some(log[from].objHash) {
        numbers := [from] + numbers;
      }
    }
  }

  lemma NothingFound(log: seq<Entry>, objHash: Option<i32>)
    ensures FoundFrom(log, |log|, objHash, OfObject(log[|log|..], objHash), [])
  {
  }

  lemma OneMoreFound(log: seq<Entry>, from: nat, objHash: Option<i32>, found: seq<Entry>, numbers: seq<nat>)
    requires from < |log| && FoundFrom(log, from + 1, objHash, found, numbers)
    ensures if objHash == None || objHash == Some(log[from].objHash)
            then FoundFrom(log, from, objHash, [log[from]] + found, [from] + numbers)
            else FoundFrom(log, from, objHash, found, numbers)
  {
    assert forall k | 0 <= k < |numbers| :: numbers[k] in numbers && numbers[k] > from;
    if objHash == None || objHash == Some(log[from].objHash) {
      MoreNumbers(log, from, found, numbers);
      assert forall i | 0 <= i < |log| :: i in [from] + numbers <==> i == from || i in numbers;
    }
  }

  lemma MoreNumbers(log: seq<Entry>, from: nat, found: seq<Entry>, numbers: seq<nat>)
    requires from < |log| && |found| == |numbers|
    requires forall k | 0 <= k < |numbers| :: from < numbers[k] < |log| && found[k] == log[numbers[k]]
    requires forall j, k | 0 <= j < k < |numbers| :: numbers[j] < numbers[k]
    ensures var more, all := [log[from]] + found, [from] + numbers;
            && |more| == |all|
            && (forall k | 0 <= k < |more| :: all[k] < |log| && more[k] == log[all[k]])
            && (forall j, k | 0 <= j < k < |all| :: all[j] < all[k])
  {
  }

  lemma OfObjectStep(log: seq<Entry>, from: nat, objHash: Option<i32>)
    requires from < |log|
    ensures var later := OfObject(log[from + 1..], objHash);
            OfObject(log[from..], objHash) ==
              if objHash == None || objHash == Some(log[from].objHash) then [log[from]] + later else later
  {
    assert log[from..][0] == log[from] && log[from..][1..] == log[from + 1..];
    assert log[from..] == [log[from]] + log[from + 1..];
  }

  class XLogCache {
    const maxSize: nat
    var entries: seq<Entry>
    var nextIndex: nat
    /** Every log ever put, in order. */
    ghost var log: seq<Entry>

    ghost predicate Valid()
      reads this
    {
      && nextIndex == |log|
      && Numbered(log)
      && entries == Last(log, Window(maxSize))
    }

    constructor (maxSize: nat)
      ensures Valid() && log == [] && this.maxSize == maxSize
    {
      this.maxSize := maxSize;
      entries, nextIndex, log := [], 0, [];
    }

    /** The number is a u64. */
    method Put(objHash: i32, elapsed: i32, hasError: bool, data: Bytes) returns (index: nat)
      requires Valid() && nextIndex < MAX_U64
      modifies this
      ensures Valid() && index == |old(log)|
      ensures log == old(log) + [Entry(objHash, elapsed, hasError, data, index)]
    {
      hide Last, Numbered;
      index := nextIndex;
      nextIndex := nextIndex + 1;
      var entry := Entry(objHash, elapsed, hasError, data, index);
      PushKeepsLast(log, maxSize, entry);
      if |entries| >= maxSize && entries != [] {
        entries := entries[1..];
      }
      entries := entries + [entry];
      log := log + [entry];
    }

    method GetSince(sinceIndex: nat, objHash: Option<i32>) returns (found: seq<Entry>)
      requires Valid()
      ensures found == OfObject(Unseen(log, maxSize, sinceIndex), objHash)
      ensures SinceAnswer(log, maxSize, sinceIndex, objHash, found)
    {
      SinceAnswers(log, maxSize, sinceIndex, objHash);
      hide SinceAnswer;
      SinceIsUnseen(log, maxSize, sinceIndex, objHash);
      found := Since(entries, sinceIndex, objHash);
    }

    method LatestIndex() returns (index: nat)
      requires Valid()
      ensures index == Latest(|log|)
    {
      index := if nextIndex == 0 then 0 else nextIndex - 1;
    }

    /** The newest `count` logs, or as many of them as are kept. */
    method GetLatest(count: nat) returns (found: seq<Entry>)
      requires Valid()
      ensures found == Last(log, if count < Window(maxSize) then count else Window(maxSize))
    {
      var len := |entries|;
      var skip := if len > count then len - count else 0;
      found := entries[skip..];
    }
  }
}
