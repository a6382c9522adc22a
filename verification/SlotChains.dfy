/** Chains through a key file. A slot table holds, for every slot, the newest record of that slot;
    each record links to the next older one of the same slot. This module works on record
    numbers; the byte encodings of the table and of the file are treated elsewhere. */
module SlotChains {
  import opened ByteCodec
  import opened KeyLog
  import Crc32

  type Positive = n: nat | n > 0 witness 1

  /** How keys are spread over slots: by CRC-32 of the key, or by the local time of day of an
      8-byte timestamp key. */
  datatype Bucketing = ByHash(capacity: Positive) | ByTime(zone: int)

  /** One slot per 500 ms of a day. */
  const TIME_SLOTS: Positive := 172800
  const DAY_MS: Positive := 86400000

  function Slots(b: Bucketing): Positive {
    match b
    case ByHash(capacity) => capacity
    case ByTime(_) => TIME_SLOTS
  }

  function ToU8(key: Bytes): seq<Crc32.u8> { seq(|key|, i requires 0 <= i < |key| => key[i] as bv8) }

  /** `MemHashBlock::offset`: drop the sign bit of the hash, then take the remainder. */
  function HashSlot(hash: bv32, capacity: Positive): (slot: nat)
    ensures slot < capacity
  {
    (hash & 0x7FFF_FFFF) as int % capacity
  }

  /** Milliseconds since local midnight; the zone is the fixed offset of local time. */
  function DateMillis(zone: int, time: int): nat { (time + zone) % DAY_MS }

  /** `MemTimeBlock::offset`. */
  function TimeSlot(zone: int, time: int): (slot: nat)
    ensures slot < TIME_SLOTS
  {
    DateMillis(zone, time) / 500 % TIME_SLOTS
  }

  function SlotOf(b: Bucketing, key: Bytes): (slot: nat)
    ensures slot < Slots(b)
  {
    match b
    case ByHash(capacity) => HashSlot(Crc32.Hash(ToU8(key)), capacity)
    case ByTime(zone) => if |key| == 8 then TimeSlot(zone, SignedBE(key)) else 0
  }

  /** The heads of all slots: record numbers, or -1 for an empty slot. */
  type Heads = seq<int>

  /** Links stay within a slot, and every head is a record of its own slot. */
  ghost predicate Chained(b: Bucketing, log: Log, heads: Heads) {
    && Linked(log)
    && (forall i | 0 <= i < |log| && log[i].prev >= 0 ::
          SlotOf(b, log[log[i].prev].key) == SlotOf(b, log[i].key))
    && |heads| == Slots(b)
    && (forall s | 0 <= s < |heads| :: -1 <= heads[s] < |log|)
    && (forall s | 0 <= s < |heads| && heads[s] >= 0 :: SlotOf(b, log[heads[s]].key) == s)
  }

  /** The records met when following links from record i, newest first. */
  ghost function Chain(log: Log, i: int): (c: seq<nat>)
    requires Linked(log) && -1 <= i < |log|
    decreases i + 1
  {
    if i < 0 then [] else [i] + Chain(log, log[i].prev)
  }

  /** Following links strictly descends through records of one slot and ends at the bottom:
      every lookup loop over a chain terminates and meets no record twice. */
  lemma {:induction false} ChainDescends(b: Bucketing, log: Log, heads: Heads, i: int)
    requires Chained(b, log, heads) && -1 <= i < |log|
    ensures forall n | 0 <= n < |Chain(log, i)| :: 0 <= Chain(log, i)[n] <= i
    ensures forall m, n | 0 <= m < n < |Chain(log, i)| :: Chain(log, i)[n] < Chain(log, i)[m]
    ensures forall n | 0 <= n < |Chain(log, i)| :: SlotOf(b, log[Chain(log, i)[n]].key) == SlotOf(b, log[i].key)
    ensures Chain(log, i) != [] ==> log[Chain(log, i)[|Chain(log, i)| - 1]].prev == -1
    decreases i + 1
  {
    hide SlotOf;
    if i >= 0 {
      ChainDescends(b, log, heads, log[i].prev);
    }
  }

  /** The live values of a key from record i down, newest first: what a lookup loop collects. */
  ghost function Values(log: Log, i: int, key: Bytes): seq<Bytes>
    requires Linked(log) && -1 <= i < |log|
    decreases i + 1
  {
    if i < 0 then []
    else (if !log[i].deleted && log[i].key == key then [log[i].value] else []) + Values(log, log[i].prev, key)
  }

  // ---------- adding a record ----------

  lemma {:induction false} ChainSame(a: Log, b: Log, i: int)
    requires Linked(a) && Linked(b) && -1 <= i < |a| && i < |b|
    requires forall j | 0 <= j <= i :: a[j].prev == b[j].prev
    ensures Chain(a, i) == Chain(b, i)
    decreases i + 1
  {
    if i >= 0 {
      ChainSame(a, b, a[i].prev);
    }
  }

  lemma {:induction false} ValuesSame(a: Log, b: Log, i: int, key: Bytes)
    requires Linked(a) && Linked(b) && -1 <= i < |a| && i < |b|
    requires forall j | 0 <= j <= i :: a[j].prev == b[j].prev && a[j].key == b[j].key && a[j].value == b[j].value
    requires forall j | 0 <= j <= i :: a[j].key == key ==> a[j].deleted == b[j].deleted
    ensures Values(a, i, key) == Values(b, i, key)
    decreases i + 1
  {
    if i >= 0 {
      ValuesSame(a, b, a[i].prev, key);
    }
  }

  /** A chain never meets a key of another slot. */
  lemma {:induction false} OtherSlotHasNone(b: Bucketing, log: Log, heads: Heads, i: int, key: Bytes)
    requires Chained(b, log, heads) && -1 <= i < |log|
    requires i >= 0 ==> SlotOf(b, log[i].key) != SlotOf(b, key)
    ensures Values(log, i, key) == []
    decreases i + 1
  {
    hide SlotOf;
    if i >= 0 {
      OtherSlotHasNone(b, log, heads, log[i].prev, key);
    }
  }

  /** Appending a record in front of its slot's chain keeps the structure. */
  lemma AppendKeepsChained(b: Bucketing, log: Log, heads: Heads, r: Record)
    requires Chained(b, log, heads)
    requires r.prev == heads[SlotOf(b, r.key)]
    ensures Chained(b, log + [r], heads[SlotOf(b, r.key) := |log|])
  {
    hide SlotOf;
  }

  /** Heads of an older time still describe the file after it has grown. */
  lemma OldHeadsStayChained(b: Bucketing, log: Log, heads: Heads, old_: Heads, r: Record)
    requires Chained(b, log, heads) && Chained(b, log, old_)
    requires r.prev == heads[SlotOf(b, r.key)]
    ensures Chained(b, log + [r], old_)
  {
    hide SlotOf;
  }

  // ---------- erasing a key from a chain ----------

  ghost function Mark(log: Log, i: nat): (r: Log)
    requires i < |log|
    ensures |r| == |log|
    ensures Linked(log) ==> Linked(r)
  {
    log[i := log[i].(deleted := true)]
  }

  /** The log after `delete` has walked the chain from record i. */
  ghost function Erase(log: Log, i: int, key: Bytes): (r: Log)
    requires Linked(log) && -1 <= i < |log|
    ensures |r| == |log| && Linked(r)
    decreases i + 1
  {
    if i < 0 then log
    else Erase(if log[i].key == key then Mark(log, i) else log, log[i].prev, key)
  }

  /** Erasing marks exactly the records of that key on that chain. */
  lemma EraseIsPointwise(log: Log, i: int, key: Bytes)
    requires Linked(log) && -1 <= i < |log|
    ensures forall j | 0 <= j < |log| ::
              Erase(log, i, key)[j] == if j in Chain(log, i) && log[j].key == key
                                       then log[j].(deleted := true) else log[j]
  {
    hide Erase, Chain;
    forall j | 0 <= j < |log|
      ensures Erase(log, i, key)[j] == if j in Chain(log, i) && log[j].key == key
                                       then log[j].(deleted := true) else log[j]
    {
      EraseAt(log, i, key, j);
    }
  }

  lemma {:induction false} EraseAt(log: Log, i: int, key: Bytes, j: nat)
    requires Linked(log) && -1 <= i < |log| && j < |log|
    ensures Erase(log, i, key)[j] == if j in Chain(log, i) && log[j].key == key
                                     then log[j].(deleted := true) else log[j]
    decreases i + 1
  {
    if i >= 0 {
      var next := if log[i].key == key then Mark(log, i) else log;
      EraseAt(next, log[i].prev, key, j);
      ChainSame(next, log, log[i].prev);
      assert Erase(log, i, key) == Erase(next, log[i].prev, key);
      assert Chain(log, i) == [i] + Chain(log, log[i].prev);
      hide Erase, Chain, Linked;
      assert j in [i] + Chain(log, log[i].prev) <==> j == i || j in Chain(log, log[i].prev);
    }
  }

  lemma EraseKeepsChained(b: Bucketing, log: Log, heads: Heads, i: int, key: Bytes)
    requires Chained(b, log, heads) && -1 <= i < |log|
    ensures Chained(b, Erase(log, i, key), heads)
  {
    hide SlotOf, Erase, Chain;
    EraseIsPointwise(log, i, key);
  }

  lemma {:induction false} ChainWithin(log: Log, i: int, g: int)
    requires Linked(log) && -1 <= i < |log| && -1 <= g < |log|
    requires g in Chain(log, i)
    ensures forall j :: j in Chain(log, g) ==> j in Chain(log, i)
    decreases i + 1
  {
    if g != i {
      ChainWithin(log, log[i].prev, g);
    }
  }

  /** After erasing, a walk from anywhere on the chain finds no value of the key. */
  lemma {:induction false} ErasedKeyIsGone(log: Log, i: int, key: Bytes, g: int)
    requires Linked(log) && -1 <= i < |log|
    requires g == -1 || g in Chain(log, i)
    ensures -1 <= g < |log| && Values(Erase(log, i, key), g, key) == []
    decreases g + 1
  {
    if g >= 0 {
      ChainMember(log, i, g);
      ChainWithin(log, i, g);
      EraseIsPointwise(log, i, key);
      assert log[g].prev == -1 || log[g].prev in Chain(log, g);
      ErasedKeyIsGone(log, i, key, log[g].prev);
    }
  }

  lemma {:induction false} ChainMember(log: Log, i: int, g: int)
    requires Linked(log) && -1 <= i < |log| && g in Chain(log, i)
    ensures 0 <= g <= i
    decreases i + 1
  {
    if g != i {
      ChainMember(log, log[i].prev, g);
    }
  }

  /** Erasing one key leaves every other key's values, seen from anywhere, as they were. */
  lemma ErasedOthersStay(log: Log, i: int, key: Bytes, g: int, other: Bytes)
    requires Linked(log) && -1 <= i < |log| && -1 <= g < |log| && other != key
    ensures Values(Erase(log, i, key), g, other) == Values(log, g, other)
  {
    EraseIsPointwise(log, i, key);
    ValuesSame(Erase(log, i, key), log, g, other);
  }
}
