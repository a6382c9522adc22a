/** What a key index promises: a multimap described by the history of its puts and deletes, and
    the proof that chains of records implement it. */
module KeyIndex {
  import opened ByteCodec
  import opened KeyLog
  import opened SlotChains

  datatype Op = Put(key: Bytes, value: Bytes) | Delete(key: Bytes)

  type History = seq<Op>

  /** The values put for a key since its last delete, newest first. */
  function Replay(ops: History, key: Bytes): seq<Bytes> {
    if ops == [] then []
    else
      var before := Replay(ops[..|ops| - 1], key);
      match ops[|ops| - 1]
      case Put(k, v) => if k == key then [v] + before else before
      case Delete(k) => if k == key then [] else before
  }

  /** The deletes of a history: what a crash cannot undo. */
  function Deletes(ops: History): History {
    if ops == [] then []
    else Deletes(ops[..|ops| - 1]) + (if ops[|ops| - 1].Delete? then [ops[|ops| - 1]] else [])
  }

  lemma DeletesStep(ops: History, n: nat, op: Op)
    requires n <= |ops|
    ensures Deletes((ops + [op])[n..]) == Deletes(ops[n..]) + (if op.Delete? then [op] else [])
  {
    var tail := (ops + [op])[n..];
    assert tail[..|tail| - 1] == ops[n..];
  }

  type Pairs = seq<(Bytes, Bytes)>

  function Without(pairs: Pairs, key: Bytes): Pairs {
    if pairs == [] then []
    else Without(pairs[..|pairs| - 1], key) + (if pairs[|pairs| - 1].0 == key then [] else [pairs[|pairs| - 1]])
  }

  /** The pairs put and not deleted since, in the order they were put. */
  function Surviving(ops: History): Pairs {
    if ops == [] then []
    else
      var before := Surviving(ops[..|ops| - 1]);
      match ops[|ops| - 1]
      case Put(k, v) => before + [(k, v)]
      case Delete(k) => Without(before, k)
  }

  /** The values stored under one key, last pair first. */
  function ValuesOf(pairs: Pairs, key: Bytes): seq<Bytes> {
    if pairs == [] then []
    else (if pairs[|pairs| - 1].0 == key then [pairs[|pairs| - 1].1] else []) + ValuesOf(pairs[..|pairs| - 1], key)
  }

  /** The two readings of a history agree: looking a key up gives its surviving pairs, newest
      first. */
  lemma {:induction false} ReplayIsSurviving(ops: History, key: Bytes)
    ensures Replay(ops, key) == ValuesOf(Surviving(ops), key)
  {
    if ops != [] {
      var before := Surviving(ops[..|ops| - 1]);
      ReplayIsSurviving(ops[..|ops| - 1], key);
      match ops[|ops| - 1]
      case Put(k, v) =>
        assert (before + [(k, v)])[..|before|] == before;
      case Delete(k) =>
        WithoutValues(before, k, key);
    }
  }

  lemma {:induction false} WithoutValues(pairs: Pairs, key: Bytes, other: Bytes)
    ensures ValuesOf(Without(pairs, key), other) == if key == other then [] else ValuesOf(pairs, other)
  {
    if pairs != [] {
      var front := Without(pairs[..|pairs| - 1], key);
      WithoutValues(pairs[..|pairs| - 1], key, other);
      if pairs[|pairs| - 1].0 != key {
        assert Without(pairs, key)[..|front|] == front;
      } else {
        assert Without(pairs, key) == front;
      }
    }
  }

  // ---------- a history operation by operation ----------

  /** Operation i puts a pair that no later operation deletes. */
  ghost predicate Remains(ops: History, i: nat) {
    i < |ops| && ops[i].Put? && forall j | i < j < |ops| :: ops[j] != Delete(ops[i].key)
  }

  ghost predicate IsPutOf(ops: History, key: Bytes, i: nat) { i < |ops| && ops[i].Put? && ops[i].key == key }

  ghost predicate FallsAlong(numbers: seq<nat>) { forall j, k | 0 <= j < k < |numbers| :: numbers[j] > numbers[k] }

  ghost predicate GrowsAlong(numbers: seq<nat>) { forall j, k | 0 <= j < k < |numbers| :: numbers[j] < numbers[k] }

  /** The values a lookup gives, by the numbers of their puts, newest first: those of the key that remain. */
  ghost predicate ListsValues(ops: History, key: Bytes, values: seq<Bytes>, numbers: seq<nat>) {
    && |values| == |numbers| && FallsAlong(numbers)
    && (forall k | 0 <= k < |numbers| :: numbers[k] < |ops| && ops[numbers[k]] == Put(key, values[k]))
    && (forall i: nat :: i in numbers <==> IsPutOf(ops, key, i) && Remains(ops, i))
  }

  lemma {:induction false} ReplayIs(ops: History, key: Bytes) returns (numbers: seq<nat>)
    ensures ListsValues(ops, key, Replay(ops, key), numbers)
  {
    hide ListsValues;
    if ops == [] {
      numbers := [];
      NoValues(key);
    } else {
      var before, op := ops[..|ops| - 1], ops[|ops| - 1];
      numbers := ReplayIs(before, key);
      assert ops == before + [op];
      OneMoreOp(before, op, key, Replay(before, key), numbers);
      if op.key == key {
        numbers := if op.Put? then [|before|] + numbers else [];
      }
    }
  }

  lemma NoValues(key: Bytes)
    ensures ListsValues([], key, [], [])
  {
  }

  lemma OneMoreOp(ops: History, op: Op, key: Bytes, values: seq<Bytes>, numbers: seq<nat>)
    requires ListsValues(ops, key, values, numbers)
    ensures op.key != key ==> ListsValues(ops + [op], key, values, numbers)
    ensures op.Put? && op.key == key ==> ListsValues(ops + [op], key, [op.value] + values, [|ops|] + numbers)
    ensures op.Delete? && op.key == key ==> ListsValues(ops + [op], key, [], [])
  {
    hide Remains;
    RemainsAfter(ops, op);
    assert forall k | 0 <= k < |numbers| :: numbers[k] in numbers && numbers[k] < |ops|;
    assert forall i: nat :: i in [|ops|] + numbers <==> i == |ops| || i in numbers;
  }

  lemma RemainsAfter(ops: History, op: Op)
    ensures forall i: nat | i < |ops| :: Remains(ops + [op], i) <==> Remains(ops, i) && op != Delete(ops[i].key)
    ensures Remains(ops + [op], |ops|) <==> op.Put?
    ensures forall i: nat :: (Remains(ops, i) ==> i < |ops|) && (Remains(ops + [op], i) ==> i <= |ops|)
  {
    forall i: nat | i < |ops|
      ensures Remains(ops + [op], i) <==> Remains(ops, i) && op != Delete(ops[i].key)
    {
      if Remains(ops + [op], i) {
        assert (ops + [op])[|ops|] == op;
        assert forall j | i < j < |ops| :: (ops + [op])[j] == ops[j];
      }
    }
  }

  /** The surviving pairs, by the numbers of their puts, oldest first: all those that remain. */
  ghost predicate ListsPairs(ops: History, pairs: Pairs, numbers: seq<nat>) {
    NamesPairs(ops, pairs, numbers) && forall i: nat :: i in numbers <==> Remains(ops, i)
  }

  ghost predicate NamesPairs(ops: History, pairs: Pairs, numbers: seq<nat>) {
    && |pairs| == |numbers| && GrowsAlong(numbers)
    && forall k | 0 <= k < |numbers| :: numbers[k] < |ops| && ops[numbers[k]] == Put(pairs[k].0, pairs[k].1)
  }

  lemma {:induction false} SurvivingIs(ops: History) returns (numbers: seq<nat>)
    ensures ListsPairs(ops, Surviving(ops), numbers)
  {
    hide Remains, NamesPairs, Without;
    if ops == [] {
      numbers := [];
      NothingRemains();
    } else {
      var before, op := ops[..|ops| - 1], ops[|ops| - 1];
      numbers := SurvivingIs(before);
      assert ops == before + [op];
      RemainsAfter(before, op);
      if op.Put? {
        OneMoreName(before, op, Surviving(before), numbers);
        numbers := numbers + [|before|];
      } else {
        assert op == Delete(op.key);
        numbers := NamesWithout(before, op, Surviving(before), numbers);
      }
    }
  }

  lemma NothingRemains()
    ensures NamesPairs([], [], []) && forall i: nat :: !Remains([], i)
  {
  }

  lemma OneMoreName(ops: History, op: Op, pairs: Pairs, numbers: seq<nat>)
    requires NamesPairs(ops, pairs, numbers) && op.Put?
    ensures NamesPairs(ops + [op], pairs + [(op.key, op.value)], numbers + [|ops|])
  {
  }

  lemma {:induction false} NamesWithout(ops: History, op: Op, pairs: Pairs, numbers: seq<nat>) returns (kept: seq<nat>)
    requires NamesPairs(ops, pairs, numbers)
    ensures NamesPairs(ops + [op], Without(pairs, op.key), kept)
    ensures forall i: nat :: i in kept <==> i in numbers && ops[i].key != op.key
    decreases |pairs|
  {
    if pairs == [] {
      kept := [];
    } else {
      var n := |pairs| - 1;
      kept := NamesWithout(ops, op, pairs[..n], numbers[..n]);
      assert forall i: nat :: i in numbers <==> i in numbers[..n] || i == numbers[n];
      if pairs[n].0 != op.key {
        NamesStayBelow(numbers, n, kept);
        kept := kept + [numbers[n]];
      }
    }
  }

  lemma NamesStayBelow(numbers: seq<nat>, n: nat, kept: seq<nat>)
    requires n < |numbers| && GrowsAlong(numbers) && forall i | i in kept :: i in numbers[..n]
    ensures forall k | 0 <= k < |kept| :: kept[k] < numbers[n]
  {
    assert forall k | 0 <= k < |kept| :: kept[k] in kept;
  }

  // ---------- the records implement the history ----------

  /** From these heads, every key's chain yields exactly what the history says. */
  ghost predicate Refines(b: Bucketing, log: Log, heads: Heads, ops: History)
    requires Chained(b, log, heads)
  {
    forall key: Bytes :: Values(log, heads[SlotOf(b, key)], key) == Replay(ops, key)
  }

  lemma EmptyRefines(b: Bucketing)
    ensures Chained(b, [], seq(Slots(b), _ => -1)) && Refines(b, [], seq(Slots(b), _ => -1), [])
  {
    hide SlotOf;
  }

  /** The record a put appends. */
  ghost function NewRecord(b: Bucketing, heads: Heads, key: Bytes, value: Bytes): Record
    requires |heads| == Slots(b)
  {
    Record(false, heads[SlotOf(b, key)], key, value)
  }

  /** A put adds its value in front of its key's values and disturbs no other key, not even one
      in the same slot or with the same hash. */
  lemma PutRefines(b: Bucketing, log: Log, heads: Heads, ops: History, key: Bytes, value: Bytes)
    requires Chained(b, log, heads) && Refines(b, log, heads, ops)
    ensures var log' := log + [NewRecord(b, heads, key, value)];
            var heads' := heads[SlotOf(b, key) := |log|];
            Chained(b, log', heads') && Refines(b, log', heads', ops + [Put(key, value)])
  {
    hide SlotOf;
    var r := NewRecord(b, heads, key, value);
    var log' := log + [r];
    var heads' := heads[SlotOf(b, key) := |log|];
    AppendKeepsChained(b, log, heads, r);
    assert (ops + [Put(key, value)])[..|ops|] == ops;
    forall k: Bytes
      ensures Values(log', heads'[SlotOf(b, k)], k) == Replay(ops + [Put(key, value)], k)
    {
      ValuesSame(log', log, heads[SlotOf(b, k)], k);
    }
  }

  /** Heads saved earlier keep describing the same history while the file grows. */
  lemma GrowthKeepsSaved(b: Bucketing, log: Log, heads: Heads, saved: Heads, ops: History, r: Record)
    requires Chained(b, log, heads) && Chained(b, log, saved) && Refines(b, log, saved, ops)
    requires r.prev == heads[SlotOf(b, r.key)]
    ensures Chained(b, log + [r], saved) && Refines(b, log + [r], saved, ops)
  {
    hide SlotOf;
    OldHeadsStayChained(b, log, heads, saved, r);
    forall k: Bytes
      ensures Values(log + [r], saved[SlotOf(b, k)], k) == Replay(ops, k)
    {
      ValuesSame(log + [r], log, saved[SlotOf(b, k)], k);
    }
  }

  /** Saved heads that lie on the current chains. */
  ghost predicate OnChains(log: Log, heads: Heads, saved: Heads)
    requires Linked(log)
  {
    && |saved| == |heads|
    && (forall s | 0 <= s < |heads| :: -1 <= heads[s] < |log|)
    && (forall s | 0 <= s < |heads| :: saved[s] == -1 || saved[s] in Chain(log, heads[s]))
  }

  /** Deleting a key empties it, seen from the current heads and from any heads saved on their
      chains, and disturbs no other key. */
  lemma DeleteRefines(b: Bucketing, log: Log, heads: Heads, saved: Heads, ops: History, key: Bytes)
    requires Chained(b, log, heads) && Chained(b, log, saved) && Refines(b, log, saved, ops)
    requires OnChains(log, heads, saved)
    ensures var erased := Erase(log, heads[SlotOf(b, key)], key);
            Chained(b, erased, saved) && Refines(b, erased, saved, ops + [Delete(key)])
  {
    hide SlotOf, Erase;
    var h := heads[SlotOf(b, key)];
    var erased := Erase(log, h, key);
    EraseKeepsChained(b, log, saved, h, key);
    assert (ops + [Delete(key)])[..|ops|] == ops;
    forall k: Bytes
      ensures Values(erased, saved[SlotOf(b, k)], k) == Replay(ops + [Delete(key)], k)
    {
      if k == key {
        ErasedKeyIsGone(log, h, key, saved[SlotOf(b, k)]);
      } else {
        ErasedOthersStay(log, h, key, saved[SlotOf(b, k)], k);
      }
    }
  }

  lemma HeadsAreOnTheirChains(b: Bucketing, log: Log, heads: Heads)
    requires Chained(b, log, heads)
    ensures OnChains(log, heads, heads)
  {
  }

  lemma PutKeepsOnChains(b: Bucketing, log: Log, heads: Heads, saved: Heads, r: Record)
    requires Chained(b, log, heads) && OnChains(log, heads, saved)
    requires r.prev == heads[SlotOf(b, r.key)]
    ensures Linked(log + [r]) && OnChains(log + [r], heads[SlotOf(b, r.key) := |log|], saved)
  {
    hide SlotOf;
    var slot := SlotOf(b, r.key);
    forall s | 0 <= s < |heads|
      ensures saved[s] == -1 || saved[s] in Chain(log + [r], heads[slot := |log|][s])
    {
      ChainSame(log + [r], log, heads[s]);
    }
  }

  lemma DeleteKeepsOnChains(b: Bucketing, log: Log, heads: Heads, saved: Heads, i: int, key: Bytes)
    requires Chained(b, log, heads) && OnChains(log, heads, saved) && -1 <= i < |log|
    ensures OnChains(Erase(log, i, key), heads, saved)
  {
    hide Erase, SlotOf;
    EraseIsPointwise(log, i, key);
    forall s | 0 <= s < |heads|
      ensures saved[s] == -1 || saved[s] in Chain(Erase(log, i, key), heads[s])
    {
      ChainSame(Erase(log, i, key), log, heads[s]);
    }
  }

  // ---------- the pairs on the chains, in file order ----------

  /** The record lies on the chain of its key's slot. */
  ghost predicate OnChain(b: Bucketing, log: Log, heads: Heads, i: nat)
    requires Chained(b, log, heads) && i < |log|
  {
    i in Chain(log, heads[SlotOf(b, log[i].key)])
  }

  /** The pairs of the first n records that lie on their chains and are not marked deleted. */
  ghost function Reached(b: Bucketing, log: Log, heads: Heads, n: nat): Pairs
    requires Chained(b, log, heads) && n <= |log|
  {
    if n == 0 then []
    else
      Reached(b, log, heads, n - 1)
      + (if !log[n - 1].deleted && OnChain(b, log, heads, n - 1) then [(log[n - 1].key, log[n - 1].value)] else [])
  }

  /** What the chains reach is what the history leaves, in the order it was put. */
  ghost predicate Ordered(b: Bucketing, log: Log, heads: Heads, ops: History)
    requires Chained(b, log, heads)
  {
    Reached(b, log, heads, |log|) == Surviving(ops)
  }

  lemma {:induction false} ReachedSame(b: Bucketing, one: Log, ones: Heads, two: Log, twos: Heads, n: nat)
    requires Chained(b, one, ones) && Chained(b, two, twos) && n <= |one| && n <= |two|
    requires forall i | 0 <= i < n :: one[i].key == two[i].key && one[i].value == two[i].value
    requires forall i: nat | i < n ::
               (!one[i].deleted && OnChain(b, one, ones, i)) == (!two[i].deleted && OnChain(b, two, twos, i))
    ensures Reached(b, one, ones, n) == Reached(b, two, twos, n)
  {
    hide SlotOf, OnChain;
    if n > 0 {
      ReachedSame(b, one, ones, two, twos, n - 1);
    }
  }

  /** A new record is on its chain and puts no other record on a chain or off one. */
  lemma ChainsAfterPut(b: Bucketing, log: Log, heads: Heads, r: Record, i: nat)
    requires Chained(b, log, heads) && r.prev == heads[SlotOf(b, r.key)] && i <= |log|
    ensures Chained(b, log + [r], heads[SlotOf(b, r.key) := |log|])
    ensures OnChain(b, log + [r], heads[SlotOf(b, r.key) := |log|], i) == (i == |log| || OnChain(b, log, heads, i))
  {
    hide SlotOf;
    AppendKeepsChained(b, log, heads, r);
    ChainSame(log + [r], log, r.prev);
    if i < |log| {
      ChainSame(log + [r], log, heads[SlotOf(b, log[i].key)]);
    }
  }

  /** Heads saved earlier reach what they reached before, and not the new record. */
  lemma ChainsAfterGrowth(b: Bucketing, log: Log, heads: Heads, saved: Heads, r: Record, i: nat)
    requires Chained(b, log, heads) && Chained(b, log, saved) && r.prev == heads[SlotOf(b, r.key)] && i <= |log|
    ensures Chained(b, log + [r], saved)
    ensures OnChain(b, log + [r], saved, i) == (i < |log| && OnChain(b, log, saved, i))
  {
    hide SlotOf;
    OldHeadsStayChained(b, log, heads, saved, r);
    var h := saved[SlotOf(b, (log + [r])[i].key)];
    ChainSame(log + [r], log, h);
    if i == |log| && i in Chain(log, h) {
      ChainMember(log, h, i);
    }
  }

  lemma ChainsAfterDelete(b: Bucketing, log: Log, heads: Heads, h: int, key: Bytes, i: nat)
    requires Chained(b, log, heads) && -1 <= h < |log| && i < |log|
    ensures Chained(b, Erase(log, h, key), heads)
    ensures OnChain(b, Erase(log, h, key), heads, i) == OnChain(b, log, heads, i)
  {
    hide SlotOf, Erase;
    EraseKeepsChained(b, log, heads, h, key);
    EraseIsPointwise(log, h, key);
    ChainSame(Erase(log, h, key), log, heads[SlotOf(b, log[i].key)]);
  }

  lemma EmptyIsOrdered(b: Bucketing)
    ensures Chained(b, [], seq(Slots(b), _ => -1)) && Ordered(b, [], seq(Slots(b), _ => -1), [])
  {
    hide SlotOf;
  }

  lemma PutKeepsOrdered(b: Bucketing, log: Log, heads: Heads, ops: History, key: Bytes, value: Bytes)
    requires Chained(b, log, heads) && Ordered(b, log, heads, ops)
    ensures var log' := log + [NewRecord(b, heads, key, value)];
            var heads' := heads[SlotOf(b, key) := |log|];
            Chained(b, log', heads') && Ordered(b, log', heads', ops + [Put(key, value)])
  {
    hide SlotOf, OnChain;
    var r := NewRecord(b, heads, key, value);
    var log', heads' := log + [r], heads[SlotOf(b, key) := |log|];
    forall i: nat | i <= |log|
      ensures Chained(b, log', heads') && OnChain(b, log', heads', i) == (i == |log| || OnChain(b, log, heads, i))
    {
      ChainsAfterPut(b, log, heads, r, i);
    }
    ReachedSame(b, log', heads', log, heads, |log|);
    assert (ops + [Put(key, value)])[..|ops|] == ops;
  }

  lemma GrowthKeepsOrdered(b: Bucketing, log: Log, heads: Heads, saved: Heads, ops: History, r: Record)
    requires Chained(b, log, heads) && Chained(b, log, saved) && Ordered(b, log, saved, ops)
    requires r.prev == heads[SlotOf(b, r.key)]
    ensures Chained(b, log + [r], saved) && Ordered(b, log + [r], saved, ops)
  {
    hide SlotOf, OnChain;
    forall i: nat | i <= |log|
      ensures Chained(b, log + [r], saved)
           && OnChain(b, log + [r], saved, i) == (i < |log| && OnChain(b, log, saved, i))
    {
      ChainsAfterGrowth(b, log, heads, saved, r, i);
    }
    ReachedSame(b, log + [r], saved, log, saved, |log|);
  }

  lemma DeleteKeepsOrdered(b: Bucketing, log: Log, heads: Heads, saved: Heads, ops: History, key: Bytes)
    requires Chained(b, log, heads) && Chained(b, log, saved) && Ordered(b, log, saved, ops)
    requires OnChains(log, heads, saved)
    ensures var erased := Erase(log, heads[SlotOf(b, key)], key);
            Chained(b, erased, saved) && Ordered(b, erased, saved, ops + [Delete(key)])
  {
    hide SlotOf, Erase;
    EraseKeepsChained(b, log, saved, heads[SlotOf(b, key)], key);
    ReachedAfterDelete(b, log, heads, saved, key, |log|);
    assert (ops + [Delete(key)])[..|ops|] == ops;
  }

  lemma {:induction false} ReachedAfterDelete(b: Bucketing, log: Log, heads: Heads, saved: Heads, key: Bytes, n: nat)
    requires Chained(b, log, heads) && Chained(b, log, saved) && OnChains(log, heads, saved) && n <= |log|
    requires Chained(b, Erase(log, heads[SlotOf(b, key)], key), saved)
    ensures Reached(b, Erase(log, heads[SlotOf(b, key)], key), saved, n) == Without(Reached(b, log, saved, n), key)
  {
    hide SlotOf, Erase, OnChain, OnChains;
    if n > 0 {
      ReachedAfterDelete(b, log, heads, saved, key, n - 1);
      var h, before := heads[SlotOf(b, key)], Reached(b, log, saved, n - 1);
      ChainsAfterDelete(b, log, saved, h, key, n - 1);
      MarkedIff(b, log, heads, saved, key, n - 1);
      if !log[n - 1].deleted && OnChain(b, log, saved, n - 1) {
        WithoutAppend(before, (log[n - 1].key, log[n - 1].value), key);
      } else {
        assert before + [] == before;
      }
    }
  }

  /** A delete marks a record that the saved heads reach exactly when it has the key. */
  lemma MarkedIff(b: Bucketing, log: Log, heads: Heads, saved: Heads, key: Bytes, i: nat)
    requires Chained(b, log, heads) && Chained(b, log, saved) && OnChains(log, heads, saved) && i < |log|
    ensures var erased := Erase(log, heads[SlotOf(b, key)], key)[i];
            && erased.key == log[i].key && erased.value == log[i].value
            && erased.deleted == (log[i].deleted || (log[i].key == key && OnChain(b, log, heads, i)))
    ensures OnChain(b, log, saved, i) ==> OnChain(b, log, heads, i)
  {
    hide SlotOf, Erase;
    EraseIsPointwise(log, heads[SlotOf(b, key)], key);
    var s := SlotOf(b, log[i].key);
    if OnChain(b, log, saved, i) {
      ChainWithin(log, heads[s], saved[s]);
    }
  }

  lemma WithoutAppend(pairs: Pairs, p: (Bytes, Bytes), key: Bytes)
    ensures Without(pairs + [p], key) == Without(pairs, key) + (if p.0 == key then [] else [p])
  {
    assert (pairs + [p])[..|pairs|] == pairs;
  }

  // ---------- runs without crashes ----------

  /** Every record can be reached: it lies on its own slot's chain (and, since a chain holds one
      slot only, on no other). */
  ghost predicate Covered(b: Bucketing, log: Log, heads: Heads)
    requires Chained(b, log, heads)
  {
    forall i | 0 <= i < |log| :: i in Chain(log, heads[SlotOf(b, log[i].key)])
  }

  /** In a run without crashes every record lies on the chain of its own slot, once, and on no
      other. */
  lemma OnOneChainIff(b: Bucketing, log: Log, heads: Heads, i: nat, s: nat)
    requires Chained(b, log, heads) && Covered(b, log, heads) && i < |log| && s < Slots(b)
    ensures i in Chain(log, heads[s]) <==> s == SlotOf(b, log[i].key)
    ensures forall m, n | 0 <= m < n < |Chain(log, heads[s])| :: Chain(log, heads[s])[m] != Chain(log, heads[s])[n]
  {
    hide SlotOf;
    if heads[s] >= 0 {
      ChainDescends(b, log, heads, heads[s]);
    }
  }

  lemma PutKeepsCovered(b: Bucketing, log: Log, heads: Heads, key: Bytes, value: Bytes)
    requires Chained(b, log, heads) && Covered(b, log, heads)
    ensures var log' := log + [NewRecord(b, heads, key, value)];
            var heads' := heads[SlotOf(b, key) := |log|];
            Chained(b, log', heads') && Covered(b, log', heads')
  {
    hide SlotOf;
    var log' := log + [NewRecord(b, heads, key, value)];
    var heads' := heads[SlotOf(b, key) := |log|];
    AppendKeepsChained(b, log, heads, NewRecord(b, heads, key, value));
    forall i | 0 <= i < |log|
      ensures i in Chain(log', heads'[SlotOf(b, log[i].key)])
    {
      ChainSame(log', log, heads[SlotOf(b, log[i].key)]);
    }
  }

  lemma DeleteKeepsCovered(b: Bucketing, log: Log, heads: Heads, i: int, key: Bytes)
    requires Chained(b, log, heads) && Covered(b, log, heads) && -1 <= i < |log|
    ensures Chained(b, Erase(log, i, key), heads) && Covered(b, Erase(log, i, key), heads)
  {
    hide SlotOf, Erase;
    var erased := Erase(log, i, key);
    EraseKeepsChained(b, log, heads, i, key);
    EraseIsPointwise(log, i, key);
    forall j | 0 <= j < |log|
      ensures j in Chain(erased, heads[SlotOf(b, log[j].key)])
    {
      ChainSame(erased, log, heads[SlotOf(b, log[j].key)]);
    }
  }
}
