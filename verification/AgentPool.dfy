/** The pool of agent connections of the collector: per agent a queue of workers that is used round
    robin. */
module AgentPool {
  import opened ByteCodec

  class TcpAgentWorker {
    var closed: bool

    constructor ()
      ensures !closed
    {
      closed := false;
    }

    method Close()
      modifies this
      ensures closed
    {
      closed := true;
    }
  }

  const MAX_CONNECTIONS_PER_AGENT: nat := 50

  // ---------- the queue as a value ----------

  /** Drop workers from the front until an open one comes, use that one and move it to the back. */
  function Rotated<W>(queue: seq<W>, closed: set<W>): seq<W> {
    if queue == [] then []
    else if queue[0] in closed then Rotated(queue[1..], closed)
    else queue[1..] + [queue[0]]
  }

  function FirstOpen<W>(queue: seq<W>, closed: set<W>): Option<W> {
    if queue == [] then None
    else if queue[0] in closed then FirstOpen(queue[1..], closed)
    else Some(queue[0])
  }

  /** The open workers in queue order. */
  function Open<W>(queue: seq<W>, closed: set<W>): seq<W> {
    if queue == [] then []
    else (if queue[0] in closed then [] else [queue[0]]) + Open(queue[1..], closed)
  }

  /** The queue after n gets in a row. */
  function AfterGets<W>(queue: seq<W>, closed: set<W>, n: nat): seq<W>
    decreases n
  {
    if n == 0 then queue else AfterGets(Rotated(queue, closed), closed, n - 1)
  }

  /** What the get after n gets returns. */
  function NextGet<W>(queue: seq<W>, closed: set<W>, n: nat): Option<W> {
    FirstOpen(AfterGets(queue, closed, n), closed)
  }

  lemma {:induction false} OpenAppend<W>(queue: seq<W>, closed: set<W>, w: W)
    requires w !in closed
    ensures Open(queue + [w], closed) == Open(queue, closed) + [w]
  {
    if queue == [] {
      assert [w][1..] == [];
    } else {
      OpenAppend(queue[1..], closed, w);
      assert (queue + [w])[1..] == queue[1..] + [w];
    }
  }

  /** A get rotates the open workers by one and returns the first of them. */
  lemma {:induction false} GetRotatesOpen<W>(queue: seq<W>, closed: set<W>)
    ensures var open := Open(queue, closed);
            if open == [] then FirstOpen(queue, closed) == None && Rotated(queue, closed) == []
            else
              FirstOpen(queue, closed) == Some(open[0]) && Open(Rotated(queue, closed), closed) == open[1..] + [open[0]]
  {
    if queue != [] {
      if queue[0] in closed {
        GetRotatesOpen(queue[1..], closed);
        assert [] + Open(queue[1..], closed) == Open(queue[1..], closed);
      } else {
        OpenAppend(queue[1..], closed, queue[0]);
        assert Open(queue, closed)[1..] == Open(queue[1..], closed);
      }
    }
  }

  /** While no worker opens or closes, gets return the open workers in queue order, over and over. */
  lemma {:induction false} RoundRobin<W>(queue: seq<W>, closed: set<W>, n: nat)
    ensures var open := Open(queue, closed);
            NextGet(queue, closed, n) == if open == [] then None else Some(open[n % |open|])
    decreases n
  {
    var open := Open(queue, closed);
    GetRotatesOpen(queue, closed);
    if n > 0 {
      var rotated := Rotated(queue, closed);
      RoundRobin(rotated, closed, n - 1);
      if open != [] {
        NextInCircle(n, |open|);
      }
    }
  }

  /** A get drops the closed workers in front of the first open one and moves that one to the back. */
  lemma {:induction false} GetSplits<W>(queue: seq<W>, closed: set<W>, k: nat)
    requires k <= |queue| && forall i | 0 <= i < k :: queue[i] in closed
    requires k < |queue| ==> queue[k] !in closed
    ensures k < |queue| ==>
              FirstOpen(queue, closed) == Some(queue[k]) && Rotated(queue, closed) == queue[k + 1..] + [queue[k]]
    ensures k == |queue| ==> FirstOpen(queue, closed) == None && Rotated(queue, closed) == []
    decreases k
  {
    if k > 0 {
      GetSplits(queue[1..], closed, k - 1);
      assert k < |queue| ==> queue[1..][k - 1] == queue[k] && queue[1..][k..] == queue[k + 1..];
    }
  }

  lemma {:induction false} OpenIsAll<W>(queue: seq<W>, closed: set<W>)
    requires forall w | w in queue :: w !in closed
    ensures Open(queue, closed) == queue
  {
    if queue != [] {
      OpenIsAll(queue[1..], closed);
    }
  }

  /** With all workers open, the n-th get returns the worker at n modulo their number. */
  lemma OpenRound<W>(queue: seq<W>, closed: set<W>, n: nat)
    requires queue != [] && forall w | w in queue :: w !in closed
    ensures NextGet(queue, closed, n) == Some(queue[n % |queue|])
  {
    hide NextGet;
    RoundRobin(queue, closed, n);
    OpenIsAll(queue, closed);
  }

  lemma NextInCircle(n: nat, k: nat)
    requires n > 0 && k > 0
    ensures n % k == if (n - 1) % k == k - 1 then 0 else (n - 1) % k + 1
  {
    var q, r := (n - 1) / k, (n - 1) % k;
    assert n - 1 == k * q + r;
    if r == k - 1 {
      assert n == k * (q + 1);
      ModOf(q + 1, k, 0);
    } else {
      ModOf(q, k, r + 1);
    }
  }

  lemma ModOf(q: nat, k: nat, r: nat)
    requires r < k
    ensures (k * q + r) % k == r
  {
    var x := k * q + r;
    assert x == k * (x / k) + x % k;
    MultiplesApart(k, q, x / k);
    MultiplesApart(k, x / k, q);
  }

  lemma MultiplesApart(k: nat, a: int, b: int)
    ensures a < b ==> k * a + k <= k * b
  {
    if a < b {
      TimesDifference(k, a, b);
      TimesNat(k, b - a - 1);
    }
  }

  lemma TimesDifference(k: nat, a: int, b: int)
    ensures k * (b - a - 1) == k * b - k * a - k
  {
  }

  lemma TimesNat(k: nat, n: nat)
    ensures k * n >= 0
  {
  }

  /** k gets in a row, for k distinct open workers, return each of them exactly once. */
  lemma EachOnce<W>(queue: seq<W>, closed: set<W>, i: nat, j: nat)
    requires i < j < |Open(queue, closed)|
    requires forall a, b | 0 <= a < b < |queue| :: queue[a] != queue[b]
    ensures NextGet(queue, closed, i) == Some(Open(queue, closed)[i])
    ensures NextGet(queue, closed, i) != NextGet(queue, closed, j)
  {
    hide Open, NextGet;
    RoundRobin(queue, closed, i);
    RoundRobin(queue, closed, j);
    OpenIsDistinct(queue, closed);
    var k := |Open(queue, closed)|;
    assert i % k == i && j % k == j;
  }

  lemma {:induction false} OpenIsDistinct<W>(queue: seq<W>, closed: set<W>)
    requires forall a, b | 0 <= a < b < |queue| :: queue[a] != queue[b]
    ensures forall a, b | 0 <= a < b < |Open(queue, closed)| :: Open(queue, closed)[a] != Open(queue, closed)[b]
    ensures forall w :: w in Open(queue, closed) ==> w in queue && w !in closed
  {
    if queue != [] {
      assert forall i | 0 <= i < |queue[1..]| :: queue[1..][i] == queue[i + 1];
      OpenIsDistinct(queue[1..], closed);
      assert queue[0] !in queue[1..];
    }
  }

  // ---------- the manager ----------

  class TcpAgentManager {
    var agents: map<i32, seq<TcpAgentWorker>>

    ghost predicate Valid()
      reads this
    {
      forall h | h in agents :: |agents[h]| <= MAX_CONNECTIONS_PER_AGENT
    }

    constructor ()
      ensures Valid() && agents == map[]
    {
      agents := map[];
    }

    /** The queue of an agent; an agent without one has no workers. */
    function Queue(objHash: i32): seq<TcpAgentWorker>
      reads this
    {
      if objHash in agents then agents[objHash] else []
    }

    ghost function Closed(objHash: i32): set<TcpAgentWorker>
      reads this, Queue(objHash)
    {
      set w | w in Queue(objHash) && w.closed
    }

    /** `add`: a full pool silently keeps the worker out. */
    method Add(objHash: i32, worker: TcpAgentWorker) returns (count: nat)
      requires Valid()
      modifies this
      ensures Valid() && count == |Queue(objHash)| <= 50
      ensures Queue(objHash)
           == old(Queue(objHash)) + if |old(Queue(objHash))| < 50 then [worker] else []
      ensures forall h | h != objHash :: Queue(h) == old(Queue(h))
    {
      if objHash !in agents {
        agents := agents[objHash := []];
      }
      if |agents[objHash]| < MAX_CONNECTIONS_PER_AGENT {
        agents := agents[objHash := agents[objHash] + [worker]];
      }
      count := |agents[objHash]|;
    }

    /** `get`. */
    method Get(objHash: i32) returns (r: Option<TcpAgentWorker>)
      requires Valid()
      modifies this
      ensures Valid() && r == FirstOpen(old(Queue(objHash)), old(Closed(objHash)))
      ensures Queue(objHash) == Rotated(old(Queue(objHash)), old(Closed(objHash)))
      ensures r.Some? ==> !r.value.closed
      ensures r.None? ==> forall w | w in old(Queue(objHash)) :: w.closed
      ensures forall h | h != objHash :: Queue(h) == old(Queue(h))
    {
      ghost var queue, closed := Queue(objHash), Closed(objHash);
      if objHash in agents {
        while agents[objHash] != []
          invariant objHash in agents && |agents[objHash]| <= |queue|
          invariant forall h | h in agents && h != objHash :: h in old(agents) && agents[h] == old(agents)[h]
          invariant forall h | h in old(agents) :: h in agents
          invariant forall w | w in agents[objHash] :: w in queue
          invariant forall w | w in queue && w !in agents[objHash] :: w.closed
          invariant Rotated(agents[objHash], closed) == Rotated(queue, closed)
          invariant FirstOpen(agents[objHash], closed) == FirstOpen(queue, closed)
          decreases |agents[objHash]|
        {
          var worker := agents[objHash][0];
          agents := agents[objHash := agents[objHash][1..]];
          if !worker.closed {
            agents := agents[objHash := agents[objHash] + [worker]];
            return Some(worker);
          }
        }
      }
      r := None;
    }

    /** `remove`: every connection of the agent is closed. */
    method Remove(objHash: i32)
      requires Valid()
      modifies this, Queue(objHash)
      ensures Valid() && Queue(objHash) == []
      ensures forall w | w in old(Queue(objHash)) :: w.closed
      ensures forall h | h != objHash :: Queue(h) == old(Queue(h))
    {
      if objHash in agents {
        var workers := agents[objHash];
        agents := agents - {objHash};
        for i := 0 to |workers|
          invariant forall j | 0 <= j < i :: workers[j].closed
          invariant agents == old(agents) - {objHash}
        {
          workers[i].Close();
        }
      }
    }
  }
}
