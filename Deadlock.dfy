/**
 * The wait-for graph of the lock manager and its deadlock test (`detectDeadlock`,
 * lab/src/LockManager.java:187-227): Kahn's topological consumption over the transactions
 * that appear in the transaction registry, proved to report exactly the graphs that contain
 * a cycle.
 */
module Deadlock {

  datatype TransactionId = TransactionId(id: int)

  /** `waitForGraph`: a waiting transaction to the transactions it waits behind. */
  type Graph = map<TransactionId, set<TransactionId>>

  /** The transactions of `among` that wait for `x`. */
  ghost function WaitersOf(x: TransactionId, among: set<TransactionId>, g: Graph): set<TransactionId>
  {
    set y | y in among && y in g && x in g[y]
  }

  /**
   * Every edge leaving a registered transaction ends at a registered transaction. Without
   * it, `indegree.get(waiteeTid)` returns null and the unboxing at line 198 fails.
   */
  ghost predicate TargetsRegistered(nodes: set<TransactionId>, g: Graph)
  {
    forall y :: y in nodes && y in g ==> g[y] <= nodes
  }

  /** `c` is a cycle of waits among `nodes`: each waits for the next, the last for the first. */
  ghost predicate IsCycle(nodes: set<TransactionId>, g: Graph, c: seq<TransactionId>)
  {
    && |c| > 0
    && (forall i :: 0 <= i < |c| ==> c[i] in nodes && c[i] in g)
    && (forall i {:trigger g[c[i]]} :: 0 <= i < |c| ==> c[Succ(i, |c|)] in g[c[i]])
  }

  /** The position after `i` on a cycle of length `n`. */
  function Succ(i: nat, n: nat): nat
  {
    if i + 1 < n then i + 1 else 0
  }

  ghost predicate HasCycle(nodes: set<TransactionId>, g: Graph)
  {
    exists c :: IsCycle(nodes, g, c)
  }

  /**
   * A non-empty set of transactions each of which waits for a member of the set: what
   * Kahn's consumption can never dequeue.
   */
  ghost predicate Stuck(nodes: set<TransactionId>, g: Graph, s: set<TransactionId>)
  {
    && s != {}
    && s <= nodes
    && forall x :: x in s ==> WaitersOf(x, s, g) != {}
  }

  /** Removing one candidate waiter removes at most that waiter from the waiters of `x`. */
  lemma WaitersWithout(x: TransactionId, a: set<TransactionId>, w: TransactionId, g: Graph)
    ensures WaitersOf(x, a - {w}, g) == WaitersOf(x, a, g) - {w}
    ensures |WaitersOf(x, a, g)| == |WaitersOf(x, a - {w}, g)| + (if w in a && w in g && x in g[w] then 1 else 0)
  {
    if w in a && w in g && x in g[w] {
      assert WaitersOf(x, a, g) == WaitersOf(x, a - {w}, g) + {w};
    } else {
      assert WaitersOf(x, a, g) == WaitersOf(x, a - {w}, g);
    }
  }

  /** `indegree[x]` counts the waiters of `x` among `among`, for every registered `x`. */
  ghost predicate IndegreesCount(indegree: map<TransactionId, int>, nodes: set<TransactionId>,
                                 among: set<TransactionId>, g: Graph)
  {
    && indegree.Keys == nodes
    && forall x :: x in nodes ==> indegree[x] == |WaitersOf(x, among, g)|
  }

  /** The queue holds distinct registered transactions, none dequeued yet, all of indegree 0. */
  ghost predicate QueueWellFormed(queue: seq<TransactionId>, nodes: set<TransactionId>,
                                  done: set<TransactionId>, indegree: map<TransactionId, int>)
  {
    && (forall i :: 0 <= i < |queue| ==>
          queue[i] in nodes && queue[i] !in done && queue[i] in indegree && indegree[queue[i]] == 0)
    && (forall i, j :: 0 <= i < j < |queue| ==> queue[i] != queue[j])
  }

  /** Lines 191-193: every registered transaction starts at indegree 0. */
  method ZeroIndegrees(nodes: set<TransactionId>, g: Graph) returns (indegree: map<TransactionId, int>)
    ensures IndegreesCount(indegree, nodes, {}, g)
  {
    indegree := map[];
    var rest := nodes;
    while rest != {}
      invariant rest <= nodes
      invariant indegree.Keys == nodes - rest
      invariant forall t :: t in indegree ==> indegree[t] == 0
      decreases rest
    {
      var t :| t in rest;
      if t !in indegree {
        indegree := indegree[t := 0];
      }
      rest := rest - {t};
    }
    assert forall x :: x in nodes ==> WaitersOf(x, {}, g) == {};
  }

  /** Lines 196-200 for one registered `waiter`: each transaction it waits for gains one. */
  method CountWaiter(waiter: TransactionId, nodes: set<TransactionId>, g: Graph,
                     ghost before: set<TransactionId>, indegree0: map<TransactionId, int>)
    returns (indegree: map<TransactionId, int>)
    requires TargetsRegistered(nodes, g)
    requires waiter in nodes && waiter !in before
    requires IndegreesCount(indegree0, nodes, before, g)
    ensures IndegreesCount(indegree, nodes, before + {waiter}, g)
  {
    indegree := indegree0;
    if waiter in g {
      var targets := g[waiter];
      while targets != {}
        invariant targets <= g[waiter] <= nodes
        invariant indegree.Keys == nodes
        invariant forall x :: x in nodes ==>
          indegree[x] == |WaitersOf(x, before, g)| + (if x in g[waiter] && x !in targets then 1 else 0)
        decreases targets
      {
        var waitee :| waitee in targets;
        indegree := indegree[waitee := indegree[waitee] + 1];
        targets := targets - {waitee};
      }
    }
    assert (before + {waiter}) - {waiter} == before;
    forall x | x in nodes
      ensures indegree[x] == |WaitersOf(x, before + {waiter}, g)|
    {
      WaitersWithout(x, before + {waiter}, waiter, g);
    }
  }

  /** Lines 188-201: the indegree of each registered transaction is its number of registered waiters. */
  method CountIndegrees(nodes: set<TransactionId>, g: Graph) returns (indegree: map<TransactionId, int>)
    requires TargetsRegistered(nodes, g)
    ensures IndegreesCount(indegree, nodes, nodes, g)
  {
    indegree := ZeroIndegrees(nodes, g);
    var rest := nodes;
    while rest != {}
      invariant rest <= nodes
      invariant IndegreesCount(indegree, nodes, nodes - rest, g)
      decreases rest
    {
      var waiter :| waiter in rest;
      indegree := CountWaiter(waiter, nodes, g, nodes - rest, indegree);
      assert nodes - (rest - {waiter}) == (nodes - rest) + {waiter};
      rest := rest - {waiter};
    }
    assert nodes - {} == nodes;
  }

  /** Lines 203-207: the queue is seeded with every registered transaction of indegree 0. */
  method SeedQueue(nodes: set<TransactionId>, indegree: map<TransactionId, int>) returns (queue: seq<TransactionId>)
    requires indegree.Keys == nodes
    ensures QueueWellFormed(queue, nodes, {}, indegree)
    ensures forall x :: x in nodes && indegree[x] == 0 ==> x in queue
  {
    queue := [];
    var rest := nodes;
    while rest != {}
      invariant rest <= nodes
      invariant QueueWellFormed(queue, nodes - rest, {}, indegree)
      invariant forall x :: x in nodes - rest && indegree[x] == 0 ==> x in queue
      decreases rest
    {
      var t :| t in rest;
      if indegree[t] == 0 {
        queue := queue + [t];
      }
      rest := rest - {t};
    }
  }

  /**
   * Lines 217-224, for the transaction `waiter` just dequeued: each transaction it waits for
   * loses one from its indegree and joins the queue on reaching 0.
   */
  method ReleaseWaitees(waiter: TransactionId, nodes: set<TransactionId>, g: Graph,
                        indegree0: map<TransactionId, int>, queue0: seq<TransactionId>,
                        ghost done: set<TransactionId>)
    returns (indegree: map<TransactionId, int>, queue: seq<TransactionId>)
    requires TargetsRegistered(nodes, g)
    requires waiter in done && done <= nodes
    requires indegree0.Keys == nodes
    requires forall x :: x in nodes ==>
      indegree0[x] == |WaitersOf(x, nodes - done, g)| + (if waiter in g && x in g[waiter] then 1 else 0)
    requires QueueWellFormed(queue0, nodes, done, indegree0)
    requires forall x :: x in nodes && x !in done && indegree0[x] == 0 && !(waiter in g && x in g[waiter]) ==> x in queue0
    requires forall x :: x in done ==> WaitersOf(x, nodes, g) <= done - {waiter}
    ensures IndegreesCount(indegree, nodes, nodes - done, g)
    ensures QueueWellFormed(queue, nodes, done, indegree)
    ensures forall x :: x in nodes && x !in done && indegree[x] == 0 ==> x in queue
  {
    indegree, queue := indegree0, queue0;
    if waiter in g {
      var targets := g[waiter];
      while targets != {}
        invariant targets <= g[waiter] <= nodes
        invariant indegree.Keys == nodes
        invariant forall x :: x in nodes ==>
          indegree[x] == |WaitersOf(x, nodes - done, g)| + (if x in targets then 1 else 0)
        invariant QueueWellFormed(queue, nodes, done, indegree)
        invariant forall x :: x in nodes && x !in done && indegree[x] == 0 && x !in targets ==> x in queue
        decreases targets
      {
        var waitee :| waitee in targets;
        assert waiter in WaitersOf(waitee, nodes, g);
        assert waitee !in queue;
        if indegree[waitee] != 0 {
          indegree := indegree[waitee := indegree[waitee] - 1];
        }
        if indegree[waitee] == 0 {
          queue := queue + [waitee];
        }
        targets := targets - {waitee};
      }
    }
  }

  /** What holds of the consumption loop of lines 210-225 between iterations. */
  ghost predicate Consuming(nodes: set<TransactionId>, g: Graph, done: set<TransactionId>,
                            indegree: map<TransactionId, int>, queue: seq<TransactionId>)
  {
    && TargetsRegistered(nodes, g)
    && done <= nodes
    && IndegreesCount(indegree, nodes, nodes - done, g)
    && QueueWellFormed(queue, nodes, done, indegree)
    && (forall x :: x in nodes && x !in done && indegree[x] == 0 ==> x in queue)
    && (forall x :: x in done ==> WaitersOf(x, nodes, g) <= done)
    && (forall s :: Stuck(nodes, g, s) ==> s !! done)
  }

  /** One iteration of lines 211-224: poll a transaction and release the ones it waits for. */
  method ConsumeOne(nodes: set<TransactionId>, g: Graph, ghost done0: set<TransactionId>,
                    indegree0: map<TransactionId, int>, queue0: seq<TransactionId>)
    returns (ghost done: set<TransactionId>, indegree: map<TransactionId, int>, queue: seq<TransactionId>)
    requires Consuming(nodes, g, done0, indegree0, queue0) && queue0 != []
    ensures Consuming(nodes, g, done, indegree, queue)
    ensures done0 < done <= nodes && |done| == |done0| + 1
  {
    var waiter := queue0[0];
    done := done0 + {waiter};
    DequeueStep(nodes, g, done0, waiter, indegree0);
    indegree, queue := ReleaseWaitees(waiter, nodes, g, indegree0, queue0[1..], done);
  }

  /**
   * `detectDeadlock`: indegrees over the registered transactions (lines 188-201), a queue
   * seeded with the indegree-0 ones (203-207), and the consumption loop (209-225). The
   * result is `count != transactions.size()`.
   */
  method DetectDeadlock<V>(transactions: map<TransactionId, V>, waitForGraph: Graph) returns (deadlock: bool)
    requires TargetsRegistered(transactions.Keys, waitForGraph)
    ensures deadlock <==> HasCycle(transactions.Keys, waitForGraph)
  {
    var nodes := transactions.Keys;
    var g := waitForGraph;
    var indegree := CountIndegrees(nodes, g);
    var queue := SeedQueue(nodes, indegree);
    assert nodes - {} == nodes;

    var count := 0;
    ghost var done: set<TransactionId> := {};
    while queue != []
      invariant Consuming(nodes, g, done, indegree, queue)
      invariant count == |done|
      decreases nodes - done
    {
      done, indegree, queue := ConsumeOne(nodes, g, done, indegree, queue);
      count := count + 1;
    }

    deadlock := count != |transactions|;
    assert |transactions| == |nodes|;
    KahnVerdict(nodes, g, done, indegree);
  }

  /**
   * Dequeuing `waiter` (its indegree is 0): every waiter of it was dequeued before, no stuck
   * set contains it, and the remaining indegrees still count `waiter` among their waiters.
   */
  lemma DequeueStep(nodes: set<TransactionId>, g: Graph, prev: set<TransactionId>,
                    waiter: TransactionId, indegree: map<TransactionId, int>)
    requires prev <= nodes && waiter in nodes && waiter !in prev
    requires IndegreesCount(indegree, nodes, nodes - prev, g)
    requires indegree[waiter] == 0
    requires forall s :: Stuck(nodes, g, s) ==> s !! prev
    ensures WaitersOf(waiter, nodes, g) <= prev
    ensures forall s :: Stuck(nodes, g, s) ==> s !! (prev + {waiter})
    ensures forall x :: x in nodes ==>
      indegree[x] == |WaitersOf(x, nodes - (prev + {waiter}), g)| + (if waiter in g && x in g[waiter] then 1 else 0)
  {
    assert WaitersOf(waiter, nodes - prev, g) == {};
    forall y | y in WaitersOf(waiter, nodes, g)
      ensures y in prev
    {
      assert y !in prev ==> y in WaitersOf(waiter, nodes - prev, g);
    }
    assert nodes - (prev + {waiter}) == (nodes - prev) - {waiter};
    forall x | x in nodes
      ensures indegree[x] == |WaitersOf(x, nodes - (prev + {waiter}), g)| + (if waiter in g && x in g[waiter] then 1 else 0)
    {
      WaitersWithout(x, nodes - prev, waiter, g);
    }
  }

  /**
   * When the queue runs dry, the dequeued set `done` is everything exactly when no cycle
   * exists: the rest is stuck, and a cycle would be a stuck set disjoint from `done`.
   */
  lemma KahnVerdict(nodes: set<TransactionId>, g: Graph, done: set<TransactionId>,
                    indegree: map<TransactionId, int>)
    requires done <= nodes
    requires forall s :: Stuck(nodes, g, s) ==> s !! done
    requires IndegreesCount(indegree, nodes, nodes - done, g)
    requires forall x :: x in nodes && x !in done ==> indegree[x] != 0
    ensures |done| != |nodes| <==> HasCycle(nodes, g)
  {
    if |done| == |nodes| {
      assert |nodes - done| == |nodes| - |done|;
      assert nodes == done;
      if HasCycle(nodes, g) {
        var s := CycleIsStuck(nodes, g);
        assert false;
      }
    } else {
      var r := nodes - done;
      assert r == {} ==> nodes == done;
      assert Stuck(nodes, g, r);
      StuckHasCycle(nodes, g, r);
    }
  }

  /** The transactions on a cycle form a stuck set. */
  lemma CycleIsStuck(nodes: set<TransactionId>, g: Graph) returns (s: set<TransactionId>)
    requires HasCycle(nodes, g)
    ensures Stuck(nodes, g, s)
  {
    var c :| IsCycle(nodes, g, c);
    s := set i | 0 <= i < |c| :: c[i];
    assert c[0] in s;
    forall x | x in s
      ensures WaitersOf(x, s, g) != {}
    {
      var i :| 0 <= i < |c| && c[i] == x;
      var j := if i == 0 then |c| - 1 else i - 1;
      assert Succ(j, |c|) == i;
      assert c[Succ(j, |c|)] in g[c[j]];
      assert c[j] in WaitersOf(x, s, g);
    }
  }

  /** A walk of `n` steps that goes backwards along waits, from each transaction to one it is waited for by. */
  lemma {:induction false} BackwardWalk(nodes: set<TransactionId>, g: Graph, s: set<TransactionId>, n: nat)
    returns (w: seq<TransactionId>)
    requires Stuck(nodes, g, s)
    ensures |w| == n + 1
    ensures forall k :: 0 <= k < |w| ==> w[k] in s
    ensures forall k :: 0 < k <= n ==> w[k] in g && w[k - 1] in g[w[k]]
  {
    if n == 0 {
      var x :| x in s;
      w := [x];
    } else {
      var v := BackwardWalk(nodes, g, s, n - 1);
      var x := v[n - 1];
      var y :| y in WaitersOf(x, s, g);
      w := v + [y];
    }
  }

  /** A sequence without repetitions has as many distinct elements as it is long. */
  lemma {:induction false} DistinctCard(w: seq<TransactionId>)
    requires forall i, j :: 0 <= i < j < |w| ==> w[i] != w[j]
    ensures |set k | 0 <= k < |w| :: w[k]| == |w|
  {
    if w != [] {
      var v := w[..|w| - 1];
      DistinctCard(v);
      var sv := set k | 0 <= k < |v| :: v[k];
      var sw := set k | 0 <= k < |w| :: w[k];
      assert sw == sv + {w[|w| - 1]};
      assert w[|w| - 1] !in sv;
    }
  }

  /** A sequence without repetitions inside `s` is no longer than `s` has elements. */
  lemma DistinctBound(w: seq<TransactionId>, s: set<TransactionId>)
    requires forall k :: 0 <= k < |w| ==> w[k] in s
    requires forall i, j :: 0 <= i < j < |w| ==> w[i] != w[j]
    ensures |w| <= |s|
  {
    DistinctCard(w);
    var sw := set k | 0 <= k < |w| :: w[k];
    assert s == sw + (s - sw);
  }

  /** A walk longer than the set it stays in visits some transaction twice. */
  lemma Pigeonhole(w: seq<TransactionId>, s: set<TransactionId>) returns (i: nat, j: nat)
    requires forall k :: 0 <= k < |w| ==> w[k] in s
    requires |w| > |s|
    ensures i < j < |w| && w[i] == w[j]
  {
    if forall a, b :: 0 <= a < b < |w| ==> w[a] != w[b] {
      DistinctBound(w, s);
      assert false;
    }
    var a, b :| 0 <= a < b < |w| && w[a] == w[b];
    i, j := a, b;
  }

  /** A stuck set contains a cycle: walk backwards until a transaction repeats. */
  lemma StuckHasCycle(nodes: set<TransactionId>, g: Graph, s: set<TransactionId>)
    requires Stuck(nodes, g, s)
    ensures HasCycle(nodes, g)
  {
    var w := BackwardWalk(nodes, g, s, |s|);
    var i, j := Pigeonhole(w, s);
    var c := seq(j - i, m requires 0 <= m < j - i => w[j - m]);
    forall m | 0 <= m < |c|
      ensures c[Succ(m, |c|)] in g[c[m]]
    {
      assert c[m] == w[j - m] && 0 < j - m <= |s|;
      if m + 1 < |c| {
        assert c[m + 1] == w[j - m - 1];
      } else {
        assert c[m] == w[i + 1] && c[0] == w[j] == w[i];
      }
    }
    assert IsCycle(nodes, g, c);
  }

  /** The algorithm's verdict is structural: a cycle exists exactly when some set is stuck. */
  lemma CycleIffStuck(nodes: set<TransactionId>, g: Graph)
    ensures HasCycle(nodes, g) <==> exists s :: Stuck(nodes, g, s)
  {
    if HasCycle(nodes, g) {
      var s := CycleIsStuck(nodes, g);
    }
    if s :| Stuck(nodes, g, s) {
      StuckHasCycle(nodes, g, s);
    }
  }
}
