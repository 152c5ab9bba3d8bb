/**
 * The page lock table of lab/src/LockManager.java: per-page exclusive and shared locks, the
 * pages each transaction has locked, and the wait-for graph consulted for deadlocks.
 *
 * `acquire` is one pass of its `while` loop with the blocking taken out: the pass either
 * grants the lock, or records the wait-for edges and must wait, or finds a deadlock and
 * aborts. The behaviour of every operation is stated by a specification function over a
 * `Table` value, and the properties are lemmas about those functions; the class
 * `LockManager` updates its maps in place and is proved equal to them.
 */
module LockManagers {
  import opened Common
  import opened Deadlock
  import opened Tuples

  datatype Permission = ReadOnly | ReadWrite

  /** The locks on one page (`LocksOnPage`, lines 12-56). */
  datatype LocksOnPage = LocksOnPage(exclusiveLock: Option<TransactionId>, sharedLocks: set<TransactionId>)
  {
    /** Every transaction holding a lock of either kind. */
    function Holders(): set<TransactionId>
    {
      sharedLocks + (if exclusiveLock.Some? then {exclusiveLock.value} else {})
    }

    predicate HasExclusiveLock() { exclusiveLock.Some? }

    /** As written, true when the shared set is EMPTY (line 26); nothing in the class calls it. */
    predicate HasSharedLocks() { sharedLocks == {} }

    function AddExclusiveLock(tid: TransactionId): (r: LocksOnPage)
      ensures r.exclusiveLock == Some(tid) && r.sharedLocks == sharedLocks
    {
      LocksOnPage(Some(tid), sharedLocks)
    }

    function AddSharedLock(tid: TransactionId): (r: LocksOnPage)
      ensures r.exclusiveLock == exclusiveLock
      ensures r.Holders() == Holders() + {tid} && tid in r.sharedLocks
    {
      LocksOnPage(exclusiveLock, sharedLocks + {tid})
    }

    /** Clears the exclusive lock only when `tid` is its holder. */
    function RemoveExclusiveLock(tid: TransactionId): (r: LocksOnPage)
      ensures r.sharedLocks == sharedLocks
      ensures r.exclusiveLock != Some(tid)
      ensures exclusiveLock != Some(tid) ==> r == this
    {
      if exclusiveLock == Some(tid) then LocksOnPage(None, sharedLocks) else this
    }

    function RemoveSharedLock(tid: TransactionId): (r: LocksOnPage)
      ensures r.exclusiveLock == exclusiveLock
      ensures tid !in r.sharedLocks && r.sharedLocks + (sharedLocks * {tid}) == sharedLocks
    {
      if tid in sharedLocks then LocksOnPage(exclusiveLock, sharedLocks - {tid}) else this
    }
  }

  const NoLocks := LocksOnPage(None, {})

  /** The three maps of the lock manager (lines 8-10). */
  datatype Table = Table(
    locks: map<PageId, LocksOnPage>,
    transactions: map<TransactionId, set<PageId>>,
    waitForGraph: Graph)

  /** The outcome of one pass of `acquire`; `Aborted` is the `TransactionAbortedException`. */
  datatype Outcome = Granted | MustWait | Aborted

  datatype Attempt = Attempt(outcome: Outcome, table: Table)

  /** `isLocked(pid)` (lines 165-174). */
  function IsLocked(locks: map<PageId, LocksOnPage>, pid: PageId): (b: bool)
    ensures b <==> pid in locks && locks[pid].Holders() != {}
  {
    if pid in locks then
      if locks[pid].exclusiveLock.Some? then true else |locks[pid].sharedLocks| > 0
    else false
  }

  /** `isLocked(tid, pid)` (lines 176-185). */
  function IsLockedBy(locks: map<PageId, LocksOnPage>, tid: TransactionId, pid: PageId): (b: bool)
    ensures b <==> pid in locks && tid in locks[pid].Holders()
  {
    if pid in locks then
      if locks[pid].exclusiveLock == Some(tid) then true else tid in locks[pid].sharedLocks
    else false
  }

  /** No page is locked exclusively while it also has shared holders. */
  ghost predicate MutuallyExclusive(t: Table)
  {
    forall p :: p in t.locks && t.locks[p].exclusiveLock.Some? ==> t.locks[p].sharedLocks == {}
  }

  /**
   * Every lock holder is registered and lists the page; every waiting transaction and every
   * transaction waited for is registered. The last part is what `detectDeadlock` needs.
   */
  ghost predicate Registered(t: Table)
  {
    && (forall p, h :: p in t.locks && h in t.locks[p].Holders() ==>
          h in t.transactions && p in t.transactions[h])
    && GraphRegistered(t)
  }

  /** Every waiting transaction and every transaction waited for is registered. */
  ghost predicate GraphRegistered(t: Table)
  {
    && t.waitForGraph.Keys <= t.transactions.Keys
    && TargetsRegistered(t.transactions.Keys, t.waitForGraph)
  }

  ghost predicate Valid(t: Table)
  {
    MutuallyExclusive(t) && Registered(t)
  }

  /** Lines 65-66: an empty lock entry for `pid` and an empty page set for `tid`, if missing. */
  function Enter(t: Table, tid: TransactionId, pid: PageId): (r: Table)
    ensures r.locks.Keys == t.locks.Keys + {pid} && r.transactions.Keys == t.transactions.Keys + {tid}
    ensures forall p :: p in t.locks ==> r.locks[p] == t.locks[p]
    ensures forall u :: u in t.transactions ==> r.transactions[u] == t.transactions[u]
    ensures r.waitForGraph == t.waitForGraph
  {
    Table(
      if pid in t.locks then t.locks else t.locks[pid := NoLocks],
      if tid in t.transactions then t.transactions else t.transactions[tid := {}],
      t.waitForGraph)
  }

  /** The transactions `tid` would wait behind on a page locked as `cur`. */
  function OtherHolders(cur: LocksOnPage, tid: TransactionId): set<TransactionId>
  {
    cur.Holders() - {tid}
  }

  function EdgesOf(g: Graph, tid: TransactionId): set<TransactionId>
  {
    if tid in g then g[tid] else {}
  }

  /**
   * Lines 77-91 and 105-111: record that `tid` waits for `others`; when that closes a cycle
   * among the registered transactions, take those edges out again and abort.
   */
  ghost function WaitOrAbort(t: Table, tid: TransactionId, others: set<TransactionId>): (a: Attempt)
    ensures a.outcome != Granted
    ensures a.table.locks == t.locks && a.table.transactions == t.transactions
    ensures a.table.waitForGraph.Keys == t.waitForGraph.Keys + {tid}
    ensures forall u :: u in t.waitForGraph && u != tid ==> a.table.waitForGraph[u] == t.waitForGraph[u]
    ensures a.outcome == MustWait ==> others <= a.table.waitForGraph[tid]
    ensures a.outcome == Aborted ==> a.table.waitForGraph[tid] == EdgesOf(t.waitForGraph, tid) - others
  {
    var g := t.waitForGraph[tid := EdgesOf(t.waitForGraph, tid) + others];
    if HasCycle(t.transactions.Keys, g) then
      Attempt(Aborted, t.(waitForGraph := t.waitForGraph[tid := (EdgesOf(t.waitForGraph, tid) + others) - others]))
    else
      Attempt(MustWait, t.(waitForGraph := g))
  }

  /** `upgrade` (lines 127-135): the sole shared holder becomes the exclusive holder. */
  function UpgradeStep(t: Table, tid: TransactionId, pid: PageId): (r: (bool, Table))
    requires pid in t.locks
    ensures r.0 <==> |t.locks[pid].sharedLocks| == 1
    ensures r.1.transactions == t.transactions && r.1.waitForGraph == t.waitForGraph
    ensures r.1.locks.Keys == t.locks.Keys
    ensures forall p :: p in t.locks && p != pid ==> r.1.locks[p] == t.locks[p]
    ensures r.0 ==> r.1.locks[pid].exclusiveLock == Some(tid) && tid !in r.1.locks[pid].sharedLocks
    ensures !r.0 ==> r.1 == t
  {
    var cur := t.locks[pid];
    if |cur.sharedLocks| == 1 then
      (true, t.(locks := t.locks[pid := cur.RemoveSharedLock(tid).AddExclusiveLock(tid)]))
    else
      (false, t)
  }

  /** Lines 117-124: grant on a page nobody holds. */
  function Grant(t: Table, tid: TransactionId, pid: PageId, perm: Permission): (r: Table)
    requires pid in t.locks && tid in t.transactions
    ensures r.waitForGraph == t.waitForGraph
    ensures r.locks.Keys == t.locks.Keys && r.transactions.Keys == t.transactions.Keys
    ensures forall p :: p in t.locks && p != pid ==> r.locks[p] == t.locks[p]
    ensures forall u :: u in t.transactions && u != tid ==> r.transactions[u] == t.transactions[u]
    ensures r.transactions[tid] == t.transactions[tid] + {pid}
    ensures perm == ReadWrite ==> r.locks[pid] == LocksOnPage(Some(tid), t.locks[pid].sharedLocks)
    ensures perm == ReadOnly ==>
      r.locks[pid] == LocksOnPage(t.locks[pid].exclusiveLock, t.locks[pid].sharedLocks + {tid})
  {
    var cur := t.locks[pid];
    var locked := if perm == ReadWrite then cur.AddExclusiveLock(tid) else cur.AddSharedLock(tid);
    t.(locks := t.locks[pid := locked], transactions := t.transactions[tid := t.transactions[tid] + {pid}])
  }

  /** Which branch of one pass of `acquire` a request takes, given the page's locks. */
  datatype Decision =
    | GrantFree                            // lines 117-124: nobody holds the page
    | UpgradeSole                          // lines 72-74: the sole reader asks to write
    | AlreadyHeld                          // lines 93-94, 102-103: nothing to do
    | AddReader                            // lines 96-99: one more reader
    | Conflict(others: set<TransactionId>) // lines 77-91, 105-111: wait for `others`

  /** The branch structure of lines 69-116 on the page's current locks. */
  function Decide(cur: LocksOnPage, tid: TransactionId, perm: Permission): (d: Decision)
    ensures d == AlreadyHeld ==> tid in cur.Holders()
    ensures d == UpgradeSole ==> perm == ReadWrite && tid in cur.sharedLocks && |cur.sharedLocks| == 1
    ensures d == AddReader <==>
      perm.ReadOnly? && cur.exclusiveLock.None? && cur.sharedLocks != {} && tid !in cur.sharedLocks
    ensures d.Conflict? ==> tid !in d.others && d.others <= cur.Holders()
  {
    if cur.Holders() == {} then GrantFree
    else if !cur.HasExclusiveLock() then
      if perm == ReadWrite then
        if tid in cur.sharedLocks && |cur.sharedLocks| == 1 then UpgradeSole
        else Conflict(cur.sharedLocks - {tid})
      else if tid in cur.sharedLocks then AlreadyHeld
      else AddReader
    else if cur.exclusiveLock == Some(tid) then AlreadyHeld
    else Conflict({cur.exclusiveLock.value})
  }

  /** The pass once the entries of lines 65-66 exist. */
  ghost function Attempted(t: Table, tid: TransactionId, pid: PageId, perm: Permission): (a: Attempt)
    requires pid in t.locks && tid in t.transactions
    ensures a.table.locks.Keys == t.locks.Keys && a.table.transactions.Keys == t.transactions.Keys
    ensures a.outcome == Granted ==> tid in a.table.locks[pid].Holders()
    ensures a.outcome == Granted ==> a.table.waitForGraph == t.waitForGraph
    ensures a.outcome != Granted ==> a.table.locks == t.locks && a.table.transactions == t.transactions
  {
    match Decide(t.locks[pid], tid, perm)
    case GrantFree => Attempt(Granted, Grant(t, tid, pid, perm))
    case UpgradeSole => Attempt(Granted, UpgradeStep(t, tid, pid).1)
    case AlreadyHeld => Attempt(Granted, t)
    case AddReader => Attempt(Granted, Grant(t, tid, pid, ReadOnly))
    case Conflict(others) => WaitOrAbort(t, tid, others)
  }

  /** One pass of `acquire` (lines 64-125), blocking removed. */
  ghost function AcquireStep(t: Table, tid: TransactionId, pid: PageId, perm: Permission): (a: Attempt)
    ensures a.table.locks.Keys == t.locks.Keys + {pid}
    ensures a.table.transactions.Keys == t.transactions.Keys + {tid}
    ensures a.outcome == Granted ==> tid in a.table.locks[pid].Holders()
    ensures a.outcome != Granted ==>
      a.table.locks == Enter(t, tid, pid).locks && a.table.transactions == Enter(t, tid, pid).transactions
  {
    Attempted(Enter(t, tid, pid), tid, pid, perm)
  }

  /** `release` (lines 137-151): drops the page's whole entry, whoever else holds it. */
  function ReleaseStep(t: Table, tid: TransactionId, pid: PageId): (r: (bool, Table))
    ensures r.0 <==> pid in t.locks
    ensures r.1.locks.Keys == t.locks.Keys - {pid}
  {
    if pid in t.locks then (true, t.(locks := t.locks - {pid})) else (false, t)
  }

  /** `releaseAll` (lines 153-163). */
  function ReleaseAllStep(t: Table, tid: TransactionId): (r: Table)
    ensures r.locks.Keys == t.locks.Keys - PagesOf(t.transactions, tid)
    ensures r.waitForGraph.Keys == t.waitForGraph.Keys - {tid}
    ensures forall u :: u in r.waitForGraph ==> r.waitForGraph[u] == t.waitForGraph[u]
  {
    if tid in t.transactions then
      Table(t.locks - t.transactions[tid], t.transactions[tid := {}], t.waitForGraph - {tid})
    else
      t.(waitForGraph := t.waitForGraph - {tid})
  }

  // ---------------------------------------------------------------------------------------
  // Properties of one pass of acquire

  /** A set with two distinct members has at least two elements. */
  lemma TwoMembers(s: set<TransactionId>, a: TransactionId, b: TransactionId)
    requires a in s && b in s && a != b
    ensures |s| >= 2
  {
    assert s == {a, b} + (s - {a, b});
  }

  /**
   * On a page whose locks are mutually exclusive, a request conflicts exactly when some other
   * transaction holds the page and either a write is asked for or the holder is a writer;
   * `tid` then waits for every other holder.
   */
  lemma DecideConflicts(cur: LocksOnPage, tid: TransactionId, perm: Permission)
    requires cur.exclusiveLock.Some? ==> cur.sharedLocks == {}
    ensures Decide(cur, tid, perm).Conflict? <==>
      OtherHolders(cur, tid) != {} && cur.exclusiveLock != Some(tid) && (perm == ReadWrite || cur.exclusiveLock.Some?)
    ensures Decide(cur, tid, perm).Conflict? ==> Decide(cur, tid, perm).others == OtherHolders(cur, tid)
  {
    var o := OtherHolders(cur, tid);
    if cur.exclusiveLock.None? && perm == ReadWrite && o != {} {
      var u :| u in o;
      if tid in cur.sharedLocks {
        TwoMembers(cur.sharedLocks, tid, u);
      }
    }
  }

  /** The branch taken grants the lock in every case except a conflict. */
  lemma DecideGrants(cur: LocksOnPage, tid: TransactionId, perm: Permission)
    ensures Decide(cur, tid, perm) == GrantFree <==> cur.Holders() == {}
    ensures Decide(cur, tid, perm) == AlreadyHeld <==>
      cur.exclusiveLock == Some(tid) || (cur.exclusiveLock.None? && perm == ReadOnly && tid in cur.sharedLocks)
    ensures Decide(cur, tid, perm) == UpgradeSole <==>
      perm == ReadWrite && cur.exclusiveLock.None? && cur.sharedLocks == {tid}
  {
    if tid in cur.sharedLocks && |cur.sharedLocks| == 1 {
      assert cur.sharedLocks == {tid} by {
        forall u | u in cur.sharedLocks ensures u == tid {
          if u != tid { TwoMembers(cur.sharedLocks, tid, u); }
        }
      }
    }
  }

  lemma EnterValid(t: Table, tid: TransactionId, pid: PageId)
    requires Valid(t)
    ensures Valid(Enter(t, tid, pid))
  {
    var e := Enter(t, tid, pid);
    forall p, h | p in e.locks && h in e.locks[p].Holders()
      ensures h in e.transactions && p in e.transactions[h]
    {
      assert p in t.locks;
    }
  }

  /** A pass never breaks mutual exclusion nor the registration `detectDeadlock` relies on. */
  lemma AcquirePreservesValid(t: Table, tid: TransactionId, pid: PageId, perm: Permission)
    requires Valid(t)
    ensures Valid(AcquireStep(t, tid, pid, perm).table)
  {
    var e := Enter(t, tid, pid);
    EnterValid(t, tid, pid);
    var cur := e.locks[pid];
    DecideGrants(cur, tid, perm);
    match Decide(cur, tid, perm)
    case GrantFree => GrantValid(e, tid, pid, perm);
    case UpgradeSole => UpgradePreservesValid(e, tid, pid);
    case AlreadyHeld =>
    case AddReader => GrantValid(e, tid, pid, ReadOnly);
    case Conflict(others) =>
      DecideConflicts(cur, tid, perm);
      assert others <= cur.Holders();
      WaitOrAbortValid(e, tid, others);
  }

  lemma GrantValid(t: Table, tid: TransactionId, pid: PageId, perm: Permission)
    requires Valid(t) && pid in t.locks && tid in t.transactions
    requires perm == ReadWrite ==> t.locks[pid].Holders() == {}
    requires t.locks[pid].exclusiveLock == None
    ensures Valid(Grant(t, tid, pid, perm))
  {
    var r := Grant(t, tid, pid, perm);
    forall p, h | p in r.locks && h in r.locks[p].Holders()
      ensures h in r.transactions && p in r.transactions[h]
    {
      if p != pid {
        assert h in t.locks[p].Holders();
      } else if h != tid {
        assert h in t.locks[pid].Holders();
      }
    }
  }

  lemma WaitOrAbortValid(t: Table, tid: TransactionId, others: set<TransactionId>)
    requires Valid(t) && tid in t.transactions && others <= t.transactions.Keys
    ensures Valid(WaitOrAbort(t, tid, others).table)
  {
  }

  /** The pages `tid` is registered with, or none when it is unknown. */
  function PagesOf(ts: map<TransactionId, set<PageId>>, tid: TransactionId): set<PageId>
  {
    if tid in ts then ts[tid] else {}
  }

  /** Lines 117-124: on a page nobody holds the request is granted at once. */
  lemma AcquireUnlockedGrants(t: Table, tid: TransactionId, pid: PageId, perm: Permission)
    requires !IsLocked(t.locks, pid)
    ensures AcquireStep(t, tid, pid, perm).outcome == Granted
    ensures var r := AcquireStep(t, tid, pid, perm).table;
      && r.locks == t.locks[pid := if perm == ReadWrite then LocksOnPage(Some(tid), {}) else LocksOnPage(None, {tid})]
      && r.transactions == t.transactions[tid := PagesOf(t.transactions, tid) + {pid}]
      && r.waitForGraph == t.waitForGraph
  {
    var e := Enter(t, tid, pid);
    EnterUnlocked(t, tid, pid);
    assert Decide(NoLocks, tid, perm) == GrantFree;
    assert AcquireStep(t, tid, pid, perm) == Attempt(Granted, Grant(e, tid, pid, perm));
    var x := if perm == ReadWrite then LocksOnPage(Some(tid), {}) else LocksOnPage(None, {tid});
    assert NoLocks.AddSharedLock(tid) == LocksOnPage(None, {tid});
    assert Grant(e, tid, pid, perm).locks == e.locks[pid := x];
    if pid !in t.locks {
      Overwrite(t.locks, pid, NoLocks, x);
    }
    if tid !in t.transactions {
      Overwrite(t.transactions, tid, {}, {pid});
    }
  }

  /** The entry of an unlocked page, once entered, holds no locks at all. */
  lemma EnterUnlocked(t: Table, tid: TransactionId, pid: PageId)
    requires !IsLocked(t.locks, pid)
    ensures Enter(t, tid, pid).locks[pid] == NoLocks
    ensures Enter(t, tid, pid).transactions[tid] == PagesOf(t.transactions, tid)
  {
    if pid in t.locks {
      assert t.locks[pid].sharedLocks <= t.locks[pid].Holders();
    }
  }

  /**
   * Lines 93-94 and 102-103: a request by the exclusive holder, or a READ_ONLY request by a
   * shared holder, is granted without any change.
   */
  lemma ReRequestUnchanged(t: Table, tid: TransactionId, pid: PageId, perm: Permission)
    requires Valid(t)
    requires pid in t.locks
    requires t.locks[pid].exclusiveLock == Some(tid) || (perm == ReadOnly && tid in t.locks[pid].sharedLocks)
    ensures AcquireStep(t, tid, pid, perm) == Attempt(Granted, t)
  {
    assert tid in t.locks[pid].Holders();
    assert Enter(t, tid, pid) == t;
  }

  /**
   * Lines 72-74 with 127-135: the sole shared holder asking READ_WRITE becomes the exclusive
   * holder and leaves the shared set; nothing else changes.
   */
  lemma AcquireUpgradesSoleReader(t: Table, tid: TransactionId, pid: PageId)
    requires Registered(t)
    requires pid in t.locks && t.locks[pid] == LocksOnPage(None, {tid})
    ensures AcquireStep(t, tid, pid, ReadWrite)
         == Attempt(Granted, t.(locks := t.locks[pid := LocksOnPage(Some(tid), {})]))
  {
    assert tid in t.locks[pid].Holders();
    assert Enter(t, tid, pid) == t;
    assert |t.locks[pid].sharedLocks| == 1;
  }

  /** `upgrade` succeeds exactly for a single shared holder, and otherwise changes nothing. */
  lemma UpgradeOnlyForSoleReader(t: Table, tid: TransactionId, pid: PageId)
    requires pid in t.locks && tid in t.locks[pid].sharedLocks
    ensures UpgradeStep(t, tid, pid).0 <==> t.locks[pid].sharedLocks == {tid}
    ensures UpgradeStep(t, tid, pid).0 ==>
      UpgradeStep(t, tid, pid).1.locks == t.locks[pid := LocksOnPage(Some(tid), {})]
    ensures !UpgradeStep(t, tid, pid).0 ==> UpgradeStep(t, tid, pid).1 == t
  {
    DecideGrants(t.locks[pid], tid, ReadWrite);
  }

  /** Upgrading keeps mutual exclusion: the shared set is emptied as the exclusive lock is set. */
  lemma UpgradePreservesValid(t: Table, tid: TransactionId, pid: PageId)
    requires Valid(t) && pid in t.locks && tid in t.locks[pid].sharedLocks
    ensures Valid(UpgradeStep(t, tid, pid).1)
  {
    UpgradeOnlyForSoleReader(t, tid, pid);
    if UpgradeStep(t, tid, pid).0 {
      var locks := t.locks[pid := LocksOnPage(Some(tid), {})];
      assert UpgradeStep(t, tid, pid).1 == t.(locks := locks);
      SoleWriterValid(t, tid, pid);
    }
  }

  /** A page may be handed to one of its holders as sole writer without breaking `Valid`. */
  lemma SoleWriterValid(t: Table, tid: TransactionId, pid: PageId)
    requires Valid(t) && pid in t.locks && tid in t.locks[pid].Holders()
    ensures Valid(t.(locks := t.locks[pid := LocksOnPage(Some(tid), {})]))
  {
  }

  /**
   * Lines 77-91 and 105-111: a request that conflicts with other holders leaves the lock table
   * alone and gives `tid` an edge to every other holder. Either that makes no cycle and `tid`
   * must wait with the edges kept, or it makes one and the pass aborts with them taken out.
   */
  lemma AcquireConflictEdges(t: Table, tid: TransactionId, pid: PageId, perm: Permission)
    requires Valid(t) && tid in t.transactions && pid in t.locks
    requires OtherHolders(t.locks[pid], tid) != {}
    requires perm == ReadWrite || t.locks[pid].exclusiveLock.Some?
    requires t.locks[pid].exclusiveLock != Some(tid)
    ensures var a := AcquireStep(t, tid, pid, perm);
      var others := OtherHolders(t.locks[pid], tid);
      var g := t.waitForGraph[tid := EdgesOf(t.waitForGraph, tid) + others];
      && a.outcome != Granted
      && a.table.locks == t.locks && a.table.transactions == t.transactions
      && (a.outcome == MustWait <==> !HasCycle(t.transactions.Keys, g))
      && (a.outcome == MustWait ==> a.table.waitForGraph == g)
      && (a.outcome == Aborted ==>
            a.table.waitForGraph == t.waitForGraph[tid := EdgesOf(t.waitForGraph, tid) - others])
  {
    assert Enter(t, tid, pid) == t;
    var others := OtherHolders(t.locks[pid], tid);
    DecideConflicts(t.locks[pid], tid, perm);
    assert AcquireStep(t, tid, pid, perm) == WaitOrAbort(t, tid, others);
    assert (EdgesOf(t.waitForGraph, tid) + others) - others == EdgesOf(t.waitForGraph, tid) - others;
  }

  /** A granted request leaves `tid` holding the page as it asked: alone when it asked to write. */
  lemma AcquireGrantedHolds(t: Table, tid: TransactionId, pid: PageId, perm: Permission)
    requires Valid(t)
    requires AcquireStep(t, tid, pid, perm).outcome == Granted
    ensures var r := AcquireStep(t, tid, pid, perm).table;
      && IsLockedBy(r.locks, tid, pid)
      && (perm == ReadWrite ==> r.locks[pid] == LocksOnPage(Some(tid), {}))
  {
    var e := Enter(t, tid, pid);
    EnterValid(t, tid, pid);
    var cur := e.locks[pid];
    DecideGrants(cur, tid, perm);
    DecideConflicts(cur, tid, perm);
    if Decide(cur, tid, perm) == UpgradeSole {
      UpgradeOnlyForSoleReader(e, tid, pid);
    }
  }

  // ---------------------------------------------------------------------------------------
  // Properties of release and releaseAll

  /**
   * Lines 137-151: without an entry `release` returns false and changes nothing; otherwise
   * the page becomes unlocked for everybody, other pages and the registry stay as they were.
   */
  lemma ReleaseDropsEntry(t: Table, tid: TransactionId, pid: PageId)
    ensures pid !in t.locks ==> ReleaseStep(t, tid, pid) == (false, t)
    ensures pid in t.locks ==>
      var (b, r) := ReleaseStep(t, tid, pid);
      && b && !IsLocked(r.locks, pid)
      && (forall p :: p != pid && p in t.locks ==> p in r.locks && r.locks[p] == t.locks[p])
      && r.transactions == t.transactions && r.waitForGraph == t.waitForGraph
  {
  }

  /** The quirk of line 146: a reader's release also ends every other reader's lock. */
  lemma ReleaseEndsOtherReaders(t: Table, t1: TransactionId, t2: TransactionId, pid: PageId)
    requires pid in t.locks && t2 in t.locks[pid].sharedLocks && t1 != t2
    ensures IsLockedBy(t.locks, t2, pid)
    ensures !IsLockedBy(ReleaseStep(t, t1, pid).1.locks, t2, pid)
  {
  }

  lemma ReleasePreservesValid(t: Table, tid: TransactionId, pid: PageId)
    requires Valid(t)
    ensures Valid(ReleaseStep(t, tid, pid).1)
  {
  }

  /**
   * Lines 153-163: afterwards `tid`'s page set is empty (when it was registered), none of its
   * former pages has an entry, and it has no wait-for entry; an unknown `tid` only loses a
   * wait-for entry it cannot have had under `Registered`.
   */
  lemma ReleaseAllClears(t: Table, tid: TransactionId)
    ensures var r := ReleaseAllStep(t, tid);
      && tid !in r.waitForGraph
      && (tid in t.transactions ==> r.transactions[tid] == {})
      && (forall p :: p in PagesOf(t.transactions, tid) ==> p !in r.locks)
      && (forall p :: p in t.locks && p !in PagesOf(t.transactions, tid) ==> p in r.locks && r.locks[p] == t.locks[p])
      && r.transactions.Keys == t.transactions.Keys
      && (forall u :: u in t.transactions && u != tid ==> r.transactions[u] == t.transactions[u])
    ensures Registered(t) && tid !in t.transactions ==> ReleaseAllStep(t, tid) == t
  {
  }

  /** After `releaseAll`, `tid` holds no lock at all. */
  lemma ReleaseAllFreesEverything(t: Table, tid: TransactionId)
    requires Registered(t)
    ensures forall p :: !IsLockedBy(ReleaseAllStep(t, tid).locks, tid, p)
  {
    var r := ReleaseAllStep(t, tid);
    forall p | p in r.locks
      ensures tid !in r.locks[p].Holders()
    {
      assert tid in t.locks[p].Holders() ==> p in PagesOf(t.transactions, tid);
    }
  }

  lemma ReleaseAllPreservesValid(t: Table, tid: TransactionId)
    requires Valid(t)
    ensures Valid(ReleaseAllStep(t, tid))
  {
    var r := ReleaseAllStep(t, tid);
    forall p, h | p in r.locks && h in r.locks[p].Holders()
      ensures h in r.transactions && p in r.transactions[h]
    {
      assert h in t.locks[p].Holders();
    }
  }

  // ---------------------------------------------------------------------------------------
  // Two scenarios

  const T1 := TransactionId(1)
  const T2 := TransactionId(2)
  const P := PageId(0, 0)

  /** One transaction waiting for another is no cycle. */
  lemma SingleWaitAcyclic(nodes: set<TransactionId>, a: TransactionId, b: TransactionId)
    requires a != b
    ensures !HasCycle(nodes, map[a := {b}])
  {
    var g := map[a := {b}];
    forall c: seq<TransactionId> | |c| > 0 && c[0] in g && c[Succ(0, |c|)] in g
      ensures c[Succ(0, |c|)] !in g[c[0]]
    {
    }
  }

  /** Two readers of one page: each holds it shared, nobody waits. */
  const TwoReaders := Table(map[P := LocksOnPage(None, {T1, T2})], map[T1 := {P}, T2 := {P}], map[])

  /** The first reader to ask for an upgrade waits behind the other reader. */
  lemma FirstUpgraderWaits()
    ensures AcquireStep(TwoReaders, T1, P, ReadWrite) == Attempt(MustWait, OneWaiting)
  {
    var t := TwoReaders;
    assert Enter(t, T1, P) == t;
    assert t.locks[P].sharedLocks - {T1} == {T2};
    assert |t.locks[P].sharedLocks| == 2;
    assert Decide(t.locks[P], T1, ReadWrite) == Conflict({T2});
    assert t.waitForGraph[T1 := EdgesOf(t.waitForGraph, T1) + {T2}] == OneWaiting.waitForGraph;
    SingleWaitAcyclic(t.transactions.Keys, T1, T2);
  }

  /** The first reader waiting for the second. */
  const OneWaiting := TwoReaders.(waitForGraph := map[T1 := {T2}])

  /** The second reader's upgrade would wait for the first: a cycle, so it aborts. */
  lemma SecondUpgraderAborts()
    ensures AcquireStep(OneWaiting, T2, P, ReadWrite)
      == Attempt(Aborted, OneWaiting.(waitForGraph := map[T1 := {T2}, T2 := {}]))
  {
    var w := OneWaiting;
    assert Enter(w, T2, P) == w;
    assert w.locks[P].sharedLocks - {T2} == {T1};
    assert |w.locks[P].sharedLocks| == 2;
    assert Decide(w.locks[P], T2, ReadWrite) == Conflict({T1});
    var g2 := map[T1 := {T2}, T2 := {T1}];
    assert w.waitForGraph[T2 := EdgesOf(w.waitForGraph, T2) + {T1}] == g2;
    assert IsCycle(w.transactions.Keys, g2, [T1, T2]);
    assert w.waitForGraph[T2 := (EdgesOf(w.waitForGraph, T2) + {T1}) - {T1}] == map[T1 := {T2}, T2 := {}];
  }

  /**
   * Both readers ask to upgrade: the first must wait for the second, and the second, which
   * would then wait for the first, closes a cycle and is aborted.
   */
  lemma UpgradeRaceAbortsSecond()
    ensures AcquireStep(TwoReaders, T1, P, ReadWrite).outcome == MustWait
    ensures var waiting := AcquireStep(TwoReaders, T1, P, ReadWrite).table;
      && waiting.waitForGraph == map[T1 := {T2}]
      && AcquireStep(waiting, T2, P, ReadWrite)
         == Attempt(Aborted, waiting.(waitForGraph := map[T1 := {T2}, T2 := {}]))
  {
    FirstUpgraderWaits();
    SecondUpgraderAborts();
  }

  // ---------------------------------------------------------------------------------------
  // The lock manager object

  class LockManager {
    var locks: map<PageId, LocksOnPage>
    var transactions: map<TransactionId, set<PageId>>
    var waitForGraph: Graph

    function State(): Table
      reads this
    {
      Table(locks, transactions, waitForGraph)
    }

    /** Lines 58-62. */
    constructor ()
      ensures State() == Table(map[], map[], map[]) && Valid(State())
    {
      locks := map[];
      transactions := map[];
      waitForGraph := map[];
    }

    /** `acquire`, one pass (lines 64-125). */
    method Acquire(tid: TransactionId, pid: PageId, perm: Permission) returns (outcome: Outcome)
      requires Registered(State())
      modifies this
      ensures Attempt(outcome, State()) == AcquireStep(old(State()), tid, pid, perm)
    {
      if pid !in locks {
        locks := locks[pid := NoLocks];
      }
      if tid !in transactions {
        transactions := transactions[tid := {}];
      }
      assert State() == Enter(old(State()), tid, pid);
      assert locks[pid].Holders() <= transactions.Keys by {
        forall h | h in locks[pid].Holders() ensures h in transactions {
          if pid in old(locks) {
            assert h in old(locks)[pid].Holders();
          }
        }
      }
      outcome := AcquireEntered(tid, pid, perm);
    }

    /** Lines 67-124, once the entries of lines 65-66 exist. */
    method AcquireEntered(tid: TransactionId, pid: PageId, perm: Permission) returns (outcome: Outcome)
      requires pid in locks && tid in transactions
      requires locks[pid].Holders() <= transactions.Keys && GraphRegistered(State())
      modifies this
      ensures Attempt(outcome, State()) == Attempted(old(State()), tid, pid, perm)
    {
      if IsLocked(locks, pid) {
        if !locks[pid].HasExclusiveLock() {
          outcome := AcquireAmongReaders(tid, pid, perm);
        } else {
          outcome := AcquireFromWriter(tid, pid, perm);
        }
        return;
      }
      GrantUnheld(tid, pid, perm);
      outcome := Granted;
    }

    /** Lines 117-124: nobody holds the page. */
    method GrantUnheld(tid: TransactionId, pid: PageId, perm: Permission)
      requires pid in locks && tid in transactions && !IsLocked(locks, pid)
      modifies this
      ensures Attempt(Granted, State()) == Attempted(old(State()), tid, pid, perm)
    {
      var cur := locks[pid];
      assert Decide(cur, tid, perm) == GrantFree;
      if perm == ReadWrite {
        locks := locks[pid := cur.AddExclusiveLock(tid)];
      }
      if perm == ReadOnly {
        locks := locks[pid := cur.AddSharedLock(tid)];
      }
      transactions := transactions[tid := transactions[tid] + {pid}];
    }

    /** Lines 101-113: the page has a writer. */
    method AcquireFromWriter(tid: TransactionId, pid: PageId, perm: Permission) returns (outcome: Outcome)
      requires pid in locks && tid in transactions
      requires locks[pid].Holders() <= transactions.Keys && GraphRegistered(State())
      requires IsLocked(locks, pid) && locks[pid].HasExclusiveLock()
      modifies this
      ensures Attempt(outcome, State()) == Attempted(old(State()), tid, pid, perm)
    {
      var cur := locks[pid];
      if cur.exclusiveLock == Some(tid) {
        assert Decide(cur, tid, perm) == AlreadyHeld;
        return Granted;
      }
      assert Decide(cur, tid, perm) == Conflict({cur.exclusiveLock.value});
      assert {cur.exclusiveLock.value} - {tid} == {cur.exclusiveLock.value};
      outcome := AwaitHolders(tid, {cur.exclusiveLock.value});
    }

    /** Lines 71-100: the page is held by readers only. */
    method AcquireAmongReaders(tid: TransactionId, pid: PageId, perm: Permission) returns (outcome: Outcome)
      requires pid in locks && tid in transactions
      requires locks[pid].Holders() <= transactions.Keys && GraphRegistered(State())
      requires IsLocked(locks, pid) && !locks[pid].HasExclusiveLock()
      modifies this
      ensures Attempt(outcome, State()) == Attempted(old(State()), tid, pid, perm)
    {
      if perm == ReadWrite {
        outcome := WriteAmongReaders(tid, pid);
      } else {
        var cur := locks[pid];
        if IsLockedBy(locks, tid, pid) {
          assert Decide(cur, tid, perm) == AlreadyHeld;
          return Granted;
        }
        assert Decide(cur, tid, perm) == AddReader;
        locks := locks[pid := cur.AddSharedLock(tid)];
        transactions := transactions[tid := transactions[tid] + {pid}];
        return Granted;
      }
    }

    /** Lines 71-91: a READ_WRITE request on a page held by readers only. */
    method WriteAmongReaders(tid: TransactionId, pid: PageId) returns (outcome: Outcome)
      requires pid in locks && tid in transactions
      requires locks[pid].Holders() <= transactions.Keys && GraphRegistered(State())
      requires IsLocked(locks, pid) && !locks[pid].HasExclusiveLock()
      modifies this
      ensures Attempt(outcome, State()) == Attempted(old(State()), tid, pid, ReadWrite)
    {
      var cur := locks[pid];
      if tid in cur.sharedLocks {
        var upgraded := Upgrade(tid, pid);
        if upgraded {
          assert Decide(cur, tid, ReadWrite) == UpgradeSole;
          return Granted;
        }
        assert |cur.sharedLocks| != 1;
      }
      outcome := AwaitReaders(tid, pid);
    }

    /** Lines 77-91 when no upgrade happened: wait for every other reader. */
    method AwaitReaders(tid: TransactionId, pid: PageId) returns (outcome: Outcome)
      requires pid in locks && tid in transactions
      requires locks[pid].Holders() <= transactions.Keys && GraphRegistered(State())
      requires IsLocked(locks, pid) && !locks[pid].HasExclusiveLock()
      requires tid in locks[pid].sharedLocks ==> |locks[pid].sharedLocks| != 1
      modifies this
      ensures Attempt(outcome, State()) == Attempted(old(State()), tid, pid, ReadWrite)
    {
      var cur := locks[pid];
      assert Decide(cur, tid, ReadWrite) == Conflict(cur.sharedLocks - {tid});
      assert cur.sharedLocks <= cur.Holders();
      outcome := AwaitHolders(tid, cur.sharedLocks);
    }

    /**
     * Lines 77-91 and 105-111: an edge from `tid` to each holder other than itself, added one
     * at a time; then `detectDeadlock`, and on a deadlock the same edges removed one at a time.
     */
    method AwaitHolders(tid: TransactionId, holders: set<TransactionId>) returns (outcome: Outcome)
      requires tid in transactions && holders - {tid} <= transactions.Keys
      requires GraphRegistered(State())
      modifies this
      ensures Attempt(outcome, State()) == WaitOrAbort(old(State()), tid, holders - {tid})
    {
      ghost var others := holders - {tid};
      ghost var before := EdgesOf(waitForGraph, tid);
      var edges := EdgesOf(waitForGraph, tid);
      var rest := holders;
      while rest != {}
        invariant rest <= holders
        invariant edges == before + ((holders - rest) - {tid})
        decreases rest
      {
        var w :| w in rest;
        if w != tid {
          edges := edges + {w};
        }
        rest := rest - {w};
      }
      assert holders - {} == holders;
      waitForGraph := waitForGraph[tid := edges];
      var deadlock := Deadlock.DetectDeadlock(transactions, waitForGraph);
      if deadlock {
        rest := holders;
        while rest != {}
          invariant rest <= holders
          invariant edges == (before + others) - ((holders - rest) - {tid})
          decreases rest
        {
          var w :| w in rest;
          if w != tid {
            edges := edges - {w};
          }
          rest := rest - {w};
        }
        waitForGraph := waitForGraph[tid := edges];
        outcome := Aborted;
      } else {
        outcome := MustWait;
      }
    }

    /** `upgrade` (lines 127-135). */
    method Upgrade(tid: TransactionId, pid: PageId) returns (upgraded: bool)
      requires pid in locks && tid in locks[pid].sharedLocks
      modifies this
      ensures (upgraded, State()) == UpgradeStep(old(State()), tid, pid)
    {
      var cur := locks[pid];
      if |cur.sharedLocks| == 1 {
        locks := locks[pid := cur.RemoveSharedLock(tid).AddExclusiveLock(tid)];
        return true;
      }
      return false;
    }

    /** `release` (lines 137-151). */
    method Release(tid: TransactionId, pid: PageId) returns (released: bool)
      modifies this
      ensures (released, State()) == ReleaseStep(old(State()), tid, pid)
    {
      if pid in locks {
        var cur := locks[pid];
        cur := cur.RemoveExclusiveLock(tid);
        cur := cur.RemoveSharedLock(tid);
        locks := locks - {pid};
        return true;
      }
      return false;
    }

    /** `releaseAll` (lines 153-163): release every listed page, emptying the list as it goes. */
    method ReleaseAll(tid: TransactionId)
      modifies this
      ensures State() == ReleaseAllStep(old(State()), tid)
    {
      if tid in transactions {
        ghost var pages := transactions[tid];
        while transactions[tid] != {}
          invariant tid in transactions && transactions[tid] <= pages
          invariant locks == old(locks) - (pages - transactions[tid])
          invariant transactions == old(transactions)[tid := transactions[tid]]
          invariant waitForGraph == old(waitForGraph)
          decreases transactions[tid]
        {
          var pid :| pid in transactions[tid];
          var _ := Release(tid, pid);
          transactions := transactions[tid := transactions[tid] - {pid}];
        }
        assert pages - {} == pages;
      }
      waitForGraph := waitForGraph - {tid};
    }

    /** `isLocked(pid)`. */
    function IsPageLocked(pid: PageId): (b: bool)
      reads this
      ensures b <==> pid in locks && locks[pid].Holders() != {}
    {
      IsLocked(locks, pid)
    }

    /** `isLocked(tid, pid)`. */
    function IsPageLockedBy(tid: TransactionId, pid: PageId): (b: bool)
      reads this
      ensures b <==> pid in locks && tid in locks[pid].Holders()
    {
      IsLockedBy(locks, tid, pid)
    }

    /** `detectDeadlock` (lines 187-227): reads the maps only. */
    method DetectDeadlock() returns (deadlock: bool)
      requires TargetsRegistered(transactions.Keys, waitForGraph)
      ensures deadlock <==> HasCycle(transactions.Keys, waitForGraph)
    {
      deadlock := Deadlock.DetectDeadlock(transactions, waitForGraph);
    }
  }
}
