/**
 * lab/src/Insert.java: an operator that, on its first `fetchNext`, drains its child into a
 * table through the buffer pool and returns a one-field tuple holding the `int` count of
 * successful inserts; later calls return null until `rewind` or `close`. An `IOException`
 * from the pool ends the drain; any other exception escapes it.
 */
module Inserts {
  import opened Common
  import opened Tuples
  import opened TupleDescs
  import opened Operators

  /** The requests inserting `ts`, in order, into table `tableId`. */
  function InsertRequests(tableId: int, ts: seq<Tuple>): seq<Request>
  {
    seq(|ts|, j requires 0 <= j < |ts| => InsertRequest(tableId, ts[j]))
  }

  lemma InsertRequestsSnoc(tableId: int, ts: seq<Tuple>, i: nat)
    requires i < |ts|
    ensures InsertRequests(tableId, ts[..i + 1]) == InsertRequests(tableId, ts[..i]) + [InsertRequest(tableId, ts[i])]
  {
  }

  class Insert {
    const child: TupleSource
    const pool: BufferPool
    const tableId: int
    const td: TupleDesc
    var numAdded: Int32
    var isCalled: bool

    /** The output descriptor is one unnamed `int` field, and the count is 0 until the drain. */
    ghost predicate Valid()
      reads this, child
    {
      child.Valid() && td.items == [TDItem(IntType, None)] && (!isCalled ==> numAdded == 0)
    }

    /** `Insert(t, child, tableId)`: the child's descriptor is not compared with the table's. */
    constructor(child: TupleSource, tableId: int, pool: BufferPool)
      requires child.Valid()
      ensures this.child == child && this.tableId == tableId && this.pool == pool
      ensures Valid() && numAdded == 0 && !isCalled
    {
      var d := Create([IntType], None);
      this.child := child;
      this.tableId := tableId;
      this.pool := pool;
      td := d;
      numAdded := 0;
      isCalled := false;
    }

    /** `getTupleDesc()`: a single field, of type `int`, with no name. */
    function GetTupleDesc(): (d: TupleDesc)
      requires Valid()
      reads this, child
      ensures d.NumFields() == 1 && d.GetFieldType(0) == Ok(IntType) && d.GetFieldName(0) == Ok(None)
    {
      td
    }

    /** `open()`: opens the child. */
    method Open()
      requires Valid()
      modifies child
      ensures Valid() && child.isOpen && child.Remaining() == child.tuples
      ensures numAdded == old(numAdded) && isCalled == old(isCalled)
    {
      child.Open();
    }

    /** `close()`: clears the flag and the count, then closes the child. */
    method Close()
      requires Valid()
      modifies this`numAdded, this`isCalled, child
      ensures Valid() && numAdded == 0 && !isCalled && child.Remaining() == []
    {
      isCalled := false;
      numAdded := 0;
      child.Close();
    }

    /** `rewind()`: rewinds the child, then clears the count and the flag. */
    method Rewind()
      requires Valid()
      modifies this`numAdded, this`isCalled, child
      ensures Valid() && numAdded == 0 && !isCalled
      ensures child.isOpen == old(child.isOpen)
      ensures child.Remaining() == if child.isOpen then child.tuples else []
    {
      child.Rewind();
      numAdded := 0;
      isCalled := false;
    }

    /**
     * `fetchNext()`: null with nothing changed after a first call; otherwise the drain.
     */
    method FetchNext() returns (r: Result<Option<Tuple>>)
      requires Valid()
      modifies this`numAdded, this`isCalled, child, pool
      ensures Valid() && isCalled
      ensures old(isCalled) ==> (r == Ok(None) && numAdded == old(numAdded) &&
        child.Remaining() == old(child.Remaining()) &&
        pool.script == old(pool.script) && pool.requests == old(pool.requests))
      ensures !old(isCalled) ==>
        Drained(old(child.Remaining()), old(pool.script), old(pool.requests), r)
    {
      if isCalled {
        return Ok(None);
      }
      isCalled := true;
      r := Drain();
    }

    /**
     * The first `c` of the tuples `rem` have been taken from the child and requested in
     * order from a pool whose script and requests were `script` and `requests`.
     */
    ghost predicate Taken(rem: seq<Tuple>, script: seq<Result<()>>, requests: seq<Request>, c: nat)
      requires child.Valid()
      reads this, child, pool
    {
      c <= |rem| && child.Remaining() == rem[c..] && pool.script == After(script, c) &&
      pool.requests == requests + InsertRequests(tableId, rem[..c])
    }

    /** The drain's loop invariant: `i` tuples taken, each inserted successfully and counted. */
    ghost predicate Progress(rem: seq<Tuple>, script: seq<Result<()>>, requests: seq<Request>, i: nat)
      reads this, child, pool
    {
      child.Valid() && Taken(rem, script, requests, i) && numAdded == Wrap32(i) &&
      forall j :: 0 <= j < i ==> Outcome(script, j).Ok?
    }

    /**
     * What a first `fetchNext` leaves behind, given the child's remaining tuples `rem` and
     * the pool's script and requests before it. With `outs` the pool's replies to as many
     * requests as there are tuples and `k` the successes before the first failure: the
     * first `Consumed(outs)` tuples are taken from the child and requested in order, the
     * count is `k` as an `int`, and the result is the count tuple unless a failure other
     * than `IOException` escapes.
     */
    ghost predicate Drained(rem: seq<Tuple>, script: seq<Result<()>>, requests: seq<Request>, r: Result<Option<Tuple>>)
      requires child.Valid()
      reads this, child, pool
    {
      var outs := Outcomes(script, |rem|);
      var k, c := LeadingOks(outs), Consumed(outs);
      numAdded == Wrap32(k) && Taken(rem, script, requests, c) &&
      (k < |rem| && outs[k].Err? && outs[k].error != IOException ==> r == Err(outs[k].error)) &&
      (k == |rem| || outs[k] == Err(IOException) ==> r == Ok(Some(CountTuple(Wrap32(k)))))
    }

    /** One pass of the loop: take the next tuple, insert it, count it if that succeeded. */
    method Take(ghost rem: seq<Tuple>, ghost script: seq<Result<()>>, ghost requests: seq<Request>, ghost i: nat)
      returns (res: Result<()>)
      requires Progress(rem, script, requests, i) && i < |rem|
      modifies this`numAdded, child, pool
      ensures res == Outcome(script, i) && child.Valid()
      ensures res.Ok? ==> Progress(rem, script, requests, i + 1)
      ensures res.Err? ==> numAdded == Wrap32(i) && Taken(rem, script, requests, i + 1)
      ensures res.Err? ==> LeadingOks(Outcomes(script, |rem|)) == i
    {
      var tupleToInsert := child.Next();
      AfterStep(script, i);
      InsertRequestsSnoc(tableId, rem, i);
      assert rem[i..][1..] == rem[i + 1..];
      res := pool.InsertTuple(tableId, tupleToInsert.value);
      if res.Err? {
        LeadingOksUnique(Outcomes(script, |rem|), i);
      } else {
        numAdded := Tally(numAdded, i);
      }
    }

    /** The loop of `fetchNext`, from a count of 0. */
    method Drain() returns (r: Result<Option<Tuple>>)
      requires Valid() && isCalled && numAdded == 0
      modifies this`numAdded, child, pool
      ensures Valid() && Drained(old(child.Remaining()), old(pool.script), old(pool.requests), r)
    {
      ghost var rem := child.Remaining();
      ghost var script := pool.script;
      ghost var requests := pool.requests;
      ghost var i: nat := 0;
      var more := child.HasNext();
      while more
        invariant Progress(rem, script, requests, i)
        invariant more <==> i < |rem|
        decreases |rem| - i
      {
        var res := Take(rem, script, requests, i);
        if res.Err? {
          if res.error == IOException {
            break;
          }
          return Err(res.error);
        }
        i := i + 1;
        more := child.HasNext();
      }
      if !more {
        LeadingOksUnique(Outcomes(script, |rem|), i);
      }
      r := Ok(Some(CountTuple(numAdded)));
    }
  }
}
