/**
 * What lab/src/Insert.java and lab/src/Delete.java drive: a child operator handing out
 * tuples, and the buffer pool the tuples are inserted through or deleted through. Neither
 * class is part of this model. The child is a cursor over a fixed sequence. The buffer pool
 * is a scripted stand-in: it records every request, and its reply to the i-th request is
 * entry i of a script of outcomes (success once the script runs out), so that an
 * `IOException` or any other exception can arrive at any point of a drain.
 */
module Operators {
  import opened Common
  import opened Tuples

  /** The child operator: `open`, `hasNext`, `next`, `rewind`, `close` over fixed tuples. */
  class TupleSource {
    const tuples: seq<Tuple>
    var pos: nat
    var isOpen: bool

    ghost predicate Valid()
      reads this
    {
      pos <= |tuples|
    }

    /** What `next` will still hand out: nothing while closed. */
    ghost function Remaining(): seq<Tuple>
      reads this
      requires Valid()
    {
      if isOpen then tuples[pos..] else []
    }

    constructor(tuples: seq<Tuple>)
      ensures this.tuples == tuples && !isOpen && Valid() && Remaining() == []
    {
      this.tuples := tuples;
      pos := 0;
      isOpen := false;
    }

    method Open()
      modifies this`pos, this`isOpen
      ensures Valid() && isOpen && Remaining() == tuples
    {
      pos := 0;
      isOpen := true;
    }

    method HasNext() returns (b: bool)
      requires Valid()
      ensures b <==> Remaining() != []
    {
      b := isOpen && pos < |tuples|;
    }

    method Next() returns (r: Result<Tuple>)
      requires Valid()
      modifies this`pos
      ensures Valid()
      ensures r.Err? <==> old(Remaining()) == []
      ensures r.Err? ==> r.error == NoSuchElementException && Remaining() == old(Remaining())
      ensures r.Ok? ==> r.value == old(Remaining())[0] && Remaining() == old(Remaining())[1..]
    {
      if !isOpen || pos == |tuples| {
        return Err(NoSuchElementException);
      }
      r := Ok(tuples[pos]);
      pos := pos + 1;
    }

    method Rewind()
      requires Valid()
      modifies this`pos
      ensures Valid() && Remaining() == if isOpen then tuples else []
    {
      pos := 0;
    }

    method Close()
      requires Valid()
      modifies this`isOpen
      ensures Valid() && !isOpen && Remaining() == []
    {
      isOpen := false;
    }
  }

  /** A call made on the buffer pool. */
  datatype Request = InsertRequest(tableId: int, t: Tuple) | DeleteRequest(t: Tuple)

  /** The pool's reply to the `i`-th coming request. */
  function Outcome(script: seq<Result<()>>, i: nat): Result<()>
  {
    if i < |script| then script[i] else Ok(())
  }

  /** The replies to the next `n` requests. */
  function Outcomes(script: seq<Result<()>>, n: nat): seq<Result<()>>
  {
    seq(n, i requires 0 <= i < n => Outcome(script, i))
  }

  /** The script once `c` requests have been answered. */
  function After(script: seq<Result<()>>, c: nat): seq<Result<()>>
  {
    if c <= |script| then script[c..] else []
  }

  lemma AfterStep(script: seq<Result<()>>, i: nat)
    ensures Outcome(After(script, i), 0) == Outcome(script, i)
    ensures After(After(script, i), 1) == After(script, i + 1)
  {
  }

  /** The number of successes before the first failure. */
  function LeadingOks(outs: seq<Result<()>>): (k: nat)
    ensures k <= |outs|
  {
    if outs == [] || outs[0].Err? then 0 else 1 + LeadingOks(outs[1..])
  }

  /** Every reply before position `LeadingOks` is a success, and the one at it (if any) a failure. */
  lemma {:induction false} LeadingOksSpec(outs: seq<Result<()>>)
    ensures forall i :: 0 <= i < LeadingOks(outs) ==> outs[i].Ok?
    ensures LeadingOks(outs) < |outs| ==> outs[LeadingOks(outs)].Err?
  {
    if outs != [] && outs[0].Ok? {
      LeadingOksSpec(outs[1..]);
    }
  }

  /** Conversely, that characterises `LeadingOks`. */
  lemma {:induction false} LeadingOksUnique(outs: seq<Result<()>>, k: nat)
    requires k <= |outs|
    requires forall i :: 0 <= i < k ==> outs[i].Ok?
    requires k < |outs| ==> outs[k].Err?
    ensures LeadingOks(outs) == k
  {
    if k > 0 {
      LeadingOksUnique(outs[1..], k - 1);
    }
  }

  /** When the pool never fails, every request is a success. */
  lemma AllSucceed(script: seq<Result<()>>, n: nat)
    requires forall i :: 0 <= i < |script| ==> script[i].Ok?
    ensures LeadingOks(Outcomes(script, n)) == n
  {
    LeadingOksUnique(Outcomes(script, n), n);
  }

  /** The count tuple: one `int` field, no record id. */
  function CountTuple(n: Int32): Tuple
  {
    Tuple([IntField(n)], None)
  }

  /** The number of tuples a drain takes from the child: the failing one is taken too. */
  function Consumed(outs: seq<Result<()>>): (c: nat)
    ensures c <= |outs|
    ensures LeadingOks(outs) <= c <= LeadingOks(outs) + 1
  {
    if LeadingOks(outs) < |outs| then LeadingOks(outs) + 1 else LeadingOks(outs)
  }

  /**
   * A drain against a pool with script `script` over `n` tuples: every counted request
   * succeeded, the request after them (if one was made) failed, and nothing after that
   * failure is requested. With no failure in the script, all `n` are taken and counted.
   */
  lemma DrainShape(script: seq<Result<()>>, n: nat)
    ensures var k := LeadingOks(Outcomes(script, n));
      (forall j :: 0 <= j < k ==> Outcome(script, j).Ok?) &&
      (k < n ==> Outcome(script, k).Err? && Consumed(Outcomes(script, n)) == k + 1) &&
      (k == n ==> Consumed(Outcomes(script, n)) == n)
    ensures (forall i :: 0 <= i < |script| ==> script[i].Ok?) ==>
      LeadingOks(Outcomes(script, n)) == n && Consumed(Outcomes(script, n)) == n
  {
    var outs := Outcomes(script, n);
    LeadingOksSpec(outs);
    forall j | 0 <= j < n
      ensures outs[j] == Outcome(script, j)
    {
    }
    if forall i :: 0 <= i < |script| ==> script[i].Ok? {
      AllSucceed(script, n);
    }
  }

  /** The scripted buffer pool. */
  class BufferPool {
    /** The replies to the coming requests; every later one succeeds. */
    var script: seq<Result<()>>
    /** Every request received, in order, whether or not it succeeded. */
    var requests: seq<Request>

    constructor(script: seq<Result<()>>)
      ensures this.script == script && requests == []
    {
      this.script := script;
      requests := [];
    }

    /** `insertTuple(tid, tableId, t)`. */
    method InsertTuple(tableId: int, t: Tuple) returns (r: Result<()>)
      modifies this
      ensures r == Outcome(old(script), 0) && script == After(old(script), 1)
      ensures requests == old(requests) + [InsertRequest(tableId, t)]
    {
      r := Outcome(script, 0);
      script := After(script, 1);
      requests := requests + [InsertRequest(tableId, t)];
    }

    /** `deleteTuple(tid, t)`. */
    method DeleteTuple(t: Tuple) returns (r: Result<()>)
      modifies this
      ensures r == Outcome(old(script), 0) && script == After(old(script), 1)
      ensures requests == old(requests) + [DeleteRequest(t)]
    {
      r := Outcome(script, 0);
      script := After(script, 1);
      requests := requests + [DeleteRequest(t)];
    }
  }
}
