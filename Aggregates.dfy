/**
 * What the two aggregators of lab/src/IntegerAggregator.java and
 * lab/src/StringAggregator.java share: the operator, the no-grouping marker, and the result
 * cursor their `iterator()` methods return. The two anonymous cursor classes behave alike
 * apart from how `open()` fills the result array, so that filling is each aggregator's
 * `Open` method and the rest is the class `AggregateCursor` here.
 */
module Aggregates {
  import opened Common
  import opened Tuples
  import opened TupleDescs

  /** `Aggregator.Op`, the operators the aggregators name. */
  datatype Op = Min | Max | Sum | Avg | Count

  /** `Aggregator.NO_GROUPING`. */
  const NO_GROUPING: int := -1

  /** The one-field result descriptor `new TupleDesc(new Type[]{Type.INT_TYPE})`. */
  const IntDesc: TupleDesc := TupleDesc([TDItem(IntType, None)])

  /** The grouped result descriptor `new TupleDesc(new Type[]{gbfieldtype, Type.INT_TYPE})`. */
  function GroupDesc(gbfieldtype: Type): TupleDesc
  {
    TupleDesc([TDItem(gbfieldtype, None), TDItem(IntType, None)])
  }

  /** A result row of a grouped aggregate: the group's field, then the value. */
  function GroupRow(g: Field, v: Int32): Tuple
  {
    Tuple([g, IntField(v)], None)
  }

  /**
   * A loop over the key set `all` has listed `order` and has `keys` left: the listed keys
   * are distinct members of `all` no longer left, and every member is listed or left.
   */
  ghost predicate Enumerates<K>(order: seq<K>, keys: set<K>, all: set<K>)
  {
    keys <= all && |order| + |keys| == |all| &&
    (forall j, k :: 0 <= j < k < |order| ==> order[j] != order[k]) &&
    (forall j :: 0 <= j < |order| ==> order[j] in all && order[j] !in keys) &&
    (forall g :: g in all ==> g in keys || g in order)
  }

  lemma EnumeratesStart<K>(all: set<K>)
    ensures Enumerates([], all, all)
  {
  }

  /** Listing one more of the keys left keeps the loop's bookkeeping. */
  lemma EnumeratesStep<K>(order: seq<K>, keys: set<K>, all: set<K>, g: K)
    requires Enumerates(order, keys, all) && g in keys
    ensures Enumerates(order + [g], keys - {g}, all)
  {
    var order' := order + [g];
    forall j, k | 0 <= j < k < |order'|
      ensures order'[j] != order'[k]
    {
      if k == |order| {
        assert order[j] !in keys;
      }
    }
  }

  /**
   * The result cursor: `td`, the array `agValArr` (whose elements may be null, as after an
   * exception inside `open()`), and `curIndex`. Both are null until `open()` and after
   * `close()`.
   */
  class AggregateCursor {
    var td: Option<TupleDesc>
    var agValArr: array?<Option<Tuple>>
    var curIndex: nat

    constructor()
      ensures td.None? && agValArr == null && curIndex == 0
    {
      td := None;
      agValArr := null;
      curIndex := 0;
    }

    /** The result rows, or nothing before `open()`. */
    ghost function Rows(): seq<Option<Tuple>>
      reads this, agValArr
    {
      if agValArr == null then [] else agValArr[..]
    }

    /** The two assignments `open()` makes before filling the array; `curIndex` stays. */
    method Load(td: TupleDesc, rows: array<Option<Tuple>>)
      modifies this
      ensures this.td == Some(td) && agValArr == rows && curIndex == old(curIndex)
    {
      this.td := Some(td);
      agValArr := rows;
    }

    /** `hasNext()`: whether `curIndex` is below the array's length; null array throws. */
    function HasNext(): (r: Result<bool>)
      reads this
      ensures r.Err? <==> agValArr == null
      ensures r.Err? ==> r.error == NullPointerException
      ensures r.Ok? ==> (r.value <==> curIndex < agValArr.Length)
    {
      if agValArr == null then Err(NullPointerException) else Ok(curIndex < agValArr.Length)
    }

    /** `next()`: the row at `curIndex`, moving on; past the end `NoSuchElementException`. */
    method Next() returns (r: Result<Option<Tuple>>)
      modifies this
      ensures td == old(td) && agValArr == old(agValArr)
      ensures agValArr == null ==> r == Err(NullPointerException) && curIndex == old(curIndex)
      ensures agValArr != null && old(curIndex) < agValArr.Length ==>
        r == Ok(agValArr[old(curIndex)]) && curIndex == old(curIndex) + 1
      ensures agValArr != null && old(curIndex) >= agValArr.Length ==>
        r == Err(NoSuchElementException) && curIndex == old(curIndex)
    {
      var more := HasNext();
      if more.Err? {
        return Err(more.error);
      }
      if !more.value {
        return Err(NoSuchElementException);
      }
      r := Ok(agValArr[curIndex]);
      curIndex := curIndex + 1;
    }

    /** `rewind()`: back to the first row. */
    method Rewind()
      modifies this
      ensures td == old(td) && agValArr == old(agValArr) && curIndex == 0
    {
      curIndex := 0;
    }

    /** `getTupleDesc()`: null before `open()`. */
    function GetTupleDesc(): Option<TupleDesc>
      reads this
    {
      td
    }

    /** `close()`: drop the descriptor and the rows and go back to the first row. */
    method Close()
      modifies this
      ensures td.None? && agValArr == null && curIndex == 0
    {
      td := None;
      agValArr := null;
      curIndex := 0;
    }
  }

  /** After a rewind, `next()` hands out the rows in array order and then throws. */
  method ReadAll(c: AggregateCursor) returns (rows: seq<Option<Tuple>>)
    requires c.agValArr != null
    modifies c
    ensures c.agValArr == old(c.agValArr) && c.td == old(c.td)
    ensures rows == old(c.Rows()) && c.curIndex == c.agValArr.Length
    ensures c.HasNext() == Ok(false)
  {
    c.Rewind();
    rows := [];
    while c.HasNext() == Ok(true)
      invariant c.agValArr == old(c.agValArr) && c.td == old(c.td)
      invariant c.curIndex <= c.agValArr.Length
      invariant rows == c.agValArr[..c.curIndex]
      decreases c.agValArr.Length - c.curIndex
    {
      var r := c.Next();
      rows := rows + [r.value];
    }
    assert c.agValArr[..c.agValArr.Length] == c.agValArr[..];
  }
}
