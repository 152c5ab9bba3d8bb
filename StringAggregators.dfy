/**
 * lab/src/StringAggregator.java: COUNT over tuples, grouped by one field or not at all.
 * `aVal` counts the merged tuples without grouping, `gbFieldMap` counts them per group-by
 * value; both are Java `int`s and wrap around. The aggregate field is never read.
 */
module StringAggregators {
  import opened Common
  import opened Tuples
  import opened TupleDescs
  import opened Aggregates

  /** A tuple the aggregator can merge: the group-by field exists when there is grouping. */
  predicate Groupable(gbfield: int, t: Tuple)
  {
    gbfield == NO_GROUPING || 0 <= gbfield < |t.fields|
  }

  ghost predicate AllGroupable(gbfield: int, ts: seq<Tuple>)
  {
    forall i :: 0 <= i < |ts| ==> Groupable(gbfield, ts[i])
  }

  /** The number of tuples of `ts` whose group-by field is `g`. */
  ghost function CountIn(gbfield: int, ts: seq<Tuple>, g: Field): nat
    requires gbfield != NO_GROUPING && AllGroupable(gbfield, ts)
  {
    if ts == [] then 0
    else CountIn(gbfield, ts[..|ts| - 1], g) + (if ts[|ts| - 1].fields[gbfield] == g then 1 else 0)
  }

  /** Only the group-by fields decide the counts: the other fields, the aggregate one included, do not. */
  lemma {:induction false} CountInIgnoresOtherFields(gbfield: int, ts: seq<Tuple>, us: seq<Tuple>, g: Field)
    requires gbfield != NO_GROUPING && AllGroupable(gbfield, ts) && AllGroupable(gbfield, us)
    requires |ts| == |us| && forall i :: 0 <= i < |ts| ==> ts[i].fields[gbfield] == us[i].fields[gbfield]
    ensures CountIn(gbfield, ts, g) == CountIn(gbfield, us, g)
  {
    if ts != [] {
      var n := |ts| - 1;
      assert AllGroupable(gbfield, ts[..n]) && AllGroupable(gbfield, us[..n]);
      CountInIgnoresOtherFields(gbfield, ts[..n], us[..n], g);
    }
  }

  /** A group is counted exactly when some merged tuple carries its value. */
  lemma {:induction false} CountInPositive(gbfield: int, ts: seq<Tuple>, g: Field)
    requires gbfield != NO_GROUPING && AllGroupable(gbfield, ts)
    ensures CountIn(gbfield, ts, g) > 0 <==> exists i :: 0 <= i < |ts| && ts[i].fields[gbfield] == g
  {
    if ts != [] {
      var init := ts[..|ts| - 1];
      assert AllGroupable(gbfield, init);
      CountInPositive(gbfield, init, g);
      if exists i :: 0 <= i < |init| && init[i].fields[gbfield] == g {
        var i :| 0 <= i < |init| && init[i].fields[gbfield] == g;
        assert ts[i] == init[i];
      }
      if exists i :: 0 <= i < |ts| && ts[i].fields[gbfield] == g {
        var i :| 0 <= i < |ts| && ts[i].fields[gbfield] == g;
        if i < |init| {
          assert init[i] == ts[i];
        }
      }
    }
  }

  /** Merging one more tuple counts it in its own group only. */
  lemma CountInSnoc(gbfield: int, ts: seq<Tuple>, t: Tuple, g: Field)
    requires gbfield != NO_GROUPING && AllGroupable(gbfield, ts) && Groupable(gbfield, t)
    ensures AllGroupable(gbfield, ts + [t])
    ensures CountIn(gbfield, ts + [t], g) == CountIn(gbfield, ts, g) + (if t.fields[gbfield] == g then 1 else 0)
  {
    assert (ts + [t])[..|ts|] == ts;
  }

  /** `m` holds exactly the groups of `ts`, each with its wrapped count. */
  ghost predicate Counts(gbfield: int, ts: seq<Tuple>, m: map<Field, Int32>)
    requires gbfield != NO_GROUPING && AllGroupable(gbfield, ts)
  {
    forall g :: (g in m <==> CountIn(gbfield, ts, g) > 0) &&
      (g in m ==> m[g] == Wrap32(CountIn(gbfield, ts, g)))
  }

  /** One grouped merge, on values: one more in the tuple's group, which starts at 0. */
  lemma CountsSnoc(gbfield: int, ts: seq<Tuple>, t: Tuple, m: map<Field, Int32>)
    requires gbfield != NO_GROUPING && AllGroupable(gbfield, ts) && Groupable(gbfield, t)
    requires Counts(gbfield, ts, m)
    ensures AllGroupable(gbfield, ts + [t])
    ensures var k := t.fields[gbfield];
      Counts(gbfield, ts + [t], m[k := Add32(if k in m then m[k] else 0, 1)])
  {
    var k := t.fields[gbfield];
    var m' := m[k := Add32(if k in m then m[k] else 0, 1)];
    CountInSnoc(gbfield, ts, t, k);
    Wrap32Add(CountIn(gbfield, ts, k), 1);
    forall g
      ensures (g in m' <==> CountIn(gbfield, ts + [t], g) > 0) &&
        (g in m' ==> m'[g] == Wrap32(CountIn(gbfield, ts + [t], g)))
    {
      CountInSnoc(gbfield, ts, t, g);
    }
  }

  class StringAggregator {
    const gbfield: int
    const gbfieldtype: Type
    const afield: int
    var gbFieldMap: map<Field, Int32>
    var aVal: Int32
    ghost var merged: seq<Tuple>

    /** `aVal` and `gbFieldMap` are the wrapped counts of everything merged so far. */
    ghost predicate Valid()
      reads this
    {
      AllGroupable(gbfield, merged) &&
      (gbfield == NO_GROUPING ==> aVal == Wrap32(|merged|) && gbFieldMap == map[]) &&
      (gbfield != NO_GROUPING ==> aVal == 0 && Counts(gbfield, merged, gbFieldMap))
    }

    constructor(gbfield: int, gbfieldtype: Type, afield: int)
      ensures this.gbfield == gbfield && this.gbfieldtype == gbfieldtype && this.afield == afield
      ensures gbFieldMap == map[] && aVal == 0 && merged == []
      ensures Valid()
    {
      this.gbfield := gbfield;
      this.gbfieldtype := gbfieldtype;
      this.afield := afield;
      gbFieldMap := map[];
      aVal := 0;
      merged := [];
    }

    /**
     * `mergeTupleIntoGroup`: one more tuple in `aVal` without grouping, else one more in
     * its group's entry, which starts at 0; nothing else changes.
     */
    method MergeTupleIntoGroup(tup: Tuple)
      requires Valid() && Groupable(gbfield, tup)
      modifies this
      ensures Valid() && merged == old(merged) + [tup]
      ensures gbfield == NO_GROUPING ==> aVal == Add32(old(aVal), 1) && gbFieldMap == old(gbFieldMap)
      ensures gbfield != NO_GROUPING ==> aVal == old(aVal)
      ensures gbfield != NO_GROUPING ==>
        var g := tup.fields[gbfield];
        gbFieldMap == old(gbFieldMap)[g := Add32(if g in old(gbFieldMap) then old(gbFieldMap)[g] else 0, 1)]
    {
      if gbfield == NO_GROUPING {
        Wrap32Add(|merged|, 1);
        aVal := Add32(aVal, 1);
        merged := merged + [tup];
      } else {
        MergeGrouped(tup);
      }
    }

    /** The grouped branch of `mergeTupleIntoGroup`. */
    method MergeGrouped(tup: Tuple)
      requires Valid() && gbfield != NO_GROUPING && Groupable(gbfield, tup)
      modifies this`gbFieldMap, this`merged
      ensures Valid() && merged == old(merged) + [tup]
      ensures var g := tup.fields[gbfield];
        gbFieldMap == old(gbFieldMap)[g := Add32(if g in old(gbFieldMap) then old(gbFieldMap)[g] else 0, 1)]
    {
      var curField := tup.fields[gbfield];
      ghost var m0 := gbFieldMap;
      CountsSnoc(gbfield, merged, tup, m0);
      if curField !in gbFieldMap {
        gbFieldMap := gbFieldMap[curField := 0];
      }
      var curVal := gbFieldMap[curField];
      gbFieldMap := gbFieldMap[curField := Add32(curVal, 1)];
      assert gbFieldMap == m0[curField := Add32(if curField in m0 then m0[curField] else 0, 1)];
      merged := merged + [tup];
    }

    /** `open()` without grouping: the single row holds `aVal`. */
    method OpenUngrouped(c: AggregateCursor)
      requires gbfield == NO_GROUPING
      modifies c
      ensures c.curIndex == old(c.curIndex) && c.td == Some(IntDesc)
      ensures c.agValArr != null && fresh(c.agValArr)
      ensures c.Rows() == [Some(Tuple([IntField(aVal)], None))]
    {
      var arr := new Option<Tuple>[1](_ => None);
      c.Load(IntDesc, arr);
      arr[0] := Some(Tuple([IntField(aVal)], None));
      assert arr[..] == [arr[0]];
    }

    /**
     * `open()` with grouping: one `(g, count)` row per key of `gbFieldMap`, in the map's
     * iteration order (modelled as an arbitrary choice).
     */
    method OpenGrouped(c: AggregateCursor) returns (ghost order: seq<Field>)
      requires gbfield != NO_GROUPING
      modifies c
      ensures c.curIndex == old(c.curIndex) && c.td == Some(GroupDesc(gbfieldtype))
      ensures c.agValArr != null && fresh(c.agValArr) && c.agValArr.Length == |gbFieldMap|
      ensures |order| == c.agValArr.Length && forall g :: g in gbFieldMap ==> g in order
      ensures forall j, k :: 0 <= j < k < |order| ==> order[j] != order[k]
      ensures forall j :: 0 <= j < |order| ==>
        order[j] in gbFieldMap && c.agValArr[j] == Some(GroupRow(order[j], gbFieldMap[order[j]]))
    {
      var arr := new Option<Tuple>[|gbFieldMap|](_ => None);
      c.Load(GroupDesc(gbfieldtype), arr);
      order := FillGroupRows(arr);
    }

    /** The `for` loop over the key set, one row per key in consecutive slots. */
    method FillGroupRows(arr: array<Option<Tuple>>) returns (ghost order: seq<Field>)
      requires arr.Length == |gbFieldMap|
      modifies arr
      ensures |order| == arr.Length && forall g :: g in gbFieldMap ==> g in order
      ensures forall j, k :: 0 <= j < k < |order| ==> order[j] != order[k]
      ensures forall j :: 0 <= j < |order| ==>
        order[j] in gbFieldMap && arr[j] == Some(GroupRow(order[j], gbFieldMap[order[j]]))
    {
      var keys := gbFieldMap.Keys;
      var i := 0;
      order := [];
      EnumeratesStart(keys);
      while keys != {}
        invariant Enumerates(order, keys, gbFieldMap.Keys) && i == |order| && i <= arr.Length
        invariant forall j :: 0 <= j < i ==> arr[j] == Some(GroupRow(order[j], gbFieldMap[order[j]]))
        decreases |keys|
      {
        var gbField :| gbField in keys;
        EnumeratesStep(order, keys, gbFieldMap.Keys, gbField);
        arr[i] := Some(GroupRow(gbField, gbFieldMap[gbField]));
        i := i + 1;
        keys := keys - {gbField};
        order := order + [gbField];
      }
    }

    /**
     * `open()` of the result cursor; it does not throw. With grouping, `order` is the
     * map's iteration order: every key once, row `j` holding key `order[j]` and its count.
     */
    method Open(c: AggregateCursor) returns (ghost order: seq<Field>)
      modifies c
      ensures c.curIndex == old(c.curIndex) && c.agValArr != null && fresh(c.agValArr)
      ensures gbfield == NO_GROUPING ==>
        c.td == Some(IntDesc) && c.Rows() == [Some(Tuple([IntField(aVal)], None))]
      ensures gbfield != NO_GROUPING ==>
        c.td == Some(GroupDesc(gbfieldtype)) && c.agValArr.Length == |gbFieldMap|
      ensures gbfield != NO_GROUPING ==>
        |order| == c.agValArr.Length && forall g :: g in gbFieldMap ==> g in order
      ensures gbfield != NO_GROUPING ==> forall j, k :: 0 <= j < k < |order| ==> order[j] != order[k]
      ensures gbfield != NO_GROUPING ==> forall j :: 0 <= j < |order| ==>
        order[j] in gbFieldMap && c.agValArr[j] == Some(GroupRow(order[j], gbFieldMap[order[j]]))
    {
      if gbfield == NO_GROUPING {
        OpenUngrouped(c);
        order := [];
      } else {
        order := OpenGrouped(c);
      }
    }
  }

  /** The constructor: only COUNT is supported, anything else is an illegal argument. */
  method NewStringAggregator(gbfield: int, gbfieldtype: Type, afield: int, what: Op)
    returns (r: Result<StringAggregator>)
    ensures r.Err? <==> what != Count
    ensures r.Err? ==> r.error == IllegalArgumentException
    ensures r.Ok? ==> (fresh(r.value) && r.value.Valid() && r.value.merged == [] &&
      r.value.gbfield == gbfield && r.value.gbfieldtype == gbfieldtype && r.value.afield == afield)
  {
    if what != Count {
      return Err(IllegalArgumentException);
    }
    var a := new StringAggregator(gbfield, gbfieldtype, afield);
    r := Ok(a);
  }

  /** Without grouping `aVal` is the number of merged tuples, narrowed to int. */
  lemma UngroupedCount(a: StringAggregator)
    requires a.Valid() && a.gbfield == NO_GROUPING
    ensures |a.merged| <= INT_MAX ==> a.aVal == |a.merged|
    ensures a.gbFieldMap == map[]
  {
  }

  /** With grouping the keys are exactly the group-by values of the merged tuples. */
  lemma GroupedKeys(a: StringAggregator, g: Field)
    requires a.Valid() && a.gbfield != NO_GROUPING
    ensures g in a.gbFieldMap <==> exists i :: 0 <= i < |a.merged| && a.merged[i].fields[a.gbfield] == g
  {
    CountInPositive(a.gbfield, a.merged, g);
  }
}
