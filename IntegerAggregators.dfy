/**
 * lab/src/IntegerAggregator.java: MIN, MAX, SUM, COUNT and AVG over an int field, grouped by
 * another field or not at all. `gbHash` holds one Java `int` per group for the first four,
 * `gbAvgHash` a `[sum, count]` pair for AVG; both wrap around as Java's `int` does. The
 * ghost history `merged` is everything merged so far, and `Valid` ties every group's entry
 * to reference aggregates of the values merged into that group.
 */
module IntegerAggregators {
  import opened Common
  import opened Tuples
  import opened TupleDescs
  import opened Aggregates

  /** A tuple the aggregator can merge: both fields exist and the aggregate one is an int. */
  predicate Mergeable(gbfield: int, afield: int, t: Tuple)
  {
    (gbfield == NO_GROUPING || 0 <= gbfield < |t.fields|) &&
    0 <= afield < |t.fields| && t.fields[afield].IntField?
  }

  ghost predicate AllMergeable(gbfield: int, afield: int, ts: seq<Tuple>)
  {
    forall i :: 0 <= i < |ts| ==> Mergeable(gbfield, afield, ts[i])
  }

  /** The group of a tuple: the single null key without grouping, else its group-by field. */
  function KeyOf(gbfield: int, t: Tuple): Option<Field>
    requires gbfield == NO_GROUPING || 0 <= gbfield < |t.fields|
  {
    if gbfield == NO_GROUPING then None else Some(t.fields[gbfield])
  }

  /** The aggregate-field values of the tuples of `ts` in group `g`, in merge order. */
  ghost function GroupValues(gbfield: int, afield: int, ts: seq<Tuple>, g: Option<Field>): seq<Int32>
    requires AllMergeable(gbfield, afield, ts)
  {
    if ts == [] then []
    else
      var t := ts[|ts| - 1];
      GroupValues(gbfield, afield, ts[..|ts| - 1], g) +
        (if KeyOf(gbfield, t) == g then [t.fields[afield].intValue] else [])
  }

  /** The exact sum of a sequence of values. */
  function Total(vs: seq<Int32>): int
  {
    if vs == [] then 0 else Total(vs[..|vs| - 1]) + vs[|vs| - 1]
  }

  /** What `gbHash` should hold for a group with values `vs`: the reference aggregate. */
  ghost function Aggregate(what: Op, vs: seq<Int32>): Int32
    requires what != Avg && vs != []
  {
    match what
    case Count => Wrap32(|vs|)
    case Sum => Wrap32(Total(vs))
    case Max => MaxOf(vs)
    case Min => MinOf(vs)
  }

  /** What `gbAvgHash` should hold for a group with values `vs`: wrapped sum and count. */
  ghost function AvgState(vs: seq<Int32>): (Int32, Int32)
  {
    (Wrap32(Total(vs)), Wrap32(|vs|))
  }

  /** `m` holds exactly the groups of `ts`, each with its reference aggregate. */
  ghost predicate Summarizes(gbfield: int, afield: int, what: Op, ts: seq<Tuple>,
                             m: map<Option<Field>, Int32>)
    requires what != Avg && AllMergeable(gbfield, afield, ts)
  {
    forall g :: (g in m <==> GroupValues(gbfield, afield, ts, g) != []) &&
      (g in m ==> m[g] == Aggregate(what, GroupValues(gbfield, afield, ts, g)))
  }

  /** `m` holds exactly the groups of `ts`, each with its wrapped `[sum, count]`. */
  ghost predicate AvgSummarizes(gbfield: int, afield: int, ts: seq<Tuple>,
                                m: map<Option<Field>, (Int32, Int32)>)
    requires AllMergeable(gbfield, afield, ts)
  {
    forall g :: (g in m <==> GroupValues(gbfield, afield, ts, g) != []) &&
      (g in m ==> m[g] == AvgState(GroupValues(gbfield, afield, ts, g)))
  }

  /** Merging one more tuple adds its value to its own group only. */
  lemma GroupValuesSnoc(gbfield: int, afield: int, ts: seq<Tuple>, t: Tuple, g: Option<Field>)
    requires AllMergeable(gbfield, afield, ts) && Mergeable(gbfield, afield, t)
    ensures AllMergeable(gbfield, afield, ts + [t])
    ensures GroupValues(gbfield, afield, ts + [t], g) ==
      GroupValues(gbfield, afield, ts, g) +
        (if KeyOf(gbfield, t) == g then [t.fields[afield].intValue] else [])
  {
    assert (ts + [t])[..|ts|] == ts;
  }

  /** A group is non-empty exactly when some merged tuple belongs to it. */
  lemma {:induction false} GroupMembership(gbfield: int, afield: int, ts: seq<Tuple>, g: Option<Field>)
    requires AllMergeable(gbfield, afield, ts)
    ensures GroupValues(gbfield, afield, ts, g) != [] <==>
      exists i :: 0 <= i < |ts| && KeyOf(gbfield, ts[i]) == g
  {
    if ts != [] {
      var init := ts[..|ts| - 1];
      assert AllMergeable(gbfield, afield, init);
      GroupMembership(gbfield, afield, init, g);
      if exists i :: 0 <= i < |init| && KeyOf(gbfield, init[i]) == g {
        var i :| 0 <= i < |init| && KeyOf(gbfield, init[i]) == g;
        assert ts[i] == init[i];
      }
      if exists i :: 0 <= i < |ts| && KeyOf(gbfield, ts[i]) == g {
        var i :| 0 <= i < |ts| && KeyOf(gbfield, ts[i]) == g;
        if i < |init| {
          assert init[i] == ts[i];
        }
      }
    }
  }

  /** Without grouping the only group is null; with grouping every group is a field. */
  lemma GroupKeyShape(gbfield: int, afield: int, ts: seq<Tuple>, g: Option<Field>)
    requires AllMergeable(gbfield, afield, ts) && GroupValues(gbfield, afield, ts, g) != []
    ensures g.None? <==> gbfield == NO_GROUPING
  {
    GroupMembership(gbfield, afield, ts, g);
  }

  /** The reference aggregates follow the per-case update of `mergeTupleIntoGroup`. */
  lemma AggregateSnoc(what: Op, vs: seq<Int32>, v: Int32)
    requires what != Avg
    ensures vs == [] ==> Aggregate(what, vs + [v]) == (if what == Count then 1 else v)
    ensures vs != [] ==> Aggregate(what, vs + [v]) == match what
      case Count => Add32(Aggregate(what, vs), 1)
      case Sum => Add32(Aggregate(what, vs), v)
      case Max => Common.Max(Aggregate(what, vs), v)
      case Min => Common.Min(Aggregate(what, vs), v)
  {
    var ws := vs + [v];
    assert ws[..|ws| - 1] == vs;
    Wrap32Add(|vs|, 1);
    Wrap32Add(Total(vs), v);
    if vs == [] {
      assert Total(ws) == v;
    }
  }

  /** AVG's pair follows the `[sum + v, count + 1]` update. */
  lemma AvgStateSnoc(vs: seq<Int32>, v: Int32)
    ensures vs == [] ==> AvgState(vs + [v]) == (v, 1)
    ensures vs != [] ==> AvgState(vs + [v]) == (Add32(AvgState(vs).0, v), Add32(AvgState(vs).1, 1))
  {
    var ws := vs + [v];
    assert ws[..|ws| - 1] == vs;
    Wrap32Add(|vs|, 1);
    Wrap32Add(Total(vs), v);
  }

  /** One merge keeps `Summarizes` once the merged tuple's group gets its new aggregate. */
  lemma SummarizesSnoc(gbfield: int, afield: int, what: Op, ts: seq<Tuple>, t: Tuple,
                       m: map<Option<Field>, Int32>)
    requires what != Avg && AllMergeable(gbfield, afield, ts) && Mergeable(gbfield, afield, t)
    requires Summarizes(gbfield, afield, what, ts, m)
    ensures AllMergeable(gbfield, afield, ts + [t])
    ensures var k := KeyOf(gbfield, t);
      Summarizes(gbfield, afield, what, ts + [t],
                 m[k := Aggregate(what, GroupValues(gbfield, afield, ts + [t], k))])
  {
    var k := KeyOf(gbfield, t);
    GroupValuesSnoc(gbfield, afield, ts, t, k);
    var ts' := ts + [t];
    var m' := m[k := Aggregate(what, GroupValues(gbfield, afield, ts', k))];
    forall g
      ensures (g in m' <==> GroupValues(gbfield, afield, ts', g) != []) &&
        (g in m' ==> m'[g] == Aggregate(what, GroupValues(gbfield, afield, ts', g)))
    {
      GroupValuesSnoc(gbfield, afield, ts, t, g);
      if g != k {
        assert GroupValues(gbfield, afield, ts', g) == GroupValues(gbfield, afield, ts, g);
        assert (g in m <==> GroupValues(gbfield, afield, ts, g) != []);
      }
    }
  }

  /** One merge keeps `AvgSummarizes` likewise. */
  lemma AvgSummarizesSnoc(gbfield: int, afield: int, ts: seq<Tuple>, t: Tuple,
                          m: map<Option<Field>, (Int32, Int32)>)
    requires AllMergeable(gbfield, afield, ts) && Mergeable(gbfield, afield, t)
    requires AvgSummarizes(gbfield, afield, ts, m)
    ensures AllMergeable(gbfield, afield, ts + [t])
    ensures var k := KeyOf(gbfield, t);
      AvgSummarizes(gbfield, afield, ts + [t],
                    m[k := AvgState(GroupValues(gbfield, afield, ts + [t], k))])
  {
    var k := KeyOf(gbfield, t);
    GroupValuesSnoc(gbfield, afield, ts, t, k);
    var ts' := ts + [t];
    var m' := m[k := AvgState(GroupValues(gbfield, afield, ts', k))];
    forall g
      ensures (g in m' <==> GroupValues(gbfield, afield, ts', g) != []) &&
        (g in m' ==> m'[g] == AvgState(GroupValues(gbfield, afield, ts', g)))
    {
      GroupValuesSnoc(gbfield, afield, ts, t, g);
      if g != k {
        assert GroupValues(gbfield, afield, ts', g) == GroupValues(gbfield, afield, ts, g);
        assert (g in m <==> GroupValues(gbfield, afield, ts, g) != []);
      }
    }
  }

  /**
   * The switch of `mergeTupleIntoGroup` for MIN, MAX, SUM and COUNT: a group's first value
   * starts it at the value (at 1 for COUNT); a later one is combined with the current entry.
   */
  function Merged(what: Op, cur: Option<Int32>, v: Int32): Int32
    requires what != Avg
  {
    match cur
    case None => if what == Count then 1 else v
    case Some(c) =>
      match what
      case Max => Common.Max(c, v)
      case Sum => Add32(c, v)
      case Count => Add32(c, 1)
      case Min => Common.Min(c, v)
  }

  /** The switch computes the reference aggregate of the group's values with `v` appended. */
  lemma MergedIsAggregate(what: Op, vs: seq<Int32>, v: Int32)
    requires what != Avg
    ensures Merged(what, if vs == [] then None else Some(Aggregate(what, vs)), v) == Aggregate(what, vs + [v])
  {
    AggregateSnoc(what, vs, v);
  }

  /** One merge, on values: the switch's new entry is the group's new reference aggregate. */
  lemma MergeStep(gbfield: int, afield: int, what: Op, ts: seq<Tuple>, t: Tuple,
                  m: map<Option<Field>, Int32>)
    requires what != Avg && AllMergeable(gbfield, afield, ts) && Mergeable(gbfield, afield, t)
    requires Summarizes(gbfield, afield, what, ts, m)
    ensures AllMergeable(gbfield, afield, ts + [t])
    ensures var k := KeyOf(gbfield, t);
      var v := Merged(what, if k in m then Some(m[k]) else None, t.fields[afield].intValue);
      v == Aggregate(what, GroupValues(gbfield, afield, ts + [t], k)) &&
      Summarizes(gbfield, afield, what, ts + [t], m[k := v])
  {
    var k := KeyOf(gbfield, t);
    var vs := GroupValues(gbfield, afield, ts, k);
    assert k in m <==> vs != [];
    MergedIsAggregate(what, vs, t.fields[afield].intValue);
    GroupValuesSnoc(gbfield, afield, ts, t, k);
    SummarizesSnoc(gbfield, afield, what, ts, t, m);
  }

  class IntegerAggregator {
    const gbfield: int
    const gbfieldtype: Type
    const afield: int
    const what: Op
    var gbHash: map<Option<Field>, Int32>
    var gbAvgHash: map<Option<Field>, (Int32, Int32)>
    ghost var merged: seq<Tuple>

    ghost predicate Valid()
      reads this
    {
      AllMergeable(gbfield, afield, merged) &&
      (what != Avg ==> gbAvgHash == map[] && Summarizes(gbfield, afield, what, merged, gbHash)) &&
      (what == Avg ==> gbHash == map[] && AvgSummarizes(gbfield, afield, merged, gbAvgHash))
    }

    constructor(gbfield: int, gbfieldtype: Type, afield: int, what: Op)
      ensures this.gbfield == gbfield && this.gbfieldtype == gbfieldtype
      ensures this.afield == afield && this.what == what
      ensures gbHash == map[] && gbAvgHash == map[] && merged == []
      ensures Valid()
    {
      this.gbfield := gbfield;
      this.gbfieldtype := gbfieldtype;
      this.afield := afield;
      this.what := what;
      gbHash := map[];
      gbAvgHash := map[];
      merged := [];
    }

    /** The groups the result cursor iterates: `gbAvgHash`'s keys for AVG, else `gbHash`'s. */
    function Keys(): set<Option<Field>>
      reads this
    {
      if what == Avg then gbAvgHash.Keys else gbHash.Keys
    }

    /**
     * The value `open()` reports for group `g`: `gbHash`'s entry, or AVG's sum divided by
     * its count with Java's `/`. A missing entry unboxes null, a zero count divides by zero.
     */
    function ReportedValue(g: Option<Field>): (r: Result<Int32>)
      reads this
      ensures r.Ok? <==> g in Keys() && (what == Avg ==> gbAvgHash[g].1 != 0)
      ensures g !in Keys() ==> r == Err(NullPointerException)
      ensures r.Err? && g in Keys() ==> r == Err(ArithmeticException)
    {
      if what != Avg then
        if g in gbHash then Ok(gbHash[g]) else Err(NullPointerException)
      else if g !in gbAvgHash then Err(NullPointerException)
      else if gbAvgHash[g].1 == 0 then Err(ArithmeticException)
      else Ok(Div32(gbAvgHash[g].0, gbAvgHash[g].1))
    }

    /**
     * `mergeTupleIntoGroup`: the tuple's group entry (and no other) is updated, in `gbHash`
     * for MIN, MAX, SUM and COUNT and in `gbAvgHash` for AVG.
     */
    method MergeTupleIntoGroup(tup: Tuple)
      requires Valid() && Mergeable(gbfield, afield, tup)
      modifies this
      ensures Valid() && merged == old(merged) + [tup]
      ensures var k := KeyOf(gbfield, tup);
        what != Avg ==> (gbAvgHash == old(gbAvgHash) &&
          gbHash == old(gbHash)[k := Aggregate(what, GroupValues(gbfield, afield, merged, k))])
      ensures var k := KeyOf(gbfield, tup);
        what == Avg ==> (gbHash == old(gbHash) &&
          gbAvgHash == old(gbAvgHash)[k := AvgState(GroupValues(gbfield, afield, merged, k))])
    {
      var curGbField := if gbfield == NO_GROUPING then None else Some(tup.fields[gbfield]);
      var curVal := tup.fields[afield].intValue;
      if what != Avg {
        MergeIntoHash(tup, curGbField, curVal);
      } else {
        MergeIntoAvgHash(tup, curGbField, curVal);
      }
    }

    /** The MIN, MAX, SUM and COUNT cases of the switch. */
    method MergeIntoHash(tup: Tuple, curGbField: Option<Field>, curVal: Int32)
      requires Valid() && Mergeable(gbfield, afield, tup) && what != Avg
      requires curGbField == KeyOf(gbfield, tup) && curVal == tup.fields[afield].intValue
      modifies this`gbHash, this`merged
      ensures Valid() && merged == old(merged) + [tup]
      ensures gbHash == old(gbHash)[curGbField := Aggregate(what, GroupValues(gbfield, afield, merged, curGbField))]
    {
      var cur := if curGbField in gbHash then Some(gbHash[curGbField]) else None;
      var newVal := Merged(what, cur, curVal);
      MergeStep(gbfield, afield, what, merged, tup, gbHash);
      gbHash := gbHash[curGbField := newVal];
      merged := merged + [tup];
    }

    /** The AVG case of the switch: `[sum, count]` becomes `[sum + v, count + 1]`. */
    method MergeIntoAvgHash(tup: Tuple, curGbField: Option<Field>, curVal: Int32)
      requires Valid() && Mergeable(gbfield, afield, tup) && what == Avg
      requires curGbField == KeyOf(gbfield, tup) && curVal == tup.fields[afield].intValue
      modifies this
      ensures Valid() && merged == old(merged) + [tup]
      ensures gbHash == old(gbHash)
      ensures gbAvgHash == old(gbAvgHash)[curGbField := AvgState(GroupValues(gbfield, afield, merged, curGbField))]
    {
      ghost var vs := GroupValues(gbfield, afield, merged, curGbField);
      GroupValuesSnoc(gbfield, afield, merged, tup, curGbField);
      AvgStateSnoc(vs, curVal);
      AvgSummarizesSnoc(gbfield, afield, merged, tup, gbAvgHash);
      if curGbField !in gbAvgHash {
        gbAvgHash := gbAvgHash[curGbField := (curVal, 1)];
      } else {
        var curSumVal := gbAvgHash[curGbField].0;
        var curCountVal := gbAvgHash[curGbField].1;
        gbAvgHash := gbAvgHash[curGbField := (Add32(curSumVal, curVal), Add32(curCountVal, 1))];
      }
      merged := merged + [tup];
    }

    /**
     * The result cursor's `open()` without grouping: a one-row array and the one-field
     * descriptor are installed first; the row is the null group's value, and an exception
     * computing it leaves the array holding null.
     */
    method OpenUngrouped(c: AggregateCursor) returns (r: Result<()>)
      requires Valid() && gbfield == NO_GROUPING
      modifies c
      ensures c.curIndex == old(c.curIndex) && c.td == Some(IntDesc)
      ensures c.agValArr != null && fresh(c.agValArr)
      ensures r.Ok? <==> ReportedValue(None).Ok?
      ensures r.Err? ==> r.error == ReportedValue(None).error && c.Rows() == [None]
      ensures r.Ok? ==> c.Rows() == [Some(Tuple([IntField(ReportedValue(None).value)], None))]
    {
      var arr := new Option<Tuple>[1](_ => None);
      c.Load(IntDesc, arr);
      var v := ReportedValue(None);
      if v.Err? {
        assert arr[..] == [None];
        return Err(v.error);
      }
      arr[0] := Some(Tuple([IntField(v.value)], None));
      assert arr[..] == [arr[0]];
      r := Ok(());
    }

    /**
     * The result cursor's `open()` with grouping: an array of one slot per key and the
     * two-field descriptor are installed first, then each key's row fills the next slot
     * in the map's iteration order (modelled as an arbitrary choice). An AVG group whose
     * count wrapped to 0 divides by zero and leaves the later slots null.
     */
    method OpenGrouped(c: AggregateCursor) returns (r: Result<()>, ghost order: seq<Option<Field>>)
      requires Valid() && gbfield != NO_GROUPING
      modifies c
      ensures c.curIndex == old(c.curIndex) && c.td == Some(GroupDesc(gbfieldtype))
      ensures c.agValArr != null && fresh(c.agValArr) && c.agValArr.Length == |Keys()|
      ensures r.Ok? <==> forall g :: g in Keys() ==> ReportedValue(g).Ok?
      ensures r.Err? ==> r.error == ArithmeticException
      ensures r.Ok? ==> |order| == c.agValArr.Length && (forall g :: g in Keys() ==> g in order)
      ensures r.Ok? ==> forall j, k :: 0 <= j < k < |order| ==> order[j] != order[k]
      ensures r.Ok? ==> forall j :: 0 <= j < |order| ==>
        order[j] in Keys() && order[j].Some? && ReportedValue(order[j]).Ok? &&
        c.agValArr[j] == RowOf(order[j])
    {
      var arr := new Option<Tuple>[|Keys()|](_ => None);
      c.Load(GroupDesc(gbfieldtype), arr);
      forall g | g in Keys() ensures g.Some? {
        KeyIsField(g);
      }
      r, order := FillGroupRows(arr);
    }

    /** The row `open()` writes for group `g`, or null when computing it throws. */
    function RowOf(g: Option<Field>): Option<Tuple>
      reads this
    {
      if g.Some? && ReportedValue(g).Ok? then Some(GroupRow(g.value, ReportedValue(g).value)) else None
    }

    /** The `for` loop over the key set, writing one row per key into consecutive slots. */
    method FillGroupRows(arr: array<Option<Tuple>>) returns (r: Result<()>, ghost order: seq<Option<Field>>)
      requires (forall g :: g in Keys() ==> g.Some?) && arr.Length == |Keys()|
      modifies arr
      ensures r.Ok? <==> forall g :: g in Keys() ==> ReportedValue(g).Ok?
      ensures r.Err? ==> r.error == ArithmeticException
      ensures r.Ok? ==> |order| == arr.Length && (forall g :: g in Keys() ==> g in order)
      ensures r.Ok? ==> forall j, k :: 0 <= j < k < |order| ==> order[j] != order[k]
      ensures r.Ok? ==> forall j :: 0 <= j < |order| ==>
        order[j] in Keys() && order[j].Some? && ReportedValue(order[j]).Ok? &&
        arr[j] == RowOf(order[j])
    {
      var keys := Keys();
      var i := 0;
      order := [];
      EnumeratesStart(keys);
      while keys != {}
        invariant Enumerates(order, keys, Keys()) && i == |order| && i <= arr.Length
        invariant forall j :: 0 <= j < i ==> ReportedValue(order[j]).Ok? && arr[j] == RowOf(order[j])
        decreases |keys|
      {
        var gbField :| gbField in keys;
        var v := ReportedValue(gbField);
        if v.Err? {
          return Err(v.error), order;
        }
        EnumeratesStep(order, keys, Keys(), gbField);
        arr[i] := Some(GroupRow(gbField.value, v.value));
        i := i + 1;
        keys := keys - {gbField};
        order := order + [gbField];
      }
      r := Ok(());
    }

    /** With grouping, every group in the maps is a field value. */
    lemma KeyIsField(g: Option<Field>)
      requires Valid() && gbfield != NO_GROUPING && g in Keys()
      ensures g.Some?
    {
      GroupKeyShape(gbfield, afield, merged, g);
    }

    /**
     * `open()` of the result cursor. Without grouping the one row is the null group's
     * value; with grouping `order` is the key set's iteration order, row `j` holding key
     * `order[j]` and its value.
     */
    method Open(c: AggregateCursor) returns (r: Result<()>, ghost order: seq<Option<Field>>)
      requires Valid()
      modifies c
      ensures c.curIndex == old(c.curIndex) && c.agValArr != null && fresh(c.agValArr)
      ensures gbfield == NO_GROUPING ==> c.td == Some(IntDesc) && c.agValArr.Length == 1
      ensures gbfield != NO_GROUPING ==>
        c.td == Some(GroupDesc(gbfieldtype)) && c.agValArr.Length == |Keys()|
      ensures gbfield == NO_GROUPING ==> (r.Ok? <==> ReportedValue(None).Ok?)
      ensures gbfield == NO_GROUPING && r.Err? ==>
        r.error == ReportedValue(None).error && c.Rows() == [None]
      ensures gbfield == NO_GROUPING && r.Ok? ==>
        c.Rows() == [Some(Tuple([IntField(ReportedValue(None).value)], None))]
      ensures gbfield != NO_GROUPING ==> (r.Ok? <==> forall g :: g in Keys() ==> ReportedValue(g).Ok?)
      ensures gbfield != NO_GROUPING && r.Err? ==> r.error == ArithmeticException
      ensures gbfield != NO_GROUPING && r.Ok? ==>
        |order| == c.agValArr.Length && (forall g :: g in Keys() ==> g in order)
      ensures gbfield != NO_GROUPING && r.Ok? ==> forall j, k :: 0 <= j < k < |order| ==> order[j] != order[k]
      ensures gbfield != NO_GROUPING && r.Ok? ==> forall j :: 0 <= j < |order| ==>
        order[j] in Keys() && order[j].Some? && ReportedValue(order[j]).Ok? &&
        c.agValArr[j] == Some(GroupRow(order[j].value, ReportedValue(order[j]).value))
    {
      if gbfield == NO_GROUPING {
        r := OpenUngrouped(c);
        order := [];
      } else {
        r, order := OpenGrouped(c);
      }
    }
  }

  /** Without grouping every merged tuple goes to the null group, so it exists once one has. */
  lemma UngroupedSingleGroup(a: IntegerAggregator, g: Option<Field>)
    requires a.Valid() && a.gbfield == NO_GROUPING
    ensures g in a.Keys() ==> g.None?
    ensures None in a.Keys() <==> a.merged != []
  {
    if g in a.Keys() {
      GroupKeyShape(a.gbfield, a.afield, a.merged, g);
    }
    GroupMembership(a.gbfield, a.afield, a.merged, None);
    if a.merged != [] {
      assert KeyOf(a.gbfield, a.merged[0]) == None;
    }
  }

  /** A group is in the maps exactly when some merged tuple carries its group-by value. */
  lemma GroupedKeys(a: IntegerAggregator, g: Option<Field>)
    requires a.Valid() && a.gbfield != NO_GROUPING
    ensures g in a.Keys() <==>
      exists i :: 0 <= i < |a.merged| && g == Some(a.merged[i].fields[a.gbfield])
  {
    GroupMembership(a.gbfield, a.afield, a.merged, g);
  }

  /** COUNT: a group's value is the number of tuples merged into it (narrowed to int). */
  lemma CountIsGroupSize(a: IntegerAggregator, g: Option<Field>)
    requires a.Valid() && a.what == Count && g in a.Keys()
    ensures a.gbHash[g] == Wrap32(|GroupValues(a.gbfield, a.afield, a.merged, g)|)
    ensures |GroupValues(a.gbfield, a.afield, a.merged, g)| <= INT_MAX ==>
      a.gbHash[g] == |GroupValues(a.gbfield, a.afield, a.merged, g)|
  {
  }

  /** SUM: a group's value is the sum of its values with Java's wrap-around. */
  lemma SumIsGroupTotal(a: IntegerAggregator, g: Option<Field>)
    requires a.Valid() && a.what == Sum && g in a.Keys()
    ensures a.gbHash[g] == Wrap32(Total(GroupValues(a.gbfield, a.afield, a.merged, g)))
  {
  }

  /** MAX and MIN: a group's value is one of its values and bounds all of them. */
  lemma ExtremeIsGroupValue(a: IntegerAggregator, g: Option<Field>)
    requires a.Valid() && (a.what == Max || a.what == Min) && g in a.Keys()
    ensures var vs := GroupValues(a.gbfield, a.afield, a.merged, g);
      a.gbHash[g] in vs &&
      (a.what == Max ==> forall v :: v in vs ==> v <= a.gbHash[g]) &&
      (a.what == Min ==> forall v :: v in vs ==> a.gbHash[g] <= v)
  {
  }

  /**
   * AVG: while neither the sum nor the count has wrapped, the reported value is the mean
   * of the group's values rounded toward zero.
   */
  lemma AvgIsTruncatedMean(a: IntegerAggregator, g: Option<Field>)
    requires a.Valid() && a.what == Avg && g in a.Keys()
    requires var vs := GroupValues(a.gbfield, a.afield, a.merged, g);
      |vs| <= INT_MAX && INT_MIN <= Total(vs) <= INT_MAX
    ensures var vs := GroupValues(a.gbfield, a.afield, a.merged, g);
      a.ReportedValue(g) == Ok(TruncDiv(Total(vs), |vs|))
  {
  }
}
