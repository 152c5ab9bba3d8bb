/**
 * lab/src/TableStats.java: per-column statistics of one table, gathered in two passes over
 * the table's tuples. The first pass counts the tuples and finds each int column's minimum
 * and maximum; the second collects each column's distinct values and feeds an
 * `IntHistogram` built over that column's `[min, max]` (string columns feed a string
 * histogram, which is not part of this model, so only the set of such columns is kept).
 * Both passes see the tuples of `HeapFiles.ScanAll`: the file does not change between them.
 */
module TableStatistics {
  import opened Common
  import opened Tuples
  import opened TupleDescs
  import opened IntHistograms
  import opened HeapFiles

  /** `TableStats.IOCOSTPERPAGE`. */
  const IOCOSTPERPAGE: Int32 := 1000

  /** `TableStats.NUM_HIST_BINS`. */
  const NUM_HIST_BINS: Int32 := 100

  /** The int in column `i` of `t`, if that column exists and holds an int. */
  function CellInt(t: Tuple, i: int): seq<Int32>
  {
    if 0 <= i < |t.fields| && t.fields[i].IntField? then [t.fields[i].intValue] else []
  }

  /** The string in column `i` of `t`, if that column exists and holds a string. */
  function CellString(t: Tuple, i: int): seq<string>
  {
    if 0 <= i < |t.fields| && t.fields[i].StringField? then [t.fields[i].stringValue] else []
  }

  /** The ints of column `i` over `rows`, in row order. */
  ghost function ColumnInts(rows: seq<Tuple>, i: int): seq<Int32>
  {
    if rows == [] then [] else ColumnInts(rows[..|rows| - 1], i) + CellInt(rows[|rows| - 1], i)
  }

  /** The strings of column `i` over `rows`, in row order. */
  ghost function ColumnStrings(rows: seq<Tuple>, i: int): seq<string>
  {
    if rows == [] then [] else ColumnStrings(rows[..|rows| - 1], i) + CellString(rows[|rows| - 1], i)
  }

  /** The distinct values of a sequence, as a `HashSet` collects them. */
  ghost function Elems<T>(s: seq<T>): set<T>
  {
    if s == [] then {} else Elems(s[..|s| - 1]) + {s[|s| - 1]}
  }

  lemma {:induction false} ElemsMembers<T>(s: seq<T>, x: T)
    ensures x in Elems(s) <==> x in s
  {
    if s != [] {
      ElemsMembers(s[..|s| - 1], x);
      assert s == s[..|s| - 1] + [s[|s| - 1]];
    }
  }

  /** The first `j` fields of a tuple: a row the second pass is part-way through. */
  function Partial(t: Tuple, j: nat): Tuple
    requires j <= |t.fields|
  {
    Tuple(t.fields[..j], t.recordId)
  }

  /** A row part-way through adds to the columns before `j` only. */
  lemma PartialColumns(pre: seq<Tuple>, t: Tuple, j: nat, i: int)
    requires j <= |t.fields|
    ensures 0 <= i < j ==> ColumnInts(pre + [Partial(t, j)], i) == ColumnInts(pre, i) + CellInt(t, i)
    ensures 0 <= i < j ==> ColumnStrings(pre + [Partial(t, j)], i) == ColumnStrings(pre, i) + CellString(t, i)
    ensures !(0 <= i < j) ==> ColumnInts(pre + [Partial(t, j)], i) == ColumnInts(pre, i)
    ensures !(0 <= i < j) ==> ColumnStrings(pre + [Partial(t, j)], i) == ColumnStrings(pre, i)
  {
    assert (pre + [Partial(t, j)])[..|pre|] == pre;
    if !(0 <= i < j) {
      assert ColumnInts(pre, i) + [] == ColumnInts(pre, i);
      assert ColumnStrings(pre, i) + [] == ColumnStrings(pre, i);
    }
  }

  lemma ColumnSnoc(pre: seq<Tuple>, t: Tuple, i: int)
    ensures ColumnInts(pre + [t], i) == ColumnInts(pre, i) + CellInt(t, i)
    ensures ColumnStrings(pre + [t], i) == ColumnStrings(pre, i) + CellString(t, i)
  {
    assert (pre + [t])[..|pre|] == pre;
  }

  /** The int of every row's column `i` occurs in the column. */
  lemma {:induction false} ColumnIntsContains(rows: seq<Tuple>, k: nat, i: int)
    requires k < |rows| && CellInt(rows[k], i) != []
    ensures CellInt(rows[k], i)[0] in ColumnInts(rows, i)
  {
    var n := |rows| - 1;
    if k < n {
      assert rows[..n][k] == rows[k];
      ColumnIntsContains(rows[..n], k, i);
    }
  }

  /** A non-empty column has a row with an int there. */
  lemma {:induction false} ColumnIntsWitness(rows: seq<Tuple>, i: int) returns (k: nat)
    requires ColumnInts(rows, i) != []
    ensures k < |rows| && CellInt(rows[k], i) != []
  {
    var n := |rows| - 1;
    if CellInt(rows[n], i) != [] {
      k := n;
    } else {
      k := ColumnIntsWitness(rows[..n], i);
      assert rows[..n][k] == rows[k];
    }
  }

  /** A column holds an int exactly when some row has one there. */
  lemma ColumnIntsNonEmpty(rows: seq<Tuple>, i: int)
    ensures ColumnInts(rows, i) != [] <==> exists k :: 0 <= k < |rows| && CellInt(rows[k], i) != []
  {
    if exists k :: 0 <= k < |rows| && CellInt(rows[k], i) != [] {
      var k :| 0 <= k < |rows| && CellInt(rows[k], i) != [];
      ColumnIntsContains(rows, k, i);
    }
    if ColumnInts(rows, i) != [] {
      var k := ColumnIntsWitness(rows, i);
    }
  }

  /** `Min` and `Max` of one more value are the folds of `Math.min` and `Math.max`. */
  lemma ExtremesOfSnoc(vs: seq<Int32>, v: Int32)
    ensures vs == [] ==> MinOf(vs + [v]) == v && MaxOf(vs + [v]) == v
    ensures vs != [] ==> MinOf(vs + [v]) == Min(MinOf(vs), v) && MaxOf(vs + [v]) == Max(MaxOf(vs), v)
  {
    assert (vs + [v])[..|vs|] == vs;
  }

  /**
   * Column `i` as far as the second pass has got: the first `k` rows whole, and the first
   * `j` fields of row `k`.
   */
  ghost function IntsFed(rows: seq<Tuple>, k: nat, j: nat, i: int): seq<Int32>
    requires k <= |rows|
  {
    ColumnInts(rows[..k], i) + (if k < |rows| && 0 <= i < j then CellInt(rows[k], i) else [])
  }

  ghost function StringsFed(rows: seq<Tuple>, k: nat, j: nat, i: int): seq<string>
    requires k <= |rows|
  {
    ColumnStrings(rows[..k], i) + (if k < |rows| && 0 <= i < j then CellString(rows[k], i) else [])
  }

  /** Past the last field of a row is the start of the next one. */
  lemma RowDone(rows: seq<Tuple>, k: nat, i: int)
    requires k < |rows|
    ensures IntsFed(rows, k, |rows[k].fields|, i) == IntsFed(rows, k + 1, 0, i)
    ensures StringsFed(rows, k, |rows[k].fields|, i) == StringsFed(rows, k + 1, 0, i)
  {
    assert rows[..k + 1] == rows[..k] + [rows[k]];
    ColumnSnoc(rows[..k], rows[k], i);
  }

  /** After the last row the second pass has fed each column whole. */
  lemma FedAtEnd(rows: seq<Tuple>, i: int)
    ensures IntsFed(rows, |rows|, 0, i) == ColumnInts(rows, i)
    ensures StringsFed(rows, |rows|, 0, i) == ColumnStrings(rows, i)
  {
    assert rows[..|rows|] == rows;
  }

  /** A column has at most one value per row. */
  lemma {:induction false} ColumnLength(rows: seq<Tuple>, i: int)
    ensures |ColumnInts(rows, i)| <= |rows| && |ColumnStrings(rows, i)| <= |rows|
  {
    if rows != [] {
      ColumnLength(rows[..|rows| - 1], i);
    }
  }

  /** A sequence has no more distinct values than entries. */
  lemma {:induction false} ElemsAtMostLength<T>(s: seq<T>)
    ensures |Elems(s)| <= |s|
  {
    if s != [] {
      ElemsAtMostLength(s[..|s| - 1]);
    }
  }

  /** An int cell adds its value to its own column and leaves every other column alone. */
  lemma IntCellColumns(rows: seq<Tuple>, k: nat, j: nat, i: int)
    requires k < |rows| && j < |rows[k].fields| && rows[k].fields[j].IntField?
    ensures i == j ==> IntsFed(rows, k, j + 1, i) == IntsFed(rows, k, j, i) + [rows[k].fields[j].intValue]
    ensures i != j ==> IntsFed(rows, k, j + 1, i) == IntsFed(rows, k, j, i)
    ensures StringsFed(rows, k, j + 1, i) == StringsFed(rows, k, j, i)
  {
    if i != j {
      assert 0 <= i < j + 1 <==> 0 <= i < j;
    }
  }

  /** A string cell adds its value to its own column and leaves every other column alone. */
  lemma StringCellColumns(rows: seq<Tuple>, k: nat, j: nat, i: int)
    requires k < |rows| && j < |rows[k].fields| && rows[k].fields[j].StringField?
    ensures i == j ==> StringsFed(rows, k, j + 1, i) == StringsFed(rows, k, j, i) + [rows[k].fields[j].stringValue]
    ensures i != j ==> StringsFed(rows, k, j + 1, i) == StringsFed(rows, k, j, i)
    ensures IntsFed(rows, k, j + 1, i) == IntsFed(rows, k, j, i)
  {
    if i != j {
      assert 0 <= i < j + 1 <==> 0 <= i < j;
    }
  }

  /** One more value in a column is one more element in its set. */
  lemma ElemsSnoc<T>(s: seq<T>, v: T)
    ensures Elems(s + [v]) == Elems(s) + {v}
  {
    assert (s + [v])[..|s|] == s;
  }

  /** Column `i` has an entry in `intFieldsValMemo` exactly when it held an int so far: its distinct ints. */
  ghost predicate IntMemoAt(memo: map<int, set<Int32>>, rows: seq<Tuple>, k: nat, j: nat, i: int)
    requires k <= |rows|
  {
    (i in memo <==> IntsFed(rows, k, j, i) != []) &&
    (i in memo ==> memo[i] == Elems(IntsFed(rows, k, j, i)))
  }

  /** The same for `stringFieldsValMemo` and strings. */
  ghost predicate StringMemoAt(memo: map<int, set<string>>, rows: seq<Tuple>, k: nat, j: nat, i: int)
    requires k <= |rows|
  {
    (i in memo <==> StringsFed(rows, k, j, i) != []) &&
    (i in memo ==> memo[i] == Elems(StringsFed(rows, k, j, i)))
  }

  /** `intFieldsValMemo` summarizes the ints fed so far. */
  ghost predicate IntMemoFed(memo: map<int, set<Int32>>, rows: seq<Tuple>, k: nat, j: nat)
    requires k <= |rows|
  {
    forall i :: IntMemoAt(memo, rows, k, j, i)
  }

  /** `stringFieldsValMemo` summarizes the strings fed so far. */
  ghost predicate StringMemoFed(memo: map<int, set<string>>, rows: seq<Tuple>, k: nat, j: nat)
    requires k <= |rows|
  {
    forall i :: StringMemoAt(memo, rows, k, j, i)
  }

  /** Both memos carry over from the end of a row to the start of the next. */
  lemma RowDoneMemos(rows: seq<Tuple>, k: nat, im: map<int, set<Int32>>, sm: map<int, set<string>>)
    requires k < |rows|
    requires IntMemoFed(im, rows, k, |rows[k].fields|) && StringMemoFed(sm, rows, k, |rows[k].fields|)
    ensures IntMemoFed(im, rows, k + 1, 0) && StringMemoFed(sm, rows, k + 1, 0)
  {
    forall i {:trigger IntMemoAt(im, rows, k + 1, 0, i)}
      ensures IntMemoAt(im, rows, k + 1, 0, i)
    {
      assert IntMemoAt(im, rows, k, |rows[k].fields|, i);
      RowDone(rows, k, i);
    }
    forall i {:trigger StringMemoAt(sm, rows, k + 1, 0, i)}
      ensures StringMemoAt(sm, rows, k + 1, 0, i)
    {
      assert StringMemoAt(sm, rows, k, |rows[k].fields|, i);
      RowDone(rows, k, i);
    }
  }

  /** The int memo after an int cell: `putIfAbsent(i, new HashSet<>())`, then `add`. */
  lemma IntCellIntMemo(rows: seq<Tuple>, k: nat, j: nat, im: map<int, set<Int32>>)
    requires k < |rows| && j < |rows[k].fields| && rows[k].fields[j].IntField?
    requires IntMemoFed(im, rows, k, j)
    ensures IntMemoFed(im[j := (if j in im then im[j] else {}) + {rows[k].fields[j].intValue}], rows, k, j + 1)
  {
    var im' := im[j := (if j in im then im[j] else {}) + {rows[k].fields[j].intValue}];
    forall i {:trigger IntMemoAt(im', rows, k, j + 1, i)}
      ensures IntMemoAt(im', rows, k, j + 1, i)
    {
      assert IntMemoAt(im, rows, k, j, i);
      IntCellColumns(rows, k, j, i);
      if i == j {
        ElemsSnoc(IntsFed(rows, k, j, j), rows[k].fields[j].intValue);
      }
    }
  }

  /** The string memo after a string cell. */
  lemma StringCellStringMemo(rows: seq<Tuple>, k: nat, j: nat, sm: map<int, set<string>>)
    requires k < |rows| && j < |rows[k].fields| && rows[k].fields[j].StringField?
    requires StringMemoFed(sm, rows, k, j)
    ensures StringMemoFed(sm[j := (if j in sm then sm[j] else {}) + {rows[k].fields[j].stringValue}], rows, k, j + 1)
  {
    var sm' := sm[j := (if j in sm then sm[j] else {}) + {rows[k].fields[j].stringValue}];
    forall i {:trigger StringMemoAt(sm', rows, k, j + 1, i)}
      ensures StringMemoAt(sm', rows, k, j + 1, i)
    {
      assert StringMemoAt(sm, rows, k, j, i);
      StringCellColumns(rows, k, j, i);
      if i == j {
        ElemsSnoc(StringsFed(rows, k, j, j), rows[k].fields[j].stringValue);
      }
    }
  }

  /** An int cell leaves the string memo valid. */
  lemma IntCellStringMemo(rows: seq<Tuple>, k: nat, j: nat, sm: map<int, set<string>>)
    requires k < |rows| && j < |rows[k].fields| && rows[k].fields[j].IntField?
    requires StringMemoFed(sm, rows, k, j)
    ensures StringMemoFed(sm, rows, k, j + 1)
  {
    forall i {:trigger StringMemoAt(sm, rows, k, j + 1, i)}
      ensures StringMemoAt(sm, rows, k, j + 1, i)
    {
      assert StringMemoAt(sm, rows, k, j, i);
      IntCellColumns(rows, k, j, i);
    }
  }

  /** A string cell leaves the int memo valid. */
  lemma StringCellIntMemo(rows: seq<Tuple>, k: nat, j: nat, im: map<int, set<Int32>>)
    requires k < |rows| && j < |rows[k].fields| && rows[k].fields[j].StringField?
    requires IntMemoFed(im, rows, k, j)
    ensures IntMemoFed(im, rows, k, j + 1)
  {
    forall i {:trigger IntMemoAt(im, rows, k, j + 1, i)}
      ensures IntMemoAt(im, rows, k, j + 1, i)
    {
      assert IntMemoAt(im, rows, k, j, i);
      StringCellColumns(rows, k, j, i);
    }
  }

  /** A column's histogram: built over `[lo, hi]` with `NUM_HIST_BINS` buckets at most, fed `n` values. */
  ghost predicate Fits(h: IntHistogram, lo: Int32, hi: Int32, n: nat)
    reads h, h.hist
  {
    h.Valid() && h.min == lo && h.max == hi && h.buckets == Min(NUM_HIST_BINS, RangeSize(lo, hi)) && h.tNum == n
  }

  /** `intFieldMin` and `intFieldMax` hold the extremes of exactly the int columns of `rows`. */
  ghost predicate Extremes(rows: seq<Tuple>, mins: map<int, Int32>, maxs: map<int, Int32>)
  {
    forall i ::
      (i in mins <==> ColumnInts(rows, i) != []) && (i in maxs <==> ColumnInts(rows, i) != []) &&
      (i in mins ==> mins[i] == MinOf(ColumnInts(rows, i))) &&
      (i in maxs ==> maxs[i] == MaxOf(ColumnInts(rows, i)))
  }

  /** Starting a row changes no column. */
  lemma ExtremesPartialZero(pre: seq<Tuple>, t: Tuple, mins: map<int, Int32>, maxs: map<int, Int32>)
    requires Extremes(pre, mins, maxs)
    ensures Extremes(pre + [Partial(t, 0)], mins, maxs)
  {
    forall i {
      PartialColumns(pre, t, 0, i);
    }
  }

  /** Field `j` of the first pass: `putIfAbsent` then `replace` with `Math.min`/`Math.max`. */
  lemma ExtremesStep(pre: seq<Tuple>, t: Tuple, j: nat, mins: map<int, Int32>, maxs: map<int, Int32>,
                     mins': map<int, Int32>, maxs': map<int, Int32>)
    requires j < |t.fields| && Extremes(pre + [Partial(t, j)], mins, maxs)
    requires t.fields[j].IntField? ==>
      var v := t.fields[j].intValue;
      mins' == mins[j := if j in mins then Min(mins[j], v) else v] &&
      maxs' == maxs[j := if j in maxs then Max(maxs[j], v) else v]
    requires !t.fields[j].IntField? ==> mins' == mins && maxs' == maxs
    ensures Extremes(pre + [Partial(t, j + 1)], mins', maxs')
  {
    forall i
      ensures (i in mins' <==> ColumnInts(pre + [Partial(t, j + 1)], i) != []) &&
        (i in maxs' <==> ColumnInts(pre + [Partial(t, j + 1)], i) != []) &&
        (i in mins' ==> mins'[i] == MinOf(ColumnInts(pre + [Partial(t, j + 1)], i))) &&
        (i in maxs' ==> maxs'[i] == MaxOf(ColumnInts(pre + [Partial(t, j + 1)], i)))
    {
      PartialColumns(pre, t, j, i);
      PartialColumns(pre, t, j + 1, i);
      if i == j && t.fields[j].IntField? {
        ExtremesOfSnoc(ColumnInts(pre + [Partial(t, j)], i), t.fields[j].intValue);
      }
    }
  }

  /** The inner loop of the first pass over one tuple's fields. */
  method RowExtremes(t: Tuple, mins: map<int, Int32>, maxs: map<int, Int32>, ghost pre: seq<Tuple>)
    returns (mins': map<int, Int32>, maxs': map<int, Int32>)
    requires Extremes(pre, mins, maxs)
    ensures Extremes(pre + [t], mins', maxs')
  {
    mins', maxs' := mins, maxs;
    ExtremesPartialZero(pre, t, mins, maxs);
    var i := 0;
    while i < |t.fields|
      invariant 0 <= i <= |t.fields|
      invariant Extremes(pre + [Partial(t, i)], mins', maxs')
    {
      ghost var m0, x0 := mins', maxs';
      var curField := t.fields[i];
      if curField.GetType() == IntType {
        var curFieldVal := curField.intValue;
        if i !in mins' {
          mins' := mins'[i := curFieldVal];
        }
        if i !in maxs' {
          maxs' := maxs'[i := curFieldVal];
        }
        mins' := mins'[i := Min(mins'[i], curFieldVal)];
        maxs' := maxs'[i := Max(maxs'[i], curFieldVal)];
        Overwrite(m0, i, curFieldVal, curFieldVal);
        Overwrite(x0, i, curFieldVal, curFieldVal);
      }
      ExtremesStep(pre, t, i, m0, x0, mins', maxs');
      i := i + 1;
    }
    assert Partial(t, |t.fields|) == t;
  }

  /** The first pass: the tuple count (an `int`) and the extremes of every int column. */
  method FirstPass(rows: seq<Tuple>) returns (tuplesNum: Int32, mins: map<int, Int32>, maxs: map<int, Int32>)
    ensures tuplesNum == Wrap32(|rows|)
    ensures Extremes(rows, mins, maxs)
  {
    tuplesNum, mins, maxs := 0, map[], map[];
    var k := 0;
    while k < |rows|
      invariant 0 <= k <= |rows| && tuplesNum == Wrap32(k)
      invariant Extremes(rows[..k], mins, maxs)
    {
      tuplesNum := Tally(tuplesNum, k);
      mins, maxs := RowExtremes(rows[k], mins, maxs, rows[..k]);
      ExtremesPrefix(rows, k, mins, maxs);
      k := k + 1;
    }
    ExtremesPrefix(rows, |rows|, mins, maxs);
  }

  /** The rows before `k`, and then row `k`, are the rows before `k + 1`. */
  lemma ExtremesPrefix(rows: seq<Tuple>, k: nat, mins: map<int, Int32>, maxs: map<int, Int32>)
    requires k <= |rows|
    requires k < |rows| ==> Extremes(rows[..k] + [rows[k]], mins, maxs)
    requires k == |rows| ==> Extremes(rows[..k], mins, maxs)
    ensures k < |rows| ==> Extremes(rows[..k + 1], mins, maxs)
    ensures k == |rows| ==> Extremes(rows, mins, maxs)
  {
    if k < |rows| {
      assert rows[..k + 1] == rows[..k] + [rows[k]];
    } else {
      assert rows[..k] == rows;
    }
  }

  /**
   * An int in field `j` of row `k` lies between the extremes the first pass found, and an
   * `Err` from a histogram over them means that column cannot have one.
   */
  lemma FieldInColumn(rows: seq<Tuple>, k: nat, j: nat, mins: map<int, Int32>, maxs: map<int, Int32>)
    requires k < |rows| && j < |rows[k].fields| && rows[k].fields[j].IntField?
    requires Extremes(rows, mins, maxs)
    ensures j in mins && j in maxs && mins[j] <= rows[k].fields[j].intValue <= maxs[j]
    ensures RangeSize(mins[j], maxs[j]) < 1 ==> !Buildable(rows, j)
  {
    ColumnIntsContains(rows, k, j);
  }

  /** A histogram over a column can be built: `max - min + 1` does not wrap to 0 or below. */
  ghost predicate Buildable(rows: seq<Tuple>, i: int)
  {
    ColumnInts(rows, i) != [] ==> RangeSize(MinOf(ColumnInts(rows, i)), MaxOf(ColumnInts(rows, i))) >= 1
  }

  /** Buildable exactly when the column's values span less than `INT_MAX`. */
  lemma BuildableIff(rows: seq<Tuple>, i: int)
    requires ColumnInts(rows, i) != []
    ensures Buildable(rows, i) <==> MaxOf(ColumnInts(rows, i)) - MinOf(ColumnInts(rows, i)) < INT_MAX
  {
    var vs := ColumnInts(rows, i);
    assert MinOf(vs) <= MaxOf(vs) by {
      assert MinOf(vs) in vs;
    }
    RangeSizeOrdered(MinOf(vs), MaxOf(vs));
  }

  /** Java's `(int)` of a large `double`: values past `INT_MAX` become `INT_MAX`. */
  function ClampToInt(n: nat): (r: Int32)
    ensures n <= INT_MAX ==> r == n
    ensures n > INT_MAX ==> r == INT_MAX
  {
    if n > INT_MAX then INT_MAX else n
  }

  /** What `estimateSelectivity` does: the `-1.0` sentinel, or the histogram it asks. */
  datatype Selectivity = Unknown | FromIntHistogram(histogram: IntHistogram) | FromStringHistogram(column: int)

  class TableStats {
    var intFieldsHistograms: map<int, IntHistogram>
    var stringFieldsHistograms: set<int>
    var intFieldsValMemo: map<int, set<Int32>>
    var stringFieldsValMemo: map<int, set<string>>
    const ioCostPerPage: Int32
    var tuplesNum: Int32
    const pgNum: Int32
    const tp: TupleDesc
    /** The table's tuples, as both passes saw them. */
    ghost const rows: seq<Tuple>
    /** The extremes the first pass found, over which the histograms are built. */
    ghost const firstMins: map<int, Int32>
    ghost const firstMaxs: map<int, Int32>
    /** How far the second pass has got: whole rows, then fields of the next row. */
    ghost var fedRows: nat
    ghost var fedFields: nat
    /** The histograms and their cell arrays. */
    ghost var Repr: set<object>

    /** Column `i`'s histogram, if it has one, is over the column's extremes and holds its ints fed by `(k, j)`. */
    ghost predicate HistAt(k: nat, j: nat, i: int)
      requires k <= |rows|
      reads this`intFieldsHistograms, this`Repr, Repr - {this}
    {
      i in intFieldsHistograms ==>
        intFieldsHistograms[i] in Repr && intFieldsHistograms[i].hist in Repr &&
        i in firstMins && i in firstMaxs &&
        Fits(intFieldsHistograms[i], firstMins[i], firstMaxs[i], |IntsFed(rows, k, j, i)|)
    }

    /** No two columns share a histogram or a cell array. */
    ghost predicate Disjoint()
      reads this`intFieldsHistograms
    {
      forall i, j :: i in intFieldsHistograms && j in intFieldsHistograms && i != j ==>
        intFieldsHistograms[i] != intFieldsHistograms[j] &&
        intFieldsHistograms[i].hist != intFieldsHistograms[j].hist
    }

    /** Every column's histogram holds its ints fed by `(k, j)`. */
    ghost predicate HistsAt(k: nat, j: nat)
      requires k <= |rows|
      reads this`intFieldsHistograms, this`Repr, Repr - {this}
    {
      forall i :: HistAt(k, j, i)
    }

    /** The second pass's maps summarize the cells fed so far. */
    ghost predicate Fed()
      reads this, Repr
    {
      fedRows <= |rows| &&
      IntMemoFed(intFieldsValMemo, rows, fedRows, fedFields) &&
      StringMemoFed(stringFieldsValMemo, rows, fedRows, fedFields) &&
      (forall i :: i in stringFieldsHistograms <==> i in stringFieldsValMemo) &&
      (forall i :: i in intFieldsHistograms <==> i in intFieldsValMemo) &&
      HistsAt(fedRows, fedFields) &&
      Disjoint()
    }

    /** The statistics once both passes are done. */
    ghost predicate Valid()
      reads this, Repr
    {
      Fed() && fedRows == |rows| && fedFields == 0 && tuplesNum == Wrap32(|rows|) &&
      Extremes(rows, firstMins, firstMaxs)
    }

    /** The state before the second pass. */
    constructor(tp: TupleDesc, pgNum: Int32, ioCostPerPage: Int32, tuplesNum: Int32, ghost rows: seq<Tuple>,
                ghost mins: map<int, Int32>, ghost maxs: map<int, Int32>)
      ensures this.tp == tp && this.pgNum == pgNum && this.ioCostPerPage == ioCostPerPage
      ensures this.tuplesNum == tuplesNum && this.rows == rows && firstMins == mins && firstMaxs == maxs
      ensures fedRows == 0 && fedFields == 0 && Repr == {}
      ensures intFieldsHistograms == map[] && stringFieldsHistograms == {}
      ensures intFieldsValMemo == map[] && stringFieldsValMemo == map[]
      ensures Fed()
    {
      this.tp := tp;
      this.pgNum := pgNum;
      this.ioCostPerPage := ioCostPerPage;
      this.tuplesNum := tuplesNum;
      this.rows := rows;
      firstMins := mins;
      firstMaxs := maxs;
      fedRows, fedFields := 0, 0;
      intFieldsHistograms := map[];
      stringFieldsHistograms := {};
      intFieldsValMemo := map[];
      stringFieldsValMemo := map[];
      Repr := {};
    }

    /** `putIfAbsent` of a histogram built for column `j`, which is kept if the column has none. */
    method Adopt(j: nat, h: IntHistogram)
      requires fedRows < |rows| && j in firstMins && j in firstMaxs
      requires HistsAt(fedRows, j)
      requires Disjoint() && h !in Repr && h.hist !in Repr
      requires Fits(h, firstMins[j], firstMaxs[j], 0)
      requires j !in intFieldsHistograms ==> IntsFed(rows, fedRows, j, j) == []
      modifies this`intFieldsHistograms, this`Repr
      ensures forall i :: i in intFieldsHistograms <==> i in old(intFieldsHistograms) || i == j
      ensures j in old(intFieldsHistograms) ==> intFieldsHistograms == old(intFieldsHistograms) && Repr == old(Repr)
      ensures j !in old(intFieldsHistograms) ==>
        intFieldsHistograms == old(intFieldsHistograms)[j := h] && Repr == old(Repr) + {h, h.hist}
      ensures HistsAt(fedRows, j)
      ensures Disjoint()
    {
      if j !in intFieldsHistograms {
        forall i | i in intFieldsHistograms
          ensures intFieldsHistograms[i] != h && intFieldsHistograms[i].hist != h.hist
        {
          assert HistAt(fedRows, j, i);
        }
        intFieldsHistograms := intFieldsHistograms[j := h];
        Repr := Repr + {h, h.hist};
        forall i {:trigger HistAt(fedRows, j, i)}
          ensures HistAt(fedRows, j, i)
        {
          assert old(HistAt(fedRows, j, i));
        }
        assert HistsAt(fedRows, j);
      }
    }

    /** `addValue` on column `j`'s histogram, for the int in field `j` of the current row. */
    method Tick(t: Tuple, j: nat)
      requires fedRows < |rows| && t == rows[fedRows] && j < |t.fields| && t.fields[j].IntField?
      requires j in intFieldsHistograms && HistsAt(fedRows, j)
      requires Disjoint()
      requires j in firstMins && j in firstMaxs && firstMins[j] <= t.fields[j].intValue <= firstMaxs[j]
      modifies intFieldsHistograms[j], intFieldsHistograms[j].hist
      ensures HistsAt(fedRows, j + 1)
    {
      var curHist := intFieldsHistograms[j];
      var v := t.fields[j].intValue;
      assert HistAt(fedRows, j, j);
      ValueInRangeHasBucket(curHist, v);
      var added := curHist.AddValue(v);
      forall i {:trigger HistAt(fedRows, j + 1, i)}
        ensures HistAt(fedRows, j + 1, i)
      {
        assert old(HistAt(fedRows, j, i));
        IntCellColumns(rows, fedRows, j, i);
        if i != j && i in intFieldsHistograms {
          assert intFieldsHistograms[i] != curHist && intFieldsHistograms[i].hist != curHist.hist;
        }
      }
    }

    /** `putIfAbsent(j, new HashSet<>())` and `add` on `intFieldsValMemo`. */
    method NoteInt(t: Tuple, j: nat)
      requires fedRows < |rows| && t == rows[fedRows] && j < |t.fields| && t.fields[j].IntField?
      requires IntMemoFed(intFieldsValMemo, rows, fedRows, j) && StringMemoFed(stringFieldsValMemo, rows, fedRows, j)
      modifies this`intFieldsValMemo
      ensures IntMemoFed(intFieldsValMemo, rows, fedRows, j + 1) && StringMemoFed(stringFieldsValMemo, rows, fedRows, j + 1)
      ensures forall i :: i in intFieldsValMemo <==> i in old(intFieldsValMemo) || i == j
    {
      IntCellIntMemo(rows, fedRows, j, intFieldsValMemo);
      IntCellStringMemo(rows, fedRows, j, stringFieldsValMemo);
      var seen := if j in intFieldsValMemo then intFieldsValMemo[j] else {};
      intFieldsValMemo := intFieldsValMemo[j := seen + {t.fields[j].intValue}];
    }

    /** The int cell's updates once its histogram could be built. */
    method Accept(t: Tuple, j: nat, h: IntHistogram)
      requires Fed() && fedRows < |rows| && t == rows[fedRows] && j == fedFields < |t.fields|
      requires t.fields[j].IntField?
      requires j in firstMins && j in firstMaxs && firstMins[j] <= t.fields[j].intValue <= firstMaxs[j]
      requires h !in Repr && h.hist !in Repr && Fits(h, firstMins[j], firstMaxs[j], 0)
      modifies this, Repr, h, h.hist
      ensures Repr == old(Repr) || Repr == old(Repr) + {h, h.hist}
      ensures fedRows == old(fedRows) && tuplesNum == old(tuplesNum)
      ensures fedFields == j + 1 && Fed()
    {
      assert IntMemoAt(intFieldsValMemo, rows, fedRows, j, j) && HistAt(fedRows, j, j);
      NoteInt(t, j);
      fedFields := j + 1;
      assert HistsAt(fedRows, j);
      Adopt(j, h);
      Tick(t, j);
    }

    /**
     * An int cell of the second pass: the value joins the column's set of distinct values;
     * a histogram over the column's extremes is built (on every cell, as the argument of
     * `putIfAbsent`, so a range too wide for it throws on every cell) and kept if the column
     * has none yet; the column's histogram takes the value, which lies in its range.
     */
    method FeedInt(t: Tuple, j: nat, mins: map<int, Int32>, maxs: map<int, Int32>) returns (r: Result<()>)
      requires Fed() && fedRows < |rows| && t == rows[fedRows] && j == fedFields < |t.fields|
      requires t.fields[j].IntField?
      requires mins == firstMins && maxs == firstMaxs && j in mins && j in maxs
      requires mins[j] <= t.fields[j].intValue <= maxs[j]
      modifies this, Repr
      ensures fresh(Repr - old(Repr))
      ensures fedRows == old(fedRows) && tuplesNum == old(tuplesNum)
      ensures r.Ok? ==> fedFields == j + 1 && Fed()
      ensures r.Err? ==> RangeSize(mins[j], maxs[j]) < 1
      ensures r.Err? ==> r.error == ArithmeticException || r.error == NegativeArraySizeException
    {
      var hr := NewIntHistogram(NUM_HIST_BINS, mins[j], maxs[j]);
      if hr.Err? {
        return Err(hr.error);
      }
      Accept(t, j, hr.value);
      r := Ok(());
    }

    /** A string cell: the value joins the column's set, and the column has a string histogram. */
    method FeedString(t: Tuple, j: nat)
      requires Fed() && fedRows < |rows| && t == rows[fedRows] && j == fedFields < |t.fields|
      requires t.fields[j].StringField?
      modifies this`stringFieldsValMemo, this`stringFieldsHistograms, this`fedFields
      ensures fedFields == j + 1 && Fed()
    {
      var curFieldVal := t.fields[j].stringValue;
      StringCellStringMemo(rows, fedRows, j, stringFieldsValMemo);
      StringCellIntMemo(rows, fedRows, j, intFieldsValMemo);
      var seen := if j in stringFieldsValMemo then stringFieldsValMemo[j] else {};
      stringFieldsValMemo := stringFieldsValMemo[j := seen + {curFieldVal}];
      stringFieldsHistograms := stringFieldsHistograms + {j};
      fedFields := j + 1;
      forall i {:trigger HistAt(fedRows, fedFields, i)}
        ensures HistAt(fedRows, fedFields, i)
      {
        assert old(HistAt(fedRows, j, i));
        StringCellColumns(rows, fedRows, j, i);
      }
    }

    /** The second pass moves from the end of a row to the start of the next. */
    method EndRow()
      requires Fed() && fedRows < |rows| && fedFields == |rows[fedRows].fields|
      modifies this`fedRows, this`fedFields
      ensures fedRows == old(fedRows) + 1 && fedFields == 0 && Fed()
    {
      RowDoneMemos(rows, fedRows, intFieldsValMemo, stringFieldsValMemo);
      ghost var k := fedRows;
      fedRows, fedFields := k + 1, 0;
      forall i {:trigger HistAt(fedRows, fedFields, i)}
        ensures HistAt(fedRows, fedFields, i)
      {
        assert old(HistAt(k, |rows[k].fields|, i));
        RowDone(rows, k, i);
      }
    }

    /** The inner loop of the second pass over the fields of one row. */
    method FeedRow(t: Tuple, mins: map<int, Int32>, maxs: map<int, Int32>) returns (r: Result<()>)
      requires Fed() && fedRows < |rows| && t == rows[fedRows] && fedFields == 0
      requires mins == firstMins && maxs == firstMaxs && Extremes(rows, mins, maxs)
      modifies this, Repr
      ensures fresh(Repr - old(Repr))
      ensures tuplesNum == old(tuplesNum)
      ensures r.Ok? ==> fedRows == old(fedRows) + 1 && fedFields == 0 && Fed()
      ensures r.Err? ==> exists i :: !Buildable(rows, i)
      ensures r.Err? ==> r.error == ArithmeticException || r.error == NegativeArraySizeException
    {
      var j := 0;
      while j < |t.fields|
        invariant 0 <= j <= |t.fields| && fedFields == j && fedRows == old(fedRows) && Fed()
        invariant fresh(Repr - old(Repr))
        invariant tuplesNum == old(tuplesNum)
      {
        var curField := t.fields[j];
        if curField.GetType() == IntType {
          FieldInColumn(rows, fedRows, j, mins, maxs);
          var c := FeedInt(t, j, mins, maxs);
          if c.Err? {
            return c;
          }
        } else {
          FeedString(t, j);
        }
        j := j + 1;
      }
      EndRow();
      r := Ok(());
    }

    /** The second pass, feeding every row in turn. */
    method SecondPass(tuples: seq<Tuple>, mins: map<int, Int32>, maxs: map<int, Int32>) returns (r: Result<()>)
      requires tuples == rows && mins == firstMins && maxs == firstMaxs && Extremes(rows, mins, maxs)
      requires Fed() && fedRows == 0 && fedFields == 0
      modifies this, Repr
      ensures fresh(Repr - old(Repr))
      ensures tuplesNum == old(tuplesNum)
      ensures r.Ok? ==> fedRows == |rows| && fedFields == 0 && Fed()
      ensures r.Err? ==> exists i :: !Buildable(rows, i)
      ensures r.Err? ==> r.error == ArithmeticException || r.error == NegativeArraySizeException
    {
      var k := 0;
      while k < |tuples|
        invariant 0 <= k <= |rows| && fedRows == k && fedFields == 0 && Fed()
        invariant fresh(Repr - old(Repr))
        invariant tuplesNum == old(tuplesNum)
      {
        r := FeedRow(tuples[k], mins, maxs);
        if r.Err? {
          return r;
        }
        k := k + 1;
      }
      r := Ok(());
    }

    /** Once both passes are done, every int column of the table got its histogram. */
    lemma AllBuildable()
      requires Valid()
      ensures forall i :: Buildable(rows, i)
    {
      forall i
        ensures Buildable(rows, i)
      {
        FedAtEnd(rows, i);
        assert IntMemoAt(intFieldsValMemo, rows, |rows|, 0, i) && HistAt(|rows|, 0, i);
      }
    }

    /** `totalTuples()`: the number of tuples, counted in an `int`. */
    function TotalTuples(): (n: Int32)
      requires Valid()
      reads this, Repr
      ensures n == Wrap32(|rows|)
      ensures |rows| <= INT_MAX ==> n == |rows|
    {
      tuplesNum
    }

    /** `estimateScanCost()`: every page costs `ioCostPerPage`; the product is an `int` one. */
    function EstimateScanCost(): (c: Int32)
      ensures 0 <= pgNum * ioCostPerPage <= INT_MAX ==> c == pgNum * ioCostPerPage
      ensures (c - pgNum * ioCostPerPage) % 0x1_0000_0000 == 0
    {
      Mul32(pgNum, ioCostPerPage)
    }

    /**
     * `getDistinctVal(field)`: the size of the column's set of distinct values. A field the
     * schema does not have throws in `getFieldType`, and a column no tuple filled has no set,
     * so `size()` is called on null.
     */
    function GetDistinctVal(field: int): (r: Result<Int32>)
      requires Valid()
      reads this, Repr
      ensures field < 0 || field >= tp.NumFields() ==> r == Err(NoSuchElementException)
      ensures tp.GetFieldType(field) == Ok(IntType) ==>
        (r.Ok? <==> ColumnInts(rows, field) != []) &&
        (r.Ok? ==> r.value == ClampToInt(|Elems(ColumnInts(rows, field))|)) &&
        (r.Err? ==> r.error == NullPointerException)
      ensures tp.GetFieldType(field) == Ok(StringType) ==>
        (r.Ok? <==> ColumnStrings(rows, field) != []) &&
        (r.Ok? ==> r.value == ClampToInt(|Elems(ColumnStrings(rows, field))|)) &&
        (r.Err? ==> r.error == NullPointerException)
    {
      FedAtEnd(rows, field);
      assert IntMemoAt(intFieldsValMemo, rows, |rows|, 0, field);
      assert StringMemoAt(stringFieldsValMemo, rows, |rows|, 0, field);
      match tp.GetFieldType(field)
      case Err(e) => Err(e)
      case Ok(IntType) =>
        if field in intFieldsValMemo then Ok(ClampToInt(|intFieldsValMemo[field]|))
        else Err(NullPointerException)
      case Ok(StringType) =>
        if field in stringFieldsValMemo then Ok(ClampToInt(|stringFieldsValMemo[field]|))
        else Err(NullPointerException)
    }

    /** A column has no more distinct values than the table has tuples. */
    lemma DistinctAtMostTotal(field: int)
      requires Valid() && GetDistinctVal(field).Ok? && |rows| <= INT_MAX
      ensures 1 <= GetDistinctVal(field).value <= TotalTuples()
    {
      ColumnLength(rows, field);
      ElemsAtMostLength(ColumnInts(rows, field));
      ElemsAtMostLength(ColumnStrings(rows, field));
      var col := tp.GetFieldType(field).value;
      if col == IntType {
        var vs := ColumnInts(rows, field);
        ElemsMembers(vs, vs[0]);
      } else {
        var vs := ColumnStrings(rows, field);
        ElemsMembers(vs, vs[0]);
      }
    }

    /**
     * `estimateSelectivity(field, op, constant)`: which histogram answers, or the `-1.0`
     * sentinel when the constant's type has none for the field. The int histogram that
     * answers spans exactly the column's extremes and holds each of its values.
     */
    function EstimateSelectivity(field: int, constant: Field): (s: Selectivity)
      requires Valid()
      reads this, Repr
      ensures constant.IntField? ==> (s.FromIntHistogram? <==> ColumnInts(rows, field) != [])
      ensures constant.StringField? ==> (s.FromStringHistogram? <==> ColumnStrings(rows, field) != [])
      ensures s.FromStringHistogram? ==> constant.StringField? && s.column == field
      ensures s.FromIntHistogram? ==> (
        constant.IntField? && ColumnInts(rows, field) != [] &&
        s.histogram in Repr && s.histogram.hist in Repr &&
        var col := ColumnInts(rows, field);
        Fits(s.histogram, MinOf(col), MaxOf(col), |col|))
    {
      FedAtEnd(rows, field);
      assert IntMemoAt(intFieldsValMemo, rows, |rows|, 0, field) && HistAt(|rows|, 0, field);
      assert StringMemoAt(stringFieldsValMemo, rows, |rows|, 0, field);
      if constant.GetType() == IntType then
        if field !in intFieldsHistograms then Unknown else FromIntHistogram(intFieldsHistograms[field])
      else
        if field !in stringFieldsHistograms then Unknown else FromStringHistogram(field)
    }
  }

  /**
   * The `TableStats` constructor on a heap file: it scans the file twice and fails where
   * Java would throw out of it. Opening the iterator of an empty file throws a
   * `NullPointerException` that is not caught; a column whose values span too wide a range
   * for `IntHistogram` makes its constructor throw.
   */
  method NewTableStats(file: HeapFile, ioCostPerPage: Int32) returns (r: Result<TableStats>)
    requires file.Valid()
    ensures r.Err? <==> file.NumPages() == 0 || exists i :: !Buildable(FileTuples(file.pages), i)
    ensures file.NumPages() == 0 ==> r == Err(NullPointerException)
    ensures r.Err? && file.NumPages() > 0 ==>
      r.error == ArithmeticException || r.error == NegativeArraySizeException
    ensures r.Ok? ==> fresh(r.value) && fresh(r.value.Repr) && r.value.Valid()
    ensures r.Ok? ==> r.value.rows == FileTuples(file.pages) && r.value.tp == file.td
    ensures r.Ok? ==> r.value.pgNum == ClampToInt(file.NumPages()) && r.value.ioCostPerPage == ioCostPerPage
  {
    var scanned := ScanAll(file);
    if scanned.Err? {
      return Err(scanned.error);
    }
    var tuples := scanned.value;
    var tuplesNum, mins, maxs := FirstPass(tuples);
    var stats := new TableStats(file.GetTupleDesc(), ClampToInt(file.NumPages()), ioCostPerPage,
                                tuplesNum, tuples, mins, maxs);
    var passed := stats.SecondPass(tuples, mins, maxs);
    if passed.Err? {
      return Err(passed.error);
    }
    stats.AllBuildable();
    r := Ok(stats);
  }

  /** The static `statsMap` of `TableStats`: statistics by table name. */
  class StatsRegistry {
    var statsMap: map<string, TableStats>

    constructor()
      ensures statsMap == map[]
    {
      statsMap := map[];
    }

    /** `getTableStats(name)`: null for an unknown name; a null name throws. */
    function GetTableStats(name: Option<string>): (r: Result<Option<TableStats>>)
      reads this
      ensures r.Err? <==> name.None?
      ensures r.Err? ==> r.error == NullPointerException
      ensures name.Some? ==> (r.value.Some? <==> name.value in statsMap)
      ensures r.Ok? && r.value.Some? ==> r.value.value == statsMap[name.value]
    {
      match name
      case None => Err(NullPointerException)
      case Some(n) => if n in statsMap then Ok(Some(statsMap[n])) else Ok(None)
    }

    /** `setTableStats(name, stats)`: a null name or null statistics throw. */
    method SetTableStats(name: Option<string>, stats: TableStats?) returns (r: Result<()>)
      modifies this
      ensures r.Err? <==> name.None? || stats == null
      ensures r.Err? ==> r.error == NullPointerException && statsMap == old(statsMap)
      ensures r.Ok? ==> statsMap == old(statsMap)[name.value := stats]
      ensures r.Ok? ==> GetTableStats(name) == Ok(Some(stats))
    {
      if name.None? || stats == null {
        return Err(NullPointerException);
      }
      statsMap := statsMap[name.value := stats];
      r := Ok(());
    }
  }
}
