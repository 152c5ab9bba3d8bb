/**
 * The schema descriptor of lab/src/TupleDesc.java: an immutable sequence of (type, name)
 * items. Construction copies the names to the number of types, lookups fail with
 * `NoSuchElementException` outside the descriptor, and equality compares the printed items.
 */
module TupleDescs {
  import opened Common
  import opened Tuples

  /** One field of a schema; the name may be null. */
  datatype TDItem = TDItem(fieldType: Type, fieldName: Option<string>)

  /** `TDItem.toString`: the name, with null printed as "null", then the type in parentheses. */
  function Render(item: TDItem): string
  {
    JavaStr(item.fieldName) + "(" + item.fieldType.Name() + ")"
  }

  /** The printed form of every item, in order. */
  function Renders(items: seq<TDItem>): (r: seq<string>)
    ensures |r| == |items|
    ensures forall i :: 0 <= i < |items| ==> r[i] == Render(items[i])
  {
    if items == [] then [] else Renders(items[..|items| - 1]) + [Render(items[|items| - 1])]
  }

  /** Java's `String.join(sep, parts)`. */
  function Join(sep: string, parts: seq<string>): string
  {
    if |parts| == 0 then ""
    else if |parts| == 1 then parts[0]
    else Join(sep, parts[..|parts| - 1]) + sep + parts[|parts| - 1]
  }

  /** `Arrays.copyOf` on a name array: truncated to `n`, or padded with nulls up to `n`. */
  function CopyOf(names: seq<Option<string>>, n: nat): (r: seq<Option<string>>)
    ensures |r| == n
    ensures forall i :: 0 <= i < n ==> r[i] == (if i < |names| then names[i] else None)
  {
    if n <= |names| then names[..n] else names + seq(n - |names|, _ => None)
  }

  /** Bytes of a tuple with these fields: the field lengths added up. */
  function SizeOf(items: seq<TDItem>): nat
  {
    if items == [] then 0 else SizeOf(items[..|items| - 1]) + items[|items| - 1].fieldType.Len()
  }

  /** A non-null name equal to `name` sits at index `i`. */
  predicate NamedAt(items: seq<TDItem>, i: nat, name: Option<string>)
    requires i < |items|
  {
    items[i].fieldName.Some? && items[i].fieldName == name
  }

  /** The descriptor's `TDAr`; `numFields` is always its length. */
  datatype TupleDesc = TupleDesc(items: seq<TDItem>) {

    function NumFields(): nat { |items| }

    /** `getFieldName(i)`: the name of item `i`, or `NoSuchElementException` off the ends. */
    function GetFieldName(i: int): (r: Result<Option<string>>)
      ensures r.Err? <==> i < 0 || i >= NumFields()
      ensures r.Err? ==> r.error == NoSuchElementException
      ensures r.Ok? ==> r.value == items[i].fieldName
    {
      if i < 0 || i >= NumFields() then Err(NoSuchElementException) else Ok(items[i].fieldName)
    }

    /** `getFieldType(i)`: the type of item `i`, or `NoSuchElementException` off the ends. */
    function GetFieldType(i: int): (r: Result<Type>)
      ensures r.Err? <==> i < 0 || i >= NumFields()
      ensures r.Err? ==> r.error == NoSuchElementException
      ensures r.Ok? ==> r.value == items[i].fieldType
    {
      if i < 0 || i >= NumFields() then Err(NoSuchElementException) else Ok(items[i].fieldType)
    }

    /**
     * `fieldNameToIndex(name)`: the first index whose name is non-null and equal to `name`.
     * A null `name` equals no name, so it is never found.
     */
    method FieldNameToIndex(name: Option<string>) returns (r: Result<nat>)
      ensures r.Ok? ==> r.value < NumFields() && NamedAt(items, r.value, name)
      ensures r.Ok? ==> forall j :: 0 <= j < r.value ==> !NamedAt(items, j, name)
      ensures r.Err? ==> r.error == NoSuchElementException
      ensures r.Err? ==> forall j :: 0 <= j < NumFields() ==> !NamedAt(items, j, name)
    {
      var i := 0;
      while i < NumFields()
        invariant 0 <= i <= NumFields()
        invariant forall j :: 0 <= j < i ==> !NamedAt(items, j, name)
      {
        var curName := items[i].fieldName;
        if curName.Some? && curName == name {
          return Ok(i);
        }
        i := i + 1;
      }
      return Err(NoSuchElementException);
    }

    /** `getSize()`: the field lengths added up in an `int` accumulator. */
    method GetSize() returns (size: Int32)
      ensures size == Wrap32(SizeOf(items))
      ensures SizeOf(items) <= INT_MAX ==> size == SizeOf(items)
    {
      size := 0;
      var i := 0;
      while i < NumFields()
        invariant 0 <= i <= NumFields()
        invariant size == Wrap32(SizeOf(items[..i]))
      {
        var fieldType := GetFieldType(i).value;
        assert items[..i + 1][..i] == items[..i];
        Wrap32Add(SizeOf(items[..i]), fieldType.Len());
        size := Add32(size, fieldType.Len());
        i := i + 1;
      }
      assert items[..i] == items;
    }

    /** `toString()`: the printed items joined with ",". */
    function ToString(): (r: string)
      ensures NumFields() == 0 ==> r == ""
      ensures NumFields() == 1 ==> r == Render(items[0])
    {
      Join(",", Renders(items))
    }

    /**
     * `equals(o)`: false for null, otherwise whether `Arrays.deepToString` prints both item
     * arrays alike.
     */
    function Equals(o: Option<TupleDesc>): (r: bool)
      ensures o.None? ==> !r
      ensures o == Some(this) ==> r
    {
      o.Some? && DeepToString(items) == DeepToString(o.value.items)
    }
  }

  /** `Arrays.deepToString` of an item array. */
  function DeepToString(items: seq<TDItem>): (r: string)
    ensures |r| >= 2 && r[0] == '[' && r[|r| - 1] == ']'
  {
    "[" + Join(", ", Renders(items)) + "]"
  }

  /**
   * The array constructor `TupleDesc(typeAr, fieldAr)`, and with `fieldAr` null the
   * one-argument constructor: one item per type, named from `fieldAr` copied to that length.
   */
  method Create(typeAr: seq<Type>, fieldAr: Option<seq<Option<string>>>) returns (td: TupleDesc)
    ensures td.NumFields() == |typeAr|
    ensures forall i :: 0 <= i < |typeAr| ==> td.items[i].fieldType == typeAr[i]
    ensures fieldAr.None? ==> forall i :: 0 <= i < |typeAr| ==> td.items[i].fieldName.None?
    ensures fieldAr.Some? ==> forall i :: 0 <= i < |typeAr| ==>
      td.items[i].fieldName == (if i < |fieldAr.value| then fieldAr.value[i] else None)
  {
    var names: seq<Option<string>>;
    if fieldAr.None? {
      names := seq(|typeAr|, _ => None);
    } else if |fieldAr.value| != |typeAr| {
      names := CopyOf(fieldAr.value, |typeAr|);
    } else {
      names := fieldAr.value;
    }
    var tdAr := new TDItem[|typeAr|](_ => TDItem(IntType, None));
    for i := 0 to |typeAr|
      invariant forall j :: 0 <= j < i ==> tdAr[j] == TDItem(typeAr[j], names[j])
    {
      tdAr[i] := TDItem(typeAr[i], names[i]);
    }
    td := TupleDesc(tdAr[..]);
  }

  /**
   * `merge(td1, td2)`: td1's items followed by td2's. The new field count is an `int` sum;
   * past `INT_MAX` it wraps negative and allocating the array fails.
   */
  function Merge(td1: TupleDesc, td2: TupleDesc): (r: Result<TupleDesc>)
    ensures r.Err? <==> td1.NumFields() + td2.NumFields() > INT_MAX
    ensures r.Err? ==> r.error == NegativeArraySizeException
    ensures r.Ok? ==> r.value.NumFields() == td1.NumFields() + td2.NumFields()
    ensures r.Ok? ==> forall i :: 0 <= i < td1.NumFields() ==> r.value.items[i] == td1.items[i]
    ensures r.Ok? ==> forall i :: 0 <= i < td2.NumFields() ==>
      r.value.items[td1.NumFields() + i] == td2.items[i]
  {
    if td1.NumFields() + td2.NumFields() > INT_MAX then Err(NegativeArraySizeException)
    else Ok(TupleDesc(td1.items + td2.items))
  }

  /** Looking a field up in a merge looks it up in the part it came from. */
  lemma MergeFieldName(td1: TupleDesc, td2: TupleDesc, i: int)
    ensures Merge(td1, td2).Ok? && i < td1.NumFields() ==>
      Merge(td1, td2).value.GetFieldName(i) == td1.GetFieldName(i)
    ensures Merge(td1, td2).Ok? && i >= td1.NumFields() ==>
      Merge(td1, td2).value.GetFieldName(i) == td2.GetFieldName(i - td1.NumFields())
  {
  }

  /** A merged tuple is as large as its two parts together. */
  lemma {:induction false} SizeOfAppend(a: seq<TDItem>, b: seq<TDItem>)
    ensures SizeOf(a + b) == SizeOf(a) + SizeOf(b)
    decreases |b|
  {
    if b != [] {
      var b' := b[..|b| - 1];
      assert (a + b)[..|a + b| - 1] == a + b';
      SizeOfAppend(a, b');
    } else {
      assert a + b == a;
    }
  }

  lemma MergeSize(td1: TupleDesc, td2: TupleDesc)
    ensures Merge(td1, td2).Ok? ==>
      SizeOf(Merge(td1, td2).value.items) == SizeOf(td1.items) + SizeOf(td2.items)
  {
    SizeOfAppend(td1.items, td2.items);
  }

  /**
   * Merging is associative: both groupings fail exactly when the three counts together
   * exceed `INT_MAX`, and otherwise give the same descriptor.
   */
  lemma MergeAssociative(td1: TupleDesc, td2: TupleDesc, td3: TupleDesc)
    ensures (Merge(td1, td2).Ok? && Merge(Merge(td1, td2).value, td3).Ok?) <==>
      td1.NumFields() + td2.NumFields() + td3.NumFields() <= INT_MAX
    ensures (Merge(td2, td3).Ok? && Merge(td1, Merge(td2, td3).value).Ok?) <==>
      td1.NumFields() + td2.NumFields() + td3.NumFields() <= INT_MAX
    ensures Merge(td1, td2).Ok? && Merge(td2, td3).Ok? ==>
      Merge(Merge(td1, td2).value, td3) == Merge(td1, Merge(td2, td3).value)
  {
    assert (td1.items + td2.items) + td3.items == td1.items + (td2.items + td3.items);
  }

  /** Joining two non-empty lists is joining each and putting the separator between. */
  lemma {:induction false} JoinAppend(sep: string, a: seq<string>, b: seq<string>)
    requires |a| > 0 && |b| > 0
    ensures Join(sep, a + b) == Join(sep, a) + sep + Join(sep, b)
    decreases |b|
  {
    if |b| > 1 {
      var b' := b[..|b| - 1];
      assert (a + b)[..|a + b| - 1] == a + b';
      JoinAppend(sep, a, b');
    } else {
      assert (a + b)[..|a + b| - 1] == a;
    }
  }

  /** The printed form of a merge of two non-empty descriptors is theirs joined by ",". */
  lemma MergeToString(td1: TupleDesc, td2: TupleDesc)
    requires td1.NumFields() > 0 && td2.NumFields() > 0
    ensures Merge(td1, td2).Ok? ==>
      Merge(td1, td2).value.ToString() == td1.ToString() + "," + td2.ToString()
  {
    assert Renders(td1.items + td2.items) == Renders(td1.items) + Renders(td2.items);
    JoinAppend(",", Renders(td1.items), Renders(td2.items));
  }

  /** Descriptors whose items print alike are equal, in both directions. */
  lemma EqualsWhenItemsPrintAlike(td1: TupleDesc, td2: TupleDesc)
    requires Renders(td1.items) == Renders(td2.items)
    ensures td1.Equals(Some(td2)) && td2.Equals(Some(td1))
  {
  }

  /**
   * Printing compares names as text, so a null name and the name "null" are not told apart:
   * two descriptors with different items are equal.
   */
  lemma NullNameEqualsNullText()
    ensures var a := TupleDesc([TDItem(IntType, None)]);
            var b := TupleDesc([TDItem(IntType, Some("null"))]);
            a != b && a.Equals(Some(b))
  {
    var a := TupleDesc([TDItem(IntType, None)]);
    var b := TupleDesc([TDItem(IntType, Some("null"))]);
    assert Renders(a.items) == [Render(a.items[0])];
    assert Renders(b.items) == [Render(b.items[0])];
  }

  /**
   * `iterator()` over a descriptor: `hasNext` while `curIndex < numFields`, and `next` reads
   * `TDAr[curIndex++]`, so the index moves on before an out-of-range read throws.
   */
  class TupleDescIterator {
    const td: TupleDesc
    var curIndex: Int32

    /** A Java array holds at most `INT_MAX` items. */
    constructor(td: TupleDesc)
      requires td.NumFields() <= INT_MAX
      ensures this.td == td && curIndex == 0
    {
      this.td := td;
      curIndex := 0;
    }

    /** The items `next` will still hand out, in order. */
    ghost function Remaining(): seq<TDItem>
      reads this
    {
      if 0 <= curIndex <= td.NumFields() then td.items[curIndex..] else []
    }

    function HasNext(): (b: bool)
      reads this
      ensures curIndex >= 0 ==> (b <==> Remaining() != [])
    {
      curIndex < td.NumFields()
    }

    method Next() returns (r: Result<TDItem>)
      requires td.NumFields() <= INT_MAX
      modifies this
      ensures curIndex == Wrap32(old(curIndex) + 1)
      ensures 0 <= old(curIndex) < td.NumFields() ==>
        r == Ok(old(Remaining())[0]) && Remaining() == old(Remaining())[1..]
      ensures !(0 <= old(curIndex) < td.NumFields()) ==> r == Err(ArrayIndexOutOfBoundsException)
    {
      var i := curIndex;
      curIndex := Add32(curIndex, 1);
      if 0 <= i < td.NumFields() {
        r := Ok(td.items[i]);
      } else {
        r := Err(ArrayIndexOutOfBoundsException);
      }
    }
  }

  /** The descriptor constructed by a pass of its own iterator over every item, in order. */
  method IterateItems(td: TupleDesc) returns (items: seq<TDItem>)
    requires td.NumFields() <= INT_MAX
    ensures items == td.items
  {
    var it := new TupleDescIterator(td);
    items := [];
    while it.HasNext()
      invariant 0 <= it.curIndex <= td.NumFields()
      invariant td.items[..it.curIndex] == items
      decreases td.NumFields() - it.curIndex
    {
      var item := it.Next();
      items := items + [item.value];
    }
    assert td.items[..td.NumFields()] == td.items;
  }
}
