/**
 * lab/src/SeqScan.java: a scan of one table's heap file whose descriptor renames every field
 * `alias.name`, gated by an open flag. The file is looked up in the catalog once, by the
 * constructor, so `reset` changes the table id and alias but not the file scanned.
 */
module SeqScans {
  import opened Common
  import opened Tuples
  import opened TupleDescs
  import opened HeapFiles

  /** `alias + "." + name`, where Java prints a null string as `null`. */
  function QualifiedName(alias: Option<string>, name: Option<string>): string
  {
    JavaStr(alias) + "." + JavaStr(name)
  }

  /** One item of the scan's descriptor: the item's type, its name under the alias. */
  function Rename(item: TDItem, alias: Option<string>): TDItem
  {
    TDItem(item.fieldType, Some(QualifiedName(alias, item.fieldName)))
  }

  /** The descriptor of a scan under `alias` of a file described by `td`. */
  function Renamed(td: TupleDesc, alias: Option<string>): TupleDesc
  {
    TupleDesc(seq(|td.items|, i requires 0 <= i < |td.items| => Rename(td.items[i], alias)))
  }

  /**
   * The renamed descriptor has the file's fields, position by position with the same types,
   * each named with the alias, a dot and the original name; and it has no others.
   */
  lemma RenamedFields(td: TupleDesc, alias: Option<string>, i: int)
    ensures Renamed(td, alias).NumFields() == td.NumFields()
    ensures Renamed(td, alias).GetFieldType(i) == td.GetFieldType(i)
    ensures (0 <= i < td.NumFields()) <==> Renamed(td, alias).GetFieldName(i).Ok?
    ensures 0 <= i < td.NumFields() ==>
      Renamed(td, alias).GetFieldName(i) == Ok(Some(JavaStr(alias) + "." + JavaStr(td.items[i].fieldName)))
  {
  }

  /** Every renamed field starts with the alias and a dot, even when the alias is null. */
  lemma RenamedPrefix(td: TupleDesc, alias: Option<string>, i: nat)
    requires i < td.NumFields()
    ensures var name := Renamed(td, alias).items[i].fieldName.value;
      |name| > |JavaStr(alias)| && name[..|JavaStr(alias)|] == JavaStr(alias) && name[|JavaStr(alias)|] == '.'
    ensures alias.None? ==> Renamed(td, alias).items[i].fieldName.value[..5] == "null."
  {
    var a := JavaStr(alias);
    var name := Renamed(td, alias).items[i].fieldName.value;
    assert name == a + "." + JavaStr(td.items[i].fieldName);
    assert name[..|a|] == a;
    if alias.None? {
      assert name[..5] == a + ".";
    }
  }

  class SeqScan {
    var tableid: int
    var tableAlias: Option<string>
    var openStatus: bool
    /** The catalog's file for the table id given to the constructor. */
    var dbfile: HeapFile
    /** Null until the first `open`. */
    var it: HeapFileIterator?

    /** Open implies an iterator; an iterator is over the scan's file. */
    ghost predicate Valid()
      reads this, dbfile, it
    {
      dbfile.Valid() && (openStatus ==> it != null) && (it != null ==> it.file == dbfile && it.Valid())
    }

    /** The tuples `next` will still hand out: none while closed. */
    ghost function Remaining(): seq<Tuple>
      reads this, dbfile, it
      requires Valid()
    {
      if openStatus then it.Remaining() else []
    }

    /** `SeqScan(tid, tableid, tableAlias)`, with the catalog's file for `tableid` given. */
    constructor(tableid: int, tableAlias: Option<string>, dbfile: HeapFile)
      requires dbfile.Valid()
      ensures this.tableid == tableid && this.tableAlias == tableAlias && this.dbfile == dbfile
      ensures !openStatus && it == null && Valid() && Remaining() == []
    {
      this.tableid := tableid;
      this.tableAlias := tableAlias;
      this.dbfile := dbfile;
      openStatus := false;
      it := null;
    }

    /** `getAlias()`. */
    function GetAlias(): Option<string>
      reads this
    {
      tableAlias
    }

    /** `reset(tableid, tableAlias)`: the file stays the one the constructor looked up. */
    method Reset(tableid: int, tableAlias: Option<string>)
      modifies this`tableid, this`tableAlias
      ensures this.tableid == tableid && GetAlias() == tableAlias
      ensures dbfile == old(dbfile) && openStatus == old(openStatus) && it == old(it)
    {
      this.tableid := tableid;
      this.tableAlias := tableAlias;
    }

    /** `getTupleDesc()`: the file's items, in iterator order, renamed under the alias. */
    method GetTupleDesc() returns (td: TupleDesc)
      requires dbfile.td.NumFields() <= INT_MAX
      ensures td == Renamed(dbfile.GetTupleDesc(), GetAlias())
    {
      var oriTupleDesc := dbfile.GetTupleDesc();
      var numField := oriTupleDesc.NumFields();
      var tdItems := new TDItem[numField](_ => TDItem(IntType, None));
      var i := 0;
      var iter := new TupleDescIterator(oriTupleDesc);
      while iter.HasNext()
        invariant iter.td == oriTupleDesc && i == iter.curIndex && 0 <= i <= numField
        invariant forall k :: 0 <= k < i ==> tdItems[k] == Rename(oriTupleDesc.items[k], tableAlias)
        decreases numField - i
      {
        var tdItem := iter.Next();
        tdItems[i] := Rename(tdItem.value, tableAlias);
        i := i + 1;
      }
      td := TupleDesc(tdItems[..]);
    }

    /** `open()`: a new iterator over the file; the flag is set only if opening it succeeds. */
    method Open() returns (r: Result<()>)
      requires Valid()
      modifies this
      ensures Valid() && it != null && fresh(it)
      ensures tableid == old(tableid) && tableAlias == old(tableAlias) && dbfile == old(dbfile)
      ensures r.Err? <==> dbfile.NumPages() == 0
      ensures r.Err? ==> r.error == NullPointerException && openStatus == old(openStatus) && !it.statusOpen
      ensures r.Ok? ==> openStatus && Remaining() == FileTuples(dbfile.pages)
    {
      var iter := dbfile.Iterator();
      it := iter;
      var res := iter.Open();
      if res.Err? {
        return Err(res.error);
      }
      openStatus := true;
      r := Ok(());
    }

    /** `hasNext()`: false while closed, else the iterator's answer. */
    method HasNext() returns (b: bool)
      requires Valid()
      modifies it
      ensures Valid() && Remaining() == old(Remaining())
      ensures b <==> Remaining() != []
      ensures !openStatus ==> !b
    {
      if openStatus {
        b := it.HasNext();
      } else {
        b := false;
      }
    }

    /** `next()`: null while closed, else the iterator's next tuple or its exception. */
    method Next() returns (r: Result<Option<Tuple>>)
      requires Valid()
      modifies it
      ensures Valid()
      ensures !openStatus ==> r == Ok(None)
      ensures openStatus && old(Remaining()) == [] ==> r == Err(NoSuchElementException) && Remaining() == []
      ensures openStatus && old(Remaining()) != [] ==>
        r == Ok(Some(old(Remaining())[0])) && Remaining() == old(Remaining())[1..]
    {
      if openStatus {
        var t := it.Next();
        if t.Err? {
          return Err(t.error);
        }
        r := Ok(Some(t.value));
      } else {
        r := Ok(None);
      }
    }

    /** `close()`: the flag is cleared first, so it is cleared even when there is no iterator to close. */
    method Close() returns (r: Result<()>)
      requires Valid()
      modifies this, it
      ensures Valid() && !openStatus && it == old(it) && Remaining() == []
      ensures r.Err? <==> it == null
      ensures r.Err? ==> r.error == NullPointerException
      ensures it != null ==> !it.statusOpen
      ensures tableid == old(tableid) && tableAlias == old(tableAlias) && dbfile == old(dbfile)
    {
      openStatus := false;
      if it == null {
        return Err(NullPointerException);
      }
      it.Close();
      r := Ok(());
    }

    /** `rewind()`: the iterator starts over from page 0; the open flag is left as it was. */
    method Rewind() returns (r: Result<()>)
      requires Valid()
      modifies it
      ensures Valid()
      ensures old(it) == null ==> r == Err(NullPointerException)
      ensures it != null ==> (r.Err? <==> dbfile.NumPages() == 0)
      ensures it != null && r.Err? ==> r.error == NullPointerException && Remaining() == old(Remaining())
      ensures it != null && r.Ok? ==> it.statusOpen && it.Remaining() == FileTuples(dbfile.pages)
      ensures openStatus && r.Ok? ==> Remaining() == FileTuples(dbfile.pages)
    {
      if it == null {
        return Err(NullPointerException);
      }
      r := it.Rewind();
    }
  }
}
