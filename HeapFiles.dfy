/**
 * The heap-file page store of lab/src/HeapFile.java over abstract pages.
 *
 * A file is its length in bytes and the sequence of whole pages stored in it; a page is a
 * row of slots, each empty or holding a tuple, all pages of a file having the same number of
 * slots. The buffer pool's view of a page is taken to be the file's page. `insertTuple` is
 * first-fit with append-on-full, `deleteTuple` empties the slot named by the record id, and
 * `HeapFileIterator` walks the stored tuples page by page.
 */
module HeapFiles {
  import opened Common
  import opened Tuples
  import opened TupleDescs

  /** The stored tuples of a row of slots, in slot order (what a page's iterator yields). */
  function Live(slots: seq<Option<Tuple>>): (r: seq<Tuple>)
    ensures |r| <= |slots|
  {
    if slots == [] then []
    else
      var last := slots[|slots| - 1];
      Live(slots[..|slots| - 1]) + (if last.Some? then [last.value] else [])
  }

  /** The lowest empty slot. */
  function FirstEmpty(slots: seq<Option<Tuple>>): (r: Option<nat>)
    ensures r.Some? ==> r.value < |slots| && slots[r.value].None?
    ensures r.Some? ==> forall j :: 0 <= j < r.value ==> slots[j].Some?
    ensures r.None? ==> forall j :: 0 <= j < |slots| ==> slots[j].Some?
  {
    if slots == [] then None
    else
      match FirstEmpty(slots[..|slots| - 1])
      case Some(k) => Some(k)
      case None => if slots[|slots| - 1].None? then Some(|slots| - 1) else None
  }

  /** A row with no empty slot stores one tuple per slot. */
  lemma {:induction false} LiveFull(slots: seq<Option<Tuple>>)
    requires forall j :: 0 <= j < |slots| ==> slots[j].Some?
    ensures |Live(slots)| == |slots|
  {
    if slots != [] {
      LiveFull(slots[..|slots| - 1]);
    }
  }

  /** Setting one slot changes the stored count by what left and what arrived. */
  lemma {:induction false} LiveUpdate(slots: seq<Option<Tuple>>, k: nat, v: Option<Tuple>)
    requires k < |slots|
    ensures |Live(slots[k := v])| ==
      |Live(slots)| - (if slots[k].Some? then 1 else 0) + (if v.Some? then 1 else 0)
  {
    var n := |slots|;
    if k == n - 1 {
      assert slots[k := v][..n - 1] == slots[..n - 1];
    } else {
      assert slots[k := v][..n - 1] == slots[..n - 1][k := v];
      LiveUpdate(slots[..n - 1], k, v);
    }
  }

  lemma {:induction false} LiveNone(n: nat)
    ensures Live(seq(n, _ => None)) == []
  {
    if n > 0 {
      var all: seq<Option<Tuple>> := seq(n, _ => None);
      assert all[..n - 1] == seq(n - 1, _ => None);
      LiveNone(n - 1);
    }
  }

  /** An abstract `HeapPage`: its slots. */
  datatype HeapPage = HeapPage(slots: seq<Option<Tuple>>) {

    /** `getNumEmptySlots()`. */
    function NumEmptySlots(): nat
    {
      |slots| - |Live(slots)|
    }

    /** A page with at least one empty slot has an empty slot to fill. */
    lemma RoomHasEmptySlot()
      ensures NumEmptySlots() > 0 <==> FirstEmpty(slots).Some?
    {
      match FirstEmpty(slots)
      case None => LiveFull(slots);
      case Some(k) => LiveUpdate(slots, k, Some(Tuple([], None)));
    }

    /**
     * `HeapPage.insertTuple` on page `pid`, as this model takes it: the tuple goes into the
     * lowest empty slot and gets that slot's record id.
     */
    function Place(pid: PageId, t: Tuple): (p: HeapPage)
      requires NumEmptySlots() > 0
      ensures |p.slots| == |slots|
      ensures |Live(p.slots)| == |Live(slots)| + 1
    {
      RoomHasEmptySlot();
      var k := FirstEmpty(slots).value;
      LiveUpdate(slots, k, Some(Tuple(t.fields, Some(RecordId(pid, k)))));
      HeapPage(slots[k := Some(Tuple(t.fields, Some(RecordId(pid, k))))])
    }
  }

  /** A freshly formatted page: every slot empty. */
  function EmptyPage(slotCount: nat): (p: HeapPage)
    ensures |p.slots| == slotCount && Live(p.slots) == [] && p.NumEmptySlots() == slotCount
  {
    LiveNone(slotCount);
    HeapPage(seq(slotCount, _ => None))
  }

  /** Every tuple of the file, page after page, each page's in slot order. */
  function FileTuples(pages: seq<HeapPage>): seq<Tuple>
  {
    if pages == [] then [] else Live(pages[0].slots) + FileTuples(pages[1..])
  }

  lemma {:induction false} FileTuplesAppend(pages: seq<HeapPage>, p: HeapPage)
    ensures FileTuples(pages + [p]) == FileTuples(pages) + Live(p.slots)
  {
    if pages != [] {
      assert (pages + [p])[1..] == pages[1..] + [p];
      FileTuplesAppend(pages[1..], p);
    }
  }

  /** Replacing one page changes the file's tuple count by the difference on that page. */
  lemma {:induction false} FileTuplesUpdate(pages: seq<HeapPage>, i: nat, p: HeapPage)
    requires i < |pages|
    ensures |FileTuples(pages[i := p])| ==
      |FileTuples(pages)| - |Live(pages[i].slots)| + |Live(p.slots)|
  {
    if i > 0 {
      assert pages[i := p][1..] == pages[1..][i - 1 := p];
      FileTuplesUpdate(pages[1..], i - 1, p);
    }
  }

  /** Page `i` is the lowest-numbered page with an empty slot. */
  ghost predicate FirstFit(pages: seq<HeapPage>, i: int)
  {
    0 <= i < |pages| && pages[i].NumEmptySlots() > 0 &&
    forall j :: 0 <= j < i ==> pages[j].NumEmptySlots() == 0
  }

  /** The lowest-numbered page with an empty slot, if any. */
  function FirstWithRoom(pages: seq<HeapPage>): (r: Option<nat>)
    ensures r.Some? ==> FirstFit(pages, r.value)
    ensures r.None? ==> forall j :: 0 <= j < |pages| ==> pages[j].NumEmptySlots() == 0
  {
    if pages == [] then None
    else
      match FirstWithRoom(pages[..|pages| - 1])
      case Some(i) => Some(i)
      case None => if pages[|pages| - 1].NumEmptySlots() > 0 then Some(|pages| - 1) else None
  }

  /**
   * The pages after `insertTuple(t)` succeeds: the tuple is placed in the first page with an
   * empty slot, or, when every page is full, in a new page appended as page `|pages|`.
   */
  function Inserted(pages: seq<HeapPage>, tableId: int, slotCount: nat, t: Tuple): (r: seq<HeapPage>)
    requires slotCount > 0 || FirstWithRoom(pages).Some?
    ensures FirstWithRoom(pages).Some? ==> |r| == |pages|
    ensures FirstWithRoom(pages).None? ==> |r| == |pages| + 1 && r[..|pages|] == pages
    ensures forall j :: 0 <= j < |pages| && Some(j) != FirstWithRoom(pages) ==> r[j] == pages[j]
  {
    match FirstWithRoom(pages)
    case Some(i) => pages[i := pages[i].Place(PageId(tableId, i), t)]
    case None => pages + [EmptyPage(slotCount).Place(PageId(tableId, |pages|), t)]
  }

  /** An insertion stores exactly one more tuple in the file. */
  lemma InsertedCount(pages: seq<HeapPage>, tableId: int, slotCount: nat, t: Tuple)
    requires slotCount > 0 || FirstWithRoom(pages).Some?
    ensures |FileTuples(Inserted(pages, tableId, slotCount, t))| == |FileTuples(pages)| + 1
  {
    match FirstWithRoom(pages)
    case Some(i) =>
      FileTuplesUpdate(pages, i, pages[i].Place(PageId(tableId, i), t));
    case None =>
      FileTuplesAppend(pages, EmptyPage(slotCount).Place(PageId(tableId, |pages|), t));
  }

  /** Page `pid.pageNumber` with the slot of record `rid` emptied. */
  function Deleted(pages: seq<HeapPage>, rid: RecordId): seq<HeapPage>
    requires 0 <= rid.pageId.pageNumber < |pages|
    requires 0 <= rid.tupleNumber < |pages[rid.pageId.pageNumber].slots|
  {
    var n := rid.pageId.pageNumber;
    pages[n := HeapPage(pages[n].slots[rid.tupleNumber := None])]
  }

  /** Deleting a stored tuple leaves one tuple fewer in the file. */
  lemma DeletedCount(pages: seq<HeapPage>, rid: RecordId)
    requires 0 <= rid.pageId.pageNumber < |pages|
    requires 0 <= rid.tupleNumber < |pages[rid.pageId.pageNumber].slots|
    requires pages[rid.pageId.pageNumber].slots[rid.tupleNumber].Some?
    ensures |FileTuples(Deleted(pages, rid))| == |FileTuples(pages)| - 1
  {
    var n := rid.pageId.pageNumber;
    LiveUpdate(pages[n].slots, rid.tupleNumber, None);
    FileTuplesUpdate(pages, n, HeapPage(pages[n].slots[rid.tupleNumber := None]));
  }

  /**
   * A file filled by insertions alone: every page but the last is full, and the last holds at
   * least one tuple.
   */
  ghost predicate Packed(pages: seq<HeapPage>, slotCount: nat)
  {
    (forall j :: 0 <= j < |pages| ==> |pages[j].slots| == slotCount) &&
    (forall j :: 0 <= j < |pages| - 1 ==> pages[j].NumEmptySlots() == 0) &&
    (pages != [] ==> |Live(pages[|pages| - 1].slots)| >= 1)
  }

  /** Insertion keeps a file packed. */
  lemma InsertedPacked(pages: seq<HeapPage>, tableId: int, slotCount: nat, t: Tuple)
    requires slotCount > 0 && Packed(pages, slotCount)
    ensures Packed(Inserted(pages, tableId, slotCount, t), slotCount)
  {
    var r := Inserted(pages, tableId, slotCount, t);
    match FirstWithRoom(pages)
    case Some(i) =>
      assert i == |pages| - 1;
    case None =>
      assert r[|pages|] == EmptyPage(slotCount).Place(PageId(tableId, |pages|), t);
  }

  /** The tuples of a packed file: `slotCount` per full page plus those of the last. */
  lemma {:induction false} PackedTuples(pages: seq<HeapPage>, slotCount: nat)
    requires pages != [] && Packed(pages, slotCount)
    ensures |FileTuples(pages)| == (|pages| - 1) * slotCount + |Live(pages[|pages| - 1].slots)|
    decreases |pages|
  {
    if |pages| > 1 {
      var rest := pages[1..];
      PackedTail(pages, slotCount);
      PackedTuples(rest, slotCount);
      var full := |Live(pages[0].slots)|;
      assert full == slotCount by {
        assert pages[0].NumEmptySlots() == 0;
      }
      var last := |Live(pages[|pages| - 1].slots)|;
      assert rest[|rest| - 1] == pages[|pages| - 1];
      var n := |rest| - 1;
      assert |FileTuples(pages)| == full + n * slotCount + last;
      MulSucc(n, slotCount);
    }
  }

  lemma MulSucc(n: int, c: int)
    ensures (n + 1) * c == n * c + c
  {
  }

  /** Dropping the first page of a packed file of two or more pages leaves it packed. */
  lemma PackedTail(pages: seq<HeapPage>, slotCount: nat)
    requires |pages| > 1 && Packed(pages, slotCount)
    ensures Packed(pages[1..], slotCount)
  {
    var rest := pages[1..];
    assert forall j :: 0 <= j < |rest| ==> rest[j] == pages[j + 1];
  }

  /**
   * Inserting N tuples one at a time into an empty file of C slots per page leaves
   * ceil(N / C) pages: a packed file with N tuples has exactly that many pages.
   */
  lemma PackedPageCount(pages: seq<HeapPage>, slotCount: nat)
    requires slotCount > 0 && Packed(pages, slotCount)
    ensures |pages| == (|FileTuples(pages)| + slotCount - 1) / slotCount
  {
    if pages == [] {
      assert |FileTuples(pages)| == 0;
      DivUnique(0, slotCount, slotCount - 1);
    } else {
      PackedTuples(pages, slotCount);
      var last := |Live(pages[|pages| - 1].slots)|;
      assert |FileTuples(pages)| + slotCount - 1 == |pages| * slotCount + (last - 1);
      DivUnique(|pages|, slotCount, last - 1);
    }
  }

  /** Page `n` ends within a file of `length` bytes exactly when `n` is below the page count. */
  lemma PageFits(n: nat, pageSize: nat, length: nat)
    requires pageSize > 0
    ensures n * pageSize + pageSize <= length <==> n < length / pageSize
  {
    var q := length / pageSize;
    NatDivBounds(length, pageSize);
    assert n * pageSize + pageSize == (n + 1) * pageSize;
    if n < q {
      assert (n + 1) * pageSize <= q * pageSize;
    } else {
      assert (n + 1) * pageSize >= (q + 1) * pageSize;
    }
  }

  /** The tuples from page `i` on are page `i`'s followed by those from page `i + 1` on. */
  lemma FileTuplesFrom(pages: seq<HeapPage>, i: nat)
    requires i < |pages|
    ensures FileTuples(pages[i..]) == Live(pages[i].slots) + FileTuples(pages[i + 1..])
  {
    assert pages[i..][1..] == pages[i + 1..];
  }

  /**
   * A heap file. `tableId` stands for `getId()` (a hash of the file's path), `pageSize` for
   * `BufferPool.getPageSize()` and `slotsPerPage` for the slot count `HeapPage` derives from
   * the schema. `length` is the file's length in bytes and `pages` its whole pages.
   */
  class HeapFile {
    const tableId: int
    const td: TupleDesc
    const pageSize: nat
    const slotsPerPage: nat
    var length: nat
    var pages: seq<HeapPage>

    ghost predicate Valid()
      reads this
    {
      pageSize > 0 && |pages| == length / pageSize &&
      forall j :: 0 <= j < |pages| ==> |pages[j].slots| == slotsPerPage
    }

    /** A heap file over an existing file of `length` bytes whose whole pages are `pages`. */
    constructor(tableId: int, td: TupleDesc, pageSize: nat, slotsPerPage: nat,
                length: nat, pages: seq<HeapPage>)
      requires pageSize > 0 && |pages| == length / pageSize
      requires forall j :: 0 <= j < |pages| ==> |pages[j].slots| == slotsPerPage
      ensures Valid()
      ensures this.tableId == tableId && this.td == td && this.pageSize == pageSize
      ensures this.slotsPerPage == slotsPerPage && this.length == length && this.pages == pages
    {
      this.tableId := tableId;
      this.td := td;
      this.pageSize := pageSize;
      this.slotsPerPage := slotsPerPage;
      this.length := length;
      this.pages := pages;
    }

    /** `getTupleDesc()`. */
    function GetTupleDesc(): TupleDesc { td }

    /**
     * `numPages()`: the length divided by the page size. The division is on integers before
     * `Math.ceil` sees it, so a partial trailing page is not counted.
     */
    function NumPages(): (n: nat)
      reads this
      requires Valid()
      ensures n * pageSize <= length < (n + 1) * pageSize
      ensures n == |pages|
    {
      NatDivBounds(length, pageSize);
      length / pageSize
    }

    /**
     * `readPage`: null when the page would end past the end of the file (the exception is
     * caught), and null for a negative page number (the seek fails and is caught); otherwise
     * the page at byte offset `n * pageSize`.
     */
    function ReadPage(n: int): (r: Option<HeapPage>)
      reads this
      requires Valid()
      ensures r.Some? <==> 0 <= n < NumPages()
      ensures r.Some? ==> r.value == pages[n]
    {
      var offset := n * pageSize;
      if offset + pageSize > length then
        assert n < 0 || n >= |pages| by {
          if n >= 0 {
            PageFits(n, pageSize, length);
          }
        }
        None
      else if n < 0 then None
      else
        PageFits(n, pageSize, length);
        Some(pages[n])
    }

    /**
     * `writePage`: the page's bytes go to offset `n * pageSize`, overwriting page `n` or, at
     * `n == numPages()`, extending the file by one page (a partial trailing page is
     * overwritten). A negative page number makes the seek throw.
     */
    method WritePage(n: int, page: HeapPage) returns (r: Result<()>)
      requires Valid() && n <= NumPages() && |page.slots| == slotsPerPage
      modifies this
      ensures Valid()
      ensures r.Ok? <==> n >= 0
      ensures r.Err? ==> r.error == IOException && pages == old(pages) && length == old(length)
      ensures r.Ok? ==> ReadPage(n) == Some(page)
      ensures r.Ok? ==> forall m :: m != n ==> ReadPage(m) == old(ReadPage(m))
      ensures r.Ok? && n < old(NumPages()) ==> length == old(length) && pages == old(pages)[n := page]
      ensures r.Ok? && n == old(NumPages()) ==> length == (n + 1) * pageSize && pages == old(pages) + [page]
    {
      if n < 0 {
        return Err(IOException);
      }
      NatDivBounds(length, pageSize);
      if n < |pages| {
        pages := pages[n := page];
      } else {
        length := (n + 1) * pageSize;
        pages := pages + [page];
        assert length / pageSize == n + 1 by {
          DivUnique(n + 1, pageSize, 0);
        }
      }
      r := Ok(());
    }

    /**
     * `insertTuple(t)`: first fit over the existing pages, else a new page `numPages()` that
     * is written to the file; the result names the one modified page. A page with no slots
     * at all cannot take the tuple, and the new page's `insertTuple` throws.
     */
    method InsertTuple(t: Tuple) returns (r: Result<seq<PageId>>)
      requires Valid()
      modifies this
      ensures Valid()
      ensures r.Err? <==> slotsPerPage == 0 && FirstWithRoom(old(pages)).None?
      ensures r.Err? ==> r.error == DbException && pages == old(pages) && length == old(length)
      ensures r.Ok? ==> pages == Inserted(old(pages), tableId, slotsPerPage, t)
      ensures r.Ok? ==> match FirstWithRoom(old(pages))
        case Some(i) => r.value == [PageId(tableId, i)] && length == old(length)
        case None => r.value == [PageId(tableId, old(NumPages()))] &&
                     length == (old(NumPages()) + 1) * pageSize
    {
      var i := 0;
      while i < NumPages()
        invariant 0 <= i <= |pages| && pages == old(pages) && length == old(length) && Valid()
        invariant forall j :: 0 <= j < i ==> pages[j].NumEmptySlots() == 0
      {
        var page := ReadPage(i).value;
        if page.NumEmptySlots() > 0 {
          assert FirstWithRoom(pages) == Some(i);
          pages := pages[i := page.Place(PageId(tableId, i), t)];
          return Ok([PageId(tableId, i)]);
        }
        i := i + 1;
      }
      assert FirstWithRoom(pages).None?;
      var n := NumPages();
      var newPage := EmptyPage(slotsPerPage);
      if newPage.NumEmptySlots() == 0 {
        return Err(DbException);
      }
      newPage := newPage.Place(PageId(tableId, n), t);
      var written := WritePage(n, newPage);
      r := Ok([PageId(tableId, n)]);
    }

    /**
     * `deleteTuple(t)`: only the page named by the tuple's record id is touched, and it is the
     * one page reported. A null record id throws; a page number outside the file gives the
     * buffer pool no page, so the delete on it throws; the abstract page refuses a slot
     * number outside the page or an empty slot. A record of another table does not touch
     * this file.
     */
    method DeleteTuple(t: Tuple) returns (r: Result<seq<PageId>>)
      requires Valid()
      modifies this
      ensures Valid() && length == old(length)
      ensures t.recordId.None? ==> r == Err(NullPointerException)
      ensures r.Ok? ==> t.recordId.Some? && r.value == [t.recordId.value.pageId]
      ensures r.Err? || t.recordId.value.pageId.tableId != tableId ==> pages == old(pages)
      ensures t.recordId.Some? && t.recordId.value.pageId.tableId == tableId ==>
        var rid := t.recordId.value;
        var n := rid.pageId.pageNumber;
        if !(0 <= n < |old(pages)|) then r == Err(NullPointerException)
        else if !(0 <= rid.tupleNumber < slotsPerPage) || old(pages)[n].slots[rid.tupleNumber].None?
        then r == Err(DbException)
        else r.Ok? && pages == Deleted(old(pages), rid)
    {
      if t.recordId.None? {
        return Err(NullPointerException);
      }
      var rid := t.recordId.value;
      var pid := rid.pageId;
      if pid.tableId != tableId {
        return Ok([pid]);
      }
      var page := ReadPage(pid.pageNumber);
      if page.None? {
        return Err(NullPointerException);
      }
      var slot := rid.tupleNumber;
      if !(0 <= slot < |page.value.slots|) || page.value.slots[slot].None? {
        return Err(DbException);
      }
      pages := pages[pid.pageNumber := HeapPage(page.value.slots[slot := None])];
      r := Ok([pid]);
    }

    /** `iterator(tid)`; the transaction only matters to the buffer pool's locking. */
    method Iterator() returns (it: HeapFileIterator)
      requires Valid()
      ensures fresh(it) && it.file == this && it.Valid() && !it.statusOpen && it.Remaining() == []
    {
      it := new HeapFileIterator(this);
    }
  }

  /**
   * `HeapFileIterator`: the current page number, the current page's tuples (`it`, here the
   * tuples and a position) and the open flag.
   */
  class HeapFileIterator {
    const file: HeapFile
    var curPgNum: nat
    var cur: seq<Tuple>
    var pos: nat
    var statusOpen: bool

    constructor(file: HeapFile)
      ensures this.file == file && !statusOpen && curPgNum == 0 && cur == [] && pos == 0
    {
      this.file := file;
      curPgNum := 0;
      cur := [];
      pos := 0;
      statusOpen := false;
    }

    ghost predicate Valid()
      reads this, file
    {
      file.Valid() && pos <= |cur| && (statusOpen ==> curPgNum < |file.pages|)
    }

    /**
     * The tuples `next` will still hand out: the rest of the current page, then every later
     * page's. Nothing while closed.
     */
    ghost function Remaining(): seq<Tuple>
      reads this, file
      requires Valid()
    {
      if statusOpen then cur[pos..] + FileTuples(file.pages[curPgNum + 1..]) else []
    }

    /** `openByPgNum(n)`: fetch page `n` and start at its first tuple. */
    method OpenByPgNum(n: nat)
      requires file.Valid() && n < file.NumPages()
      modifies this`curPgNum, this`cur, this`pos
      ensures curPgNum == n && cur == Live(file.pages[n].slots) && pos == 0
      ensures statusOpen == old(statusOpen)
    {
      curPgNum := n;
      cur := Live(file.ReadPage(n).value.slots);
      pos := 0;
    }

    /**
     * `open()`: start at page 0. In an empty file page 0 does not exist, the buffer pool hands
     * back no page and its iterator throws, leaving the flag as it was.
     */
    method Open() returns (r: Result<()>)
      requires Valid()
      modifies this
      ensures Valid()
      ensures r.Err? <==> file.NumPages() == 0
      ensures r.Err? ==> r.error == NullPointerException && statusOpen == old(statusOpen)
      ensures r.Ok? ==> statusOpen && Remaining() == FileTuples(file.pages)
    {
      if file.NumPages() == 0 {
        curPgNum := 0;
        return Err(NullPointerException);
      }
      OpenByPgNum(0);
      statusOpen := true;
      assert file.pages[1..] == file.pages[0 + 1..];
      r := Ok(());
    }

    /**
     * `hasNext()`: while open, whether a tuple remains, moving on to later pages as the
     * current one runs out but never beyond page `numPages() - 1`.
     */
    method HasNext() returns (b: bool)
      requires Valid()
      modifies this`curPgNum, this`cur, this`pos
      ensures Valid() && statusOpen == old(statusOpen)
      ensures Remaining() == old(Remaining())
      ensures b <==> Remaining() != []
      ensures b ==> pos < |cur|
    {
      if !statusOpen {
        return false;
      }
      if pos < |cur| {
        return true;
      }
      b := AdvancePages();
    }

    /** The loop of `hasNext()`: open the following pages until one holds a tuple. */
    method AdvancePages() returns (b: bool)
      requires Valid() && statusOpen && pos == |cur|
      modifies this`curPgNum, this`cur, this`pos
      ensures Valid() && statusOpen
      ensures Remaining() == old(Remaining())
      ensures b <==> pos < |cur|
      ensures !b ==> Remaining() == []
    {
      ghost var rem := FileTuples(file.pages[curPgNum + 1..]);
      SkipEmpty(cur, pos, rem);
      while curPgNum + 1 < file.NumPages()
        invariant Valid() && statusOpen && pos == |cur|
        invariant rem == FileTuples(file.pages[curPgNum + 1..])
        decreases file.NumPages() - curPgNum
      {
        FileTuplesFrom(file.pages, curPgNum + 1);
        OpenByPgNum(curPgNum + 1);
        SkipEmpty(cur, pos, FileTuples(file.pages[curPgNum + 1..]));
        if pos < |cur| {
          return true;
        }
      }
      assert file.pages[curPgNum + 1..] == [];
      return false;
    }

    /** `next()`: the next remaining tuple, or `NoSuchElementException` when none remains. */
    method Next() returns (r: Result<Tuple>)
      requires Valid()
      modifies this`curPgNum, this`cur, this`pos
      ensures Valid() && statusOpen == old(statusOpen)
      ensures old(Remaining()) == [] ==> r == Err(NoSuchElementException) && Remaining() == []
      ensures old(Remaining()) != [] ==>
        r == Ok(old(Remaining())[0]) && Remaining() == old(Remaining())[1..]
    {
      var more := HasNext();
      if !more {
        return Err(NoSuchElementException);
      }
      r := Ok(cur[pos]);
      pos := pos + 1;
    }

    /** `rewind()`: `open()` again, so the walk restarts at page 0. */
    method Rewind() returns (r: Result<()>)
      requires Valid()
      modifies this
      ensures Valid()
      ensures r.Err? <==> file.NumPages() == 0
      ensures r.Err? ==> r.error == NullPointerException && statusOpen == old(statusOpen)
      ensures r.Ok? ==> statusOpen && Remaining() == FileTuples(file.pages)
    {
      r := Open();
    }

    /** `close()`: back to page 0, no current page, closed. */
    method Close()
      requires Valid()
      modifies this
      ensures Valid() && !statusOpen && curPgNum == 0 && Remaining() == []
    {
      curPgNum := 0;
      cur := [];
      pos := 0;
      statusOpen := false;
    }
  }

  /** A full pass of the iterator over a non-empty file yields every stored tuple once, in order. */
  method ScanAll(file: HeapFile) returns (r: Result<seq<Tuple>>)
    requires file.Valid()
    ensures r.Err? <==> file.NumPages() == 0
    ensures r.Err? ==> r.error == NullPointerException
    ensures r.Ok? ==> r.value == FileTuples(file.pages)
  {
    var it := file.Iterator();
    var status := it.Open();
    if status.Err? {
      return Err(status.error);
    }
    var seen := ReadRest(it);
    return Ok(seen);
  }

  /** The `hasNext`/`next` loop: everything the iterator still holds, in order. */
  method ReadRest(it: HeapFileIterator) returns (seen: seq<Tuple>)
    requires it.Valid()
    modifies it
    ensures seen == old(it.Remaining())
  {
    ghost var all := it.Remaining();
    seen := [];
    var more := it.HasNext();
    while more
      invariant it.Valid() && seen + it.Remaining() == all
      invariant more <==> it.Remaining() != []
      decreases |it.Remaining()|
    {
      ghost var rem := it.Remaining();
      var t := it.Next();
      MoveHead(seen, rem);
      seen := seen + [t.value];
      more := it.HasNext();
    }
    assert seen == seen + [];
  }

  /** A page read from position `pos` contributes its tuples from there on; at its end, none. */
  lemma SkipEmpty<T>(cur: seq<T>, pos: nat, later: seq<T>)
    requires pos <= |cur|
    ensures pos == 0 ==> cur[pos..] + later == cur + later
    ensures pos == |cur| ==> cur[pos..] + later == later
  {
    if pos == 0 {
      assert cur[pos..] == cur;
    }
  }

  /** Moving the head of the rest to the end of what was seen keeps their concatenation. */
  lemma MoveHead<T>(seen: seq<T>, rest: seq<T>)
    requires rest != []
    ensures (seen + [rest[0]]) + rest[1..] == seen + rest
  {
    assert rest == [rest[0]] + rest[1..];
  }
}
