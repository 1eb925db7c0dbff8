/** The heap as the engine runs it (07_storage.c), page bytes and all. */
module HeapStore {
  import opened Common
  import opened Values
  import opened Records
  import opened SlottedPage
  import opened HeapFile

  /** Too long for the page layout, and yet not refused by heapInsert. */
  predicate Oversized(row: Row) {
    LARGEST_FIT < 2 + Sizes(row, |row|) <= LARGEST_ALLOWED
  }

  predicate TooLarge(row: Row) {
    2 + Sizes(row, |row|) > LARGEST_ALLOWED
  }

  lemma FittingIsStorable(row: Row)
    requires |row| <= MAX_COLS && !TooLarge(row)
    ensures RowStorable(row) && |Encode(row)| == 2 + Sizes(row, |row|) <= LARGEST_ALLOWED
    ensures Oversized(row) <==> |Encode(row)| > LARGEST_FIT
  {
    SmallIsStorable(row, |row|);
    SizesIs(row, |row|);
  }

  /** The bytes of a new page that took this row and nothing else. */
  ghost predicate Misplaced(data: Bytes, row: Row) {
    && RowStorable(row) && |Encode(row)| <= LARGEST_ALLOWED
    && |EmptyPage()| == PAGE_SIZE && SlotCount(EmptyPage()) == 0 && DataStart(EmptyPage()) == PAGE_USABLE
    && data == PageInsert(EmptyPage(), row)
  }

  lemma OversizedBreaks(data: Bytes, row: Row)
    requires Misplaced(data, row) && Oversized(row)
    ensures !PageOk(data, [Live(row)])
  {
    hide PageOk, PageInsert, EmptyPage;
    SizesIs(row, |row|);
    GuardIsLoose(row);
  }

  /** What reading a slot gives: the row as it reads back. */
  function Read(s: Stored): Stored {
    if s.Live? then Live(RowAsRead(s.row)) else Gone
  }

  /** The whole page-level part of heapInsert. */
  method WriteSlot(data: array<Byte>, row: Row) returns (slot: nat)
    requires data.Length == PAGE_SIZE && RowStorable(row) && SlotCount(data[..]) < SLOTS_PER_PAGE - 1
    requires |Encode(row)| <= DataStart(data[..]) <= PAGE_USABLE
    modifies data
    ensures slot == old(SlotCount(data[..])) && data[..] == PageInsert(old(data[..]), row)
  {
    hide Get32, Encode, U32, Poke;
    slot := SlotCount(data[..]);
    var size := RecordSize(row);
    var start := DataStart(data[..]) - size;
    WriteRecord(data, start, row);
    PutBytes(data, SlotAt(slot), U32(start));
    PutBytes(data, SlotAt(slot) + 4, U32(size));
    PutBytes(data, 0, U32(slot + 1));
    PutBytes(data, 4, U32(start));
  }

  method NewPage() returns (data: array<Byte>)
    ensures fresh(data) && data[..] == EmptyPage() && PageOk(data[..], []) && DataStart(data[..]) == PAGE_USABLE
  {
    hide U32, Get32;
    data := new Byte[PAGE_SIZE](_ => 0);
    assert data[..] == seq(PAGE_SIZE, _ => 0);
    PutBytes(data, 4, U32(PAGE_USABLE));
    EmptyPageOk();
  }

  /** Slots in use, tombstones included. */
  ghost function Total(view: View): nat {
    |AllPositions(view)|
  }

  class Heap {
    var pages: seq<array<Byte>>
    var pageSlots: seq<nat>
    var nlive: nat
    var nslots: nat
    ghost var view: View

    ghost predicate PagesOk()
      reads this, pages
    {
      && |pages| == |view| == |pageSlots|
      && (forall p, q :: 0 <= p < q < |pages| ==> pages[p] != pages[q])
      && (forall p :: 0 <= p < |pages| ==> pageSlots[p] == |view[p]| && PageOk(pages[p][..], view[p]))
    }

    ghost predicate Valid()
      reads this, pages
    {
      PagesOk() && ViewOk(view) && nslots == Total(view) && nlive == |LivePositions(view)|
    }

    constructor ()
      ensures Valid() && view == [] && pages == []
    {
      pages, pageSlots, nlive, nslots, view := [], [], 0, 0, [];
    }

    /**
     heapInsert: too large, or stored at a new position behind all the others. The heap is sound
     afterwards exactly when the row is not one of the few the guard should have refused.
     */
    method Insert(row: Row) returns (ok: bool, position: int, newPage: bool)
      requires Valid() && |row| <= MAX_COLS
      modifies this, pages
      ensures ok == !TooLarge(row) && (Valid() <==> !Oversized(row))
      ensures old(pages) <= pages && forall p :: |old(pages)| <= p < |pages| ==> fresh(pages[p])
      ensures !ok ==> view == old(view) && pages == old(pages)
      ensures ok ==> (old(view) == [] ==> newPage) && (view, position) == Added(old(view), row, newPage)
      ensures ok && !newPage ==> |old(view)[|old(view)| - 1]| < SLOTS_PER_PAGE - 1
      ensures ok ==> (newPage <==> old(!LastPageFits(row)))
      ensures Oversized(row) ==> newPage && pages != [] && Misplaced(pages[|pages| - 1][..], row)
    {
      hide Misplaced, PageOk, Encode, Sizes, SlotCount, DataStart, AllPositions, ViewOk, IsSlot, Cell, Position,
           LivePositions, RowStorable, U32, Get32, PageInsert, EmptyPage;
      var size := RecordSize(row);
      if size > PAGE_SIZE - PAGE_HEADER - SLOT_WIDTH {
        return false, -1, false;
      }
      FittingIsStorable(row);
      ok := true;
      var local := |pages| - 1;
      newPage := true;
      if local >= 0 {
        var roomy := HasRoom(local, size);
        newPage := !roomy;
      }
      if newPage {
        AppendPage();
        local := |pages| - 1;
      }
      position := InsertInto(local, row, size);
      assert newPage ==> view == old(view) + [[Live(row)]] by { assert [] + [Live(row)] == [Live(row)]; }
      Grows(old(view), row, newPage);
      nlive, nslots := nlive + 1, nslots + 1;
      if Oversized(row) {
        OversizedBreaks(pages[local][..], row);
      }
    }

    /** Between the slots of the last page, with one more, and its records there is room for this one. */
    ghost predicate LastPageFits(row: Row)
      reads this, pages
      requires PagesOk()
    {
      pages != [] &&
      var last := |pages| - 1;
      SlotAt(|view[last]| + 1) + 2 + Sizes(row, |row|) <= DataStart(pages[last][..])
    }

    /** Only the last page is asked: whether one more slot and this record still fit it. */
    method HasRoom(local: nat, size: nat) returns (roomy: bool)
      requires PagesOk() && local < |pages|
      ensures roomy ==> |view[local]| < SLOTS_PER_PAGE - 1 && |pages[local][..]| == PAGE_SIZE
      ensures |pages[local][..]| == PAGE_SIZE && DataStart(pages[local][..]) <= PAGE_USABLE
      ensures roomy <==> SlotAt(|view[local]| + 1) + size <= DataStart(pages[local][..])
    {
      hide Get32;
      var slots, start := SlotCount(pages[local][..]), DataStart(pages[local][..]);
      roomy := !(slots == SLOTS_PER_PAGE || start < PAGE_HEADER + (slots + 1) * SLOT_WIDTH + size);
    }

    method AppendPage()
      requires PagesOk()
      modifies this`pages, this`pageSlots, this`view
      ensures PagesOk() && view == old(view) + [[]] && |pages| == |old(pages)| + 1 && pages[..|old(pages)|] == old(pages)
      ensures fresh(pages[|old(pages)|]) && pages[|old(pages)|][..] == EmptyPage() && DataStart(pages[|old(pages)|][..]) == PAGE_USABLE
      ensures forall p :: 0 <= p < |old(pages)| ==> pages[p][..] == old(pages[p][..])
    {
      var data := NewPage();
      pages := pages + [data];
      pageSlots := pageSlots + [0];
      view := view + [[]];
    }

    /** The row in the next slot of a page: sound if there is room for both, and all on its own page if not. */
    method InsertInto(local: nat, row: Row, size: nat) returns (position: int)
      requires PagesOk() && local < |pages| && RowStorable(row) && size == |Encode(row)|
      requires |view[local]| < SLOTS_PER_PAGE - 1 && size <= DataStart(pages[local][..]) && size <= LARGEST_ALLOWED
      modifies this`pageSlots, this`view, pages[local]
      ensures view == old(view)[local := old(view)[local] + [Live(row)]]
      ensures position == Position(local, |old(view)[local]|)
      ensures old(SlotAt(|view[local]| + 1) + size <= DataStart(pages[local][..])) ==> PagesOk()
      ensures old(pages[local][..]) == EmptyPage() ==> Misplaced(pages[local][..], row)
    {
      hide Encode, SlotOk, Apart, PageInsert;
      ghost var data, slots := pages[local][..], view[local];
      EmptyPageOk();
      if SlotAt(|slots| + 1) + size <= DataStart(data) {
        InsertKeeps(data, slots, row);
      }
      var slot := WriteSlot(pages[local], row);
      pageSlots := pageSlots[local := slot + 1];
      view := view[local := view[local] + [Live(row)]];
      position := Position(local, slot);
    }

    // ---------- reading ----------

    /** heapRead: a tombstone or a position that is no slot comes back deleted. */
    method ReadAt(position: int) returns (cell: Stored)
      requires Valid()
      ensures cell == Read(Cell(view, position))
    {
      var found, offset := Locate(position);
      if !found {
        return Gone;
      }
      var row := ReadRecord(pages[position / SLOTS_PER_PAGE], offset, Cell(view, position).row);
      cell := Live(row);
    }

    /** heapScanAt and decodeRecord: the columns asked for, over whatever the buffer held. */
    method DecodeAt(position: int, buffer: Row, upto: int) returns (found: bool, out: Row)
      requires Valid() && |buffer| == MAX_COLS
      ensures found == Cell(view, position).Live? && |out| == MAX_COLS
      ensures found ==> |Cell(view, position).row| <= MAX_COLS && out == Partly(Cell(view, position).row, buffer, upto)
    {
      var offset;
      found, offset := Locate(position);
      if !found {
        return false, buffer;
      }
      out := DecodeRecord(pages[position / SLOTS_PER_PAGE], offset, buffer, upto, Cell(view, position).row);
    }

    /** pinFor: where a live position's record lies in its page. */
    method Locate(position: int) returns (found: bool, offset: nat)
      requires Valid()
      ensures found == Cell(view, position).Live?
      ensures found ==>
                && IsSlot(view, position) && |view| == |pages| && RowStorable(Cell(view, position).row)
                && var data, row := pages[position / SLOTS_PER_PAGE], Cell(view, position).row;
                   offset + |Encode(row)| <= data.Length && data[offset..offset + |Encode(row)|] == Encode(row)
    {
      hide Get32, Encode;
      found, offset := false, 0;
      var page, slot := position / SLOTS_PER_PAGE, position % SLOTS_PER_PAGE;
      if page < 0 || page >= |pages| || slot >= pageSlots[page] {
        return;
      }
      assert SlotOk(pages[page][..], slot, view[page][slot], DataStart(pages[page][..]));
      var at := OffsetOf(pages[page][..], slot);
      if at == 0 {
        return;
      }
      found, offset := true, at;
    }

    /** heapMarkDeleted. */
    method MarkDeleted(position: int)
      requires Valid()
      modifies this`view, this`nlive, pages
      ensures Valid() && view == Deleted(old(view), position)
    {
      hide Encode, Get32, U32, LivePositions, AllPositions, PageOk, ViewOk;
      var found, offset := Locate(position);
      DeletedFacts(view, position);
      if !found {
        NothingToDelete(view, position);
        return;
      }
      var page, slot := position / SLOTS_PER_PAGE, position % SLOTS_PER_PAGE;
      DeleteKeeps(pages[page][..], view[page], slot);
      PutBytes(pages[page], SlotAt(slot), U32(0));
      DeletedLive(view, position);
      LiveCount(view, position);
      view := Deleted(view, position);
      nlive := nlive - 1;
    }

    // ---------- walking ----------

    /** heapFirst. */
    method First() returns (r: int)
      requires Valid()
      ensures r == AtOrEnd(AllPositions(view), 0)
    {
      r := FirstFrom(0);
      FirstAfterIsNext(view, -1, r);
    }

    /** heapNext; `i` is how many slots have been walked before this one. */
    method Next(position: int, ghost i: nat) returns (r: int)
      requires Valid() && i < |AllPositions(view)| && AllPositions(view)[i] == position
      ensures r == AtOrEnd(AllPositions(view), i + 1)
    {
      SlotsListed(view);
      assert AllPositions(view)[i] in AllPositions(view);
      var page, slot := position / SLOTS_PER_PAGE, position % SLOTS_PER_PAGE + 1;
      if slot < pageSlots[page] {
        r := Position(page, slot);
        NextOnPage(view, position);
      } else {
        r := FirstFrom(page + 1);
        NextOffPage(view, position, r);
      }
      FirstAfterIsNext(view, i, r);
    }

    /** The first slot of the first page from `from` on that has any. */
    method FirstFrom(from: nat) returns (r: int)
      requires Valid() && from <= |view|
      ensures FirstAfter(view, Position(from, 0) - 1, r)
    {
      hide PageOk;
      var page := from;
      while page < |pages|
        invariant from <= page <= |pages|
        invariant forall p :: from <= p < page ==> view[p] == []
      {
        if pageSlots[page] > 0 {
          FirstOfPage(view, from, page);
          return Position(page, 0);
        }
        page := page + 1;
      }
      NoMorePages(view, from);
      r := -1;
    }

    /** heapScanNext until it is done: page by page and slot by slot, stepping over tombstones. */
    method LiveList() returns (positions: seq<int>)
      requires Valid()
      ensures positions == LivePositions(view)
    {
      hide PageOk, ViewOk, Cell, LiveAt;
      positions := [];
      LiveAtNone(view);
      for page := 0 to |pages|
        invariant positions == LiveAt(view, Positions(view, page))
      {
        ghost var before := Positions(view, page);
        assert before + PagePositions(page, 0) == before;
        for slot := 0 to pageSlots[page]
          invariant positions == LiveAt(view, before + PagePositions(page, slot))
        {
          var position := Position(page, slot);
          var found, offset := Locate(position);
          LiveAtStep(view, before + PagePositions(page, slot), position);
          assert before + PagePositions(page, slot + 1) == before + PagePositions(page, slot) + [position];
          if found {
            positions := positions + [position];
          }
        }
      }
    }

    /** One row of the compaction: copied if it is live, skipped if it is a tombstone. */
    method CopyTo(rebuilt: Heap, position: int)
      requires Valid() && rebuilt != this && rebuilt.Valid() && Compacted(rebuilt.view)
      requires forall p :: 0 <= p < |rebuilt.pages| ==> rebuilt.pages[p] !in pages
      modifies rebuilt, rebuilt.pages
      ensures rebuilt.Valid() && Compacted(rebuilt.view)
      ensures LiveRows(rebuilt.view)
           == old(LiveRows(rebuilt.view)) + if Cell(view, position).Live? then [RowAsRead(Cell(view, position).row)] else []
      ensures old(rebuilt.pages) <= rebuilt.pages
      ensures forall p :: |old(rebuilt.pages)| <= p < |rebuilt.pages| ==> fresh(rebuilt.pages[p])
    {
      hide PageOk, Positions, Added, ViewOk, RowsAt, Encode, LiveRows, Compacted;
      var cell := ReadAt(position);
      if cell.Live? {
        StoredFits(pages[position / SLOTS_PER_PAGE][..], view[position / SLOTS_PER_PAGE], position % SLOTS_PER_PAGE);
        StoredStays(Cell(view, position).row);
        ghost var before := rebuilt.view;
        var ok, landed, newPage := rebuilt.Insert(cell.row);
        AddedRows(before, cell.row, newPage);
        StaysCompacted(before, cell.row, newPage);
      }
    }

    /** The loop of heapCompact: a heap of the live rows, in the order a scan finds them, and no tombstones. */
    method Rebuild() returns (rebuilt: Heap)
      requires Valid()
      ensures fresh(rebuilt) && rebuilt.Valid() && forall p :: 0 <= p < |rebuilt.pages| ==> fresh(rebuilt.pages[p])
      ensures Compacted(rebuilt.view) && LiveRows(rebuilt.view) == AllAsRead(LiveRows(view))
    {
      hide PagesOk, Positions, Compacted, ViewOk, RowsAt, Cell, LivePositions, AllPositions;
      ghost var all, i := AllPositions(view), 0;
      rebuilt := new Heap();
      NothingLive(view);
      var position := First();
      while position >= 0
        invariant i <= |all| && position == AtOrEnd(all, i)
        invariant rebuilt.Valid() && fresh(rebuilt) && forall p :: 0 <= p < |rebuilt.pages| ==> fresh(rebuilt.pages[p])
        invariant Compacted(rebuilt.view) && LiveRows(rebuilt.view) == AllAsRead(RowsAt(view, all[..i]))
        decreases |all| - i
      {
        RowsStep(view, all, i);
        CopyTo(rebuilt, position);
        position := Next(position, i);
        i := i + 1;
      }
      AtEnd(view, i);
      assert all[..i] == all;
    }

    /**
     heapCompact: the live rows, in the order a scan finds them, on new pages with no tombstones
     among them. What it reports as reclaimed is the number of tombstones there were.
     */
    method Compact() returns (reclaimed: int)
      requires Valid()
      modifies this
      ensures Valid() && Compacted(view) && forall p :: 0 <= p < |pages| ==> fresh(pages[p])
      ensures LiveRows(view) == AllAsRead(old(LiveRows(view)))
      ensures nslots == nlive == old(nlive) && reclaimed == old(nslots) - old(nlive)
    {
      hide PageOk, Positions, Compacted, ViewOk, RowsAt, Cell, LivePositions, LiveRows, AllPositions;
      var rebuilt := Rebuild();
      CompactCounts(view, rebuilt.view);
      reclaimed := nslots - rebuilt.nlive;
      pages, pageSlots := rebuilt.pages, rebuilt.pageSlots;
      nlive, nslots, view := rebuilt.nlive, rebuilt.nslots, rebuilt.view;
    }
  }

  lemma {:induction false} AsManyRows(view: View, positions: seq<int>)
    ensures |LiveAt(view, positions)| == |RowsAt(view, positions)|
    ensures (forall i :: 0 <= i < |positions| ==> Cell(view, positions[i]).Live?) ==> |LiveAt(view, positions)| == |positions|
  {
    if positions != [] {
      AsManyRows(view, positions[..|positions| - 1]);
    }
  }

  /** Compaction keeps the number of live rows, and then every slot is one. */
  lemma CompactCounts(was: View, view: View)
    requires ViewOk(was) && ViewOk(view) && Compacted(view) && LiveRows(view) == AllAsRead(LiveRows(was))
    ensures |LivePositions(view)| == |AllPositions(view)| == |LivePositions(was)|
  {
    hide LiveAt, RowsAt, Positions, IsSlot, Cell;
    AsManyRows(was, AllPositions(was));
    AsManyRows(view, AllPositions(view));
    SlotsListed(view);
    forall i | 0 <= i < |AllPositions(view)| ensures Cell(view, AllPositions(view)[i]).Live? {
      assert AllPositions(view)[i] in AllPositions(view);
    }
  }

  ghost function AllAsRead(rows: seq<Row>): (out: seq<Row>)
    ensures |out| == |rows| && forall i :: 0 <= i < |rows| ==> out[i] == RowAsRead(rows[i])
  {
    seq(|rows|, i requires 0 <= i < |rows| => RowAsRead(rows[i]))
  }

  lemma LiveAtNone(view: View)
    ensures LiveAt(view, []) == []
  {
  }

  lemma LiveAtStep(view: View, positions: seq<int>, p: int)
    ensures LiveAt(view, positions + [p]) == LiveAt(view, positions) + if Cell(view, p).Live? then [p] else []
  {
    assert (positions + [p])[..|positions|] == positions;
  }

  lemma NothingLive(view: View)
    ensures LiveRows([]) == [] && RowsAt(view, []) == [] && Compacted([])
  {
  }

  lemma RowsStep(view: View, all: seq<int>, i: nat)
    requires i < |all|
    ensures RowsAt(view, all[..i + 1])
         == RowsAt(view, all[..i]) + if Cell(view, all[i]).Live? then [Cell(view, all[i]).row] else []
  {
    assert all[..i + 1][..i] == all[..i];
  }

  lemma StoredFits(data: Bytes, slots: seq<Stored>, i: nat)
    requires PageOk(data, slots) && i < |slots| && slots[i].Live?
    ensures RowStorable(slots[i].row) && |Encode(slots[i].row)| <= LARGEST_FIT
  {
    assert SlotOk(data, i, slots[i], DataStart(data));
  }

  lemma {:induction false} SameSizes(row: Row, n: nat)
    requires n <= |row|
    ensures Sizes(RowAsRead(row), n) == Sizes(row, n)
    decreases n
  {
    if n > 0 {
      SameSizes(row, n - 1);
    }
  }

  /** A row that was stored can be stored again as it reads back. */
  lemma StoredStays(row: Row)
    requires RowStorable(row) && |Encode(row)| <= LARGEST_FIT
    ensures !Oversized(RowAsRead(row)) && !TooLarge(RowAsRead(row))
  {
    SameSizes(row, |row|);
    SizesIs(row, |row|);
  }

  lemma StaysCompacted(view: View, row: Row, newPage: bool)
    requires ViewOk(view) && (view == [] ==> newPage) && (!newPage ==> |view[|view| - 1]| < SLOTS_PER_PAGE - 1)
    requires Compacted(view)
    ensures Compacted(Added(view, row, newPage).0)
  {
    AddedFacts(view, row, newPage);
  }

  lemma Grows(view: View, row: Row, newPage: bool)
    requires ViewOk(view) && (view == [] ==> newPage) && (!newPage ==> |view[|view| - 1]| < SLOTS_PER_PAGE - 1)
    ensures var after := Added(view, row, newPage).0;
            && ViewOk(after) && |AllPositions(after)| == |AllPositions(view)| + 1
            && |LivePositions(after)| == |LivePositions(view)| + 1
  {
    hide LivePositions;
    AddedFacts(view, row, newPage);
    AddedLive(view, row, newPage);
  }

  lemma LiveCount(view: View, p: int)
    requires ViewOk(view) && Cell(view, p).Live?
    ensures |LivePositions(view)| > 0
  {
    hide LiveAt, Positions;
    LivePositionsAre(view);
  }

  lemma NothingToDelete(view: View, p: int)
    requires !Cell(view, p).Live?
    ensures Deleted(view, p) == view
  {
    if IsSlot(view, p) {
      var page, slot := p / SLOTS_PER_PAGE, p % SLOTS_PER_PAGE;
      assert view[page][slot := Gone] == view[page];
      assert view[page := view[page]] == view;
    }
  }

  lemma FirstOfPage(view: View, from: nat, page: nat)
    requires ViewOk(view) && from <= page < |view| && view[page] != []
    requires forall p :: from <= p < page ==> view[p] == []
    ensures FirstAfter(view, Position(from, 0) - 1, Position(page, 0))
  {
    PositionParts(page, 0);
    forall q | IsSlot(view, q) && Position(from, 0) - 1 < q ensures Position(page, 0) <= q {
      SlotOrder(view, q, from, 0);
      SlotOrder(view, q, page, 0);
    }
  }

  lemma NoMorePages(view: View, from: nat)
    requires ViewOk(view) && from <= |view| && forall p :: from <= p < |view| ==> view[p] == []
    ensures FirstAfter(view, Position(from, 0) - 1, -1)
  {
    forall q | IsSlot(view, q) ensures q <= Position(from, 0) - 1 {
      SlotOrder(view, q, from, 0);
    }
  }

  lemma NextOnPage(view: View, p: int)
    requires ViewOk(view) && IsSlot(view, p) && p % SLOTS_PER_PAGE + 1 < |view[p / SLOTS_PER_PAGE]|
    ensures FirstAfter(view, p, Position(p / SLOTS_PER_PAGE, p % SLOTS_PER_PAGE + 1))
  {
    var page, slot := p / SLOTS_PER_PAGE, p % SLOTS_PER_PAGE;
    PositionParts(page, slot + 1);
  }

  lemma NextOffPage(view: View, p: int, r: int)
    requires ViewOk(view) && IsSlot(view, p) && p % SLOTS_PER_PAGE + 1 >= |view[p / SLOTS_PER_PAGE]|
    requires FirstAfter(view, Position(p / SLOTS_PER_PAGE + 1, 0) - 1, r)
    ensures FirstAfter(view, p, r)
  {
    var page := p / SLOTS_PER_PAGE;
    forall q | IsSlot(view, q) && p < q ensures Position(page + 1, 0) <= q {
      SlotOrder(view, q, page + 1, 0);
      SlotOrder(view, q, page, p % SLOTS_PER_PAGE);
    }
  }
}
