/**
 A table: its heap and the indexes on it, and the statements that change them
 (06_executor.c:743-851, 06_executor.c:1036-1063, 06_executor.c:1236-1380). Every statement
 keeps every index in agreement with the heap.
 */
module Tables {
  import opened Common
  import opened Values
  import opened IndexKeys
  import opened BTree
  import opened BTreePages
  import opened IndexTree
  import opened SlottedPage
  import opened HeapFile
  import opened HeapStore
  import opened Agreement

  /** An index and the column it is on. */
  datatype TableIndex = TableIndex(index: Index, slot: nat)

  /** The index objects of a table, for frames. */
  ghost function IndexObjects(indexes: seq<TableIndex>): (objects: set<Index>)
    ensures forall k :: 0 <= k < |indexes| ==> indexes[k].index in objects
  {
    if indexes == [] then {} else IndexObjects(indexes[..|indexes| - 1]) + {indexes[|indexes| - 1].index}
  }

  /** The pages of a tree, each once. */
  ghost predicate Owned(t: Tree, pages: seq<nat>) {
    Distinct(pages) && forall p: nat :: p in pages <==> Has(t, p)
  }

  ghost predicate DistinctIndexes(indexes: seq<TableIndex>) {
    forall j, k :: 0 <= j < k < |indexes| ==> indexes[j].index != indexes[k].index
  }

  class Table {
    const kinds: seq<ColType>
    const heap: Heap
    var indexes: seq<TableIndex>

    ghost predicate Valid()
      reads this, heap, heap.pages, IndexObjects(indexes)
    {
      && heap.Valid() && |kinds| <= MAX_COLS && RowsTyped(heap.view, kinds)
      && DistinctIndexes(indexes)
      && (forall k :: 0 <= k < |indexes| ==> IndexAgrees(indexes[k], heap.view))
    }

    constructor (columns: seq<ColType>)
      requires |columns| <= MAX_COLS
      ensures Valid() && heap.view == [] && indexes == [] && kinds == columns
    {
      kinds := columns;
      heap := new Heap();
      indexes := [];
    }

    /** indexInsertRow: the new row into every index; `was` is the heap before it was stored. */
    method IndexRow(row: Row, position: int, ghost was: View, ghost newPage: bool)
      requires RowTyped(row, kinds) && DistinctIndexes(indexes)
      requires Appendable(was, newPage) && (heap.view, position) == Added(was, row, newPage)
      requires forall k :: 0 <= k < |indexes| ==> IndexAgrees(indexes[k], was)
      modifies IndexObjects(indexes)
      ensures forall k :: 0 <= k < |indexes| ==> IndexAgrees(indexes[k], heap.view)
    {
      hide IndexAgrees, Added, RowTyped, Appendable;
      for n := 0 to |indexes|
        invariant forall k :: 0 <= k < n ==> IndexAgrees(indexes[k], heap.view)
        invariant forall k :: n <= k < |indexes| ==> IndexAgrees(indexes[k], was)
      {
        AddToIndex(indexes[n], row, position, was, newPage);
      }
    }

    method AddToIndex(ix: TableIndex, row: Row, position: int, ghost was: View, ghost newPage: bool)
      requires RowTyped(row, kinds) && Appendable(was, newPage) && position == Added(was, row, newPage).1
      requires IndexAgrees(ix, was)
      modifies ix.index
      ensures IndexAgrees(ix, Added(was, row, newPage).0)
    {
      hide ViewOk, Added, Agrees, InsertSorted, MakeKey;
      InsertAgrees(was, ix.slot, Entries(ix.index.tree), row, newPage);
      ix.index.Add(row[ix.slot], position);
    }

    /** What an index on this table keeps true, for a given state of the heap. */
    ghost predicate IndexAgrees(ix: TableIndex, view: View)
      reads ix.index
    {
      && ix.slot < |kinds| && ix.index.text == kinds[ix.slot].TextType?
      && ix.index.Valid() && Agrees(view, ix.slot, Entries(ix.index.tree))
    }

    /** Stores a row and indexes it, or refuses it whole. */
    method Store(row: Row) returns (ok: bool, position: int, newPage: bool)
      requires Valid() && RowTyped(row, kinds)
      modifies heap, heap.pages, IndexObjects(indexes)
      ensures ok == !TooLarge(row) && (Valid() <==> !Oversized(row))
      ensures old(heap.pages) <= heap.pages && forall p :: |old(heap.pages)| <= p < |heap.pages| ==> fresh(heap.pages[p])
      ensures !ok ==> heap.view == old(heap.view)
      ensures ok ==> Appendable(old(heap.view), newPage) && (heap.view, position) == Added(old(heap.view), row, newPage)
    {
      hide Added, ViewOk, Cell, IndexAgrees;
      ghost var was := heap.view;
      ok, position, newPage := heap.Insert(row);
      if ok {
        AddedTyped(was, row, newPage, kinds);
        IndexRow(row, position, was, newPage);
      }
    }

    /** heapMarkDeleted, with the indexes left as they are. */
    method Retire(position: int)
      requires Valid()
      modifies heap, heap.pages
      ensures Valid() && heap.view == Deleted(old(heap.view), position) && heap.pages == old(heap.pages)
    {
      hide Deleted, ViewOk, Cell, RowTyped;
      ghost var was := heap.view;
      heap.MarkDeleted(position);
      DeletedTyped(was, position, kinds);
      forall k | 0 <= k < |indexes| ensures IndexAgrees(indexes[k], heap.view) {
        assert IndexAgrees(indexes[k], was);
        DeleteAgrees(was, indexes[k].slot, Entries(indexes[k].index.tree), position);
      }
    }

    /** An empty index filled from the rows already there, as CREATE INDEX and rebuildIndexes fill one. */
    method FillIndex(index: Index, slot: nat)
      requires heap.Valid() && RowsTyped(heap.view, kinds) && slot < |kinds|
      requires index.Valid() && index.text == kinds[slot].TextType? && Entries(index.tree) == []
      modifies index
      ensures IndexAgrees(TableIndex(index, slot), heap.view)
    {
      hide Cell, AllPositions, Agrees, AgreesTo, RowsTyped, IndexOk, ViewOk, Entries, PageOk;
      ghost var all, i := AllPositions(heap.view), 0;
      NothingAgrees(heap.view, slot);
      var position := heap.First();
      while position >= 0
        invariant i <= |all| && position == AtOrEnd(all, i)
        invariant index.Valid() && AgreesTo(heap.view, slot, Entries(index.tree), i)
        decreases |all| - i
      {
        AtEnd(heap.view, i);
        IndexSlot(index, slot, position, i);
        position := heap.Next(position, i);
        i := i + 1;
      }
      AtEnd(heap.view, i);
      AllAgrees(heap.view, slot, Entries(index.tree));
    }

    /** One slot of that: an entry for a live row with a key, nothing for any other. */
    method IndexSlot(index: Index, slot: nat, position: int, ghost i: nat)
      requires heap.Valid() && RowsTyped(heap.view, kinds) && slot < |kinds|
      requires i < |AllPositions(heap.view)| && AllPositions(heap.view)[i] == position
      requires index.Valid() && index.text == kinds[slot].TextType? && AgreesTo(heap.view, slot, Entries(index.tree), i)
      modifies index
      ensures index.Valid() && AgreesTo(heap.view, slot, Entries(index.tree), i + 1)
    {
      hide Cell, AllPositions, AgreesTo, InsertSorted, MakeKey, IndexOk, ViewOk, Entries, PageOk;
      var cell := heap.ReadAt(position);
      StepAgrees(heap.view, slot, Entries(index.tree), i);
      if cell.Live? {
        ReadTyped(heap.view, kinds, position, slot);
        index.Add(cell.row[slot], position);
      }
    }

    /** CREATE INDEX. */
    method CreateIndex(slot: nat)
      requires Valid() && slot < |kinds|
      modifies this`indexes
      ensures Valid() && |indexes| == |old(indexes)| + 1 && indexes[..|old(indexes)|] == old(indexes)
      ensures indexes[|old(indexes)|].slot == slot && fresh(indexes[|old(indexes)|].index)
    {
      hide IndexAgrees;
      var index := new Index(kinds[slot].TextType?);
      FillIndex(index, slot);
      ghost var given := indexes;
      indexes := indexes + [TableIndex(index, slot)];
      assert forall k :: 0 <= k < |given| ==> indexes[k] == given[k] && indexes[k].index != index;
      assert IndexAgrees(indexes[|given|], heap.view);
    }

    /** rebuildIndexes: every index emptied, its pages given back, and filled again from the live rows. */
    method RebuildIndexes() returns (freed: seq<seq<nat>>)
      requires heap.Valid() && RowsTyped(heap.view, kinds) && DistinctIndexes(indexes)
      requires forall k :: 0 <= k < |indexes| ==> IndexTyped(indexes[k])
      modifies IndexObjects(indexes)
      ensures forall k :: 0 <= k < |indexes| ==> IndexAgrees(indexes[k], heap.view)
      ensures |freed| == |indexes| && forall k :: 0 <= k < |indexes| ==> Owned(old(indexes[k].index.tree), freed[k])
    {
      hide IndexAgrees, IndexTyped, RowsTyped, PageOk, ViewOk, AllPositions, Owned;
      freed := [];
      for n := 0 to |indexes|
        invariant forall k :: 0 <= k < n ==> IndexAgrees(indexes[k], heap.view)
        invariant forall k :: n <= k < |indexes| ==> IndexTyped(indexes[k]) && indexes[k].index.tree == old(indexes[k].index.tree)
        invariant |freed| == n && forall k :: 0 <= k < n ==> Owned(old(indexes[k].index.tree), freed[k])
      {
        var given := RebuildIndex(indexes[n]);
        freed := freed + [given];
      }
    }

    method RebuildIndex(ix: TableIndex) returns (freed: seq<nat>)
      requires heap.Valid() && RowsTyped(heap.view, kinds) && IndexTyped(ix)
      modifies ix.index
      ensures IndexAgrees(ix, heap.view) && Owned(old(ix.index.tree), freed)
    {
      hide Agrees, RowsTyped, PageOk, ViewOk, AllPositions, IndexOk, Entries;
      freed := ix.index.Clear();
      FillIndex(ix.index, ix.slot);
    }

    /** An index of this table, whatever the heap holds. */
    ghost predicate IndexTyped(ix: TableIndex)
      reads ix.index
    {
      ix.slot < |kinds| && ix.index.text == kinds[ix.slot].TextType? && ix.index.Valid()
    }

    /** VACUUM: the heap compacted, and the indexes rebuilt because every position has moved. */
    method Vacuum() returns (reclaimed: int)
      requires Valid()
      modifies heap, IndexObjects(indexes)
      ensures Valid() && Compacted(heap.view) && LiveRows(heap.view) == AllAsRead(old(LiveRows(heap.view)))
      ensures heap.nslots == heap.nlive == old(heap.nlive) && reclaimed == old(heap.nslots) - old(heap.nlive)
    {
      hide RowsTyped, Compacted, ViewOk, PageOk, LiveRows, Agrees, AllPositions;
      ghost var was := heap.view;
      reclaimed := heap.Compact();
      CompactedTyped(was, heap.view, kinds);
      var freed := RebuildIndexes();
    }
  }

  /** What a scan reads at a slot agrees with what is stored there, as far as an index cares. */
  lemma ReadTyped(view: View, kinds: seq<ColType>, p: int, slot: nat)
    requires RowsTyped(view, kinds) && slot < |kinds| && Cell(view, p).Live?
    ensures var row := Cell(view, p).row;
            && |row| == |kinds| && (Keyed(view, slot, p) <==> !row[slot].Null?)
            && (!row[slot].Null? ==> Records.RowAsRead(row)[slot] == row[slot] && TypeOf(row[slot]) == kinds[slot])
            && (row[slot].Null? ==> Records.RowAsRead(row)[slot].Null?)
  {
    assert RowTyped(Cell(view, p).row, kinds);
  }

  lemma {:induction false} RowsAtHas(view: View, positions: seq<int>, row: Row)
    ensures row in RowsAt(view, positions)
       <==> exists i :: 0 <= i < |positions| && Cell(view, positions[i]) == Live(row)
  {
    hide Cell;
    if positions != [] {
      var front, last := positions[..|positions| - 1], positions[|positions| - 1];
      RowsAtHas(view, front, row);
      if i :| 0 <= i < |front| && Cell(view, front[i]) == Live(row) {
        assert positions[i] == front[i];
      }
      if i :| 0 <= i < |positions| && Cell(view, positions[i]) == Live(row) {
        assert i < |front| ==> front[i] == positions[i];
      }
    }
  }

  lemma CompactedTyped(was: View, view: View, kinds: seq<ColType>)
    requires ViewOk(was) && ViewOk(view) && RowsTyped(was, kinds) && LiveRows(view) == AllAsRead(LiveRows(was))
    ensures RowsTyped(view, kinds)
  {
    hide RowsAt, IsSlot;
    forall p | Cell(view, p).Live? ensures RowTyped(Cell(view, p).row, kinds) {
      var row := Cell(view, p).row;
      SlotsListed(view);
      assert IsSlot(view, p) by { LiveIsSlot(view, p); }
      var i :| 0 <= i < |AllPositions(view)| && AllPositions(view)[i] == p;
      assert Cell(view, AllPositions(view)[i]) == Live(row);
      RowsAtHas(view, AllPositions(view), row);
      var k :| 0 <= k < |LiveRows(view)| && LiveRows(view)[k] == row;
      var from := LiveRows(was)[k];
      RowsAtHas(was, AllPositions(was), from);
      var j :| 0 <= j < |AllPositions(was)| && Cell(was, AllPositions(was)[j]) == Live(from);
      assert RowTyped(from, kinds);
      assert row == Records.RowAsRead(from);
    }
  }

  lemma AddedTyped(view: View, row: Row, newPage: bool, kinds: seq<ColType>)
    requires Appendable(view, newPage) && RowsTyped(view, kinds) && RowTyped(row, kinds)
    ensures RowsTyped(Added(view, row, newPage).0, kinds)
  {
    hide Added, RowTyped, IsSlot;
    AddedFacts(view, row, newPage);
  }

  lemma DeletedTyped(view: View, at: int, kinds: seq<ColType>)
    requires ViewOk(view) && RowsTyped(view, kinds)
    ensures RowsTyped(Deleted(view, at), kinds)
  {
    hide Deleted, RowTyped, IsSlot;
    DeletedFacts(view, at);
  }

  /** What heapInsert promises of the heap it adds to. */
  ghost predicate Appendable(view: View, newPage: bool) {
    ViewOk(view) && (view == [] ==> newPage) && (!newPage ==> |view[|view| - 1]| < SLOTS_PER_PAGE - 1)
  }
}
