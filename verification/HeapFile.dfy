/**
 Heaps (07_storage.c:316-488, 07_storage.c:586-834): a list of slotted pages, seen from outside
 as a map from positions to rows. `view` is that map, page by page and slot by slot.
 */
module HeapFile {
  import opened Records
  import opened SlottedPage

  type View = seq<seq<Stored>>

  // ---------- positions ----------

  function Position(page: nat, slot: nat): nat {
    page * SLOTS_PER_PAGE + slot
  }

  predicate IsSlot(view: View, p: int) {
    p >= 0 && p / SLOTS_PER_PAGE < |view| && p % SLOTS_PER_PAGE < |view[p / SLOTS_PER_PAGE]|
  }

  /** What a position holds; one that is no slot reads as deleted. */
  function Cell(view: View, p: int): Stored {
    if IsSlot(view, p) then view[p / SLOTS_PER_PAGE][p % SLOTS_PER_PAGE] else Gone
  }

  lemma PositionParts(page: nat, slot: nat)
    requires slot < SLOTS_PER_PAGE
    ensures Position(page, slot) / SLOTS_PER_PAGE == page && Position(page, slot) % SLOTS_PER_PAGE == slot
  {
  }

  ghost predicate ViewOk(view: View) {
    forall p :: 0 <= p < |view| ==> |view[p]| < SLOTS_PER_PAGE
  }

  /** The positions of the first k slots of a page. */
  ghost function PagePositions(page: nat, k: nat): seq<int> {
    if k == 0 then [] else PagePositions(page, k - 1) + [Position(page, k - 1)]
  }

  /** Every slot of the first n pages, in scan order. */
  ghost function Positions(view: View, n: nat): seq<int>
    requires n <= |view|
  {
    if n == 0 then [] else Positions(view, n - 1) + PagePositions(n - 1, |view[n - 1]|)
  }

  ghost function AllPositions(view: View): seq<int> {
    Positions(view, |view|)
  }

  lemma {:induction false} PagePositionsAre(page: nat, k: nat)
    ensures |PagePositions(page, k)| == k && forall i :: 0 <= i < k ==> PagePositions(page, k)[i] == Position(page, i)
    decreases k
  {
    if k > 0 {
      PagePositionsAre(page, k - 1);
    }
  }

  /** Scan order is ascending, and it lists the slots and nothing else. */
  lemma {:induction false} PositionsAre(view: View, n: nat)
    requires ViewOk(view) && n <= |view|
    ensures forall i, j :: 0 <= i < j < |Positions(view, n)| ==> Positions(view, n)[i] < Positions(view, n)[j]
    ensures forall p :: p in Positions(view, n) <==> IsSlot(view, p) && p / SLOTS_PER_PAGE < n
    decreases n
  {
    if n > 0 {
      PositionsAre(view, n - 1);
      var before, here := Positions(view, n - 1), PagePositions(n - 1, |view[n - 1]|);
      PagePositionsAre(n - 1, |view[n - 1]|);
      forall i | 0 <= i < |before| ensures before[i] < Position(n - 1, 0) {
        assert before[i] in before;
        BelowNextPage(before[i], n - 1);
      }
      forall p ensures p in here <==> IsSlot(view, p) && p / SLOTS_PER_PAGE == n - 1 {
        InPage(view, n - 1, p);
        if p in here {
          var i :| 0 <= i < |here| && here[i] == p;
          PositionParts(n - 1, i);
        }
        if IsSlot(view, p) && p / SLOTS_PER_PAGE == n - 1 {
          assert here[p % SLOTS_PER_PAGE] == p;
        }
      }
    }
  }

  lemma BelowNextPage(p: int, n: nat)
    requires p >= 0 && p / SLOTS_PER_PAGE < n
    ensures p < Position(n, 0)
  {
  }

  lemma InPage(view: View, n: nat, p: int)
    requires n < |view|
    ensures IsSlot(view, p) && p / SLOTS_PER_PAGE == n ==> p == Position(n, p % SLOTS_PER_PAGE) && p % SLOTS_PER_PAGE < |view[n]|
  {
  }

  // ---------- what operations do to a view ----------

  /** A row added behind the last one, on the last page or on a new one. */
  function Added(view: View, row: Row, newPage: bool): (View, int)
    requires view == [] ==> newPage
  {
    if newPage then (view + [[Live(row)]], Position(|view|, 0))
    else
      var last := |view| - 1;
      (view[last := view[last] + [Live(row)]], Position(last, |view[last]|))
  }

  /** A tombstone where the row was; nothing at all where there was none. */
  function Deleted(view: View, p: int): View {
    if IsSlot(view, p)
    then
      var page, slot := p / SLOTS_PER_PAGE, p % SLOTS_PER_PAGE;
      view[page := view[page][slot := Gone]]
    else view
  }

  /** Inserting returns a new position, puts the row there, and changes no other. */
  lemma AddedFacts(view: View, row: Row, newPage: bool)
    requires ViewOk(view) && (view == [] ==> newPage) && (!newPage ==> |view[|view| - 1]| < SLOTS_PER_PAGE - 1)
    ensures var (after, at) := Added(view, row, newPage);
            && ViewOk(after) && !IsSlot(view, at) && IsSlot(after, at) && Cell(after, at) == Live(row)
            && (forall p :: p != at ==> IsSlot(after, p) == IsSlot(view, p) && Cell(after, p) == Cell(view, p))
            && AllPositions(after) == AllPositions(view) + [at]
  {
    var (after, at) := Added(view, row, newPage);
    var page := if newPage then |view| else |view| - 1;
    var slot := if newPage then 0 else |view[page]|;
    PositionParts(page, slot);
    forall p | p != at ensures IsSlot(after, p) == IsSlot(view, p) && Cell(after, p) == Cell(view, p) {
      if p >= 0 && p / SLOTS_PER_PAGE == page {
        InPage(after, page, p);
      }
    }
    AddedPositions(view, row, newPage);
  }

  lemma AddedPositions(view: View, row: Row, newPage: bool)
    requires ViewOk(view) && (view == [] ==> newPage)
    ensures var (after, at) := Added(view, row, newPage);
            AllPositions(after) == AllPositions(view) + [at]
  {
    var (after, at) := Added(view, row, newPage);
    if newPage {
      PositionsSame(view, after, |view|);
      PagePositionsAre(|view|, 1);
      assert PagePositions(|view|, 1) == [at];
    } else {
      PositionsSame(view, after, |view| - 1);
    }
  }

  lemma {:induction false} PositionsSame(a: View, b: View, n: nat)
    requires n <= |a| && n <= |b| && forall p :: 0 <= p < n ==> |a[p]| == |b[p]|
    ensures Positions(a, n) == Positions(b, n)
    decreases n
  {
    if n > 0 {
      PositionsSame(a, b, n - 1);
    }
  }

  /** Deleting empties one position and keeps every slot where it is. */
  lemma DeletedFacts(view: View, at: int)
    requires ViewOk(view)
    ensures var after := Deleted(view, at);
            && ViewOk(after) && Cell(after, at) == Gone && AllPositions(after) == AllPositions(view)
            && (forall p :: IsSlot(after, p) == IsSlot(view, p))
            && (forall p :: p != at ==> Cell(after, p) == Cell(view, p))
  {
    var after := Deleted(view, at);
    PositionsSame(view, after, |view|);
    forall p | p != at ensures Cell(after, p) == Cell(view, p) {
      if IsSlot(view, at) && IsSlot(view, p) && p / SLOTS_PER_PAGE == at / SLOTS_PER_PAGE {
        InPage(view, p / SLOTS_PER_PAGE, p);
        InPage(view, p / SLOTS_PER_PAGE, at);
      }
    }
  }

  /** The live rows at some positions, in order. */
  ghost function LiveAt(view: View, positions: seq<int>): seq<int> {
    if positions == [] then []
    else
      var last := positions[|positions| - 1];
      LiveAt(view, positions[..|positions| - 1]) + if Cell(view, last).Live? then [last] else []
  }

  ghost function LivePositions(view: View): seq<int> {
    LiveAt(view, AllPositions(view))
  }

  ghost function RowsAt(view: View, positions: seq<int>): seq<Row> {
    if positions == [] then []
    else
      var last := positions[|positions| - 1];
      RowsAt(view, positions[..|positions| - 1]) + if Cell(view, last).Live? then [Cell(view, last).row] else []
  }

  /** The table's rows, in scan order. */
  ghost function LiveRows(view: View): seq<Row> {
    RowsAt(view, AllPositions(view))
  }

  // ---------- walking the slots ----------

  function AtOrEnd(positions: seq<int>, i: nat): int {
    if i < |positions| then positions[i] else -1
  }

  /** r is the first slot past p, or -1 when there is none. */
  ghost predicate FirstAfter(view: View, p: int, r: int) {
    if r < 0 then r == -1 && forall q :: IsSlot(view, q) ==> q <= p
    else IsSlot(view, r) && p < r && forall q :: IsSlot(view, q) && p < q ==> r <= q
  }

  lemma FirstAfterIsNext(view: View, i: int, r: int)
    requires ViewOk(view) && -1 <= i < |AllPositions(view)|
    requires FirstAfter(view, if i < 0 then -1 else AllPositions(view)[i], r)
    ensures r == AtOrEnd(AllPositions(view), i + 1)
  {
    var all := AllPositions(view);
    hide Positions, IsSlot;
    SlotsListed(view);
    if i + 1 < |all| {
      assert all[i + 1] in all;
      if r >= 0 {
        assert r in all;
        var j :| 0 <= j < |all| && all[j] == r;
        assert j > i;
      }
    } else if i >= 0 {
      forall q | IsSlot(view, q) ensures q <= all[i] {
        assert q in all;
      }
    } else {
      assert all == [];
    }
  }

  lemma AtEnd(view: View, i: nat)
    requires ViewOk(view)
    ensures AtOrEnd(AllPositions(view), i) >= 0 <==> i < |AllPositions(view)|
  {
    SlotsListed(view);
    var all := AllPositions(view);
    if i < |all| {
      assert all[i] in all;
    }
  }

  lemma SlotsListed(view: View)
    requires ViewOk(view)
    ensures forall i, j :: 0 <= i < j < |AllPositions(view)| ==> AllPositions(view)[i] < AllPositions(view)[j]
    ensures forall p :: p in AllPositions(view) <==> IsSlot(view, p)
    ensures forall p :: IsSlot(view, p) ==> p >= 0
  {
    PositionsAre(view, |view|);
  }

  /** Slots of pages before `page` lie below its first position. */
  lemma SlotOrder(view: View, p: int, page: nat, slot: nat)
    requires ViewOk(view) && IsSlot(view, p) && slot < SLOTS_PER_PAGE
    ensures p / SLOTS_PER_PAGE < page ==> p < Position(page, slot)
    ensures p / SLOTS_PER_PAGE > page ==> p > Position(page, slot)
    ensures p / SLOTS_PER_PAGE == page ==> (p < Position(page, slot) <==> p % SLOTS_PER_PAGE < slot)
    ensures p == Position(page, slot) <==> p / SLOTS_PER_PAGE == page && p % SLOTS_PER_PAGE == slot
  {
  }

  // ---------- rows in scan order ----------

  lemma {:induction false} RowsAtSame(a: View, b: View, positions: seq<int>)
    requires forall i :: 0 <= i < |positions| ==> Cell(a, positions[i]) == Cell(b, positions[i])
    ensures RowsAt(a, positions) == RowsAt(b, positions)
  {
    if positions != [] {
      RowsAtSame(a, b, positions[..|positions| - 1]);
    }
  }

  /** An inserted row comes last in the scan. */
  lemma AddedRows(view: View, row: Row, newPage: bool)
    requires ViewOk(view) && (view == [] ==> newPage) && (!newPage ==> |view[|view| - 1]| < SLOTS_PER_PAGE - 1)
    ensures LiveRows(Added(view, row, newPage).0) == LiveRows(view) + [row]
  {
    hide Positions, IsSlot, Cell, Added, ViewOk;
    AddedFacts(view, row, newPage);
    SlotsListed(view);
    var (after, at) := Added(view, row, newPage);
    var all := AllPositions(view);
    forall i | 0 <= i < |all| ensures Cell(after, all[i]) == Cell(view, all[i]) {
      assert all[i] in all;
    }
    RowsAtSame(view, after, all);
    assert (all + [at])[..|all|] == all;
  }

  /** No tombstones: the heap VACUUM leaves. */
  ghost predicate Compacted(view: View) {
    forall p :: IsSlot(view, p) ==> Cell(view, p).Live?
  }

  /** A scan lists every live position, once, in ascending order. */
  lemma {:induction false} LiveAtIs(view: View, positions: seq<int>)
    requires forall i, j :: 0 <= i < j < |positions| ==> positions[i] < positions[j]
    ensures forall i, j :: 0 <= i < j < |LiveAt(view, positions)| ==> LiveAt(view, positions)[i] < LiveAt(view, positions)[j]
    ensures forall p :: p in LiveAt(view, positions) <==> p in positions && Cell(view, p).Live?
  {
    hide Cell;
    if positions != [] {
      var front, last := positions[..|positions| - 1], positions[|positions| - 1];
      LiveAtIs(view, front);
      assert positions == front + [last];
      var before := LiveAt(view, front);
      forall i | 0 <= i < |before| ensures before[i] < last {
        assert before[i] in before;
      }
    }
  }

  lemma LivePositionsAre(view: View)
    requires ViewOk(view)
    ensures forall i, j :: 0 <= i < j < |LivePositions(view)| ==> LivePositions(view)[i] < LivePositions(view)[j]
    ensures forall p :: p in LivePositions(view) <==> Cell(view, p).Live?
  {
    hide IsSlot, LiveAt;
    SlotsListed(view);
    LiveAtIs(view, AllPositions(view));
    forall p | Cell(view, p).Live? ensures IsSlot(view, p) {
      LiveIsSlot(view, p);
    }
  }

  lemma LiveIsSlot(view: View, p: int)
    requires Cell(view, p).Live?
    ensures IsSlot(view, p)
  {
  }

  // ---------- how many rows are live ----------

  lemma {:induction false} LiveAtSame(a: View, b: View, positions: seq<int>)
    requires forall i :: 0 <= i < |positions| ==> Cell(a, positions[i]).Live? == Cell(b, positions[i]).Live?
    ensures LiveAt(a, positions) == LiveAt(b, positions)
  {
    if positions != [] {
      LiveAtSame(a, b, positions[..|positions| - 1]);
    }
  }

  /** One more row is live after an insertion. */
  lemma AddedLive(view: View, row: Row, newPage: bool)
    requires ViewOk(view) && (view == [] ==> newPage) && (!newPage ==> |view[|view| - 1]| < SLOTS_PER_PAGE - 1)
    ensures |LivePositions(Added(view, row, newPage).0)| == |LivePositions(view)| + 1
  {
    hide Positions, IsSlot, Cell, Added, ViewOk;
    AddedFacts(view, row, newPage);
    SlotsListed(view);
    var (after, at) := Added(view, row, newPage);
    var all := AllPositions(view);
    forall i | 0 <= i < |all| ensures Cell(after, all[i]) == Cell(view, all[i]) {
      assert all[i] in all;
    }
    LiveAtSame(view, after, all);
    assert (all + [at])[..|all|] == all;
  }

  lemma {:induction false} LiveAtDrops(a: View, b: View, positions: seq<int>, at: int)
    requires forall i, j :: 0 <= i < j < |positions| ==> positions[i] < positions[j]
    requires at in positions && Cell(a, at).Live? && Cell(b, at) == Gone
    requires forall p :: p != at ==> Cell(b, p) == Cell(a, p)
    ensures |LiveAt(b, positions)| == |LiveAt(a, positions)| - 1
  {
    hide Cell;
    var front, last := positions[..|positions| - 1], positions[|positions| - 1];
    assert positions == front + [last];
    if last == at {
      LiveAtSame(a, b, front);
    } else {
      LiveAtDrops(a, b, front, at);
    }
  }

  /** One fewer after a deletion that found a row. */
  lemma DeletedLive(view: View, at: int)
    requires ViewOk(view) && Cell(view, at).Live?
    ensures |LivePositions(Deleted(view, at))| == |LivePositions(view)| - 1
  {
    hide Positions, IsSlot, Deleted, ViewOk;
    DeletedFacts(view, at);
    SlotsListed(view);
    LiveIsSlot(view, at);
    LiveAtDrops(view, Deleted(view, at), AllPositions(view), at);
  }
}
