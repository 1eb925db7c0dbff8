/**
 What an index has to do with its heap: every live row with a key has one entry, under the key
 it has now; every other entry points at a tombstone; and there are never more entries than
 slots. Stated over the heap's view and the entries of the tree.
 */
module Agreement {
  import opened Values
  import opened IndexKeys
  import opened BTree
  import opened SlottedPage
  import opened HeapFile

  type Row = seq<Value>

  ghost predicate RowTyped(row: Row, kinds: seq<ColType>) {
    |row| == |kinds| && forall c :: 0 <= c < |row| ==> row[c].Null? || TypeOf(row[c]) == kinds[c]
  }

  /** Every live row has every column, with values of the columns' types. */
  ghost predicate RowsTyped(view: View, kinds: seq<ColType>) {
    forall p :: Cell(view, p).Live? ==> RowTyped(Cell(view, p).row, kinds)
  }

  /** An entry names a slot, and carries that row's key if the row is live. */
  ghost predicate EntryOk(view: View, slot: nat, e: Entry) {
    && IsSlot(view, e.payload)
    && (Cell(view, e.payload).Live? ==>
          var row := Cell(view, e.payload).row;
          slot < |row| && !row[slot].Null? && e.key == MakeKey(row[slot]))
  }

  ghost predicate HasEntry(entries: seq<Entry>, p: int) {
    exists i :: 0 <= i < |entries| && entries[i].payload == p
  }

  ghost predicate Keyed(view: View, slot: nat, p: int) {
    Cell(view, p).Live? && slot < |Cell(view, p).row| && !Cell(view, p).row[slot].Null?
  }

  ghost predicate OnePerSlot(entries: seq<Entry>) {
    forall i, j :: 0 <= i < j < |entries| ==> entries[i].payload != entries[j].payload
  }

  ghost predicate Agrees(view: View, slot: nat, entries: seq<Entry>) {
    && OnePerSlot(entries)
    && (forall i :: 0 <= i < |entries| ==> EntryOk(view, slot, entries[i]))
    && (forall p :: Keyed(view, slot, p) ==> HasEntry(entries, p))
  }

  // ---------- entries are never more than slots ----------

  ghost function Payloads(entries: seq<Entry>): (s: set<int>)
    ensures forall p :: p in s <==> HasEntry(entries, p)
  {
    if entries == [] then {}
    else
      var front, last := entries[..|entries| - 1], entries[|entries| - 1];
      assert forall p :: HasEntry(entries, p) <==> HasEntry(front, p) || p == last.payload by { HasEntryLast(entries); }
      Payloads(front) + {last.payload}
  }

  lemma HasEntryLast(entries: seq<Entry>)
    requires entries != []
    ensures forall p :: HasEntry(entries, p) <==> HasEntry(entries[..|entries| - 1], p) || p == entries[|entries| - 1].payload
  {
    var front, last := entries[..|entries| - 1], entries[|entries| - 1];
    forall p ensures HasEntry(entries, p) <==> HasEntry(front, p) || p == last.payload {
      if HasEntry(front, p) {
        var i :| 0 <= i < |front| && front[i].payload == p;
        assert entries[i].payload == p;
      }
      if HasEntry(entries, p) && p != last.payload {
        var i :| 0 <= i < |entries| && entries[i].payload == p;
        assert front[i].payload == p;
      }
    }
  }

  lemma {:induction false} PayloadsCount(entries: seq<Entry>)
    requires OnePerSlot(entries)
    ensures |Payloads(entries)| == |entries|
  {
    if entries != [] {
      var front, last := entries[..|entries| - 1], entries[|entries| - 1];
      PayloadsCount(front);
      assert last.payload !in Payloads(front);
    }
  }

  ghost function ToSet(s: seq<int>): (r: set<int>)
    ensures forall p :: p in r <==> p in s
  {
    if s == [] then {} else ToSet(s[..|s| - 1]) + {s[|s| - 1]}
  }

  lemma {:induction false} ToSetCount(s: seq<int>)
    ensures |ToSet(s)| <= |s|
  {
    if s != [] {
      ToSetCount(s[..|s| - 1]);
    }
  }

  lemma SubsetCount(a: set<int>, b: set<int>)
    requires a <= b
    ensures |a| <= |b|
  {
    assert b == a + (b - a);
  }

  /** Which is what makes an answer buffer of heapSlots entries always large enough. */
  lemma EntriesFitSlots(view: View, slot: nat, entries: seq<Entry>)
    requires ViewOk(view) && Agrees(view, slot, entries)
    ensures |entries| <= |AllPositions(view)|
  {
    PayloadsCount(entries);
    SlotsListed(view);
    forall p | p in Payloads(entries) ensures p in ToSet(AllPositions(view)) {
      var i :| 0 <= i < |entries| && entries[i].payload == p;
      assert EntryOk(view, slot, entries[i]);
    }
    SubsetCount(Payloads(entries), ToSet(AllPositions(view)));
    ToSetCount(AllPositions(view));
  }

  // ---------- inserting ----------

  lemma InsertedEntries(entries: seq<Entry>, e: Entry)
    ensures var grown := InsertSorted(entries, e);
            && (forall i :: 0 <= i < |grown| ==> grown[i] == e || grown[i] in entries)
            && (forall p :: HasEntry(grown, p) <==> HasEntry(entries, p) || p == e.payload)
    ensures OnePerSlot(entries) && !HasEntry(entries, e.payload) ==> OnePerSlot(InsertSorted(entries, e))
  {
    hide Rank, LowerBound;
    var at, grown := LowerBound(Keys(entries), Rank(e.key)), InsertSorted(entries, e);
    forall p ensures HasEntry(grown, p) <==> HasEntry(entries, p) || p == e.payload {
      if HasEntry(entries, p) {
        var i :| 0 <= i < |entries| && entries[i].payload == p;
        assert grown[if i < at then i else i + 1].payload == p;
      }
      assert grown[at].payload == e.payload;
    }
  }

  /** Entries untouched by an insertion into the heap stay right. */
  lemma EntryStays(view: View, after: View, slot: nat, e: Entry, at: int)
    requires EntryOk(view, slot, e) && e.payload != at
    requires IsSlot(after, e.payload) == IsSlot(view, e.payload) && Cell(after, e.payload) == Cell(view, e.payload)
    ensures EntryOk(after, slot, e)
  {
  }

  /** A row and its entry go in together. */
  lemma InsertAgrees(view: View, slot: nat, entries: seq<Entry>, row: Row, newPage: bool)
    requires ViewOk(view) && (view == [] ==> newPage) && (!newPage ==> |view[|view| - 1]| < SLOTS_PER_PAGE - 1)
    requires Agrees(view, slot, entries) && slot < |row|
    ensures var (after, at) := Added(view, row, newPage);
            Agrees(after, slot, if row[slot].Null? then entries else InsertSorted(entries, Entry(MakeKey(row[slot]), at)))
  {
    hide IsSlot, Cell, Added, ViewOk, InsertSorted, MakeKey, AllPositions;
    var (after, at) := Added(view, row, newPage);
    AddedFacts(view, row, newPage);
    var e := Entry(MakeKey(row[slot]), at);
    InsertedEntries(entries, e);
    assert !HasEntry(entries, at);
    var grown := if row[slot].Null? then entries else InsertSorted(entries, e);
    forall i | 0 <= i < |grown| ensures EntryOk(after, slot, grown[i]) {
      if grown[i] in entries {
        var j :| 0 <= j < |entries| && entries[j] == grown[i];
        assert EntryOk(view, slot, entries[j]);
        EntryStays(view, after, slot, grown[i], at);
      }
    }
    forall p | Keyed(after, slot, p) ensures HasEntry(grown, p) {
      if p != at {
        assert Keyed(view, slot, p);
      }
    }
  }

  /** A tombstone may keep its entry. */
  lemma DeleteAgrees(view: View, slot: nat, entries: seq<Entry>, at: int)
    requires ViewOk(view) && Agrees(view, slot, entries)
    ensures Agrees(Deleted(view, at), slot, entries)
  {
    hide IsSlot, Cell, Deleted, ViewOk, MakeKey, AllPositions;
    DeletedFacts(view, at);
    var after := Deleted(view, at);
    forall i | 0 <= i < |entries| ensures EntryOk(after, slot, entries[i]) {
      assert EntryOk(view, slot, entries[i]);
    }
    forall p | Keyed(after, slot, p) ensures HasEntry(entries, p) {
      assert Keyed(view, slot, p);
    }
  }

  // ---------- building an index over what is there ----------

  /** Agreement as far as the first n slots, with nothing from beyond them. */
  ghost predicate AgreesTo(view: View, slot: nat, entries: seq<Entry>, n: nat)
    requires n <= |AllPositions(view)|
  {
    && OnePerSlot(entries)
    && (forall i :: 0 <= i < |entries| ==> EntryOk(view, slot, entries[i]) && entries[i].payload in AllPositions(view)[..n])
    && (forall p :: p in AllPositions(view)[..n] && Keyed(view, slot, p) ==> HasEntry(entries, p))
  }

  lemma NothingAgrees(view: View, slot: nat)
    ensures AgreesTo(view, slot, [], 0)
  {
    assert AllPositions(view)[..0] == [];
  }

  lemma StepAgrees(view: View, slot: nat, entries: seq<Entry>, n: nat)
    requires ViewOk(view) && n < |AllPositions(view)| && AgreesTo(view, slot, entries, n)
    ensures var p := AllPositions(view)[n];
            AgreesTo(view, slot, if Keyed(view, slot, p) then InsertSorted(entries, Entry(MakeKey(Cell(view, p).row[slot]), p))
                                 else entries, n + 1)
  {
    hide IsSlot, Cell, ViewOk, InsertSorted, MakeKey, AllPositions;
    var all := AllPositions(view);
    var p := all[n];
    SlotsListed(view);
    assert p in all;
    assert all[..n + 1] == all[..n] + [p];
    assert p !in all[..n];
    assert !HasEntry(entries, p);
    if Keyed(view, slot, p) {
      var e := Entry(MakeKey(Cell(view, p).row[slot]), p);
      InsertedEntries(entries, e);
      var grown := InsertSorted(entries, e);
      forall i | 0 <= i < |grown| ensures EntryOk(view, slot, grown[i]) && grown[i].payload in all[..n + 1] {
        if grown[i] in entries {
          var j :| 0 <= j < |entries| && entries[j] == grown[i];
        }
      }
    }
  }

  lemma AllAgrees(view: View, slot: nat, entries: seq<Entry>)
    requires ViewOk(view) && AgreesTo(view, slot, entries, |AllPositions(view)|)
    ensures Agrees(view, slot, entries)
  {
    hide AllPositions;
    SlotsListed(view);
    var all := AllPositions(view);
    assert all[..|all|] == all;
    forall p | Keyed(view, slot, p) ensures HasEntry(entries, p) {
      assert p in all;
    }
  }
}
