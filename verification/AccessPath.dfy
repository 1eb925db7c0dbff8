/**
 collectRows (06_executor.c:1071-1186): the positions of the rows a condition accepts, found
 through an index, through a LIKE prefix, or by scanning. Whichever it is, the answer is the
 live rows whose fully decoded values make the condition TRUE, each of them once.
 */
module AccessPath {
  import opened Common
  import opened Values
  import opened LikePatterns
  import opened Conditions
  import opened IndexKeys
  import opened BTree
  import opened IndexTree
  import opened IndexScan
  import opened SlottedPage
  import opened HeapFile
  import opened Agreement
  import opened Tables

  datatype Where = Everything | Where(cond: Condition, root: int)

  /** What the semantic stage has checked: columns exist, and a literal has its column's type. */
  ghost predicate LeafTyped(cond: Condition, n: nat, kinds: seq<ColType>)
    requires n < |cond.nodes|
  {
    var node := cond.nodes[n];
    node.Compare? && IsColumn(cond.exprs, node.left) && IsLiteral(cond.exprs, node.right) ==>
      var slot, literal := cond.exprs[node.left].slot, cond.exprs[node.right].value;
      0 <= slot < |kinds| ==>
        && (Indexable(node.op) ==> TypeOf(literal) == kinds[slot])
        && (node.op.Like? ==> kinds[slot].TextType? && NulFree(TextOf(literal)))
  }

  ghost predicate WhereOk(w: Where, subs: Subqueries, kinds: seq<ColType>) {
    w.Where? ==>
      && ConditionOk(w.cond, |subs|) && 0 <= w.root < |w.cond.nodes|
      && ReadsTo(w.cond, |w.cond.nodes|, |kinds| - 1)
      && forall n :: 0 <= n < |w.cond.nodes| ==> LeafTyped(w.cond, n, kinds)
  }

  /** The verdict on a row decoded to the end. */
  ghost predicate Accepts(w: Where, subs: Subqueries, kinds: seq<ColType>, row: Row)
    requires WhereOk(w, subs, kinds) && |row| <= MAX_COLS
  {
    w.Everything? || EvaluateCondition(w.cond, w.root, subs, Buffer(Records.RowAsRead(row))) == True
  }

  ghost predicate Qualifies(view: View, w: Where, subs: Subqueries, kinds: seq<ColType>, p: int)
    requires WhereOk(w, subs, kinds)
  {
    Cell(view, p).Live? && |Cell(view, p).row| <= MAX_COLS && Accepts(w, subs, kinds, Cell(view, p).row)
  }

  /** The verdict on the row as it reads back is the verdict on the row that was stored. */
  lemma AcceptsStored(w: Where, subs: Subqueries, kinds: seq<ColType>, row: Row)
    requires WhereOk(w, subs, kinds) && |row| <= MAX_COLS
    ensures Accepts(w, subs, kinds, row) <==> w.Everything? || EvaluateCondition(w.cond, w.root, subs, Buffer(row)) == True
  {
    if w.Where? {
      var read, given := Buffer(Records.RowAsRead(row)), Buffer(row);
      forall c | 0 <= c < MAX_COLS ensures Alike(read[c], given[c]) {
        if c < |row| {
          assert read[c] == Records.RowAsRead(row)[c] && given[c] == row[c];
        }
      }
      VerdictIgnoresNullType(w.cond, w.root, subs, read, given);
    }
  }

  /** Those of a list of candidates that qualify. */
  ghost function Kept(view: View, w: Where, subs: Subqueries, kinds: seq<ColType>, candidates: seq<int>): seq<int>
    requires WhereOk(w, subs, kinds)
  {
    if candidates == [] then []
    else
      var last := candidates[|candidates| - 1];
      Kept(view, w, subs, kinds, candidates[..|candidates| - 1]) + if Qualifies(view, w, subs, kinds, last) then [last] else []
  }

  lemma {:induction false} KeptIs(view: View, w: Where, subs: Subqueries, kinds: seq<ColType>, candidates: seq<int>)
    requires WhereOk(w, subs, kinds) && Distinct(candidates)
    ensures var kept := Kept(view, w, subs, kinds, candidates);
            && Distinct(kept)
            && forall p :: p in kept <==> p in candidates && Qualifies(view, w, subs, kinds, p)
  {
    hide Qualifies, WhereOk;
    if candidates != [] {
      var front, last := candidates[..|candidates| - 1], candidates[|candidates| - 1];
      KeptIs(view, w, subs, kinds, front);
      assert candidates == front + [last];
    }
  }

  // ---------- partial decoding ----------

  /** A buffer decoded only as deep as the condition reads gets the verdict of the whole row. */
  lemma PartlyVerdict(w: Where, subs: Subqueries, kinds: seq<ColType>, row: Row, buffer: Row, upto: int)
    requires WhereOk(w, subs, kinds) && w.Where? && |row| == |kinds| <= MAX_COLS && RowBuffer(buffer)
    requires upto <= |kinds| - 1 && ReadsTo(w.cond, |w.cond.nodes|, upto)
    ensures RowBuffer(Records.Partly(row, buffer, upto))
    ensures (EvaluateCondition(w.cond, w.root, subs, Records.Partly(row, buffer, upto)) == True) == Accepts(w, subs, kinds, row)
  {
    ConditionReadsOnlyTo(w.cond, w.root, subs, Records.Partly(row, buffer, upto), Buffer(Records.RowAsRead(row)), upto);
  }

  /** One candidate tested where it lies, over a row buffer that is never cleared. */
  method TestRow(table: Table, w: Where, subs: Subqueries, position: int, upto: int, buffer: Row)
    returns (keep: bool, out: Row)
    requires table.Valid() && WhereOk(w, subs, table.kinds) && RowBuffer(buffer)
    requires w.Where? ==> upto <= |table.kinds| - 1 && ReadsTo(w.cond, |w.cond.nodes|, upto)
    ensures keep == Qualifies(table.heap.view, w, subs, table.kinds, position) && RowBuffer(out)
  {
    hide ReadsTo, EvaluateCondition, ViewOk, PageOk;
    var found;
    found, out := table.heap.DecodeAt(position, buffer, if w.Where? then upto else -1);
    keep := found;
    if found {
      assert RowTyped(Cell(table.heap.view, position).row, table.kinds);
      if w.Where? {
        PartlyVerdict(w, subs, table.kinds, Cell(table.heap.view, position).row, buffer, upto);
        keep := EvaluateCondition(w.cond, w.root, subs, out) == True;
      }
    }
  }

  /** An answer, cut where a LIMIT lets the scan stop. */
  ghost function Cut(s: seq<int>, stopAt: int): seq<int> {
    if 0 < stopAt <= |s| then s[..stopAt] else s
  }

  /** The loop that every path ends in. */
  method Filter(table: Table, w: Where, subs: Subqueries, candidates: seq<int>, upto: int, stopAt: int) returns (rows: seq<int>)
    requires table.Valid() && WhereOk(w, subs, table.kinds)
    requires w.Where? ==> upto <= |table.kinds| - 1 && ReadsTo(w.cond, |w.cond.nodes|, upto)
    ensures rows == Cut(Kept(table.heap.view, w, subs, table.kinds, candidates), stopAt)
  {
    hide ReadsTo, Qualifies, ViewOk, PageOk, WhereOk;
    ghost var view, kinds := table.heap.view, table.kinds;
    var buffer := Buffer([]);
    rows := [];
    for i := 0 to |candidates|
      invariant RowBuffer(buffer) && rows == Kept(view, w, subs, kinds, candidates[..i])
      invariant 0 < stopAt ==> |rows| < stopAt
    {
      KeptStep(view, w, subs, kinds, candidates, i);
      var keep;
      keep, buffer := TestRow(table, w, subs, candidates[i], upto, buffer);
      if keep {
        rows := rows + [candidates[i]];
        if |rows| == stopAt {
          KeptPrefix(view, w, subs, kinds, candidates, i + 1);
          return;
        }
      }
    }
    assert candidates[..|candidates|] == candidates;
  }

  lemma KeptStep(view: View, w: Where, subs: Subqueries, kinds: seq<ColType>, candidates: seq<int>, i: nat)
    requires WhereOk(w, subs, kinds) && i < |candidates|
    ensures Kept(view, w, subs, kinds, candidates[..i + 1])
         == Kept(view, w, subs, kinds, candidates[..i]) + if Qualifies(view, w, subs, kinds, candidates[i]) then [candidates[i]] else []
  {
    assert candidates[..i + 1][..i] == candidates[..i];
  }

  lemma {:induction false} KeptPrefix(view: View, w: Where, subs: Subqueries, kinds: seq<ColType>, candidates: seq<int>, n: nat)
    requires WhereOk(w, subs, kinds) && n <= |candidates|
    ensures Kept(view, w, subs, kinds, candidates[..n]) <= Kept(view, w, subs, kinds, candidates)
    decreases |candidates| - n
  {
    hide Qualifies, WhereOk, Kept;
    if n < |candidates| {
      KeptPrefix(view, w, subs, kinds, candidates, n + 1);
      KeptStep(view, w, subs, kinds, candidates, n);
    } else {
      assert candidates[..n] == candidates;
    }
  }

  // ---------- what an index offers ----------

  /** The scan a seekable comparison turns into. */
  function TestFor(op: CompareOp, key: Value, prefix: Bytes): Test {
    if op.Like? then StartsWith(Truncate(prefix)) else Against(op, MakeKey(key))
  }

  /** A comparison an index on a column of this type can be searched by; a prefix scan needs bytes to seek to. */
  ghost predicate Searchable(op: CompareOp, key: Value, prefix: Bytes, text: bool) {
    if op.Like?
    then text && prefix != [] && forall t: Bytes :: Matches(t, TextOf(key)) ==> prefix <= t
    else Indexable(op) && TypeOf(key).TextType? == text
  }

  lemma TestForOk(op: CompareOp, key: Value, prefix: Bytes, text: bool)
    requires Searchable(op, key, prefix, text)
    ensures TestOk(TestFor(op, key, prefix), text)
  {
    if !op.Like? {
      MakeKeyOk(key);
    }
  }

  /** The stored key of any value the comparison holds for is one the scan takes. */
  lemma ComparedIsTaken(op: CompareOp, v: Value, key: Value, prefix: Bytes, text: bool)
    requires Searchable(op, key, prefix, text) && ComparePredicate(v, key, op) == True
    requires v.Null? || TypeOf(v).TextType? == text
    ensures var test, stored := TestFor(op, key, prefix), MakeKey(v);
            && !v.Null?
            && (test.Against? ==> SameKind(stored, test.target)) && (test.StartsWith? ==> stored.TextKey?)
            && Judge(test, stored).Take?
  {
    hide Judge, MakeKey, Matches;
    MakeKeyOk(v);
    MakeKeyOk(key);
    if op.Like? {
      PrefixScanNeverMisses(v, prefix);
    } else {
      ScanNeverMisses(op, v, key);
    }
  }

  ghost predicate TableEntries(view: View, kinds: seq<ColType>, slot: nat, entries: seq<Entry>, text: bool) {
    && RowsTyped(view, kinds) && slot < |kinds| && text == kinds[slot].TextType?
    && Agrees(view, slot, entries) && EntriesTyped(entries, text)
  }

  /** So a live row the comparison holds for is among the candidates. */
  lemma NeverMissed(view: View, kinds: seq<ColType>, slot: nat, entries: seq<Entry>, text: bool,
                    op: CompareOp, key: Value, prefix: Bytes, p: int)
    requires TableEntries(view, kinds, slot, entries, text) && Searchable(op, key, prefix, text)
    requires TestOk(TestFor(op, key, prefix), text)
    requires Cell(view, p).Live? && RowTyped(Cell(view, p).row, kinds) && ComparePredicate(Cell(view, p).row[slot], key, op) == True
    ensures p in TakenRows(TestFor(op, key, prefix), entries, text)
  {
    hide Cell, IsSlot, ComparePredicate, Judge, MakeKey, TestFor, TakenRows;
    var v := Cell(view, p).row[slot];
    ComparedIsTaken(op, v, key, prefix, text);
    assert Keyed(view, slot, p);
    var i :| 0 <= i < |entries| && entries[i].payload == p;
    assert EntryOk(view, slot, entries[i]);
    TakenIffJudged(TestFor(op, key, prefix), entries, text, p);
  }

  /** Each row at most once, and no more of them than there are entries. */
  lemma {:induction false} TakenOnce(test: Test, entries: seq<Entry>, text: bool)
    requires TestOk(test, text) && EntriesTyped(entries, text) && OnePerSlot(entries)
    ensures Distinct(TakenRows(test, entries, text)) && |TakenRows(test, entries, text)| <= |entries|
  {
    hide Judge;
    if entries != [] {
      var front, last := entries[..|entries| - 1], entries[|entries| - 1];
      TakenOnce(test, front, text);
      TakenIffJudged(test, front, text, last.payload);
    }
  }

  // ---------- the three paths ----------

  /** The comparison holds for the live row at p. */
  ghost predicate Compares(view: View, slot: nat, op: CompareOp, key: Value, p: int) {
    && Cell(view, p).Live? && slot < |Cell(view, p).row|
    && ComparePredicate(Cell(view, p).row[slot], key, op) == True
  }

  /** Rows listed in ascending order of their stored keys. */
  ghost predicate KeyOrder(view: View, slot: nat, rows: seq<int>) {
    forall x, y :: 0 <= x < y < |rows| ==> NotAfter(view, slot, rows[x], rows[y])
  }

  ghost predicate NotAfter(view: View, slot: nat, p: int, q: int) {
    Keyed(view, slot, p) && Keyed(view, slot, q) ==>
      Rank(MakeKey(Cell(view, p).row[slot])) <= Rank(MakeKey(Cell(view, q).row[slot]))
  }

  /** An index walked from left to right offers its rows in the order of their keys. */
  lemma {:induction false} TakenInOrder(view: View, slot: nat, test: Test, entries: seq<Entry>, text: bool)
    requires TestOk(test, text) && EntriesTyped(entries, text) && Sorted(Keys(entries))
    requires forall i :: 0 <= i < |entries| ==> EntryOk(view, slot, entries[i])
    ensures KeyOrder(view, slot, TakenRows(test, entries, text))
  {
    hide Judge, Rank, MakeKey, Cell, IsSlot;
    if entries != [] {
      var front, last := entries[..|entries| - 1], entries[|entries| - 1];
      assert forall i :: 0 <= i < |front| ==> Keys(front)[i] == Keys(entries)[i];
      TakenInOrder(view, slot, test, front, text);
      var before := TakenRows(test, front, text);
      forall x | 0 <= x < |before| ensures NotAfter(view, slot, before[x], last.payload) {
        assert before[x] in before;
        TakenIffJudged(test, front, text, before[x]);
        var i :| 0 <= i < |front| && front[i].payload == before[x];
        assert EntryOk(view, slot, entries[i]) && EntryOk(view, slot, last);
        assert Rank(Keys(entries)[i]) <= Rank(Keys(entries)[|entries| - 1]);
      }
    }
  }

  lemma {:induction false} KeptInOrder(view: View, slot: nat, w: Where, subs: Subqueries, kinds: seq<ColType>, candidates: seq<int>)
    requires WhereOk(w, subs, kinds) && Distinct(candidates) && KeyOrder(view, slot, candidates)
    ensures KeyOrder(view, slot, Kept(view, w, subs, kinds, candidates))
  {
    hide Qualifies, WhereOk, NotAfter;
    if candidates != [] {
      var front, last := candidates[..|candidates| - 1], candidates[|candidates| - 1];
      KeptInOrder(view, slot, w, subs, kinds, front);
      KeptIs(view, w, subs, kinds, front);
      var before := Kept(view, w, subs, kinds, front);
      forall x | 0 <= x < |before| ensures NotAfter(view, slot, before[x], last) {
        assert before[x] in before;
        var y :| 0 <= y < |front| && front[y] == before[x];
        assert candidates[y] == front[y];
      }
    }
  }

  /** What the index path returns: every row the comparison holds for, none twice, in key order, and never an error. */
  method Candidates(table: Table, k: nat, op: CompareOp, key: Value, prefix: Bytes, maxRows: nat) returns (rows: seq<int>)
    requires table.Valid() && maxRows >= table.heap.nslots && k < |table.indexes| && Searchable(op, key, prefix, table.indexes[k].index.text)
    ensures Distinct(rows)
    ensures forall p :: Compares(table.heap.view, table.indexes[k].slot, op, key, p) ==> p in rows
    ensures KeyOrder(table.heap.view, table.indexes[k].slot, rows)
  {
    hide Cell, IsSlot, ComparePredicate, Judge, MakeKey, TakenRows, IndexOk, PageOk, AllPositions;
    var ix := table.indexes[k];
    ghost var entries, text := Entries(ix.index.tree), ix.index.text;
    assert table.IndexAgrees(ix, table.heap.view);
    TestForOk(op, key, prefix, text);
    var test := TestFor(op, key, prefix);
    var full;
    full, rows := Scan(ix.index.pages, ix.index.rootPage, test, maxRows, text, ix.index.order, ix.index.nextPage, ix.index.tree);
    TakenOnce(test, entries, text);
    TakenInOrder(table.heap.view, ix.slot, test, entries, text);
    EntriesFitSlots(table.heap.view, ix.slot, entries);
    assert !full;
    forall p | Compares(table.heap.view, ix.slot, op, key, p) ensures p in rows {
      assert RowTyped(Cell(table.heap.view, p).row, table.kinds);
      NeverMissed(table.heap.view, table.kinds, ix.slot, entries, text, op, key, prefix, p);
    }
  }

  /** The columns a table has an index on. */
  function IndexedSlots(indexes: seq<TableIndex>): set<int> {
    set k | 0 <= k < |indexes| :: indexes[k].slot as int
  }

  /** Whether the condition lets an index be used: something on its AND spine can be searched by one. */
  ghost predicate UsesIndex(indexes: seq<TableIndex>, w: Where, subs: Subqueries)
    requires w.Where? ==> ConditionOk(w.cond, |subs|) && 0 <= w.root < |w.cond.nodes|
  {
    w.Where? &&
    exists n :: 0 <= n < |w.cond.nodes| && OnSpine(w.cond, w.root, n, |subs|)
                && w.cond.nodes[n].Compare? && Seekable(w.cond, n, IndexedSlots(indexes))
  }

  /** findIndexOn: the first index on a column. */
  method FindIndex(indexes: seq<TableIndex>, slot: int) returns (k: nat)
    requires exists j :: 0 <= j < |indexes| && indexes[j].slot == slot
    ensures k < |indexes| && indexes[k].slot == slot
  {
    k := 0;
    while indexes[k].slot != slot
      invariant k < |indexes| && forall j :: 0 <= j < k ==> indexes[j].slot != slot
      decreases |indexes| - k
    {
      k := k + 1;
    }
  }

  /** A row the whole condition accepts is one the chosen comparison holds for. */
  lemma AcceptedCompares(view: View, w: Where, subs: Subqueries, kinds: seq<ColType>, indexed: set<int>, p: int)
    requires WhereOk(w, subs, kinds) && w.Where? && RowsTyped(view, kinds) && |kinds| <= MAX_COLS
    requires FindIndexableLeaf(w.cond, w.root, indexed, |subs|) >= 0
    requires Qualifies(view, w, subs, kinds, p)
    requires forall s :: s in indexed ==> 0 <= s < |kinds|
    ensures var leaf := FindIndexableLeaf(w.cond, w.root, indexed, |subs|);
            var node := w.cond.nodes[leaf];
            && w.cond.exprs[node.left].slot in indexed
            && Compares(view, w.cond.exprs[node.left].slot, node.op, w.cond.exprs[node.right].value, p)
  {
    hide Cell, EvaluateCondition, FindIndexableLeaf;
    var row := Cell(view, p).row;
    var buffer := Buffer(Records.RowAsRead(row));
    LeafNarrows(w.cond, w.root, indexed, subs, buffer);
    var leaf := FindIndexableLeaf(w.cond, w.root, indexed, |subs|);
    SeekableIsComparison(w.cond, leaf, indexed, subs, buffer);
    var node := w.cond.nodes[leaf];
    var slot := w.cond.exprs[node.left].slot;
    assert RowTyped(row, kinds);
    assert buffer[slot] == Records.RowAsRead(row)[slot];
  }

  /**
   collectRows: exactly the live positions whose rows qualify, each once, whichever path was
   taken - or, when a LIMIT may stop it early, as many of them as were asked for. Without an
   index to use they come in scan order, and with one in the order of its keys.
   */
  method CollectRows(table: Table, w: Where, subs: Subqueries, stopAt: int) returns (rows: seq<int>)
    requires table.Valid() && WhereOk(w, subs, table.kinds)
    ensures Distinct(rows) && forall p :: p in rows ==> Qualifies(table.heap.view, w, subs, table.kinds, p)
    ensures stopAt <= 0 || |rows| < stopAt ==> forall p :: Qualifies(table.heap.view, w, subs, table.kinds, p) ==> p in rows
    ensures stopAt > 0 ==> |rows| <= stopAt
    ensures UsesIndex(table.indexes, w, subs) ==> exists slot: nat :: slot in IndexedSlots(table.indexes) && KeyOrder(table.heap.view, slot, rows)
    ensures !UsesIndex(table.indexes, w, subs) ==>
              rows == Cut(Kept(table.heap.view, w, subs, table.kinds, LivePositions(table.heap.view)), stopAt)
  {
    hide Qualifies, WhereOk, ReadsTo, PageOk, ViewOk, Kept, FindIndexableLeaf, KeyOrder, OnSpine, Seekable, LivePositions;
    var upto := -1;
    var candidates;
    ghost var slot := 0;
    var leaf := -1;
    if w.Where? {
      WhereParts(w, subs, table.kinds);
      upto := ConditionDeepest(w.cond);
      var indexed := IndexedSlots(table.indexes);
      LeafFound(w.cond, w.root, indexed, |subs|);
      leaf := FindIndexableLeaf(w.cond, w.root, indexed, |subs|);
      if leaf >= 0 {
        candidates, slot := IndexCandidates(table, w, subs, indexed, leaf);
      }
    }
    if leaf < 0 {
      candidates := table.heap.LiveList();
      LiveQualify(table.heap.view, w, subs, table.kinds, candidates);
    }
    rows := Filter(table, w, subs, candidates, upto, stopAt);
    KeptIs(table.heap.view, w, subs, table.kinds, candidates);
    if leaf >= 0 {
      KeptInOrder(table.heap.view, slot, w, subs, table.kinds, candidates);
      CutInOrder(table.heap.view, slot, Kept(table.heap.view, w, subs, table.kinds, candidates), stopAt);
    }
  }

  lemma CutInOrder(view: View, slot: nat, rows: seq<int>, stopAt: int)
    requires KeyOrder(view, slot, rows)
    ensures KeyOrder(view, slot, Cut(rows, stopAt))
  {
    hide NotAfter;
  }

  lemma WhereParts(w: Where, subs: Subqueries, kinds: seq<ColType>)
    requires WhereOk(w, subs, kinds) && w.Where?
    ensures ConditionOk(w.cond, |subs|) && 0 <= w.root < |w.cond.nodes| && ReadsTo(w.cond, |w.cond.nodes|, |kinds| - 1)
  {
  }

  lemma LiveQualify(view: View, w: Where, subs: Subqueries, kinds: seq<ColType>, candidates: seq<int>)
    requires ViewOk(view) && WhereOk(w, subs, kinds) && candidates == LivePositions(view)
    ensures Distinct(candidates) && forall p :: Qualifies(view, w, subs, kinds, p) ==> p in candidates
  {
    LivePositionsAre(view);
  }

  /** The index half: candidates that include every row that qualifies. */
  method IndexCandidates(table: Table, w: Where, subs: Subqueries, indexed: set<int>, leaf: int)
    returns (candidates: seq<int>, ghost slot: nat)
    requires table.Valid() && WhereOk(w, subs, table.kinds) && w.Where?
    requires indexed == IndexedSlots(table.indexes)
    requires leaf == FindIndexableLeaf(w.cond, w.root, indexed, |subs|) && leaf >= 0
    ensures Distinct(candidates) && forall p :: Qualifies(table.heap.view, w, subs, table.kinds, p) ==> p in candidates
    ensures slot in indexed && KeyOrder(table.heap.view, slot, candidates)
  {
    hide Qualifies, ReadsTo, PageOk, ViewOk, Compares, LiteralHead, Agrees, IndexOk, KeyOrder;
    var node := w.cond.nodes[leaf];
    var key := w.cond.exprs[node.right].value;
    var k := FindIndex(table.indexes, w.cond.exprs[node.left].slot);
    slot := table.indexes[k].slot;
    assert table.IndexAgrees(table.indexes[k], table.heap.view);
    assert LeafTyped(w.cond, leaf, table.kinds);
    var prefix := [];
    if node.op.Like? {
      prefix := LikePrefix(TextOf(key));
      HasPrefixIs(TextOf(key), |prefix|);
    }
    candidates := Candidates(table, k, node.op, key, prefix, table.heap.nslots);
    forall s | s in indexed ensures 0 <= s < |table.kinds| {
      var j :| 0 <= j < |table.indexes| && table.indexes[j].slot as int == s;
      assert table.IndexAgrees(table.indexes[j], table.heap.view);
    }
    forall p | Qualifies(table.heap.view, w, subs, table.kinds, p) ensures p in candidates {
      AcceptedCompares(table.heap.view, w, subs, table.kinds, indexed, p);
    }
  }
}
