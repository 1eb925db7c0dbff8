/**
 INSERT, DELETE and UPDATE (06_executor.c:590-690, 06_executor.c:788-851,
 06_executor.c:1195-1380) over a table and its indexes.
 */
module Statements {
  import opened Common
  import opened Values
  import opened Conditions
  import opened SlottedPage
  import opened HeapFile
  import opened HeapStore
  import opened Agreement
  import opened Tables
  import opened AccessPath

  /** A column's promises: its ceiling is 0 when it has none. */
  datatype ColumnRule = ColumnRule(notNull: bool, unique: bool, ceiling: nat)

  datatype Status = Done | NotNullFailed | TooLong | NotUnique | CheckFailed | RowTooLarge | Failed

  // ---------- constraints ----------

  ghost predicate HoldsValue(view: View, slot: nat, value: Value, p: int) {
    Keyed(view, slot, p) && Cell(view, p).row[slot] == value
  }

  ghost predicate Taken(view: View, slot: nat, value: Value, exclude: int) {
    exists p :: p != exclude && HoldsValue(view, slot, value, p)
  }

  lemma SameMeansHolds(view: View, kinds: seq<ColType>, slot: nat, value: Value, p: int)
    requires RowsTyped(view, kinds) && slot < |kinds| && !value.Null? && TypeOf(value) == kinds[slot]
    ensures Compares(view, slot, Eq, value, p) <==> HoldsValue(view, slot, value, p)
  {
    if Cell(view, p).Live? {
      var row := Cell(view, p).row;
      assert RowTyped(row, kinds);
      if !row[slot].Null? {
        SameIsEqual(row[slot], value);
      }
    }
  }

  /** Whether one candidate holds the value, decoding no further than its column. */
  method HoldsAt(table: Table, slot: nat, value: Value, p: int, buffer: Row) returns (holds: bool, out: Row)
    requires table.Valid() && slot < |table.kinds| && !value.Null? && TypeOf(value) == table.kinds[slot] && RowBuffer(buffer)
    ensures holds == HoldsValue(table.heap.view, slot, value, p) && RowBuffer(out)
  {
    hide PageOk, ViewOk, AllPositions;
    var found;
    found, out := table.heap.DecodeAt(p, buffer, slot);
    holds := false;
    if found {
      assert RowTyped(Cell(table.heap.view, p).row, table.kinds);
      var v := out[slot];
      assert v == Records.AsRead(Cell(table.heap.view, p).row[slot]);
      if !v.Null? {
        SameIsEqual(v, value);
        holds := ValuesSame(v, value);
      }
    }
  }

  /** valueIsTaken: a probe of the index when there is one, a scan when there is not; exact either way. */
  method ValueIsTaken(table: Table, slot: nat, value: Value, exclude: int) returns (taken: bool)
    requires table.Valid() && slot < |table.kinds| && !value.Null? && TypeOf(value) == table.kinds[slot]
    ensures taken <==> Taken(table.heap.view, slot, value, exclude)
  {
    hide HoldsValue, PageOk, ViewOk, LivePositions, Cell;
    ghost var view := table.heap.view;
    var candidates;
    if exists k :: 0 <= k < |table.indexes| && table.indexes[k].slot == slot {
      var k := FindIndex(table.indexes, slot);
      assert table.IndexAgrees(table.indexes[k], view);
      candidates := Candidates(table, k, Eq, value, [], table.heap.nslots + 1);
    } else {
      candidates := table.heap.LiveList();
      LivePositionsAre(view);
    }
    forall p | HoldsValue(view, slot, value, p) ensures p in candidates {
      SameMeansHolds(view, table.kinds, slot, value, p);
      HoldsIsLive(view, slot, value, p);
    }
    taken := AnyHolds(table, slot, value, exclude, candidates);
  }

  /** The candidates read one by one, until one of them holds the value. */
  method AnyHolds(table: Table, slot: nat, value: Value, exclude: int, candidates: seq<int>) returns (taken: bool)
    requires table.Valid() && slot < |table.kinds| && !value.Null? && TypeOf(value) == table.kinds[slot]
    ensures taken <==>
              exists i :: 0 <= i < |candidates| && candidates[i] != exclude
                          && HoldsValue(table.heap.view, slot, value, candidates[i])
  {
    hide HoldsValue, PageOk, ViewOk, AllPositions;
    ghost var view := table.heap.view;
    var buffer := Buffer([]);
    for i := 0 to |candidates|
      invariant RowBuffer(buffer)
      invariant forall j :: 0 <= j < i ==> candidates[j] == exclude || !HoldsValue(view, slot, value, candidates[j])
    {
      if candidates[i] != exclude {
        var holds;
        holds, buffer := HoldsAt(table, slot, value, candidates[i], buffer);
        if holds {
          return true;
        }
      }
    }
    taken := false;
  }

  lemma HoldsIsLive(view: View, slot: nat, value: Value, p: int)
    requires HoldsValue(view, slot, value, p)
    ensures Cell(view, p).Live?
  {
  }

  /** What a table promises of one column of a row. */
  ghost predicate ColumnHolds(view: View, column: ColumnRule, slot: nat, value: Value, exclude: int) {
    if value.Null? then !column.notNull
    else
      && (value.Text? && column.ceiling > 0 ==> |value.text| <= column.ceiling)
      && (column.unique ==> !Taken(view, slot, value, exclude))
  }

  ghost predicate ColumnsHold(view: View, columns: seq<ColumnRule>, row: Row, exclude: int)
    requires |columns| == |row|
  {
    forall c :: 0 <= c < |row| ==> ColumnHolds(view, columns[c], c, row[c], exclude)
  }

  /** UNKNOWN is good enough for a CHECK. */
  ghost predicate CheckHolds(check: Where, kinds: seq<ColType>, row: Row)
    requires WhereOk(check, [], kinds) && |row| <= MAX_COLS
  {
    check.Where? ==> EvaluateCondition(check.cond, check.root, [], Buffer(row)) != False
  }

  /** An UNKNOWN condition keeps a row out of a WHERE, but not out of a table. */
  lemma UnknownCutsBothWays(condition: Where, kinds: seq<ColType>, row: Row)
    requires WhereOk(condition, [], kinds) && condition.Where? && |row| <= MAX_COLS
    ensures EvaluateCondition(condition.cond, condition.root, [], Buffer(row)) == Unknown ==>
              CheckHolds(condition, kinds, row) && !Accepts(condition, [], kinds, row)
  {
    AcceptsStored(condition, [], kinds, row);
  }

  /** A row is kept out by a CHECK only if the condition is false however its unknown comparisons turn out. */
  lemma CheckRefusesOnlyFalse(check: Where, kinds: seq<ColType>, row: Row, guess: seq<bool>)
    requires WhereOk(check, [], kinds) && |row| <= MAX_COLS && !CheckHolds(check, kinds, row)
    requires |guess| == |check.cond.nodes|
    ensures !Guessed(check.cond, check.root, [], Buffer(row), guess)
  {
    KnownIsCertain(check.cond, check.root, [], Buffer(row), guess);
  }

  /** A refusal names a promise that is indeed broken; the CHECK is asked last. */
  ghost predicate Explains(status: Status, view: View, columns: seq<ColumnRule>, row: Row, exclude: int)
    requires |columns| == |row|
  {
    match status
    case NotNullFailed => exists c :: 0 <= c < |row| && row[c].Null? && columns[c].notNull
    case TooLong => exists c :: 0 <= c < |row| && row[c].Text? && 0 < columns[c].ceiling < |row[c].text|
    case NotUnique => exists c :: 0 <= c < |row| && !row[c].Null? && columns[c].unique && Taken(view, c, row[c], exclude)
    case CheckFailed => ColumnsHold(view, columns, row, exclude)
    case _ => status == Done
  }

  /** checkConstraints: passes exactly when every promise is kept. */
  method CheckConstraints(table: Table, columns: seq<ColumnRule>, check: Where, row: Row, exclude: int) returns (status: Status)
    requires table.Valid() && |columns| == |table.kinds| && RowTyped(row, table.kinds) && WhereOk(check, [], table.kinds)
    ensures status == Done <==> ColumnsHold(table.heap.view, columns, row, exclude) && CheckHolds(check, table.kinds, row)
    ensures Explains(status, table.heap.view, columns, row, exclude)
  {
    hide Taken, PageOk, ViewOk, EvaluateCondition;
    for c := 0 to |row|
      invariant forall k :: 0 <= k < c ==> ColumnHolds(table.heap.view, columns[k], k, row[k], exclude)
    {
      status := CheckColumn(table, columns[c], c, row[c], exclude);
      if status != Done {
        return;
      }
    }
    status := Done;
    if check.Where? && EvaluateCondition(check.cond, check.root, [], Buffer(row)) == False {
      status := CheckFailed;
    }
  }

  method CheckColumn(table: Table, column: ColumnRule, slot: nat, value: Value, exclude: int) returns (status: Status)
    requires table.Valid() && slot < |table.kinds| && (value.Null? || TypeOf(value) == table.kinds[slot])
    ensures status == Done <==> ColumnHolds(table.heap.view, column, slot, value, exclude)
    ensures match status
            case Done => true
            case NotNullFailed => value.Null? && column.notNull
            case TooLong => value.Text? && 0 < column.ceiling < |value.text|
            case NotUnique => !value.Null? && column.unique && Taken(table.heap.view, slot, value, exclude)
            case _ => false
  {
    hide Taken;
    if value.Null? {
      return if column.notNull then NotNullFailed else Done;
    }
    if value.Text? && column.ceiling > 0 && |value.text| > column.ceiling {
      return TooLong;
    }
    if column.unique {
      var taken := ValueIsTaken(table, slot, value, exclude);
      if taken {
        return NotUnique;
      }
    }
    status := Done;
  }

  // ---------- what a table keeps ----------

  /** A row without a NULL where there may be none, and no text longer than its column. */
  predicate RowKeeps(columns: seq<ColumnRule>, row: Row) {
    |row| == |columns| &&
    forall c :: 0 <= c < |row| ==>
      && (columns[c].notNull ==> !row[c].Null?)
      && (row[c].Text? ==> columns[c].ceiling == 0 || |row[c].text| <= columns[c].ceiling)
  }

  /** Every live row keeps what the table promises of a row by itself. */
  ghost predicate Promises(view: View, columns: seq<ColumnRule>, check: Where, kinds: seq<ColType>)
    requires WhereOk(check, [], kinds) && |columns| == |kinds| <= MAX_COLS
  {
    forall p :: Cell(view, p).Live? ==> Promised(columns, check, kinds, Cell(view, p).row)
  }

  ghost predicate Promised(columns: seq<ColumnRule>, check: Where, kinds: seq<ColType>, row: Row)
    requires WhereOk(check, [], kinds) && |columns| == |kinds| <= MAX_COLS
  {
    RowKeeps(columns, row) && CheckHolds(check, kinds, row)
  }

  lemma PassedIsPromised(view: View, columns: seq<ColumnRule>, check: Where, kinds: seq<ColType>, row: Row, exclude: int)
    requires WhereOk(check, [], kinds) && |columns| == |kinds| == |row| <= MAX_COLS
    requires ColumnsHold(view, columns, row, exclude) && CheckHolds(check, kinds, row)
    ensures Promised(columns, check, kinds, row)
  {
    hide Taken, CheckHolds;
    forall c | 0 <= c < |row|
      ensures columns[c].notNull ==> !row[c].Null?
      ensures row[c].Text? ==> columns[c].ceiling == 0 || |row[c].text| <= columns[c].ceiling
    {
      assert ColumnHolds(view, columns[c], c, row[c], exclude);
    }
  }

  // ---------- INSERT ----------

  /** No two live rows share a value in this column. */
  ghost predicate UniqueIn(view: View, slot: nat) {
    forall p, q :: p != q && Keyed(view, slot, p) && Keyed(view, slot, q) ==> Cell(view, p).row[slot] != Cell(view, q).row[slot]
  }

  lemma InsertStaysUnique(view: View, row: Row, newPage: bool, slot: nat)
    requires Appendable(view, newPage) && UniqueIn(view, slot) && slot < |row|
    requires !row[slot].Null? ==> !Taken(view, slot, row[slot], -1)
    ensures UniqueIn(Added(view, row, newPage).0, slot)
  {
    hide Added, IsSlot, AllPositions, Cell;
    AddedFacts(view, row, newPage);
    var (after, at) := Added(view, row, newPage);
    forall p, q | p != q && Keyed(after, slot, p) && Keyed(after, slot, q)
      ensures Cell(after, p).row[slot] != Cell(after, q).row[slot]
    {
      if p == at {
        OthersDiffer(view, slot, row[slot], q);
      } else if q == at {
        OthersDiffer(view, slot, row[slot], p);
      } else {
        assert Keyed(view, slot, p) && Keyed(view, slot, q);
      }
    }
  }

  lemma OthersDiffer(view: View, slot: nat, value: Value, p: int)
    requires !Taken(view, slot, value, -1) && Keyed(view, slot, p)
    ensures Cell(view, p).row[slot] != value
  {
    LiveIsSlot(view, p);
    assert HoldsValue(view, slot, value, p) <==> Cell(view, p).row[slot] == value;
  }

  /**
   executeInsert: refused, leaving the table as it was, or one row more; and a UNIQUE column
   that had no two equal values still has none. Only an oversized row can leave the table unsound.
   */
  method Insert(table: Table, columns: seq<ColumnRule>, check: Where, row: Row) returns (status: Status, position: int)
    requires table.Valid() && |columns| == |table.kinds| && RowTyped(row, table.kinds) && WhereOk(check, [], table.kinds)
    modifies table.heap, table.heap.pages, IndexObjects(table.indexes)
    ensures table.Valid() <==> status != Done || !Oversized(row)
    ensures status == Done <==>
              && old(ColumnsHold(table.heap.view, columns, row, -1)) && CheckHolds(check, table.kinds, row)
              && !TooLarge(row)
    ensures status != Done ==> table.heap.view == old(table.heap.view)
    ensures if status == RowTooLarge then TooLarge(row) else old(Explains(status, table.heap.view, columns, row, -1))
    ensures status == Done ==>
              && !IsSlot(old(table.heap.view), position) && Cell(table.heap.view, position) == Live(row)
              && forall p :: p != position ==> Cell(table.heap.view, p) == Cell(old(table.heap.view), p)
    ensures status == Done ==> forall c :: 0 <= c < |columns| && columns[c].unique && UniqueIn(old(table.heap.view), c) ==>
              UniqueIn(table.heap.view, c)
    ensures old(Promises(table.heap.view, columns, check, table.kinds)) ==> Promises(table.heap.view, columns, check, table.kinds)
  {
    hide Added, ColumnHolds, CheckHolds, PageOk, Cell, IsSlot, UniqueIn, Promised;
    position := -1;
    ghost var was := table.heap.view;
    status := CheckConstraints(table, columns, check, row, -1);
    if status != Done {
      return;
    }
    var ok, newPage;
    ok, position, newPage := table.Store(row);
    if !ok {
      return RowTooLarge, -1;
    }
    AddedFacts(was, row, newPage);
    PassedIsPromised(was, columns, check, table.kinds, row, -1);
    forall c | 0 <= c < |columns| && columns[c].unique && UniqueIn(was, c) ensures UniqueIn(table.heap.view, c) {
      UniqueColumn(was, columns[c], c, row[c]);
      InsertStaysUnique(was, row, newPage, c);
    }
  }

  lemma UniqueColumn(view: View, column: ColumnRule, slot: nat, value: Value)
    requires ColumnHolds(view, column, slot, value, -1) && column.unique
    ensures !value.Null? ==> !Taken(view, slot, value, -1)
  {
  }

  // ---------- DELETE ----------

  /** A tombstone at each of these positions, and nothing else changed. */
  ghost predicate Tombstoned(was: View, view: View, rows: seq<int>) {
    && AllPositions(view) == AllPositions(was) && (forall p :: IsSlot(view, p) == IsSlot(was, p))
    && forall p :: Cell(view, p) == if p in rows then Gone else Cell(was, p)
  }

  /** executeDelete: exactly the rows the condition accepts are gone, and it says how many there were. */
  method Delete(table: Table, w: Where, subs: Subqueries) returns (count: nat)
    requires table.Valid() && WhereOk(w, subs, table.kinds)
    modifies table.heap, table.heap.pages
    ensures table.Valid()
    ensures forall p :: IsSlot(table.heap.view, p) == IsSlot(old(table.heap.view), p)
    ensures forall p :: Cell(table.heap.view, p)
              == if Qualifies(old(table.heap.view), w, subs, table.kinds, p) then Gone else Cell(old(table.heap.view), p)
    ensures count == |Kept(old(table.heap.view), w, subs, table.kinds, LivePositions(old(table.heap.view)))|
    ensures table.heap.nlive == old(table.heap.nlive) - count
  {
    hide Qualifies, WhereOk, PageOk, Cell, IsSlot, AllPositions, LivePositions, Kept;
    var rows := CollectRows(table, w, subs, -1);
    ghost var was := table.heap.view;
    RowsCounted(was, w, subs, table.kinds, rows);
    for i := 0 to |rows|
      invariant table.Valid() && table.heap.pages == old(table.heap.pages)
      invariant Tombstoned(was, table.heap.view, rows[..i]) && |LivePositions(table.heap.view)| == |LivePositions(was)| - i
    {
      ghost var before := table.heap.view;
      QualifiesIsLive(was, w, subs, table.kinds, rows, i);
      DeletedLive(before, rows[i]);
      table.Retire(rows[i]);
      TombstoneOne(was, before, rows, i);
    }
    assert rows[..|rows|] == rows;
    count := |rows|;
  }

  lemma QualifiesIsLive(view: View, w: Where, subs: Subqueries, kinds: seq<ColType>, rows: seq<int>, i: nat)
    requires WhereOk(w, subs, kinds) && i < |rows| && Distinct(rows) && forall p :: p in rows ==> Qualifies(view, w, subs, kinds, p)
    ensures Cell(view, rows[i]).Live? && rows[i] !in rows[..i]
  {
    assert rows[i] in rows;
  }

  lemma {:induction false} ToSetCounts(s: seq<int>)
    requires Distinct(s)
    ensures |ToSet(s)| == |s|
  {
    if s != [] {
      ToSetCounts(s[..|s| - 1]);
    }
  }

  /** Any listing of the qualifying positions, each once, is as long as a scan's. */
  lemma RowsCounted(view: View, w: Where, subs: Subqueries, kinds: seq<ColType>, rows: seq<int>)
    requires ViewOk(view) && WhereOk(w, subs, kinds) && Distinct(rows)
    requires forall p :: p in rows <==> Qualifies(view, w, subs, kinds, p)
    ensures |rows| == |Kept(view, w, subs, kinds, LivePositions(view))|
  {
    hide Qualifies, WhereOk, Cell, Kept, LivePositions;
    var live := LivePositions(view);
    LiveQualify(view, w, subs, kinds, live);
    KeptIs(view, w, subs, kinds, live);
    var kept := Kept(view, w, subs, kinds, live);
    ToSetCounts(rows);
    ToSetCounts(kept);
    assert ToSet(rows) == ToSet(kept);
  }

  lemma TombstoneOne(was: View, view: View, rows: seq<int>, i: nat)
    requires ViewOk(view) && i < |rows| && Tombstoned(was, view, rows[..i])
    ensures Tombstoned(was, Deleted(view, rows[i]), rows[..i + 1])
  {
    hide Cell, IsSlot, AllPositions, Deleted;
    DeletedFacts(view, rows[i]);
    assert rows[..i + 1] == rows[..i] + [rows[i]];
  }

  // ---------- UPDATE ----------

  datatype Assignment = Assignment(slot: nat, expr: int)

  datatype Update = Update(exprs: seq<ExprNode>, sets: seq<Assignment>)

  ghost predicate UpdateOk(u: Update, kinds: seq<ColType>) {
    PoolOk(u.exprs) && |kinds| <= MAX_COLS && forall k :: 0 <= k < |u.sets| ==> u.sets[k].slot < |kinds|
  }

  /** What assignment k computes from the row as it was; a value of another type than its column's is an error. */
  function Computed(u: Update, kinds: seq<ColType>, row: Row, k: nat): Outcome
    requires UpdateOk(u, kinds) && |row| <= MAX_COLS && k < |u.sets|
  {
    var value := Evaluate(u.exprs, u.sets[k].expr, Buffer(row));
    if value.Ok? && !value.value.Null? && TypeOf(value.value) != kinds[u.sets[k].slot] then Err(TypeMismatch) else value
  }

  ghost predicate Assignable(u: Update, kinds: seq<ColType>, row: Row)
    requires UpdateOk(u, kinds) && |row| <= MAX_COLS
  {
    forall k :: 0 <= k < |u.sets| ==> Computed(u, kinds, row, k).Ok?
  }

  /** The row after the first n assignments; a NULL takes the column's type. */
  ghost function Assigned(u: Update, kinds: seq<ColType>, row: Row, n: nat): (out: Row)
    requires UpdateOk(u, kinds) && |row| == |kinds| && Assignable(u, kinds, row) && n <= |u.sets|
    ensures |out| == |row|
  {
    if n == 0 then row
    else
      var slot, v := u.sets[n - 1].slot, Computed(u, kinds, row, n - 1).value;
      Assigned(u, kinds, row, n - 1)[slot := StoredAs(v, kinds[slot])]
  }

  ghost function NewRow(u: Update, kinds: seq<ColType>, row: Row): (out: Row)
    requires UpdateOk(u, kinds) && |row| == |kinds| && Assignable(u, kinds, row)
    ensures |out| == |row|
  {
    Assigned(u, kinds, row, |u.sets|)
  }

  lemma {:induction false} AssignedTyped(u: Update, kinds: seq<ColType>, row: Row, n: nat)
    requires UpdateOk(u, kinds) && RowTyped(row, kinds) && Assignable(u, kinds, row) && n <= |u.sets|
    ensures RowTyped(Assigned(u, kinds, row, n), kinds)
    decreases n
  {
    hide Evaluate;
    if n > 0 {
      AssignedTyped(u, kinds, row, n - 1);
      assert Computed(u, kinds, row, n - 1).Ok?;
    }
  }

  /** SET a = b, b = a exchanges the two columns, since both new values come from the old row. */
  lemma AssignmentsSwap(kinds: seq<ColType>, row: Row, a: nat, b: nat)
    requires RowTyped(row, kinds) && |kinds| <= MAX_COLS && a < |kinds| && b < |kinds| && kinds[a] == kinds[b]
    ensures var u := Update([Conditions.Column(a), Conditions.Column(b)], [Assignment(a, 1), Assignment(b, 0)]);
            && UpdateOk(u, kinds) && Assignable(u, kinds, row) && (a != b ==> OncePerColumn(u))
            && (!row[a].Null? && !row[b].Null? ==> NewRow(u, kinds, row) == row[a := row[b]][b := row[a]])
  {
    var u := Update([Conditions.Column(a), Conditions.Column(b)], [Assignment(a, 1), Assignment(b, 0)]);
    assert ExprOk(u.exprs, 0) && ExprOk(u.exprs, 1);
    assert Buffer(row)[a] == row[a] && Buffer(row)[b] == row[b];
    assert Computed(u, kinds, row, 0) == Ok(row[b]);
    assert Computed(u, kinds, row, 1) == Ok(row[a]);
    if !row[a].Null? && !row[b].Null? {
      assert Assigned(u, kinds, row, 0) == row;
      assert Assigned(u, kinds, row, 1) == row[a := row[b]];
      assert Assigned(u, kinds, row, 2) == row[a := row[b]][b := row[a]];
    }
  }

  /** applyAssignments: one loop to compute, a second to store. */
  method ApplyAssignments(u: Update, kinds: seq<ColType>, row: Row) returns (ok: bool, out: Row)
    requires UpdateOk(u, kinds) && RowTyped(row, kinds)
    ensures ok <==> Assignable(u, kinds, row)
    ensures ok ==> out == NewRow(u, kinds, row) && RowTyped(out, kinds)
  {
    hide Computed, Buffer;
    var computed: seq<Value> := [];
    out := row;
    for c := 0 to |u.sets|
      invariant |computed| == c
      invariant forall k :: 0 <= k < c ==> Computed(u, kinds, row, k) == Ok(computed[k])
    {
      var value := Computed(u, kinds, row, c);
      if value.Err? {
        return false, row;
      }
      computed := computed + [value.value];
    }
    ok := true;
    for c := 0 to |u.sets|
      invariant out == Assigned(u, kinds, row, c)
    {
      var slot := u.sets[c].slot;
      assert Computed(u, kinds, row, c) == Ok(computed[c]);
      out := out[slot := if computed[c].Null? then Null(kinds[slot]) else computed[c]];
    }
    AssignedTyped(u, kinds, row, |u.sets|);
  }

  // ---------- the two passes ----------

  /** The row at p as an UPDATE reads it. */
  ghost function RowRead(view: View, p: int): Row
    requires Cell(view, p).Live?
  {
    Records.RowAsRead(Cell(view, p).row)
  }

  ghost predicate Updatable(u: Update, kinds: seq<ColType>, view: View, p: int)
    requires UpdateOk(u, kinds)
  {
    Cell(view, p).Live? && |Cell(view, p).row| == |kinds| && Assignable(u, kinds, RowRead(view, p))
  }

  ghost function Updated(u: Update, kinds: seq<ColType>, view: View, p: int): (out: Row)
    requires UpdateOk(u, kinds) && Updatable(u, kinds, view, p)
    ensures |out| == |kinds|
  {
    NewRow(u, kinds, RowRead(view, p))
  }

  /** The new version of the row at p. */
  method NewVersion(table: Table, u: Update, p: int) returns (ok: bool, out: Row)
    requires table.Valid() && UpdateOk(u, table.kinds) && Cell(table.heap.view, p).Live?
    ensures ok <==> Updatable(u, table.kinds, table.heap.view, p)
    ensures ok ==> out == Updated(u, table.kinds, table.heap.view, p) && RowTyped(out, table.kinds)
  {
    hide PageOk, ViewOk, Assignable, NewRow, AllPositions;
    assert RowTyped(Cell(table.heap.view, p).row, table.kinds);
    var cell := table.heap.ReadAt(p);
    ok, out := ApplyAssignments(u, table.kinds, cell.row);
  }

  /** The new version of the row at p can be computed and keeps every promise. */
  ghost predicate Allowed(view: View, columns: seq<ColumnRule>, check: Where, kinds: seq<ColType>, u: Update, p: int)
    requires UpdateOk(u, kinds) && |columns| == |kinds| && WhereOk(check, [], kinds)
  {
    && Updatable(u, kinds, view, p)
    && ColumnsHold(view, columns, Updated(u, kinds, view, p), p)
    && CheckHolds(check, kinds, Updated(u, kinds, view, p))
  }

  /** What the first pass asks: every new version is allowed, and no literal would be stored twice under UNIQUE. */
  ghost predicate AllAllowed(view: View, columns: seq<ColumnRule>, check: Where, kinds: seq<ColType>, u: Update, rows: seq<int>)
    requires UpdateOk(u, kinds) && |columns| == |kinds| && WhereOk(check, [], kinds)
  {
    && (forall i :: 0 <= i < |rows| ==> Allowed(view, columns, check, kinds, u, rows[i]))
    && !(|rows| > 1 && SameLiteral(columns, u))
  }

  /** What the answer of the first pass says of the rows: a refusal always has its reason. */
  ghost predicate Refused(status: Status, view: View, columns: seq<ColumnRule>, check: Where, kinds: seq<ColType>, u: Update, rows: seq<int>)
    requires UpdateOk(u, kinds) && |columns| == |kinds| && WhereOk(check, [], kinds)
  {
    match status
    case Done => AllAllowed(view, columns, check, kinds, u, rows)
    case Failed => exists i :: 0 <= i < |rows| && !Updatable(u, kinds, view, rows[i])
    case RowTooLarge => false
    case NotUnique => AnyRowRefused(status, view, columns, kinds, u, rows) || NewVersionsClash(view, columns, check, kinds, u, rows)
    case _ => AnyRowRefused(status, view, columns, kinds, u, rows)
  }

  ghost predicate AnyRowRefused(status: Status, view: View, columns: seq<ColumnRule>, kinds: seq<ColType>, u: Update, rows: seq<int>)
    requires UpdateOk(u, kinds) && |columns| == |kinds|
  {
    exists i :: 0 <= i < |rows| && RowRefused(status, view, columns, kinds, u, rows[i])
  }

  /** Each new version would be allowed by itself, but not all of them together. */
  ghost predicate NewVersionsClash(view: View, columns: seq<ColumnRule>, check: Where, kinds: seq<ColType>, u: Update, rows: seq<int>)
    requires UpdateOk(u, kinds) && |columns| == |kinds| && WhereOk(check, [], kinds)
  {
    && (forall i :: 0 <= i < |rows| ==> Allowed(view, columns, check, kinds, u, rows[i]))
    && (OncePerColumn(u) ==> NewValuesCollide(u, columns, kinds, view, rows))
  }

  ghost predicate RowRefused(status: Status, view: View, columns: seq<ColumnRule>, kinds: seq<ColType>, u: Update, p: int)
    requires UpdateOk(u, kinds) && |columns| == |kinds|
  {
    Updatable(u, kinds, view, p) && Explains(status, view, columns, Updated(u, kinds, view, p), p)
  }

  /** The semantic stage lets no column be assigned twice (05_semantic.c:491-492). */
  predicate OncePerColumn(u: Update) {
    forall j, k :: 0 <= j < k < |u.sets| ==> u.sets[j].slot != u.sets[k].slot
  }

  /** Some UNIQUE column would hold one value in two of the new versions. */
  ghost predicate NewValuesCollide(u: Update, columns: seq<ColumnRule>, kinds: seq<ColType>, view: View, rows: seq<int>)
    requires UpdateOk(u, kinds) && |columns| == |kinds| && forall i :: 0 <= i < |rows| ==> Updatable(u, kinds, view, rows[i])
  {
    exists c :: 0 <= c < |columns| && columns[c].unique && !NewValuesDiffer(u, kinds, view, rows, c)
  }

  /** The first pass, which writes nothing: it passes exactly when everything it asks holds. */
  method CheckUpdates(table: Table, columns: seq<ColumnRule>, check: Where, u: Update, rows: seq<int>) returns (status: Status)
    requires table.Valid() && |columns| == |table.kinds| && WhereOk(check, [], table.kinds) && UpdateOk(u, table.kinds)
    requires forall i :: 0 <= i < |rows| ==> Cell(table.heap.view, rows[i]).Live?
    ensures status == Done <==> AllAllowed(table.heap.view, columns, check, table.kinds, u, rows)
    ensures status != RowTooLarge && Refused(status, table.heap.view, columns, check, table.kinds, u, rows)
  {
    hide PageOk, ViewOk, Updatable, Updated, Cell, ColumnHolds, CheckHolds, AllPositions, NewValuesCollide, Explains;
    for i := 0 to |rows|
      invariant forall k :: 0 <= k < i ==> Allowed(table.heap.view, columns, check, table.kinds, u, rows[k])
    {
      var ok, row := NewVersion(table, u, rows[i]);
      if !ok {
        return Failed;
      }
      status := CheckConstraints(table, columns, check, row, rows[i]);
      if status != Done {
        assert RowRefused(status, table.heap.view, columns, table.kinds, u, rows[i]);
        ConstraintStatus(status, table.heap.view, columns, row, rows[i]);
        return;
      }
    }
    status := if |rows| > 1 && SameLiteral(columns, u) then NotUnique else Done;
    if status == NotUnique && OncePerColumn(u) {
      LiteralCollides(table.heap.view, columns, check, table.kinds, u, rows);
    }
  }

  /** A UNIQUE column given one literal cannot hold it in two rows. */
  predicate SameLiteral(columns: seq<ColumnRule>, u: Update) {
    exists c :: 0 <= c < |u.sets| && u.sets[c].slot < |columns| && columns[u.sets[c].slot].unique
                && IsLiteral(u.exprs, u.sets[c].expr) && !u.exprs[u.sets[c].expr].value.Null?
  }

  lemma ConstraintStatus(status: Status, view: View, columns: seq<ColumnRule>, row: Row, exclude: int)
    requires |columns| == |row| && Explains(status, view, columns, row, exclude)
    ensures status != RowTooLarge && status != Failed
  {
  }

  /** What an assignment stores: its value, or a NULL of the column's type. */
  function StoredAs(v: Value, kind: ColType): Value {
    if v.Null? then Null(kind) else v
  }

  lemma {:induction false} AssignedOnce(u: Update, kinds: seq<ColType>, row: Row, k: nat, n: nat)
    requires UpdateOk(u, kinds) && |row| == |kinds| && Assignable(u, kinds, row) && k < n <= |u.sets| && OncePerColumn(u)
    ensures Computed(u, kinds, row, k).Ok?
    ensures Assigned(u, kinds, row, n)[u.sets[k].slot] == StoredAs(Computed(u, kinds, row, k).value, kinds[u.sets[k].slot])
    decreases n
  {
    hide Computed;
    if k < n - 1 {
      AssignedOnce(u, kinds, row, k, n - 1);
    }
  }

  lemma {:induction false} Unassigned(u: Update, kinds: seq<ColType>, row: Row, c: nat, n: nat)
    requires UpdateOk(u, kinds) && |row| == |kinds| && Assignable(u, kinds, row) && c < |kinds| && n <= |u.sets|
    requires forall k :: 0 <= k < n ==> u.sets[k].slot != c
    ensures Assigned(u, kinds, row, n)[c] == row[c]
    decreases n
  {
    hide Computed;
    if n > 0 {
      Unassigned(u, kinds, row, c, n - 1);
    }
  }

  /**
   The new version column by column: each assigned one has what its expression computed from the
   old row, and the others are unchanged.
   */
  lemma NewRowIs(u: Update, kinds: seq<ColType>, row: Row, c: nat)
    requires UpdateOk(u, kinds) && |row| == |kinds| && Assignable(u, kinds, row) && c < |kinds| && OncePerColumn(u)
    ensures forall k :: 0 <= k < |u.sets| && u.sets[k].slot == c ==>
              var value := Evaluate(u.exprs, u.sets[k].expr, Buffer(row));
              value.Ok? && NewRow(u, kinds, row)[c] == StoredAs(value.value, kinds[c])
    ensures (forall k :: 0 <= k < |u.sets| ==> u.sets[k].slot != c) ==> NewRow(u, kinds, row)[c] == row[c]
  {
    hide Evaluate, OncePerColumn;
    forall k | 0 <= k < |u.sets| && u.sets[k].slot == c
      ensures Computed(u, kinds, row, k).Ok? && NewRow(u, kinds, row)[c] == StoredAs(Computed(u, kinds, row, k).value, kinds[c])
    {
      AssignedOnce(u, kinds, row, k, |u.sets|);
    }
    if forall k :: 0 <= k < |u.sets| ==> u.sets[k].slot != c {
      Unassigned(u, kinds, row, c, |u.sets|);
    }
  }

  /** A literal is the same in every row it is assigned to. */
  lemma LiteralAssigned(u: Update, kinds: seq<ColType>, row: Row, k: nat)
    requires UpdateOk(u, kinds) && |row| == |kinds| && Assignable(u, kinds, row) && k < |u.sets| && OncePerColumn(u)
    requires IsLiteral(u.exprs, u.sets[k].expr) && !u.exprs[u.sets[k].expr].value.Null?
    ensures NewRow(u, kinds, row)[u.sets[k].slot] == u.exprs[u.sets[k].expr].value
  {
    hide OncePerColumn;
    assert ExprOk(u.exprs, u.sets[k].expr);
    NewRowIs(u, kinds, row, u.sets[k].slot);
  }

  /** Refusing one literal for several rows is deserved: with it the new versions do collide. */
  lemma LiteralCollides(view: View, columns: seq<ColumnRule>, check: Where, kinds: seq<ColType>, u: Update, rows: seq<int>)
    requires UpdateOk(u, kinds) && |columns| == |kinds| && WhereOk(check, [], kinds)
    requires OncePerColumn(u) && |rows| > 1 && SameLiteral(columns, u)
    requires forall i :: 0 <= i < |rows| ==> Allowed(view, columns, check, kinds, u, rows[i])
    ensures NewVersionsClash(view, columns, check, kinds, u, rows)
  {
    hide Cell, ColumnsHold, CheckHolds, Assignable, OncePerColumn;
    var k :| 0 <= k < |u.sets| && u.sets[k].slot < |columns| && columns[u.sets[k].slot].unique
             && IsLiteral(u.exprs, u.sets[k].expr) && !u.exprs[u.sets[k].expr].value.Null?;
    var c := u.sets[k].slot;
    assert Allowed(view, columns, check, kinds, u, rows[0]) && Allowed(view, columns, check, kinds, u, rows[1]);
    LiteralAssigned(u, kinds, RowRead(view, rows[0]), k);
    LiteralAssigned(u, kinds, RowRead(view, rows[1]), k);
    assert Updated(u, kinds, view, rows[0])[c] == Updated(u, kinds, view, rows[1])[c];
  }

  /**
   After the first n rows of a second pass: those rows are tombstones, their new versions stand
   behind everything that was there, and nothing else has changed.
   */
  ghost predicate Replaced(u: Update, kinds: seq<ColType>, was: View, view: View, rows: seq<int>, landed: seq<int>)
    requires UpdateOk(u, kinds)
  {
    && |landed| == |rows| && AllPositions(view) == AllPositions(was) + landed
    && (forall p :: IsSlot(view, p) <==> IsSlot(was, p) || p in landed)
    && (forall p :: p !in landed ==> Cell(view, p) == if p in rows then Gone else Cell(was, p))
    && (forall k :: 0 <= k < |rows| ==> Updatable(u, kinds, was, rows[k]) && IsSlot(was, rows[k]))
    && (forall k :: 0 <= k < |rows| ==> !IsSlot(was, landed[k]) && Cell(view, landed[k]) == Live(Updated(u, kinds, was, rows[k])))
  }

  lemma ReplaceOne(u: Update, kinds: seq<ColType>, was: View, view: View, rows: seq<int>, landed: seq<int>, p: int, newPage: bool)
    requires UpdateOk(u, kinds) && Replaced(u, kinds, was, view, rows, landed) && Appendable(view, newPage)
    requires p !in rows && Updatable(u, kinds, was, p) && IsSlot(was, p)
    ensures var (stored, at) := Added(view, Updated(u, kinds, was, p), newPage);
            ViewOk(stored) && Replaced(u, kinds, was, Deleted(stored, p), rows + [p], landed + [at])
  {
    hide Cell, IsSlot, AllPositions, Added, Deleted, Updatable, Updated, ViewOk;
    var (stored, at) := Added(view, Updated(u, kinds, was, p), newPage);
    AddedFacts(view, Updated(u, kinds, was, p), newPage);
    DeletedFacts(stored, p);
    var view', rows', landed' := Deleted(stored, p), rows + [p], landed + [at];
    assert IsSlot(view, p) && !IsSlot(view, at);
    forall k | 0 <= k < |rows'|
      ensures !IsSlot(was, landed'[k]) && Cell(view', landed'[k]) == Live(Updated(u, kinds, was, rows'[k]))
    {
      if k < |rows| {
        assert landed'[k] == landed[k] && rows'[k] == rows[k] && landed[k] in landed;
      }
    }
  }

  /** The second pass: for each row a new version stored and indexed, then a tombstone for the old. */
  method ReplaceRows(table: Table, u: Update, rows: seq<int>) returns (ok: bool, ghost landed: seq<int>)
    requires table.Valid() && UpdateOk(u, table.kinds) && Distinct(rows)
    requires forall i :: 0 <= i < |rows| ==> Updatable(u, table.kinds, table.heap.view, rows[i])
    requires forall i :: 0 <= i < |rows| ==> !Oversized(Updated(u, table.kinds, table.heap.view, rows[i]))
    modifies table.heap, table.heap.pages, IndexObjects(table.indexes)
    ensures table.Valid() && |landed| <= |rows|
    ensures Replaced(u, table.kinds, old(table.heap.view), table.heap.view, rows[..|landed|], landed)
    ensures ok <==> |landed| == |rows|
    ensures !ok ==> TooLarge(Updated(u, table.kinds, old(table.heap.view), rows[|landed|]))
    ensures ok <==> forall i :: 0 <= i < |rows| ==> !TooLarge(Updated(u, table.kinds, old(table.heap.view), rows[i]))
  {
    hide PageOk, Cell, Replaced, Updatable, Updated, Added, Deleted, RowsTyped, Appendable, Oversized, TooLarge;
    ghost var was := table.heap.view;
    NothingReplaced(u, table.kinds, was);
    landed := [];
    for i := 0 to |rows|
      invariant table.Valid() && table.indexes == old(table.indexes)
      invariant old(table.heap.pages) <= table.heap.pages
      invariant forall p :: |old(table.heap.pages)| <= p < |table.heap.pages| ==> fresh(table.heap.pages[p])
      invariant |landed| == i && Replaced(u, table.kinds, was, table.heap.view, rows[..i], landed)
      invariant forall k :: 0 <= k < i ==> !TooLarge(Updated(u, table.kinds, was, rows[k]))
    {
      var stored, position := ReplaceRow(table, u, rows, i, was, landed);
      if !stored {
        return false, landed;
      }
      landed := landed + [position];
    }
    ok := true;
  }

  /** One row of it. */
  method ReplaceRow(table: Table, u: Update, rows: seq<int>, i: nat, ghost was: View, ghost landed: seq<int>)
    returns (stored: bool, position: int)
    requires table.Valid() && UpdateOk(u, table.kinds) && Distinct(rows) && i < |rows|
    requires Updatable(u, table.kinds, was, rows[i]) && !Oversized(Updated(u, table.kinds, was, rows[i]))
    requires Replaced(u, table.kinds, was, table.heap.view, rows[..i], landed)
    modifies table.heap, table.heap.pages, IndexObjects(table.indexes)
    ensures table.Valid() && stored == !TooLarge(Updated(u, table.kinds, was, rows[i]))
    ensures stored ==> Replaced(u, table.kinds, was, table.heap.view, rows[..i + 1], landed + [position])
    ensures !stored ==> table.heap.view == old(table.heap.view)
    ensures old(table.heap.pages) <= table.heap.pages
    ensures forall p :: |old(table.heap.pages)| <= p < |table.heap.pages| ==> fresh(table.heap.pages[p])
  {
    hide PageOk, ViewOk, RowTyped, LivePositions, AllPositions, Cell, Replaced, Updatable, Updated, Added, Deleted, RowsTyped,
         Appendable, Oversized, TooLarge;
    NotReplacedYet(u, table.kinds, was, table.heap.view, rows, landed, i);
    var given, row := NewVersion(table, u, rows[i]);
    ghost var before := table.heap.view;
    var newPage;
    stored, position, newPage := table.Store(row);
    if stored {
      ReplaceOne(u, table.kinds, was, before, rows[..i], landed, rows[i], newPage);
      table.Retire(rows[i]);
      assert rows[..i + 1] == rows[..i] + [rows[i]];
    }
  }

  lemma NothingReplaced(u: Update, kinds: seq<ColType>, view: View)
    requires UpdateOk(u, kinds)
    ensures Replaced(u, kinds, view, view, [], [])
  {
    assert AllPositions(view) + [] == AllPositions(view);
  }

  /** A row whose turn has not come still reads as it did at the start. */
  lemma NotReplacedYet(u: Update, kinds: seq<ColType>, was: View, view: View, rows: seq<int>, landed: seq<int>, i: nat)
    requires UpdateOk(u, kinds) && i < |rows| && Distinct(rows) && Replaced(u, kinds, was, view, rows[..i], landed)
    requires Updatable(u, kinds, was, rows[i])
    ensures rows[i] !in rows[..i] && IsSlot(was, rows[i])
    ensures Cell(view, rows[i]).Live? && Updatable(u, kinds, view, rows[i])
    ensures Updated(u, kinds, view, rows[i]) == Updated(u, kinds, was, rows[i])
  {
    hide IsSlot, Assignable, NewRow, AllPositions;
    LiveIsSlot(was, rows[i]);
    assert forall k :: 0 <= k < |landed| ==> landed[k] != rows[i];
    assert rows[i] !in landed;
    assert Cell(view, rows[i]) == Cell(was, rows[i]);
  }

  /** The new versions of these rows hold different values in a column, NULLs aside. */
  ghost predicate NewValuesDiffer(u: Update, kinds: seq<ColType>, view: View, rows: seq<int>, c: nat)
    requires UpdateOk(u, kinds) && c < |kinds| && forall i :: 0 <= i < |rows| ==> Updatable(u, kinds, view, rows[i])
  {
    forall i, j :: 0 <= i < j < |rows| ==>
      var a, b := Updated(u, kinds, view, rows[i])[c], Updated(u, kinds, view, rows[j])[c];
      a.Null? || b.Null? || a != b
  }

  /** After a whole UPDATE: which positions have a key, and which key. */
  lemma ReplacedKeys(u: Update, kinds: seq<ColType>, was: View, view: View, rows: seq<int>, landed: seq<int>, c: nat, p: int)
    requires UpdateOk(u, kinds) && Replaced(u, kinds, was, view, rows, landed) && c < |kinds| && Keyed(view, c, p)
    ensures p in landed ==> exists k :: 0 <= k < |landed| && landed[k] == p && Cell(view, p).row[c] == Updated(u, kinds, was, rows[k])[c]
    ensures p !in landed ==> p !in rows && Keyed(was, c, p) && Cell(view, p) == Cell(was, p)
  {
    hide Updatable, Updated, IsSlot, Cell;
    if p in landed {
      var k :| 0 <= k < |landed| && landed[k] == p;
      assert Cell(view, landed[k]) == Live(Updated(u, kinds, was, rows[k]));
    }
  }

  lemma LandedKeyed(u: Update, kinds: seq<ColType>, was: View, view: View, rows: seq<int>, landed: seq<int>, c: nat, k: nat)
    requires UpdateOk(u, kinds) && Replaced(u, kinds, was, view, rows, landed) && c < |kinds| && k < |rows|
    ensures var v := Updated(u, kinds, was, rows[k])[c];
            Cell(view, landed[k]).Live? && |Cell(view, landed[k]).row| == |kinds| && Cell(view, landed[k]).row[c] == v
  {
    hide Updatable, Updated, IsSlot, Cell;
    assert Cell(view, landed[k]) == Live(Updated(u, kinds, was, rows[k]));
  }

  /** The positions new versions land on are all different. */
  lemma LandedDistinct(u: Update, kinds: seq<ColType>, was: View, view: View, rows: seq<int>, landed: seq<int>)
    requires UpdateOk(u, kinds) && ViewOk(view) && Replaced(u, kinds, was, view, rows, landed)
    ensures Distinct(landed)
  {
    hide Updatable, Updated, IsSlot, Cell, AllPositions;
    SlotsListed(view);
    var before, all := AllPositions(was), AllPositions(view);
    forall i, j | 0 <= i < j < |landed| ensures landed[i] != landed[j] {
      assert all[|before| + i] == landed[i] && all[|before| + j] == landed[j];
    }
  }

  /** A new version of row i shares its value with no row that stays. */
  lemma StayersDiffer(was: View, columns: seq<ColumnRule>, check: Where, kinds: seq<ColType>, u: Update, r: int, c: nat, p: int)
    requires UpdateOk(u, kinds) && |columns| == |kinds| && WhereOk(check, [], kinds) && c < |kinds| && columns[c].unique
    requires Allowed(was, columns, check, kinds, u, r) && p != r && Keyed(was, c, p)
    ensures Updated(u, kinds, was, r)[c].Null? || Cell(was, p).row[c] != Updated(u, kinds, was, r)[c]
  {
    hide Updatable, Updated, CheckHolds, Cell;
    var v := Updated(u, kinds, was, r)[c];
    assert ColumnHolds(was, columns[c], c, v, r);
    if !v.Null? {
      assert !Taken(was, c, v, r);
      assert HoldsValue(was, c, v, p) <==> Cell(was, p).row[c] == v;
    }
  }

  /**
   UNIQUE after an UPDATE that the first pass let through: kept exactly when the new versions do
   not collide with each other, which is the one thing no probe of the stored rows can tell.
   */
  lemma UniqueAfterUpdate(was: View, view: View, columns: seq<ColumnRule>, check: Where, kinds: seq<ColType>, u: Update,
                          rows: seq<int>, landed: seq<int>, c: nat)
    requires UpdateOk(u, kinds) && |columns| == |kinds| && WhereOk(check, [], kinds) && c < |kinds| && columns[c].unique
    requires AllAllowed(was, columns, check, kinds, u, rows) && UniqueIn(was, c)
    requires ViewOk(view) && Replaced(u, kinds, was, view, rows, landed)
    ensures UniqueIn(view, c) <==> NewValuesDiffer(u, kinds, was, rows, c)
  {
    hide Updatable, Updated, CheckHolds, IsSlot, Cell, ColumnsHold, AllPositions, SameLiteral;
    LandedDistinct(u, kinds, was, view, rows, landed);
    if UniqueIn(view, c) {
      forall i, j | 0 <= i < j < |rows|
        ensures var a, b := Updated(u, kinds, was, rows[i])[c], Updated(u, kinds, was, rows[j])[c];
                a.Null? || b.Null? || a != b
      {
        LandedKeyed(u, kinds, was, view, rows, landed, c, i);
        LandedKeyed(u, kinds, was, view, rows, landed, c, j);
        assert landed[i] != landed[j];
      }
    }
    if NewValuesDiffer(u, kinds, was, rows, c) {
      forall p, q | p != q && Keyed(view, c, p) && Keyed(view, c, q)
        ensures Cell(view, p).row[c] != Cell(view, q).row[c]
      {
        DifferAfter(was, view, columns, check, kinds, u, rows, landed, c, p, q);
      }
    }
  }

  lemma DifferAfter(was: View, view: View, columns: seq<ColumnRule>, check: Where, kinds: seq<ColType>, u: Update,
                    rows: seq<int>, landed: seq<int>, c: nat, p: int, q: int)
    requires UpdateOk(u, kinds) && |columns| == |kinds| && WhereOk(check, [], kinds) && c < |kinds| && columns[c].unique
    requires AllAllowed(was, columns, check, kinds, u, rows) && UniqueIn(was, c)
    requires Replaced(u, kinds, was, view, rows, landed) && NewValuesDiffer(u, kinds, was, rows, c)
    requires p != q && Keyed(view, c, p) && Keyed(view, c, q)
    ensures Cell(view, p).row[c] != Cell(view, q).row[c]
  {
    hide Updatable, Updated, IsSlot, Cell, Replaced, Allowed, SameLiteral;
    ReplacedParts(u, kinds, was, view, rows, landed);
    ReplacedKeys(u, kinds, was, view, rows, landed, c, p);
    ReplacedKeys(u, kinds, was, view, rows, landed, c, q);
    if p in landed {
      var i :| 0 <= i < |landed| && landed[i] == p && Cell(view, p).row[c] == Updated(u, kinds, was, rows[i])[c];
      if q in landed {
        var j :| 0 <= j < |landed| && landed[j] == q && Cell(view, q).row[c] == Updated(u, kinds, was, rows[j])[c];
        assert i < j || j < i;
      } else {
        StayersDiffer(was, columns, check, kinds, u, rows[i], c, q);
      }
    } else if q in landed {
      var j :| 0 <= j < |landed| && landed[j] == q && Cell(view, q).row[c] == Updated(u, kinds, was, rows[j])[c];
      StayersDiffer(was, columns, check, kinds, u, rows[j], c, p);
    }
  }

  lemma ReplacedParts(u: Update, kinds: seq<ColType>, was: View, view: View, rows: seq<int>, landed: seq<int>)
    requires UpdateOk(u, kinds) && Replaced(u, kinds, was, view, rows, landed)
    ensures |landed| == |rows| && forall k :: 0 <= k < |rows| ==> Updatable(u, kinds, was, rows[k])
  {
  }

  /** Every assignment to the column is a literal; none at all will do. */
  predicate OnlyLiterals(u: Update, c: nat) {
    forall k :: 0 <= k < |u.sets| && u.sets[k].slot == c ==> IsLiteral(u.exprs, u.sets[k].expr)
  }

  /** The value a column has after the first n assignments, when only literals are assigned to it. */
  lemma {:induction false} LiteralOrKept(u: Update, kinds: seq<ColType>, row: Row, c: nat, n: nat)
    requires UpdateOk(u, kinds) && |row| == |kinds| && Assignable(u, kinds, row) && c < |kinds| && n <= |u.sets|
    requires OnlyLiterals(u, c)
    ensures Assigned(u, kinds, row, n)[c] == row[c] || Assigned(u, kinds, row, n)[c].Null?
            || exists k :: 0 <= k < n && u.sets[k].slot == c && !u.exprs[u.sets[k].expr].value.Null?
    ensures (forall k :: 0 <= k < n ==> u.sets[k].slot != c) ==> Assigned(u, kinds, row, n)[c] == row[c]
    decreases n
  {
    if n > 0 {
      LiteralOrKept(u, kinds, row, c, n - 1);
      if u.sets[n - 1].slot == c {
        assert ExprOk(u.exprs, u.sets[n - 1].expr);
        assert Computed(u, kinds, row, n - 1).Ok?;
      }
    }
  }

  /** So a UNIQUE column that is not assigned, or assigned only literals, stays UNIQUE. */
  lemma LiteralsKeepUnique(was: View, columns: seq<ColumnRule>, check: Where, kinds: seq<ColType>, u: Update, rows: seq<int>, c: nat)
    requires UpdateOk(u, kinds) && |columns| == |kinds| && WhereOk(check, [], kinds) && c < |kinds| && columns[c].unique
    requires AllAllowed(was, columns, check, kinds, u, rows) && UniqueIn(was, c) && Distinct(rows) && OnlyLiterals(u, c)
    ensures NewValuesDiffer(u, kinds, was, rows, c)
  {
    hide Assignable, Cell, ColumnsHold, CheckHolds;
    forall i, j | 0 <= i < j < |rows|
      ensures var a, b := Updated(u, kinds, was, rows[i])[c], Updated(u, kinds, was, rows[j])[c];
              a.Null? || b.Null? || a != b
    {
      NoLiteralTwice(columns, u, c);
      LiteralOrKept(u, kinds, RowRead(was, rows[i]), c, |u.sets|);
      LiteralOrKept(u, kinds, RowRead(was, rows[j]), c, |u.sets|);
    }
  }

  lemma NoLiteralTwice(columns: seq<ColumnRule>, u: Update, c: nat)
    requires c < |columns| && columns[c].unique && !SameLiteral(columns, u) && OnlyLiterals(u, c)
    ensures forall k :: 0 <= k < |u.sets| && u.sets[k].slot == c ==> u.exprs[u.sets[k].expr].value.Null?
  {
  }

  /** Two rows, 1 and 2, and SET id = id * 0. */
  ghost function TwoRows(): View {
    [[Live([Int(1)]), Live([Int(2)])]]
  }

  function TimesZero(): Update {
    Update([Conditions.Column(0), Conditions.Literal(Int(0)), Binary(Mul, 0, 1)], [Assignment(0, 2)])
  }

  lemma TimesZeroIs(row: Row)
    requires |row| == 1 && row[0].Int?
    ensures UpdateOk(TimesZero(), [IntType]) && Assignable(TimesZero(), [IntType], row)
    ensures NewRow(TimesZero(), [IntType], row) == [Int(0)]
  {
    var u := TimesZero();
    assert ExprOk(u.exprs, 0) && ExprOk(u.exprs, 1) && ExprOk(u.exprs, 2);
    assert Evaluate(u.exprs, 0, Buffer(row)) == Ok(row[0]);
    assert Evaluate(u.exprs, 1, Buffer(row)) == Ok(Int(0));
    assert Computed(u, [IntType], row, 0) == Ok(Int(0));
    assert Assigned(u, [IntType], row, 1) == Assigned(u, [IntType], row, 0)[0 := Int(0)] == [Int(0)];
  }

  lemma TwoRowsAre(p: int)
    ensures Cell(TwoRows(), p) == if p == 0 then Live([Int(1)]) else if p == 1 then Live([Int(2)]) else Gone
    ensures UniqueIn(TwoRows(), 0)
  {
    assert forall q :: Cell(TwoRows(), q) == if q == 0 then Live([Int(1)]) else if q == 1 then Live([Int(2)]) else Gone;
  }

  lemma ZeroAllowed(p: int)
    requires p == 0 || p == 1
    ensures UpdateOk(TimesZero(), [IntType])
    ensures Allowed(TwoRows(), [ColumnRule(false, true, 0)], Everything, [IntType], TimesZero(), p)
    ensures Updated(TimesZero(), [IntType], TwoRows(), p) == [Int(0)]
  {
    TwoRowsAre(p);
    var row := Cell(TwoRows(), p).row;
    TimesZeroIs(Records.RowAsRead(row));
    forall q ensures !HoldsValue(TwoRows(), 0, Int(0), q) {
      TwoRowsAre(q);
    }
  }

  /**
   A computed SET breaks UNIQUE: the first pass lets this one through, since nothing stored holds
   0, and both new versions then hold it.
   */
  lemma ComputedSetCollides(view: View, landed: seq<int>)
    requires UpdateOk(TimesZero(), [IntType]) && ViewOk(view) && Replaced(TimesZero(), [IntType], TwoRows(), view, [0, 1], landed)
    ensures UniqueIn(TwoRows(), 0)
    ensures AllAllowed(TwoRows(), [ColumnRule(false, true, 0)], Everything, [IntType], TimesZero(), [0, 1])
    ensures !UniqueIn(view, 0)
  {
    hide Updatable, Updated, Cell, IsSlot, Replaced, Allowed, UniqueIn;
    TwoRowsAre(0);
    ZeroAllowed(0);
    ZeroAllowed(1);
    var columns := [ColumnRule(false, true, 0)];
    assert !SameLiteral(columns, TimesZero());
    var rows := [0, 1];
    UniqueAfterUpdate(TwoRows(), view, columns, Everything, [IntType], TimesZero(), rows, landed, 0);
    assert Updated(TimesZero(), [IntType], TwoRows(), rows[0])[0] == Updated(TimesZero(), [IntType], TwoRows(), rows[1])[0] == Int(0);
  }

  /**
   executeUpdate. The rows it is about are exactly those the condition accepts. It is done exactly
   when the first pass finds nothing wrong and every new version fits a page, and then each of
   those rows has been replaced and nothing else touched. A new version that does not fit stops it
   with the rows before that one replaced; any other refusal leaves the table as it was.
   */
  method UpdateRows(table: Table, columns: seq<ColumnRule>, check: Where, u: Update, w: Where, subs: Subqueries)
    returns (status: Status, count: nat, ghost rows: seq<int>, ghost landed: seq<int>)
    requires table.Valid() && |columns| == |table.kinds| && WhereOk(check, [], table.kinds)
    requires UpdateOk(u, table.kinds) && WhereOk(w, subs, table.kinds)
    requires forall p :: Qualifies(table.heap.view, w, subs, table.kinds, p) && Updatable(u, table.kinds, table.heap.view, p) ==>
               !Oversized(Updated(u, table.kinds, table.heap.view, p))
    modifies table.heap, table.heap.pages, IndexObjects(table.indexes)
    ensures table.Valid()
    ensures Distinct(rows) && forall p :: p in rows <==> Qualifies(old(table.heap.view), w, subs, table.kinds, p)
    ensures count == if status == Done then |rows| else 0
    ensures status == Done || status == RowTooLarge <==> old(AllAllowed(table.heap.view, columns, check, table.kinds, u, rows))
    ensures status != Done && status != RowTooLarge ==>
              && landed == [] && table.heap.view == old(table.heap.view)
              && old(Refused(status, table.heap.view, columns, check, table.kinds, u, rows))
    ensures status == Done || status == RowTooLarge ==>
              && |landed| <= |rows|
              && Replaced(u, table.kinds, old(table.heap.view), table.heap.view, rows[..|landed|], landed)
              && (status == Done <==> |landed| == |rows|)
              && (status == Done <==> forall i :: 0 <= i < |rows| ==> !TooLarge(Updated(u, table.kinds, old(table.heap.view), rows[i])))
    ensures status == RowTooLarge ==> TooLarge(Updated(u, table.kinds, old(table.heap.view), rows[|landed|]))
    ensures status == Done ==> forall c :: 0 <= c < |columns| && columns[c].unique && UniqueIn(old(table.heap.view), c) ==>
              && (UniqueIn(table.heap.view, c) <==> NewValuesDiffer(u, table.kinds, old(table.heap.view), rows, c))
              && (OnlyLiterals(u, c) ==> UniqueIn(table.heap.view, c))
    ensures old(Promises(table.heap.view, columns, check, table.kinds)) ==> Promises(table.heap.view, columns, check, table.kinds)
  {
    hide Promises, PageOk, Cell, Updatable, Updated, RowsTyped, Replaced, Oversized, TooLarge, WhereOk, Allowed, UniqueIn,
         NewValuesDiffer, OnlyLiterals, SameLiteral, Refused, UsesIndex, KeyOrder, LivePositions, Kept, Cut, IndexedSlots;
    landed, count := [], 0;
    var found := CollectRows(table, w, subs, -1);
    rows := found;
    ghost var was := table.heap.view;
    forall i | 0 <= i < |found| ensures Cell(was, found[i]).Live? {
      assert found[i] in found;
      assert Qualifies(was, w, subs, table.kinds, found[i]);
    }
    status := CheckUpdates(table, columns, check, u, found);
    if status != Done {
      return;
    }
    AllUpdatable(was, columns, check, table.kinds, u, found);
    var ok;
    ok, landed := ReplaceRows(table, u, found);
    status := if ok then Done else RowTooLarge;
    if Promises(was, columns, check, table.kinds) {
      UpdateKeepsPromises(was, table.heap.view, columns, check, table.kinds, u, rows, landed);
    }
    if ok {
      count := |found|;
      assert rows[..|landed|] == rows;
      forall c | 0 <= c < |columns| && columns[c].unique && UniqueIn(was, c)
        ensures UniqueIn(table.heap.view, c) <==> NewValuesDiffer(u, table.kinds, was, rows, c)
        ensures OnlyLiterals(u, c) ==> UniqueIn(table.heap.view, c)
      {
        UniqueAfterUpdate(was, table.heap.view, columns, check, table.kinds, u, rows, landed, c);
        if OnlyLiterals(u, c) {
          LiteralsKeepUnique(was, columns, check, table.kinds, u, rows, c);
        }
      }
    }
  }

  /** As far as an UPDATE got, its new versions keep what the table promises, and the rest are as they were. */
  lemma UpdateKeepsPromises(was: View, view: View, columns: seq<ColumnRule>, check: Where, kinds: seq<ColType>, u: Update,
                            rows: seq<int>, landed: seq<int>)
    requires UpdateOk(u, kinds) && |columns| == |kinds| && WhereOk(check, [], kinds)
    requires AllAllowed(was, columns, check, kinds, u, rows) && Promises(was, columns, check, kinds)
    requires |landed| <= |rows| && Replaced(u, kinds, was, view, rows[..|landed|], landed)
    ensures Promises(view, columns, check, kinds)
  {
    hide Cell, IsSlot, Updatable, Updated, Promised, ColumnsHold, CheckHolds, SameLiteral, AllPositions;
    forall p | Cell(view, p).Live? ensures Promised(columns, check, kinds, Cell(view, p).row) {
      if p in landed {
        var k :| 0 <= k < |landed| && landed[k] == p;
        assert Cell(view, landed[k]) == Live(Updated(u, kinds, was, rows[..|landed|][k]));
        assert Allowed(was, columns, check, kinds, u, rows[k]);
        PassedIsPromised(was, columns, check, kinds, Updated(u, kinds, was, rows[k]), rows[k]);
      }
    }
  }

  lemma AllUpdatable(view: View, columns: seq<ColumnRule>, check: Where, kinds: seq<ColType>, u: Update, rows: seq<int>)
    requires UpdateOk(u, kinds) && |columns| == |kinds| && WhereOk(check, [], kinds)
    requires AllAllowed(view, columns, check, kinds, u, rows)
    ensures forall i :: 0 <= i < |rows| ==> Updatable(u, kinds, view, rows[i])
  {
    hide Updatable, Updated;
    assert forall i :: 0 <= i < |rows| ==> Allowed(view, columns, check, kinds, u, rows[i]);
  }
}
