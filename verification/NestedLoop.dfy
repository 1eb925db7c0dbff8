/**
 joinTables as it runs (06_executor.c:2300-2387): one row buffer filled in place by every
 level, rows appended to the join's heap as the innermost level finishes them. Slots past the
 levels already settled hold leftovers of earlier rows, which no condition tested there reads.
 */
module NestedLoop {
  import opened Common
  import opened Values
  import opened Conditions
  import opened Joins

  /** Copies a row into the buffer behind the columns already there. */
  method Fill(work: array<Value>, base: nat, row: Row)
    requires base + |row| <= work.Length
    modifies work
    ensures work[..base + |row|] == old(work[..base]) + row
  {
    for c := 0 to |row|
      invariant work[..base] == old(work[..base])
      invariant forall i :: 0 <= i < c ==> work[base + i] == row[i]
    {
      work[base + c] := row[c];
    }
    assert work[..base + |row|] == work[..base] + work[base..base + |row|];
    assert work[base..base + |row|] == row;
  }

  /** Leftovers in the buffer do not change a verdict that only reads what has been filled in. */
  lemma LeftoversUnread(q: Query, node: int, buffer: Row, n: nat)
    requires QueryOk(q) && RootOk(q, node) && RowBuffer(buffer) && n <= MAX_COLS
    requires NodeReadsTo(q.cond, node, |q.subs|, n - 1)
    ensures (EvaluateCondition(q.cond, node, q.subs, buffer) == True) == Holds(q, node, buffer[..n])
  {
    NodeReadsOnlyTo(q.cond, node, q.subs, buffer, Buffer(buffer[..n]), n - 1);
  }

  lemma LeafVerdict(q: Query, buffer: Row, base: nat)
    requires QueryOk(q) && RowBuffer(buffer) && base == Base(q.tables, |q.tables|)
    ensures ConditionOk(q.cond, |q.subs|)
    ensures q.whereRoot < 0 ==> Accepted(q, buffer[..base])
    ensures q.whereRoot >= 0 ==>
              RootOk(q, q.whereRoot)
              && ((EvaluateCondition(q.cond, q.whereRoot, q.subs, buffer) == True) == Accepted(q, buffer[..base]))
  {
    if q.whereRoot >= 0 {
      assert Parts(q) != [];
      PartsAreRoots(q, |q.tables|);
      PoolReadsNode(q.cond, q.whereRoot, |q.subs|, base - 1);
      LeftoversUnread(q, q.whereRoot, buffer, base);
    }
  }

  lemma OnVerdict(q: Query, t: nat, prefix: Row, k: nat, buffer: Row)
    requires QueryOk(q) && t < |q.tables| && PrefixOk(q, t, prefix) && k < |q.tables[t].rows|
    requires RowBuffer(buffer) && prefix + q.tables[t].rows[k] <= buffer
    ensures q.tables[t].outer ==>
              RootOk(q, q.tables[t].on)
              && ((EvaluateCondition(q.cond, q.tables[t].on, q.subs, buffer) == True) == Pairs(q, t, prefix, k))
    ensures !q.tables[t].outer ==> Pairs(q, t, prefix, k)
  {
    assert OnOk(q, t) && TableOk(q.tables[t]);
    var next := prefix + q.tables[t].rows[k];
    if q.tables[t].outer {
      LeftoversUnread(q, q.tables[t].on, buffer, |next|);
      assert buffer[..|next|] == next;
    }
  }

  method JoinTables(q: Query, t: nat, base: nat, work: array<Value>, kept: seq<Row>) returns (out: seq<Row>)
    requires QueryOk(q) && t <= |q.tables| && base == Base(q.tables, t) <= MAX_COLS && work.Length == MAX_COLS
    modifies work
    ensures work[..base] == old(work[..base])
    ensures out == kept + JoinFrom(q, t, old(work[..base]))
    decreases |q.tables| - t
  {
    hide QueryOk, Accepted, Pairs;
    ghost var prefix := work[..base];
    if t == |q.tables| {
      LeafVerdict(q, work[..], base);
      if q.whereRoot >= 0 && EvaluateCondition(q.cond, q.whereRoot, q.subs, work[..]) != True {
        return kept;
      }
      return kept + [work[..base]];
    }

    PrefixFits(q, t, prefix);
    var table := q.tables[t];
    var matched := false;
    out := kept;
    for k := 0 to |table.rows|
      invariant work[..base] == prefix
      invariant out == kept + JoinRows(q, t, prefix, k)
      invariant table.outer ==> (matched <==> !Unmatched(q, t, prefix, k))
    {
      out, matched := JoinRow(q, t, base, work, out, matched, prefix, k);
    }
    if table.outer && !matched {
      Fill(work, base, NullRow(table.kinds));
      out := JoinTables(q, t + 1, base + |table.kinds|, work, out);
      assert work[..base] == work[..base + |table.kinds|][..base];
    }
  }

  /** One turn of a level's loop. */
  method JoinRow(q: Query, t: nat, base: nat, work: array<Value>, kept: seq<Row>, sofar: bool, ghost prefix: Row, k: nat)
    returns (out: seq<Row>, matched: bool)
    requires QueryOk(q) && t < |q.tables| && base == Base(q.tables, t) && Base(q.tables, t + 1) <= MAX_COLS
    requires work.Length == MAX_COLS && work[..base] == prefix && PrefixOk(q, t, prefix) && k < |q.tables[t].rows|
    modifies work
    ensures work[..base] == prefix
    ensures Pairs(q, t, prefix, k) ==> out == kept + JoinFrom(q, t + 1, prefix + q.tables[t].rows[k])
    ensures !Pairs(q, t, prefix, k) ==> out == kept
    ensures matched == (sofar || (q.tables[t].outer && Pairs(q, t, prefix, k)))
    decreases |q.tables| - t, 0
  {
    assert TableOk(q.tables[t]);
    var row := q.tables[t].rows[k];
    matched := sofar;
    Fill(work, base, row);
    assert work[..base] == work[..base + |row|][..base];
    OnVerdict(q, t, prefix, k, work[..]);
    if q.tables[t].outer {
      if EvaluateCondition(q.cond, q.tables[t].on, q.subs, work[..]) != True {
        return kept, matched;
      }
      matched := true;
    }
    out := JoinTables(q, t + 1, base + |row|, work, kept);
    assert work[..base] == work[..base + |row|][..base];
  }
}
