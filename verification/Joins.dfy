/**
 FROM lists (04_parser.c:783-806, 04_parser.c:1188-1275, 06_executor.c:2300-2387).

 The parser ANDs the ON of every inner join into the WHERE and keeps the ON of a LEFT JOIN
 apart; the executor then nests one loop per table, tests a LEFT JOIN's ON at its own level
 and everything else once, at the innermost level. `JoinFrom` is that recursion. `JoinAll`
 is what a FROM list means: the joins done one at a time, in order, each with its own ON.
 */
module Joins {
  import opened Common
  import opened Values
  import opened Conditions

  type Row = seq<Value>

  /** One table of a FROM list; `on` is the root of its ON as written, or -1. */
  datatype Table = Table(rows: seq<Row>, kinds: seq<ColType>, outer: bool, on: int)

  /** `whereRoot` is the root the parser ended with, or -1; `filter` is the WHERE as written, or -1. */
  datatype Query = Query(cond: Condition, subs: Subqueries, tables: seq<Table>, whereRoot: int, filter: int)

  predicate TableOk(t: Table) {
    forall i :: 0 <= i < |t.rows| ==> |t.rows[i]| == |t.kinds|
  }

  /** How many columns the first t tables have between them. */
  function Base(tables: seq<Table>, t: nat): nat
    requires t <= |tables|
  {
    if t == 0 then 0 else Base(tables, t - 1) + |tables[t - 1].kinds|
  }

  lemma {:induction false} BaseGrows(tables: seq<Table>, t: nat, u: nat)
    requires t <= u <= |tables|
    ensures Base(tables, t) <= Base(tables, u)
    decreases u
  {
    if t < u {
      BaseGrows(tables, t, u - 1);
    }
  }

  predicate RootOk(q: Query, node: int) {
    0 <= node < |q.cond.nodes|
  }

  // ---------- how the parser combines conditions ----------

  /** addCondition: the first condition is the root; each later one goes under a new AND with it. */
  function AddCondition(nodes: seq<CondNode>, root: int, node: int): (seq<CondNode>, int) {
    if root < 0 then (nodes, node) else (nodes + [And(root, node)], |nodes|)
  }

  /** `root` is the AND, in order, of exactly these parts. */
  ghost predicate Spine(nodes: seq<CondNode>, root: int, parts: seq<int>)
    decreases |parts|
  {
    if parts == [] then root == -1
    else if |parts| == 1 then root == parts[0] && 0 <= root < |nodes|
    else
      && 0 <= root < |nodes| && nodes[root].And? && nodes[root].right == parts[|parts| - 1]
      && 0 <= nodes[root].right < |nodes|
      && Spine(nodes, nodes[root].left, parts[..|parts| - 1])
  }

  lemma {:induction false} SpineGrows(nodes: seq<CondNode>, more: seq<CondNode>, root: int, parts: seq<int>)
    requires Spine(nodes, root, parts) && nodes <= more
    ensures Spine(more, root, parts)
    decreases |parts|
  {
    if |parts| > 1 {
      SpineGrows(nodes, more, nodes[root].left, parts[..|parts| - 1]);
    }
  }

  lemma AddConditionSpine(nodes: seq<CondNode>, root: int, parts: seq<int>, node: int)
    requires Spine(nodes, root, parts) && 0 <= node < |nodes| && root >= -1
    ensures var (more, r) := AddCondition(nodes, root, node);
            nodes <= more && Spine(more, r, parts + [node])
  {
    var (more, r) := AddCondition(nodes, root, node);
    assert (parts + [node])[..|parts|] == parts;
    if parts != [] {
      assert root >= 0;
      SpineGrows(nodes, more, root, parts);
    }
  }

  /** The combined condition holds exactly when every part does. */
  lemma {:induction false} SpineHolds(cond: Condition, root: int, parts: seq<int>, subs: Subqueries, row: Row)
    requires ConditionOk(cond, |subs|) && RowBuffer(row) && parts != [] && Spine(cond.nodes, root, parts)
    requires forall i :: 0 <= i < |parts| ==> 0 <= parts[i] < |cond.nodes|
    ensures EvaluateCondition(cond, root, subs, row) == True
       <==> forall i :: 0 <= i < |parts| ==> EvaluateCondition(cond, parts[i], subs, row) == True
    decreases |parts|
  {
    if |parts| > 1 {
      var front, left := parts[..|parts| - 1], cond.nodes[root].left;
      assert CondNodeOk(cond.nodes, root, |subs|);
      SpineHolds(cond, left, front, subs, row);
      assert forall i :: 0 <= i < |front| ==> front[i] == parts[i];
      assert parts[|parts| - 1] == cond.nodes[root].right;
    }
  }

  /** The inner ONs of the first t tables, in FROM order. */
  function InnerOns(tables: seq<Table>, t: nat): seq<int>
    requires t <= |tables|
  {
    if t == 0 then []
    else InnerOns(tables, t - 1) + if tables[t - 1].outer || tables[t - 1].on < 0 then [] else [tables[t - 1].on]
  }

  function Parts(q: Query): seq<int> {
    InnerOns(q.tables, |q.tables|) + if q.filter < 0 then [] else [q.filter]
  }

  /** Every ON reads only tables up to its own. */
  ghost predicate OnOk(q: Query, t: nat)
    requires t < |q.tables| && ConditionOk(q.cond, |q.subs|)
  {
    var on := q.tables[t].on;
    && on >= -1
    && (q.tables[t].outer ==> on >= 0)
    && (on >= 0 ==> RootOk(q, on) && NodeReadsTo(q.cond, on, |q.subs|, Base(q.tables, t + 1) - 1))
  }

  ghost predicate QueryOk(q: Query) {
    && ConditionOk(q.cond, |q.subs|)
    && (forall t :: 0 <= t < |q.tables| ==> TableOk(q.tables[t]))
    && (forall t :: 0 <= t < |q.tables| ==> OnOk(q, t))
    && Base(q.tables, |q.tables|) <= MAX_COLS
    && (q.filter >= 0 ==> RootOk(q, q.filter))
    && Spine(q.cond.nodes, q.whereRoot, Parts(q))
    && ReadsTo(q.cond, |q.cond.nodes|, Base(q.tables, |q.tables|) - 1)
  }

  // ---------- what the executor does ----------

  predicate Holds(q: Query, node: int, row: Row)
    requires ConditionOk(q.cond, |q.subs|) && RootOk(q, node) && |row| <= MAX_COLS
  {
    EvaluateCondition(q.cond, node, q.subs, Buffer(row)) == True
  }

  function NullRow(kinds: seq<ColType>): (row: Row)
    ensures |row| == |kinds| && forall c :: 0 <= c < |row| ==> row[c] == Null(kinds[c])
  {
    seq(|kinds|, c requires 0 <= c < |kinds| => Null(kinds[c]))
  }

  ghost predicate PrefixOk(q: Query, t: nat, prefix: Row) {
    t <= |q.tables| && |prefix| == Base(q.tables, t) && |prefix| <= MAX_COLS
  }

  lemma PrefixFits(q: Query, t: nat, prefix: Row)
    requires QueryOk(q) && t < |q.tables| && |prefix| == Base(q.tables, t)
    ensures PrefixOk(q, t, prefix) && Base(q.tables, t + 1) <= MAX_COLS
  {
    BaseGrows(q.tables, t, |q.tables|);
    BaseGrows(q.tables, t + 1, |q.tables|);
  }

  /** Whether row k of table t may pair with a prefix: only a LEFT JOIN asks at its own level. */
  ghost predicate Pairs(q: Query, t: nat, prefix: Row, k: nat)
    requires QueryOk(q) && t < |q.tables| && PrefixOk(q, t, prefix) && k < |q.tables[t].rows|
  {
    PrefixFits(q, t, prefix);
    assert OnOk(q, t) && TableOk(q.tables[t]);
    q.tables[t].outer ==> Holds(q, q.tables[t].on, prefix + q.tables[t].rows[k])
  }

  /** Everything but a LEFT JOIN's ON, at the leaf. */
  ghost predicate Accepted(q: Query, row: Row)
    requires QueryOk(q) && |row| <= MAX_COLS
  {
    q.whereRoot >= 0 ==> RootOk(q, q.whereRoot) && Holds(q, q.whereRoot, row)
  }

  /** joinTables at level t, with the tables before it settled. */
  ghost function JoinFrom(q: Query, t: nat, prefix: Row): seq<Row>
    requires QueryOk(q) && PrefixOk(q, t, prefix)
    decreases |q.tables| - t, if t < |q.tables| then |q.tables[t].rows| + 1 else 0
  {
    if t == |q.tables| then (if Accepted(q, prefix) then [prefix] else [])
    else
      PrefixFits(q, t, prefix);
      var table := q.tables[t];
      JoinRows(q, t, prefix, |table.rows|)
        + if table.outer && Unmatched(q, t, prefix, |table.rows|)
          then JoinFrom(q, t + 1, prefix + NullRow(table.kinds)) else []
  }

  /** The part of that which the first k rows of table t account for. */
  ghost function JoinRows(q: Query, t: nat, prefix: Row, k: nat): seq<Row>
    requires QueryOk(q) && t < |q.tables| && PrefixOk(q, t, prefix) && k <= |q.tables[t].rows|
    decreases |q.tables| - t, k
  {
    if k == 0 then []
    else
      PrefixFits(q, t, prefix);
      assert TableOk(q.tables[t]);
      JoinRows(q, t, prefix, k - 1)
        + if Pairs(q, t, prefix, k - 1) then JoinFrom(q, t + 1, prefix + q.tables[t].rows[k - 1]) else []
  }

  /** None of the first k rows of table t pairs with the prefix. */
  ghost predicate Unmatched(q: Query, t: nat, prefix: Row, k: nat)
    requires QueryOk(q) && t < |q.tables| && PrefixOk(q, t, prefix) && k <= |q.tables[t].rows|
  {
    forall i :: 0 <= i < k ==> !Pairs(q, t, prefix, i)
  }

  // ---------- what a FROM list means ----------

  /** One prefix joined with table t: the rows its ON pairs it with, or NULLs if the join is outer. */
  ghost predicate Joined(q: Query, t: nat, prefix: Row, k: nat)
    requires QueryOk(q) && t < |q.tables| && PrefixOk(q, t, prefix) && k < |q.tables[t].rows|
  {
    PrefixFits(q, t, prefix);
    assert OnOk(q, t) && TableOk(q.tables[t]);
    q.tables[t].on >= 0 ==> Holds(q, q.tables[t].on, prefix + q.tables[t].rows[k])
  }

  ghost function JoinedRows(q: Query, t: nat, prefix: Row, k: nat): (rel: seq<Row>)
    requires QueryOk(q) && t < |q.tables| && PrefixOk(q, t, prefix) && k <= |q.tables[t].rows|
    ensures RelationOk(q, t + 1, rel)
  {
    if k == 0 then []
    else
      PrefixFits(q, t, prefix);
      assert TableOk(q.tables[t]);
      JoinedRows(q, t, prefix, k - 1) + if Joined(q, t, prefix, k - 1) then [prefix + q.tables[t].rows[k - 1]] else []
  }

  ghost predicate RelationOk(q: Query, t: nat, rel: seq<Row>) {
    forall i :: 0 <= i < |rel| ==> PrefixOk(q, t, rel[i])
  }

  ghost function JoinPrefix(q: Query, t: nat, prefix: Row): (rel: seq<Row>)
    requires QueryOk(q) && t < |q.tables| && PrefixOk(q, t, prefix)
    ensures RelationOk(q, t + 1, rel)
  {
    PrefixFits(q, t, prefix);
    var table := q.tables[t];
    var rel := JoinedRows(q, t, prefix, |table.rows|);
    if table.outer && rel == [] then [prefix + NullRow(table.kinds)] else rel
  }

  /** One join of the list. */
  ghost function JoinOne(q: Query, t: nat, rel: seq<Row>): (joined: seq<Row>)
    requires QueryOk(q) && t < |q.tables| && RelationOk(q, t, rel)
    ensures RelationOk(q, t + 1, joined)
  {
    if rel == [] then []
    else JoinOne(q, t, rel[..|rel| - 1]) + JoinPrefix(q, t, rel[|rel| - 1])
  }

  /** The first t tables joined one at a time. */
  ghost function JoinAll(q: Query, t: nat): (rel: seq<Row>)
    requires QueryOk(q) && t <= |q.tables|
    ensures RelationOk(q, t, rel)
  {
    if t == 0 then [[]] else JoinOne(q, t - 1, JoinAll(q, t - 1))
  }

  /** The rows the WHERE, as written, keeps. */
  ghost function Filtered(q: Query, rel: seq<Row>): seq<Row>
    requires QueryOk(q) && forall i :: 0 <= i < |rel| ==> |rel[i]| <= MAX_COLS
  {
    if rel == [] then []
    else
      var last := rel[|rel| - 1];
      Filtered(q, rel[..|rel| - 1]) + if q.filter >= 0 && !Holds(q, q.filter, last) then [] else [last]
  }

  // ---------- the two agree ----------

  /** The inner ONs of the first t tables hold. */
  ghost predicate Guard(q: Query, t: nat, row: Row)
    requires QueryOk(q) && t <= |q.tables| && |row| <= MAX_COLS
  {
    forall u :: 0 <= u < t ==> OnHolds(q, u, row)
  }

  ghost predicate OnHolds(q: Query, u: nat, row: Row)
    requires QueryOk(q) && u < |q.tables| && |row| <= MAX_COLS
  {
    assert OnOk(q, u);
    q.tables[u].outer || q.tables[u].on < 0 || Holds(q, q.tables[u].on, row)
  }

  ghost predicate AllHold(q: Query, parts: seq<int>, row: Row)
    requires QueryOk(q) && |row| <= MAX_COLS
  {
    forall i :: 0 <= i < |parts| ==> RootOk(q, parts[i]) && Holds(q, parts[i], row)
  }

  lemma AllHoldAppend(q: Query, parts: seq<int>, last: int, row: Row)
    requires QueryOk(q) && |row| <= MAX_COLS
    ensures AllHold(q, parts + [last], row) <==> AllHold(q, parts, row) && RootOk(q, last) && Holds(q, last, row)
  {
    var all := parts + [last];
    assert all[|parts|] == last;
    assert forall i :: 0 <= i < |parts| ==> all[i] == parts[i];
  }

  lemma {:induction false} GuardIsParts(q: Query, t: nat, row: Row)
    requires QueryOk(q) && t <= |q.tables| && |row| <= MAX_COLS
    ensures Guard(q, t, row) <==> AllHold(q, InnerOns(q.tables, t), row)
    decreases t
  {
    if t > 0 {
      GuardIsParts(q, t - 1, row);
      assert OnOk(q, t - 1);
      assert Guard(q, t, row) <==> Guard(q, t - 1, row) && OnHolds(q, t - 1, row);
      var before, table := InnerOns(q.tables, t - 1), q.tables[t - 1];
      if table.outer || table.on < 0 {
        assert InnerOns(q.tables, t) == before;
      } else {
        AllHoldAppend(q, before, table.on, row);
      }
    }
  }

  lemma {:induction false} PartsAreRoots(q: Query, t: nat)
    requires QueryOk(q) && t <= |q.tables|
    ensures forall i :: 0 <= i < |InnerOns(q.tables, t)| ==> RootOk(q, InnerOns(q.tables, t)[i])
    decreases t
  {
    if t > 0 {
      PartsAreRoots(q, t - 1);
      assert OnOk(q, t - 1);
    }
  }

  /** At the leaf the combined condition is the inner ONs and the WHERE together. */
  lemma AcceptedIs(q: Query, row: Row)
    requires QueryOk(q) && |row| <= MAX_COLS
    ensures Accepted(q, row) <==> Guard(q, |q.tables|, row) && (q.filter >= 0 ==> Holds(q, q.filter, row))
  {
    var ons, parts := InnerOns(q.tables, |q.tables|), Parts(q);
    GuardIsParts(q, |q.tables|, row);
    PartsAreRoots(q, |q.tables|);
    if q.filter >= 0 {
      AllHoldAppend(q, ons, q.filter, row);
    } else {
      assert parts == ons;
    }
    AcceptedIsParts(q, row);
  }

  lemma AcceptedIsParts(q: Query, row: Row)
    requires QueryOk(q) && |row| <= MAX_COLS
    ensures Accepted(q, row) <==> AllHold(q, Parts(q), row)
  {
    var parts := Parts(q);
    PartsAreRoots(q, |q.tables|);
    if parts != [] {
      SpineHolds(q.cond, q.whereRoot, parts, q.subs, Buffer(row));
    }
  }

  /** A condition that reads only a prefix does not see what is appended to it. */
  lemma HoldsOfPrefix(q: Query, node: int, prefix: Row, more: Row)
    requires QueryOk(q) && RootOk(q, node) && |prefix + more| <= MAX_COLS
    requires NodeReadsTo(q.cond, node, |q.subs|, |prefix| - 1)
    ensures Holds(q, node, prefix + more) == Holds(q, node, prefix)
  {
    NodeReadsOnlyTo(q.cond, node, q.subs, Buffer(prefix + more), Buffer(prefix), |prefix| - 1);
  }

  lemma {:induction false} ReadsFurther(cond: Condition, node: int, subqueries: nat, a: int, b: int)
    requires ConditionOk(cond, subqueries) && 0 <= node < |cond.nodes| && a <= b && NodeReadsTo(cond, node, subqueries, a)
    ensures NodeReadsTo(cond, node, subqueries, b)
    decreases node
  {
    assert CondNodeOk(cond.nodes, node, subqueries);
    match cond.nodes[node]
    case Compare(_, _, _, _) =>
    case Not(left) => ReadsFurther(cond, left, subqueries, a, b);
    case And(left, right) =>
      ReadsFurther(cond, left, subqueries, a, b);
      ReadsFurther(cond, right, subqueries, a, b);
    case Or(left, right) =>
      ReadsFurther(cond, left, subqueries, a, b);
      ReadsFurther(cond, right, subqueries, a, b);
  }

  lemma GuardExtends(q: Query, t: nat, prefix: Row, more: Row)
    requires QueryOk(q) && t < |q.tables| && PrefixOk(q, t, prefix) && PrefixOk(q, t + 1, prefix + more)
    ensures Guard(q, t + 1, prefix + more) <==> Guard(q, t, prefix) && OnHolds(q, t, prefix + more)
  {
    forall u | 0 <= u < t ensures OnHolds(q, u, prefix + more) == OnHolds(q, u, prefix) {
      assert OnOk(q, u);
      if !q.tables[u].outer && q.tables[u].on >= 0 {
        BaseGrows(q.tables, u + 1, t);
        ReadsFurther(q.cond, q.tables[u].on, |q.subs|, Base(q.tables, u + 1) - 1, |prefix| - 1);
        HoldsOfPrefix(q, q.tables[u].on, prefix, more);
      }
    }
  }

  /** The remaining joins, one at a time, on whatever the first t produced. */
  ghost function JoinRest(q: Query, t: nat, rel: seq<Row>): (joined: seq<Row>)
    requires QueryOk(q) && t <= |q.tables| && RelationOk(q, t, rel)
    ensures RelationOk(q, |q.tables|, joined)
    decreases |q.tables| - t
  {
    if t == |q.tables| then rel else JoinRest(q, t + 1, JoinOne(q, t, rel))
  }

  lemma JoinOneLast(q: Query, t: nat, rel: seq<Row>, last: Row)
    requires QueryOk(q) && t < |q.tables| && RelationOk(q, t, rel) && PrefixOk(q, t, last)
    ensures RelationOk(q, t, rel + [last])
    ensures JoinOne(q, t, rel + [last]) == JoinOne(q, t, rel) + JoinPrefix(q, t, last)
  {
    hide QueryOk, JoinPrefix, PrefixOk;
    assert (rel + [last])[..|rel + [last]| - 1] == rel;
  }

  lemma {:induction false} JoinOneConcat(q: Query, t: nat, a: seq<Row>, b: seq<Row>)
    requires QueryOk(q) && t < |q.tables| && RelationOk(q, t, a) && RelationOk(q, t, b)
    ensures RelationOk(q, t, a + b)
    ensures JoinOne(q, t, a + b) == JoinOne(q, t, a) + JoinOne(q, t, b)
  {
    hide QueryOk, JoinPrefix, PrefixOk;
    if b == [] {
      assert a + b == a;
      assert JoinOne(q, t, b) == [];
    } else {
      hide JoinOne;
      var front, last := b[..|b| - 1], b[|b| - 1];
      JoinOneConcat(q, t, a, front);
      JoinOneLast(q, t, front, last);
      JoinOneLast(q, t, a + front, last);
      assert front + [last] == b && (a + front) + [last] == a + b;
    }
  }

  lemma RelationConcat(q: Query, t: nat, a: seq<Row>, b: seq<Row>)
    requires RelationOk(q, t, a) && RelationOk(q, t, b)
    ensures RelationOk(q, t, a + b)
  {
  }

  lemma JoinRestStep(q: Query, t: nat, rel: seq<Row>)
    requires QueryOk(q) && t <= |q.tables| && RelationOk(q, t, rel)
    ensures JoinRest(q, t, rel) == if t == |q.tables| then rel else JoinRest(q, t + 1, JoinOne(q, t, rel))
  {
  }

  lemma {:induction false} JoinRestConcat(q: Query, t: nat, a: seq<Row>, b: seq<Row>)
    requires QueryOk(q) && t <= |q.tables| && RelationOk(q, t, a) && RelationOk(q, t, b)
    ensures RelationOk(q, t, a + b)
    ensures JoinRest(q, t, a + b) == JoinRest(q, t, a) + JoinRest(q, t, b)
    decreases |q.tables| - t
  {
    hide QueryOk, JoinOne, JoinRest, RelationOk;
    RelationConcat(q, t, a, b);
    JoinRestStep(q, t, a);
    JoinRestStep(q, t, b);
    JoinRestStep(q, t, a + b);
    if t < |q.tables| {
      JoinOneConcat(q, t, a, b);
      JoinRestConcat(q, t + 1, JoinOne(q, t, a), JoinOne(q, t, b));
    }
  }

  lemma {:induction false} FilteredConcat(q: Query, a: seq<Row>, b: seq<Row>)
    requires QueryOk(q) && forall i :: 0 <= i < |a| ==> |a[i]| <= MAX_COLS
    requires forall i :: 0 <= i < |b| ==> |b[i]| <= MAX_COLS
    ensures Filtered(q, a + b) == Filtered(q, a) + Filtered(q, b)
  {
    hide QueryOk, Holds;
    if b == [] {
      assert a + b == a;
    } else {
      var front := b[..|b| - 1];
      FilteredConcat(q, a, front);
      assert (a + b)[..|a + b| - 1] == a + front;
    }
  }

  /** What is left to do from level t on, done one join at a time and filtered at the end. */
  ghost function Rest(q: Query, t: nat, rel: seq<Row>): seq<Row>
    requires QueryOk(q) && t <= |q.tables| && RelationOk(q, t, rel)
  {
    Filtered(q, JoinRest(q, t, rel))
  }

  lemma RestConcat(q: Query, t: nat, a: seq<Row>, b: seq<Row>)
    requires QueryOk(q) && t <= |q.tables| && RelationOk(q, t, a) && RelationOk(q, t, b)
    ensures RelationOk(q, t, a + b)
    ensures Rest(q, t, a + b) == Rest(q, t, a) + Rest(q, t, b)
  {
    JoinRestConcat(q, t, a, b);
    FilteredConcat(q, JoinRest(q, t, a), JoinRest(q, t, b));
  }

  lemma {:induction false} RestOfNothing(q: Query, t: nat)
    requires QueryOk(q) && t <= |q.tables|
    ensures Rest(q, t, []) == []
    decreases |q.tables| - t
  {
    if t < |q.tables| {
      RestOfNothing(q, t + 1);
    }
  }

  /** Depth first from a prefix: nothing if an inner ON already failed, else the rest of the joins. */
  lemma {:induction false} DepthFirst(q: Query, t: nat, prefix: Row)
    requires QueryOk(q) && PrefixOk(q, t, prefix)
    ensures JoinFrom(q, t, prefix) == if Guard(q, t, prefix) then Rest(q, t, [prefix]) else []
    decreases |q.tables| - t, if t < |q.tables| then |q.tables[t].rows| + 1 else 0
  {
    hide QueryOk, Guard, Holds, JoinFrom, JoinRows, Unmatched, Rest, JoinedRows, NullRow;
    if t == |q.tables| {
      LeafFirst(q, prefix);
    } else {
      JoinFromLevel(q, t, prefix);
      DepthFirstRows(q, t, prefix, |q.tables[t].rows|);
      RestLevel(q, t, prefix);
      RestOfNothing(q, t + 1);
      if q.tables[t].outer {
        var nulls := NullRow(q.tables[t].kinds);
        OuterMatches(q, t, prefix, |q.tables[t].rows|);
        DepthFirst(q, t + 1, prefix + nulls);
        GuardExtends(q, t, prefix, nulls);
      }
    }
  }

  lemma JoinFromLevel(q: Query, t: nat, prefix: Row)
    requires QueryOk(q) && t < |q.tables| && PrefixOk(q, t, prefix)
    ensures var table, nulls := q.tables[t], NullRow(q.tables[t].kinds);
            && PrefixOk(q, t + 1, prefix + nulls)
            && JoinFrom(q, t, prefix)
               == JoinRows(q, t, prefix, |table.rows|)
                  + if table.outer && Unmatched(q, t, prefix, |table.rows|) then JoinFrom(q, t + 1, prefix + nulls) else []
  {
    hide Unmatched, JoinRows;
    PrefixFits(q, t, prefix);
  }

  lemma RestLevel(q: Query, t: nat, prefix: Row)
    requires QueryOk(q) && t < |q.tables| && PrefixOk(q, t, prefix)
    ensures RelationOk(q, t, [prefix]) && Rest(q, t, [prefix]) == Rest(q, t + 1, JoinPrefix(q, t, prefix))
  {
    hide JoinOne, JoinPrefix, Filtered;
    JoinOneSingle(q, t, prefix);
  }

  lemma LeafFirst(q: Query, prefix: Row)
    requires QueryOk(q) && PrefixOk(q, |q.tables|, prefix)
    ensures JoinFrom(q, |q.tables|, prefix) == if Guard(q, |q.tables|, prefix) then Rest(q, |q.tables|, [prefix]) else []
  {
    AcceptedIs(q, prefix);
    assert [prefix][..0] == [];
    assert Filtered(q, []) == [];
  }

  lemma JoinOneSingle(q: Query, t: nat, prefix: Row)
    requires QueryOk(q) && t < |q.tables| && PrefixOk(q, t, prefix)
    ensures RelationOk(q, t, [prefix]) && JoinOne(q, t, [prefix]) == JoinPrefix(q, t, prefix)
  {
    assert [prefix][..0] == [];
    assert JoinOne(q, t, []) == [];
  }

  /** An outer level asks its ON itself, so it pairs exactly what the join pairs. */
  lemma {:induction false} OuterMatches(q: Query, t: nat, prefix: Row, k: nat)
    requires QueryOk(q) && t < |q.tables| && PrefixOk(q, t, prefix) && k <= |q.tables[t].rows| && q.tables[t].outer
    ensures Unmatched(q, t, prefix, k) <==> JoinedRows(q, t, prefix, k) == []
    decreases k
  {
    assert OnOk(q, t);
    hide QueryOk, Holds, Base;
    if k > 0 {
      OuterMatches(q, t, prefix, k - 1);
      assert Pairs(q, t, prefix, k - 1) == Joined(q, t, prefix, k - 1);
    }
  }

  lemma RelationOfOne(q: Query, t: nat, prefix: Row)
    requires PrefixOk(q, t, prefix)
    ensures RelationOk(q, t, [prefix])
  {
  }

  lemma NoRows(q: Query, t: nat, prefix: Row)
    requires QueryOk(q) && t < |q.tables| && PrefixOk(q, t, prefix)
    ensures JoinRows(q, t, prefix, 0) == [] && Rest(q, t + 1, JoinedRows(q, t, prefix, 0)) == []
  {
    RestOfNothing(q, t + 1);
  }

  lemma JoinRowsStep(q: Query, t: nat, prefix: Row, k: nat)
    requires QueryOk(q) && t < |q.tables| && PrefixOk(q, t, prefix) && 0 < k <= |q.tables[t].rows|
    ensures var next := prefix + q.tables[t].rows[k - 1];
            && PrefixOk(q, t + 1, next)
            && JoinRows(q, t, prefix, k)
               == JoinRows(q, t, prefix, k - 1) + (if Pairs(q, t, prefix, k - 1) then JoinFrom(q, t + 1, next) else [])
            && JoinedRows(q, t, prefix, k)
               == JoinedRows(q, t, prefix, k - 1) + (if Joined(q, t, prefix, k - 1) then [next] else [])
            && (Pairs(q, t, prefix, k - 1) && OnHolds(q, t, next) <==> Joined(q, t, prefix, k - 1))
  {
    PrefixFits(q, t, prefix);
    assert TableOk(q.tables[t]) && OnOk(q, t);
    hide QueryOk, Holds, JoinFrom;
  }

  lemma {:induction false} DepthFirstRows(q: Query, t: nat, prefix: Row, k: nat)
    requires QueryOk(q) && t < |q.tables| && PrefixOk(q, t, prefix) && k <= |q.tables[t].rows|
    ensures JoinRows(q, t, prefix, k)
         == if Guard(q, t, prefix) then Rest(q, t + 1, JoinedRows(q, t, prefix, k)) else []
    decreases |q.tables| - t, k
  {
    hide QueryOk, Rest, JoinFrom, JoinRows, JoinedRows, Guard, OnHolds, Pairs, Joined, Base, RelationOk;
    if k == 0 {
      NoRows(q, t, prefix);
    } else {
      var next := prefix + q.tables[t].rows[k - 1];
      JoinRowsStep(q, t, prefix, k);
      DepthFirstRows(q, t, prefix, k - 1);
      DepthFirst(q, t + 1, next);
      GuardExtends(q, t, prefix, q.tables[t].rows[k - 1]);
      RelationOfOne(q, t + 1, next);
      RestConcat(q, t + 1, JoinedRows(q, t, prefix, k - 1), [next]);
      assert JoinedRows(q, t, prefix, k - 1) + [] == JoinedRows(q, t, prefix, k - 1);
    }
  }

  lemma {:induction false} JoinRestIs(q: Query, t: nat)
    requires QueryOk(q) && t <= |q.tables|
    ensures JoinRest(q, 0, JoinAll(q, 0)) == JoinRest(q, t, JoinAll(q, t))
    decreases t
  {
    hide QueryOk, JoinOne, RelationOk;
    if t > 0 {
      JoinRestIs(q, t - 1);
    }
  }

  /**
   Testing every inner ON only at the innermost level, and a LEFT JOIN's at its own, produces
   the rows of the joins done one at a time in FROM order and then filtered: the same rows, in
   the same order, with NULLs exactly where an outer join found no partner.
   */
  lemma ChainIsJoins(q: Query)
    requires QueryOk(q)
    ensures JoinFrom(q, 0, []) == Filtered(q, JoinAll(q, |q.tables|))
  {
    DepthFirst(q, 0, []);
    JoinRestIs(q, |q.tables|);
  }
}
