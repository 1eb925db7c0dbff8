/**
 hashJoin (06_executor.c:2482-2623): the second table hashed on its half of an equality, the
 first scanned once against it. It produces exactly the nested loop's rows in exactly the
 nested loop's order, whether or not the build side's keys are unique.
 */
module HashJoin {
  import opened Common
  import opened Values
  import opened Conditions
  import opened Joins
  import opened ProbeTable
  import opened Hashing

  /** A build row's key, its hash, and where the row is. */
  datatype JoinEntry = JoinEntry(key: Value, hash: nat, position: nat)

  const INITIAL_BUCKETS := 16

  ghost predicate TwoTables(q: Query) {
    QueryOk(q) && |q.tables| == 2 && !q.tables[0].outer && !q.tables[1].outer
  }

  /** The queries buildJoin sends here: two tables, inner, with a cross-table equality on the AND spine. */
  ghost predicate Hashable(q: Query, probeSlot: nat, buildSlot: nat) {
    && TwoTables(q) && RootOk(q, q.whereRoot)
    && FindEquiJoin(q.cond, q.whereRoot, |q.tables[0].kinds|, |q.subs|).EquiJoin?
    && FindEquiJoin(q.cond, q.whereRoot, |q.tables[0].kinds|, |q.subs|).probeSlot == probeSlot
    && FindEquiJoin(q.cond, q.whereRoot, |q.tables[0].kinds|, |q.subs|).buildSlot == buildSlot
    && probeSlot < |q.tables[0].kinds| && buildSlot < |q.tables[1].kinds|
  }

  // ---------- the build side ----------

  /** Every build row with a key, under its key, in scan order. */
  ghost predicate EntriesOf(rows: seq<Row>, n: nat, slot: nat, entries: seq<JoinEntry>)
    requires n <= |rows| && forall i :: 0 <= i < |rows| ==> slot < |rows[i]|
  {
    && (forall e :: 0 <= e < |entries| ==>
          && entries[e].position < n
          && entries[e].key == rows[entries[e].position][slot] && !entries[e].key.Null?
          && entries[e].hash == HashValue(entries[e].key))
    && (forall e, f :: 0 <= e < f < |entries| ==> entries[e].position < entries[f].position)
    && (forall i :: 0 <= i < n && !rows[i][slot].Null? ==> exists e :: 0 <= e < |entries| && entries[e].position == i)
  }

  method BuildEntries(rows: seq<Row>, slot: nat) returns (entries: seq<JoinEntry>)
    requires forall i :: 0 <= i < |rows| ==> slot < |rows[i]|
    ensures EntriesOf(rows, |rows|, slot, entries)
  {
    entries := [];
    for i := 0 to |rows|
      invariant EntriesOf(rows, i, slot, entries)
    {
      var key := rows[i][slot];
      if !key.Null? {
        ghost var before := entries;
        entries := entries + [JoinEntry(key, HashValue(key), i)];
        assert forall e :: 0 <= e < |before| ==> entries[e] == before[e];
        assert entries[|before|].position == i;
      }
    }
  }

  /** The bucket each entry belongs to. */
  ghost function Homes(entries: seq<JoinEntry>, n: nat): (homes: seq<nat>)
    requires n > 0
    ensures |homes| == |entries| && forall i :: 0 <= i < |entries| ==> homes[i] == Home(entries[i].hash, n)
  {
    seq(|entries|, i requires 0 <= i < |entries| => Home(entries[i].hash, n))
  }

  lemma SixteenBuckets()
    ensures PowerOfTwo(INITIAL_BUCKETS)
  {
    DoublePowerOfTwo(1);
    DoublePowerOfTwo(2);
    DoublePowerOfTwo(4);
    DoublePowerOfTwo(8);
  }

  /** The table is at least twice as large as what goes into it; `capacity` is what an earlier join left behind. */
  method BuildBuckets(entries: seq<JoinEntry>, capacity: nat) returns (buckets: array<nat>, ghost dist: seq<nat>)
    requires capacity == 0 || PowerOfTwo(capacity)
    ensures fresh(buckets) && buckets.Length > |entries| && PowerOfTwo(buckets.Length)
    ensures Placed(buckets[..], Homes(entries, buckets.Length), dist)
  {
    hide Placed, Home, PowerOfTwo;
    SixteenBuckets();
    var wanted := INITIAL_BUCKETS;
    while wanted < |entries| * 2
      invariant wanted >= INITIAL_BUCKETS && PowerOfTwo(wanted)
      decreases |entries| * 2 - wanted
    {
      DoublePowerOfTwo(wanted);
      wanted := 2 * wanted;
    }
    wanted := if wanted > capacity then wanted else capacity;
    buckets := new nat[wanted](_ => 0);
    dist := [];
    NothingPlaced(buckets[..]);
    ghost var homes := Homes(entries, wanted);
    for i := 0 to |entries|
      invariant Placed(buckets[..], homes[..i], dist)
    {
      ghost var d := Store(buckets, Home(entries[i].hash, wanted), i, homes[..i], dist);
      dist := dist + [d];
      assert homes[..i + 1] == homes[..i] + [homes[i]];
    }
    assert homes[..|entries|] == homes;
  }

  // ---------- what one probe row is to produce ----------

  /** The combined rows of a prefix with the build rows at some positions. */
  ghost function Combined(prefix: Row, rows: seq<Row>, positions: seq<nat>): (out: seq<Row>)
    requires forall i :: 0 <= i < |positions| ==> positions[i] < |rows|
    ensures |out| == |positions| && forall i :: 0 <= i < |out| ==> out[i] == prefix + rows[positions[i]]
  {
    seq(|positions|, i requires 0 <= i < |positions| => prefix + rows[positions[i]])
  }

  /** Which build rows the WHERE accepts beside this prefix. */
  ghost function AcceptedRows(q: Query, prefix: Row, rows: seq<Row>): (want: seq<bool>)
    requires QueryOk(q) && forall i :: 0 <= i < |rows| ==> |prefix + rows[i]| <= MAX_COLS
    ensures |want| == |rows| && forall i :: 0 <= i < |rows| ==> want[i] == Accepted(q, prefix + rows[i])
  {
    seq(|rows|, i requires 0 <= i < |rows| => Accepted(q, prefix + rows[i]))
  }

  lemma {:induction false} PickedBelow(want: seq<bool>, entries: seq<nat>)
    ensures forall i :: 0 <= i < |Picked(want, entries)| ==> Picked(want, entries)[i] < |want|
  {
    if entries != [] {
      PickedBelow(want, entries[..|entries| - 1]);
    }
  }

  lemma UptoStep(n: nat)
    ensures Upto(n + 1)[..n] == Upto(n) && Upto(n + 1)[n] == n
  {
  }

  lemma WidthsFit(q: Query, p: nat)
    requires TwoTables(q) && p < |q.tables[0].rows|
    ensures PrefixOk(q, 1, q.tables[0].rows[p])
    ensures forall i :: 0 <= i < |q.tables[1].rows| ==> |q.tables[0].rows[p] + q.tables[1].rows[i]| <= MAX_COLS
  {
    assert TableOk(q.tables[0]) && TableOk(q.tables[1]);
    assert Base(q.tables, 1) == |q.tables[0].kinds|;
    assert Base(q.tables, 2) == |q.tables[0].kinds| + |q.tables[1].kinds|;
  }

  /** The nested loop's rows for row p of the first table. */
  ghost function Produced(q: Query, p: nat): seq<Row>
    requires TwoTables(q) && p < |q.tables[0].rows|
  {
    WidthsFit(q, p);
    var prefix, rows := q.tables[0].rows[p], q.tables[1].rows;
    var want := AcceptedRows(q, prefix, rows);
    PickedBelow(want, Upto(|rows|));
    Combined(prefix, rows, Picked(want, Upto(|rows|)))
  }

  lemma LastLevel(q: Query, prefix: Row, i: nat)
    requires TwoTables(q) && PrefixOk(q, 1, prefix) && i < |q.tables[1].rows|
    ensures var row := prefix + q.tables[1].rows[i];
            && PrefixOk(q, 2, row) && Pairs(q, 1, prefix, i)
            && JoinFrom(q, 2, row) == if Accepted(q, row) then [row] else []
  {
    PrefixFits(q, 1, prefix);
    assert TableOk(q.tables[1]);
  }

  /** The inner loop of the nested loop join, over the first n build rows. */
  lemma PickedStep(prefix: Row, rows: seq<Row>, want: seq<bool>, n: nat)
    requires |want| == |rows| && 0 < n <= |rows|
    ensures var before, after := Picked(want, Upto(n - 1)), Picked(want, Upto(n));
            && (forall i :: 0 <= i < |before| ==> before[i] < |rows|)
            && (forall i :: 0 <= i < |after| ==> after[i] < |rows|)
            && Combined(prefix, rows, after)
               == Combined(prefix, rows, before) + if want[n - 1] then [prefix + rows[n - 1]] else []
  {
    PickedBelow(want, Upto(n - 1));
    PickedBelow(want, Upto(n));
    UptoStep(n - 1);
  }

  lemma {:induction false} InnerLoop(q: Query, p: nat, n: nat)
    requires TwoTables(q) && p < |q.tables[0].rows| && n <= |q.tables[1].rows|
    requires PrefixOk(q, 1, q.tables[0].rows[p])
    requires forall i :: 0 <= i < |q.tables[1].rows| ==> |q.tables[0].rows[p] + q.tables[1].rows[i]| <= MAX_COLS
    ensures var prefix, rows := q.tables[0].rows[p], q.tables[1].rows;
            var picked := Picked(AcceptedRows(q, prefix, rows), Upto(n));
            && (forall i :: 0 <= i < |picked| ==> picked[i] < |rows|)
            && JoinRows(q, 1, prefix, n) == Combined(prefix, rows, picked)
    decreases n
  {
    hide QueryOk, Accepted, JoinRows, JoinFrom, JoinedRows, Base, PrefixOk, Upto, Pairs, Joined, OnHolds;
    var prefix, rows := q.tables[0].rows[p], q.tables[1].rows;
    PickedBelow(AcceptedRows(q, prefix, rows), Upto(n));
    if n == 0 {
      NoRows(q, 1, prefix);
    } else {
      LastLevel(q, prefix, n - 1);
      InnerLoop(q, p, n - 1);
      PickedStep(prefix, rows, AcceptedRows(q, prefix, rows), n);
      JoinRowsStep(q, 1, prefix, n);
    }
  }

  lemma FirstLevel(q: Query, p: nat)
    requires TwoTables(q) && p < |q.tables[0].rows| && PrefixOk(q, 1, q.tables[0].rows[p])
    ensures PrefixOk(q, 0, []) && Pairs(q, 0, [], p)
    ensures JoinFrom(q, 1, q.tables[0].rows[p]) == JoinRows(q, 1, q.tables[0].rows[p], |q.tables[1].rows|)
  {
    assert TableOk(q.tables[0]);
  }

  lemma OuterStep(q: Query, n: nat)
    requires TwoTables(q) && 0 < n <= |q.tables[0].rows| && PrefixOk(q, 0, []) && PrefixOk(q, 1, q.tables[0].rows[n - 1])
    requires forall i :: 0 <= i < |q.tables[1].rows| ==> |q.tables[0].rows[n - 1] + q.tables[1].rows[i]| <= MAX_COLS
    ensures JoinRows(q, 0, [], n)
         == JoinRows(q, 0, [], n - 1) + Produced(q, n - 1)
  {
    hide QueryOk, Accepted, JoinRows, JoinFrom, JoinedRows, Base, PrefixOk, AcceptedRows, Picked;
    FirstLevel(q, n - 1);
    JoinRowsStep(q, 0, [], n);
    assert [] + q.tables[0].rows[n - 1] == q.tables[0].rows[n - 1];
    InnerLoop(q, n - 1, |q.tables[1].rows|);
  }

  lemma EmptyPrefix(q: Query)
    requires TwoTables(q)
    ensures PrefixOk(q, 0, [])
  {
  }

  lemma {:induction false} OuterLoop(q: Query, n: nat)
    requires TwoTables(q) && n <= |q.tables[0].rows|
    ensures PrefixOk(q, 0, []) && JoinRows(q, 0, [], n) == ProducedAll(q, n)
    decreases n
  {
    hide QueryOk, JoinRows, Base, PrefixOk, Produced;
    EmptyPrefix(q);
    if n == 0 {
      NoRows(q, 0, []);
    } else {
      OuterLoop(q, n - 1);
      WidthsFit(q, n - 1);
      OuterStep(q, n);
    }
  }

  /** The nested loop's rows for the first n probe rows. */
  ghost function ProducedAll(q: Query, n: nat): seq<Row>
    requires TwoTables(q) && n <= |q.tables[0].rows|
  {
    if n == 0 then []
    else
      ProducedAll(q, n - 1) + Produced(q, n - 1)
  }

  // ---------- the probe side ----------

  /** A pair the WHERE accepts shares a key that is not NULL. */
  lemma PairSharesKey(q: Query, probeSlot: nat, buildSlot: nat, prefix: Row, row: Row)
    requires Hashable(q, probeSlot, buildSlot)
    requires |prefix| == |q.tables[0].kinds| && |row| == |q.tables[1].kinds| && |prefix + row| <= MAX_COLS
    requires Accepted(q, prefix + row)
    ensures !prefix[probeSlot].Null? && prefix[probeSlot] == row[buildSlot]
  {
    var buffer := Buffer(prefix + row);
    EquiJoinNeeded(q.cond, q.whereRoot, |prefix|, q.subs, buffer);
    assert buffer[probeSlot] == (prefix + row)[probeSlot];
    assert buffer[|prefix| + buildSlot] == (prefix + row)[|prefix| + buildSlot];
  }

  ghost predicate EntriesWithin(rows: seq<Row>, entries: seq<JoinEntry>) {
    forall e :: 0 <= e < |entries| ==> entries[e].position < |rows|
  }

  /** Which entries a probe keeps: those with its key whose combined row the WHERE accepts. */
  ghost function Wanted(q: Query, prefix: Row, rows: seq<Row>, entries: seq<JoinEntry>, key: Value): (want: seq<bool>)
    requires QueryOk(q) && EntriesWithin(rows, entries) && forall i :: 0 <= i < |rows| ==> |prefix + rows[i]| <= MAX_COLS
    ensures |want| == |entries|
    ensures forall e :: 0 <= e < |entries| ==>
              want[e] == (entries[e].hash == HashValue(key) && ValuesEqual(entries[e].key, key)
                          && Accepted(q, prefix + rows[entries[e].position]))
  {
    seq(|entries|, e requires 0 <= e < |entries| =>
      entries[e].hash == HashValue(key) && ValuesEqual(entries[e].key, key) && Accepted(q, prefix + rows[entries[e].position]))
  }

  ghost function PositionsOf(entries: seq<JoinEntry>, picked: seq<nat>): (positions: seq<nat>)
    requires forall i :: 0 <= i < |picked| ==> picked[i] < |entries|
    ensures |positions| == |picked| && forall i :: 0 <= i < |picked| ==> positions[i] == entries[picked[i]].position
  {
    seq(|picked|, i requires 0 <= i < |picked| => entries[picked[i]].position)
  }

  lemma AcceptedHasEntry(q: Query, probeSlot: nat, buildSlot: nat, prefix: Row, entries: seq<JoinEntry>, i: nat)
    requires Hashable(q, probeSlot, buildSlot) && |prefix| == |q.tables[0].kinds| && i < |q.tables[1].rows|
    requires forall i :: 0 <= i < |q.tables[1].rows| ==> |prefix + q.tables[1].rows[i]| <= MAX_COLS
    requires forall i :: 0 <= i < |q.tables[1].rows| ==> |q.tables[1].rows[i]| == |q.tables[1].kinds|
    requires EntriesOf(q.tables[1].rows, |q.tables[1].rows|, buildSlot, entries)
    requires Accepted(q, prefix + q.tables[1].rows[i])
    ensures !prefix[probeSlot].Null?
    ensures exists e :: 0 <= e < |entries| && entries[e].position == i
              && Wanted(q, prefix, q.tables[1].rows, entries, prefix[probeSlot])[e]
  {
    var rows := q.tables[1].rows;
    PairSharesKey(q, probeSlot, buildSlot, prefix, rows[i]);
    var e :| 0 <= e < |entries| && entries[e].position == i;
    assert entries[e].key == rows[i][buildSlot];
    SameIsEqual(entries[e].key, prefix[probeSlot]);
    assert Wanted(q, prefix, rows, entries, prefix[probeSlot])[e];
  }

  ghost predicate PositionsAscend(entries: seq<JoinEntry>, n: nat) {
    && (forall e :: 0 <= e < |entries| ==> entries[e].position < n)
    && forall e, f :: 0 <= e < f < |entries| ==> entries[e].position < entries[f].position
  }

  /** An entry is wanted exactly where its row is, and every wanted row has one. */
  ghost predicate SameWants(entries: seq<JoinEntry>, want: seq<bool>, wantRow: seq<bool>) {
    && |want| == |entries|
    && (forall e :: 0 <= e < |entries| && want[e] ==> entries[e].position < |wantRow| && wantRow[entries[e].position])
    && (forall x :: 0 <= x < |wantRow| && wantRow[x] ==> exists e :: 0 <= e < |entries| && entries[e].position == x && want[e])
  }

  lemma PickedAscends(want: seq<bool>)
    ensures Ascending(Picked(want, Upto(|want|)))
    ensures forall x :: x in Picked(want, Upto(|want|)) <==> 0 <= x < |want| && want[x]
    ensures forall i :: 0 <= i < |Picked(want, Upto(|want|))| ==> Picked(want, Upto(|want|))[i] < |want|
  {
    var all := Upto(|want|);
    PickedIs(want, all);
    PickedBelow(want, all);
    forall x | 0 <= x < |want| ensures x in all {
      assert all[x] == x;
    }
  }

  lemma PositionsHave(entries: seq<JoinEntry>, want: seq<bool>, wantRow: seq<bool>, x: nat)
    requires SameWants(entries, want, wantRow)
    ensures var picked := Picked(want, Upto(|want|));
            && (forall i :: 0 <= i < |picked| ==> picked[i] < |entries|)
            && (x in PositionsOf(entries, picked) <==> x < |wantRow| && wantRow[x])
  {
    hide Picked;
    PickedAscends(want);
    var picked := Picked(want, Upto(|want|));
    var positions := PositionsOf(entries, picked);
    if x in positions {
      var i :| 0 <= i < |positions| && positions[i] == x;
      assert picked[i] in picked;
    }
    if x < |wantRow| && wantRow[x] {
      var e :| 0 <= e < |entries| && entries[e].position == x && want[e];
      assert e in picked;
      var i :| 0 <= i < |picked| && picked[i] == e;
      assert positions[i] == x;
    }
  }

  /** Picking entries and picking rows comes to the same positions in the same order. */
  lemma SamePicks(entries: seq<JoinEntry>, want: seq<bool>, wantRow: seq<bool>)
    requires SameWants(entries, want, wantRow) && PositionsAscend(entries, |wantRow|)
    ensures var picked := Picked(want, Upto(|want|));
            && (forall i :: 0 <= i < |picked| ==> picked[i] < |entries|)
            && PositionsOf(entries, picked) == Picked(wantRow, Upto(|wantRow|))
  {
    hide Picked, SameWants;
    PickedAscends(want);
    PickedAscends(wantRow);
    PositionsHave(entries, want, wantRow, 0);
    var picked, kept := Picked(want, Upto(|want|)), Picked(wantRow, Upto(|wantRow|));
    var positions := PositionsOf(entries, picked);
    forall x: nat ensures x in positions <==> x in kept {
      PositionsHave(entries, want, wantRow, x);
    }
    AscendingUnique(positions, kept);
  }

  /** Keeping the wanted entries, oldest first, is what the nested loop does for this row. */
  lemma WantedIsProduced(q: Query, probeSlot: nat, buildSlot: nat, p: nat, prefix: Row, entries: seq<JoinEntry>)
    requires Hashable(q, probeSlot, buildSlot) && p < |q.tables[0].rows| && prefix == q.tables[0].rows[p] && |prefix| == |q.tables[0].kinds|
    requires forall i :: 0 <= i < |q.tables[1].rows| ==> |prefix + q.tables[1].rows[i]| <= MAX_COLS
    requires forall i :: 0 <= i < |q.tables[1].rows| ==> |q.tables[1].rows[i]| == |q.tables[1].kinds|
    requires EntriesOf(q.tables[1].rows, |q.tables[1].rows|, buildSlot, entries)
    ensures var rows := q.tables[1].rows;
            var picked := Picked(Wanted(q, prefix, rows, entries, prefix[probeSlot]), Upto(|entries|));
            && (forall i :: 0 <= i < |picked| ==> picked[i] < |entries|)
            && Combined(prefix, rows, PositionsOf(entries, picked)) == Produced(q, p)
  {
    hide Accepted, ReadsTo, QueryOk, Picked;
    var rows := q.tables[1].rows;
    var want, wantRow := Wanted(q, prefix, rows, entries, prefix[probeSlot]), AcceptedRows(q, prefix, rows);
    forall x | 0 <= x < |wantRow| && wantRow[x] ensures exists e :: 0 <= e < |entries| && entries[e].position == x && want[e] {
      AcceptedHasEntry(q, probeSlot, buildSlot, prefix, entries, x);
    }
    SamePicks(entries, want, wantRow);
  }

  /** A NULL key pairs with nothing. */
  lemma NullProducesNothing(q: Query, probeSlot: nat, buildSlot: nat, p: nat, prefix: Row)
    requires Hashable(q, probeSlot, buildSlot) && p < |q.tables[0].rows| && prefix == q.tables[0].rows[p] && |prefix| == |q.tables[0].kinds| && prefix[probeSlot].Null?
    requires forall i :: 0 <= i < |q.tables[1].rows| ==> |prefix + q.tables[1].rows[i]| <= MAX_COLS
    requires forall i :: 0 <= i < |q.tables[1].rows| ==> |q.tables[1].rows[i]| == |q.tables[1].kinds|
    ensures Produced(q, p) == []
  {
    var rows := q.tables[1].rows;
    var wantRow := AcceptedRows(q, prefix, rows);
    PickedIs(wantRow, Upto(|rows|));
    var kept := Picked(wantRow, Upto(|rows|));
    assert kept != [] ==> kept[0] in kept;
    forall x: nat ensures x !in kept {
      if x < |rows| && Accepted(q, prefix + rows[x]) {
        PairSharesKey(q, probeSlot, buildSlot, prefix, rows[x]);
      }
    }
    assert kept == [];
  }

  // ---------- the join ----------

  /** The rows kept so far along a walk of d buckets. */
  ghost function Walked(q: Query, prefix: Row, rows: seq<Row>, entries: seq<JoinEntry>, key: Value,
                        buckets: seq<nat>, home: nat, d: nat): seq<Row>
    requires QueryOk(q) && EntriesWithin(rows, entries) && forall i :: 0 <= i < |rows| ==> |prefix + rows[i]| <= MAX_COLS
    requires home < |buckets| && d <= |buckets|
    requires forall e :: 0 <= e < d ==> buckets[Slot(home, e, |buckets|)] != 0
  {
    var want, seen := Wanted(q, prefix, rows, entries, key), Seen(buckets, home, d);
    PickedBelow(want, seen);
    Combined(prefix, rows, PositionsOf(entries, Picked(want, seen)))
  }

  lemma WalkedStep(q: Query, prefix: Row, rows: seq<Row>, entries: seq<JoinEntry>, key: Value,
                   buckets: seq<nat>, home: nat, d: nat)
    requires QueryOk(q) && EntriesWithin(rows, entries) && forall i :: 0 <= i < |rows| ==> |prefix + rows[i]| <= MAX_COLS
    requires home < |buckets| && d < |buckets|
    requires forall e :: 0 <= e <= d ==> buckets[Slot(home, e, |buckets|)] != 0
    requires buckets[Slot(home, d, |buckets|)] <= |entries|
    ensures var e := buckets[Slot(home, d, |buckets|)] - 1;
            var row := prefix + rows[entries[e].position];
            Walked(q, prefix, rows, entries, key, buckets, home, d + 1)
            == Walked(q, prefix, rows, entries, key, buckets, home, d)
               + if Wanted(q, prefix, rows, entries, key)[e] then [row] else []
  {
    hide QueryOk, Accepted;
    var want, seen := Wanted(q, prefix, rows, entries, key), Seen(buckets, home, d + 1);
    var e := seen[d];
    assert seen[..d] == Seen(buckets, home, d);
    PickedBelow(want, seen);
    PickedBelow(want, seen[..d]);
  }

  lemma WalkedNone(q: Query, prefix: Row, rows: seq<Row>, entries: seq<JoinEntry>, key: Value, buckets: seq<nat>, home: nat)
    requires QueryOk(q) && EntriesWithin(rows, entries) && forall i :: 0 <= i < |rows| ==> |prefix + rows[i]| <= MAX_COLS
    requires home < |buckets|
    ensures Walked(q, prefix, rows, entries, key, buckets, home, 0) == []
  {
  }

  /** A walk that reached an empty bucket kept what the nested loop keeps. */
  lemma WalkedAll(q: Query, probeSlot: nat, buildSlot: nat, p: nat, prefix: Row, entries: seq<JoinEntry>,
                  buckets: seq<nat>, dist: seq<nat>, home: nat, d: nat)
    requires Hashable(q, probeSlot, buildSlot) && p < |q.tables[0].rows| && prefix == q.tables[0].rows[p] && |prefix| == |q.tables[0].kinds|
    requires forall i :: 0 <= i < |q.tables[1].rows| ==> |prefix + q.tables[1].rows[i]| <= MAX_COLS
    requires forall i :: 0 <= i < |q.tables[1].rows| ==> |q.tables[1].rows[i]| == |q.tables[1].kinds|
    requires EntriesOf(q.tables[1].rows, |q.tables[1].rows|, buildSlot, entries)
    requires buckets != [] && Placed(buckets, Homes(entries, |buckets|), dist)
    requires home == Home(HashValue(prefix[probeSlot]), |buckets|) && d < |buckets|
    requires buckets[Slot(home, d, |buckets|)] == 0
    requires forall e :: 0 <= e < d ==> buckets[Slot(home, e, |buckets|)] != 0
    ensures EntriesWithin(q.tables[1].rows, entries)
    ensures Walked(q, prefix, q.tables[1].rows, entries, prefix[probeSlot], buckets, home, d)
         == Produced(q, p)
  {
    hide QueryOk, Produced, Accepted, HashValue, ValuesEqual, EntriesOf;
    EntriesFit(q.tables[1].rows, buildSlot, entries);
    WalkPicks(buckets, Homes(entries, |buckets|), dist, home, d,
              Wanted(q, prefix, q.tables[1].rows, entries, prefix[probeSlot]));
    WantedIsProduced(q, probeSlot, buildSlot, p, prefix, entries);
  }

  lemma EntriesFit(rows: seq<Row>, slot: nat, entries: seq<JoinEntry>)
    requires forall i :: 0 <= i < |rows| ==> slot < |rows[i]|
    requires EntriesOf(rows, |rows|, slot, entries)
    ensures EntriesWithin(rows, entries)
  {
  }

  /** One entry a probe comes to: kept if it has the key and the WHERE accepts the pair. */
  method Visit(q: Query, row: Row, key: Value, entries: seq<JoinEntry>, e: nat, work: Row, kept: seq<Row>)
    returns (out: seq<Row>, scratch: Row)
    requires TwoTables(q) && RootOk(q, q.whereRoot) && RowBuffer(work)
    requires |row| == |q.tables[0].kinds| && e < |entries| && EntriesWithin(q.tables[1].rows, entries)
    requires forall i :: 0 <= i < |q.tables[1].rows| ==> |q.tables[1].rows[i]| == |q.tables[1].kinds|
    requires |q.tables[0].kinds| + |q.tables[1].kinds| <= MAX_COLS
    ensures RowBuffer(scratch)
    ensures out == kept + if Wanted(q, row, q.tables[1].rows, entries, key)[e]
                          then [row + q.tables[1].rows[entries[e].position]] else []
  {
    hide QueryOk, Accepted, EvaluateCondition, HashValue, ValuesEqual;
    scratch := work;
    out := kept;
    var entry := entries[e];
    if entry.hash != HashValue(key) || !ValuesEqual(entry.key, key) {
      return;
    }
    var built := q.tables[1].rows[entry.position];
    scratch := row + built + scratch[|row| + |built|..];
    JoinedVerdict(q, row, built, scratch);
    if EvaluateCondition(q.cond, q.whereRoot, q.subs, scratch) == True {
      out := out + [scratch[..|row| + |built|]];
    }
  }

  /** The probe of one row of the first table. */
  method Probe(q: Query, probeSlot: nat, buildSlot: nat, work: Row, p: nat, entries: seq<JoinEntry>,
               buckets: seq<nat>, kept: seq<Row>, ghost dist: seq<nat>)
    returns (out: seq<Row>, scratch: Row)
    requires Hashable(q, probeSlot, buildSlot) && p < |q.tables[0].rows| && RowBuffer(work)
    requires forall i :: 0 <= i < |q.tables[0].rows| ==> |q.tables[0].rows[i]| == |q.tables[0].kinds|
    requires forall i :: 0 <= i < |q.tables[1].rows| ==> |q.tables[1].rows[i]| == |q.tables[1].kinds|
    requires |q.tables[0].kinds| + |q.tables[1].kinds| <= MAX_COLS
    requires EntriesOf(q.tables[1].rows, |q.tables[1].rows|, buildSlot, entries)
    requires |buckets| > |entries| && Placed(buckets, Homes(entries, |buckets|), dist)
    ensures RowBuffer(scratch)
    ensures out == kept + Produced(q, p)
  {
    hide QueryOk, Produced, Walked, Wanted, Picked, HashValue, FindEquiJoin, EntriesOf, Sits;
    var row := q.tables[0].rows[p];
    var key := row[probeSlot];
    out, scratch := kept, work;
    if key.Null? {
      NullProducesNothing(q, probeSlot, buildSlot, p, row);
      return;
    }
    var n := |buckets|;
    var at := Home(HashValue(key), n);
    ghost var home, d, rows := at, 0, q.tables[1].rows;
    EntriesFit(rows, buildSlot, entries);
    WalkedNone(q, row, rows, entries, key, buckets, home);
    while buckets[at] != 0
      invariant d < n && at == Slot(home, d, n) && RowBuffer(scratch)
      invariant forall e :: 0 <= e < d ==> buckets[Slot(home, e, n)] != 0
      invariant out == kept + Walked(q, row, rows, entries, key, buckets, home, d)
      decreases n - d
    {
      ProbeEnds(buckets, Homes(entries, n), dist, home, d);
      NextSlotIs(home, d, n);
      WalkedStep(q, row, rows, entries, key, buckets, home, d);
      out, scratch := Visit(q, row, key, entries, buckets[at] - 1, scratch, out);
      at := NextSlot(at, n);
      d := d + 1;
    }
    WalkedAll(q, probeSlot, buildSlot, p, row, entries, buckets, dist, home, d);
  }

  lemma JoinedVerdict(q: Query, row: Row, built: Row, buffer: Row)
    requires TwoTables(q) && RootOk(q, q.whereRoot)
    requires |row| == |q.tables[0].kinds| && |built| == |q.tables[1].kinds|
    requires RowBuffer(buffer) && row + built <= buffer
    ensures ConditionOk(q.cond, |q.subs|)
    ensures buffer[..|row| + |built|] == row + built
    ensures (EvaluateCondition(q.cond, q.whereRoot, q.subs, buffer) == True) == Accepted(q, row + built)
  {
    assert Base(q.tables, 1) == |row|;
    var n := |row + built|;
    assert Base(q.tables, 2) == n;
    assert buffer[..n] == row + built;
    ConditionReadsOnlyTo(q.cond, q.whereRoot, q.subs, buffer, Buffer(row + built), n - 1);
  }

  lemma NestedIs(q: Query)
    requires TwoTables(q)
    ensures PrefixOk(q, 0, []) && JoinFrom(q, 0, []) == ProducedAll(q, |q.tables[0].rows|)
  {
    hide ProducedAll;
    OuterLoop(q, |q.tables[0].rows|);
  }

  lemma RowsAreFull(q: Query)
    requires TwoTables(q)
    ensures forall i :: 0 <= i < |q.tables[0].rows| ==> |q.tables[0].rows[i]| == |q.tables[0].kinds|
    ensures forall i :: 0 <= i < |q.tables[1].rows| ==> |q.tables[1].rows[i]| == |q.tables[1].kinds|
    ensures |q.tables[0].kinds| + |q.tables[1].kinds| <= MAX_COLS
  {
    assert TableOk(q.tables[0]) && TableOk(q.tables[1]);
    assert Base(q.tables, 1) == |q.tables[0].kinds|;
    assert Base(q.tables, 2) == |q.tables[0].kinds| + |q.tables[1].kinds|;
  }

  /** The same rows as the nested loop, in the same order, for every join it is used for. */
  method Join(q: Query, probeSlot: nat, buildSlot: nat, work: Row, capacity: nat) returns (out: seq<Row>)
    requires Hashable(q, probeSlot, buildSlot) && RowBuffer(work) && (capacity == 0 || PowerOfTwo(capacity))
    ensures PrefixOk(q, 0, []) && out == JoinFrom(q, 0, [])
  {
    hide QueryOk, Produced, Placed, EntriesOf, Homes, JoinFrom, Base, PrefixOk, FindEquiJoin;
    RowsAreFull(q);
    NestedIs(q);
    var entries := BuildEntries(q.tables[1].rows, buildSlot);
    var buckets, dist := BuildBuckets(entries, capacity);
    var scratch := work;
    out := [];
    for p := 0 to |q.tables[0].rows|
      invariant RowBuffer(scratch) && Placed(buckets[..], Homes(entries, buckets.Length), dist)
      invariant out == ProducedAll(q, p)
    {
      out, scratch := Probe(q, probeSlot, buildSlot, scratch, p, entries, buckets[..], out, dist);
    }
  }
}
