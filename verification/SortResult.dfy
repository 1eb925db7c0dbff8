/** applyOrder as a whole (06_executor.c:2056-2144): pack, sort, permute in place. */
module SortResult {
  import opened Common
  import opened Values
  import opened Ordering
  import opened TopN
  import opened ProbeTable
  import opened OrderBy

  // ---------- what the kept rows are ----------

  /** Everything left out comes after everything chosen. */
  ghost predicate BestRows(rows: seq<Row>, terms: seq<Term>, chosen: seq<nat>)
    requires RowsOk(rows, terms) && Within(chosen, |rows|)
  {
    forall x, j :: 0 <= x < |rows| && x !in chosen && 0 <= j < |chosen| ==> Before(rows, terms, chosen[j], x)
  }

  lemma NotBeforeSelf(rows: seq<Row>, terms: seq<Term>, i: nat, j: nat)
    requires RowsOk(rows, terms) && i < |rows| && j < |rows|
    ensures !Before(rows, terms, i, i)
    ensures !(Before(rows, terms, i, j) && Before(rows, terms, j, i))
  {
    BeforeLaws(rows, terms, i, j, i);
    BeforeLaws(rows, terms, i, i, i);
  }

  /** A row in order is not at a place whose row comes before it. */
  lemma NotEarlier(rows: seq<Row>, terms: seq<Term>, order: seq<nat>, x: nat, m: nat)
    requires RowsOk(rows, terms) && Within(order, |rows|) && InOrder(rows, terms, order) && x in order && m < |order|
    requires forall k :: 0 <= k < m ==> order[k] != x
    ensures x == order[m] || Before(rows, terms, order[m], x)
  {
    var at :| 0 <= at < |order| && order[at] == x;
    assert at >= m;
  }

  /** If the first m places agree, so does the next. */
  lemma NextAgrees(rows: seq<Row>, terms: seq<Term>, chosen: seq<nat>, order: seq<nat>, m: nat)
    requires RowsOk(rows, terms) && Within(chosen, |rows|) && Within(order, |rows|) && m < |chosen| && m < |order|
    requires InOrder(rows, terms, chosen) && BestRows(rows, terms, chosen) && InOrder(rows, terms, order)
    requires chosen[m] in order && forall k :: 0 <= k < m ==> chosen[k] == order[k]
    ensures chosen[m] == order[m]
  {
    hide Before, RowsOk;
    var c, o := chosen[m], order[m];
    NotBeforeSelf(rows, terms, c, o);
    NotBeforeSelf(rows, terms, o, c);
    forall k | 0 <= k < m ensures order[k] != c && chosen[k] != o {
      assert Before(rows, terms, chosen[k], c) && Before(rows, terms, order[k], o);
    }
    NotEarlier(rows, terms, order, c, m);
    if o in chosen {
      NotEarlier(rows, terms, chosen, o, m);
    }
  }

  /** The rows chosen, put in order, agree with the full sort one place after another. */
  lemma {:induction false} AgreesTo(rows: seq<Row>, terms: seq<Term>, chosen: seq<nat>, order: seq<nat>, j: nat)
    requires RowsOk(rows, terms) && Within(chosen, |rows|) && Within(order, |rows|) && j <= |chosen| && |chosen| <= |order|
    requires InOrder(rows, terms, chosen) && BestRows(rows, terms, chosen)
    requires InOrder(rows, terms, order) && forall i :: 0 <= i < |rows| ==> i in order
    ensures forall k :: 0 <= k < j ==> chosen[k] == order[k]
    decreases j
  {
    hide Before, RowsOk, BestRows, InOrder;
    if j > 0 {
      AgreesTo(rows, terms, chosen, order, j - 1);
      NextAgrees(rows, terms, chosen, order, j - 1);
    }
  }

  lemma InOrderIsDistinct(rows: seq<Row>, terms: seq<Term>, order: seq<nat>)
    requires RowsOk(rows, terms) && Within(order, |rows|) && InOrder(rows, terms, order)
    ensures Distinct(order) && |order| <= |rows|
  {
    hide Before, RowsOk;
    forall i, j | 0 <= i < j < |order| ensures order[i] != order[j] {
      NotBeforeSelf(rows, terms, order[i], order[j]);
      assert Before(rows, terms, order[i], order[j]);
    }
    Pigeonhole(order, |rows|);
  }

  /** A list in order that nothing left out comes before is the front of the full sort. */
  lemma BestIsPrefix(rows: seq<Row>, terms: seq<Term>, chosen: seq<nat>)
    requires RowsOk(rows, terms) && Within(chosen, |rows|)
    requires InOrder(rows, terms, chosen) && BestRows(rows, terms, chosen)
    ensures |chosen| <= |rows| && chosen == StableOrder(rows, terms, |rows|)[..|chosen|]
  {
    hide Before, RowsOk, StableOrder, InOrder, BestRows;
    InOrderIsDistinct(rows, terms, chosen);
    StableOrderIs(rows, terms, |rows|);
    AgreesTo(rows, terms, chosen, StableOrder(rows, terms, |rows|), |chosen|);
  }

  lemma SubRowsOk(rows: seq<Row>, terms: seq<Term>, chosen: seq<nat>)
    requires RowsOk(rows, terms) && Within(chosen, |rows|)
    ensures RowsOk(Arranged(rows, chosen), terms)
  {
    var sub := Arranged(rows, chosen);
    forall i, j, t | 0 <= i < |sub| && 0 <= j < |sub| && 0 <= t < |terms| ensures TermOk(sub[i], sub[j], terms[t]) {
      assert TermOk(rows[chosen[i]], rows[chosen[j]], terms[t]);
    }
  }

  /** Positions in a selection, read as positions in what it was selected from. */
  ghost function Through(chosen: seq<nat>, order: seq<nat>): (out: seq<nat>)
    requires Within(order, |chosen|)
    ensures |out| == |order| && forall k :: 0 <= k < |out| ==> out[k] == chosen[order[k]]
  {
    seq(|order|, k requires 0 <= k < |order| => chosen[order[k]])
  }

  /** Sorting only the chosen rows, kept in arrival order, gives the front of the full sort. */
  lemma SortOfBest(rows: seq<Row>, terms: seq<Term>, chosen: seq<nat>)
    requires RowsOk(rows, terms) && Within(chosen, |rows|) && Ascending(chosen) && BestRows(rows, terms, chosen)
    ensures var sub := Arranged(rows, chosen);
            && |chosen| <= |rows| && RowsOk(sub, terms)
            && Arranged(sub, StableOrder(sub, terms, |sub|))
               == Arranged(rows, StableOrder(rows, terms, |rows|))[..|chosen|]
  {
    hide RowsOk, StableOrder, Before, BestRows;
    var sub := Arranged(rows, chosen);
    SubRowsOk(rows, terms, chosen);
    var order := StableOrder(sub, terms, |sub|);
    StableOrderIs(sub, terms, |sub|);
    var through := Through(chosen, order);
    forall a, b | 0 <= a < b < |order| ensures Before(rows, terms, through[a], through[b]) {
      assert Before(sub, terms, order[a], order[b]);
      SubBefore(rows, terms, chosen, order[a], order[b]);
    }
    ThroughBest(rows, terms, chosen, order);
    BestIsPrefix(rows, terms, through);
    var full := Arranged(rows, StableOrder(rows, terms, |rows|));
    assert forall k :: 0 <= k < |order| ==> Arranged(sub, order)[k] == rows[through[k]] == full[k];
  }

  lemma SubBefore(rows: seq<Row>, terms: seq<Term>, chosen: seq<nat>, i: nat, j: nat)
    requires RowsOk(rows, terms) && Within(chosen, |rows|) && Ascending(chosen) && i < |chosen| && j < |chosen|
    requires RowsOk(Arranged(rows, chosen), terms) && Before(Arranged(rows, chosen), terms, i, j)
    ensures Before(rows, terms, chosen[i], chosen[j])
  {
  }

  lemma ThroughBest(rows: seq<Row>, terms: seq<Term>, chosen: seq<nat>, order: seq<nat>)
    requires RowsOk(rows, terms) && Within(chosen, |rows|) && Within(order, |chosen|) && BestRows(rows, terms, chosen)
    requires forall i :: 0 <= i < |chosen| ==> i in order
    ensures Within(Through(chosen, order), |rows|) && BestRows(rows, terms, Through(chosen, order))
  {
    hide Before, RowsOk;
    var through := Through(chosen, order);
    forall i | 0 <= i < |chosen| ensures chosen[i] in through {
      assert i in order;
      var k :| 0 <= k < |order| && order[k] == i;
      assert through[k] == chosen[i];
    }
    forall x, j | 0 <= x < |rows| && x !in through && 0 <= j < |through| ensures Before(rows, terms, through[j], x) {
      assert x !in chosen;
      assert through[j] == chosen[order[j]];
    }
  }

  // ---------- putting rows where the sort says ----------

  ghost predicate Inverse(orig: seq<nat>, inv: seq<nat>) {
    && |inv| == |orig| && Within(orig, |orig|) && Within(inv, |orig|)
    && forall p :: 0 <= p < |orig| ==> orig[inv[p]] == p && inv[orig[p]] == p
  }

  /**
   Half way through following the cycles: places in `todo` are as they were given, except that
   the row of `hole` has been taken out; every other place has the row it is to have. Only the
   cycle that begins at `start` is open.
   */
  ghost predicate Settling(rows: seq<Row>, index: seq<nat>, given: seq<Row>, orig: seq<nat>, inv: seq<nat>,
                           todo: set<nat>, hole: int, start: int)
  {
    && |rows| == |index| == |given| == |orig| && Inverse(orig, inv)
    && (forall p :: 0 <= p < |orig| && p !in todo ==> rows[p] == given[orig[p]] && index[p] == p)
    && (forall p :: 0 <= p < |orig| && p in todo ==> index[p] == orig[p] && (p != hole ==> rows[p] == given[p]))
    && (forall p :: 0 <= p < |orig| && p != start && p !in todo ==> inv[p] !in todo)
  }

  /** What one turn of the inner loop needs: where the next row comes from is not settled yet. */
  lemma SourceIsOpen(rows: seq<Row>, index: seq<nat>, given: seq<Row>, orig: seq<nat>, inv: seq<nat>,
                     todo: set<nat>, at: nat, start: nat)
    requires Settling(rows, index, given, orig, inv, todo, at, start) && at < |orig| && start < |orig| && at in todo
    requires at != start ==> inv[at] !in todo
    requires orig[start] != start
    ensures var from := orig[at];
            from < |orig| && (from != start ==> from in todo && from != at && rows[from] == given[from])
  {
    var from := orig[at];
    assert inv[from] == at;
  }

  /** Settling one place and moving the hole to where its row came from. */
  lemma SettleOne(rows: seq<Row>, index: seq<nat>, given: seq<Row>, orig: seq<nat>, inv: seq<nat>,
                  todo: set<nat>, at: nat, start: nat)
    requires Settling(rows, index, given, orig, inv, todo, at, start) && at < |orig| && start < |orig| && at in todo
    requires at != start ==> inv[at] !in todo
    requires orig[at] != start && orig[at] in todo && orig[at] != at && rows[orig[at]] == given[orig[at]]
    ensures Settling(rows[at := rows[orig[at]]], index[at := at], given, orig, inv, todo - {at}, orig[at], start)
    ensures inv[orig[at]] !in todo - {at}
  {
  }

  /** Settling the last place of a cycle with the row that was held. */
  lemma CloseCycle(rows: seq<Row>, index: seq<nat>, given: seq<Row>, orig: seq<nat>, inv: seq<nat>,
                   todo: set<nat>, at: nat, start: nat)
    requires Settling(rows, index, given, orig, inv, todo, at, start) && at < |orig| && start < |orig| && at in todo
    requires at != start ==> inv[at] !in todo
    requires orig[at] == start
    ensures Settling(rows[at := given[start]], index[at := at], given, orig, inv, todo - {at}, -1, -1)
  {
  }

  ghost function Indices(keys: seq<SortKey>): (index: seq<nat>)
    ensures |index| == |keys| && forall k :: 0 <= k < |keys| ==> index[k] == keys[k].index
  {
    seq(|keys|, k requires 0 <= k < |keys| => keys[k].index)
  }

  /** The inner loop: one cycle, from `start` round to `start`. */
  method FollowCycle(rows: array<Row>, keys: array<SortKey>, n: nat, start: nat,
                     ghost given: seq<Row>, ghost orig: seq<nat>, ghost inv: seq<nat>, ghost todo: set<nat>)
    returns (ghost left: set<nat>)
    requires start < n <= rows.Length && n <= keys.Length && rows != keys as object && |orig| == n
    requires Settling(rows[..n], Indices(keys[..n]), given, orig, inv, todo, -1, -1)
    requires start in todo && keys[start].index != start
    modifies rows, keys
    ensures Settling(rows[..n], Indices(keys[..n]), given, orig, inv, left, -1, -1)
    ensures left <= todo && start !in left
  {
    hide Settling;
    var held := rows[start];
    var at := start;
    left := todo;
    StartCycle(rows[..n], Indices(keys[..n]), given, orig, inv, todo, start);
    while true
      invariant at < n && at in left && left <= todo
      invariant Settling(rows[..n], Indices(keys[..n]), given, orig, inv, left, at, start)
      invariant Within(orig, n) && |inv| == n && orig[start] != start && held == given[start]
      invariant at != start ==> inv[at] !in left && start !in left
      decreases |left|
    {
      ghost var rs, index := rows[..n], Indices(keys[..n]);
      OpenIndex(rs, index, given, orig, inv, left, at, start);
      var from := keys[at].index;
      keys[at] := keys[at].(index := at);
      assert Indices(keys[..n]) == index[at := at];
      if from == start {
        CloseCycle(rs, index, given, orig, inv, left, at, start);
        rows[at] := held;
        assert rows[..n] == rs[at := held];
        left := left - {at};
        return;
      }
      SourceIsOpen(rs, index, given, orig, inv, left, at, start);
      SettleOne(rs, index, given, orig, inv, left, at, start);
      rows[at] := rows[from];
      assert rows[..n] == rs[at := rs[from]];
      left := left - {at};
      at := from;
    }
  }

  lemma StartCycle(rows: seq<Row>, index: seq<nat>, given: seq<Row>, orig: seq<nat>, inv: seq<nat>, todo: set<nat>, start: nat)
    requires Settling(rows, index, given, orig, inv, todo, -1, -1) && start < |orig| && start in todo && index[start] != start
    ensures Settling(rows, index, given, orig, inv, todo, start, start)
    ensures Within(orig, |orig|) && |inv| == |orig| && orig[start] != start && rows[start] == given[start]
  {
  }

  lemma OpenIndex(rows: seq<Row>, index: seq<nat>, given: seq<Row>, orig: seq<nat>, inv: seq<nat>, todo: set<nat>, at: nat, start: int)
    requires Settling(rows, index, given, orig, inv, todo, at, start) && at < |orig| && at in todo
    ensures |index| == |orig| && index[at] == orig[at]
  {
  }

  /** Every place once. */
  ghost predicate Permutation(orig: seq<nat>) {
    Within(orig, |orig|) && Distinct(orig) && forall p :: 0 <= p < |orig| ==> p in orig
  }

  lemma MakeInverse(orig: seq<nat>) returns (inv: seq<nat>)
    requires Permutation(orig)
    ensures Inverse(orig, inv)
  {
    var n := |orig|;
    inv := seq(n, p requires 0 <= p < n && (forall p :: 0 <= p < n ==> p in orig) => PositionOf(orig, p));
    forall p | 0 <= p < n ensures orig[inv[p]] == p && inv[orig[p]] == p {
      var q := inv[orig[p]];
      assert orig[q] == orig[p];
    }
  }

  ghost function Numbers(n: nat): (all: set<nat>)
    ensures forall p :: p in all <==> 0 <= p < n
  {
    if n == 0 then {} else Numbers(n - 1) + {n - 1}
  }

  lemma NothingSettled(rows: seq<Row>, orig: seq<nat>, inv: seq<nat>)
    requires |rows| == |orig| && Inverse(orig, inv)
    ensures Settling(rows, orig, rows, orig, inv, Numbers(|rows|), -1, -1)
  {
  }

  /** A place whose row is already there. */
  lemma SettleFixed(rows: seq<Row>, index: seq<nat>, given: seq<Row>, orig: seq<nat>, inv: seq<nat>, todo: set<nat>, at: nat)
    requires Settling(rows, index, given, orig, inv, todo, -1, -1) && at < |orig| && index[at] == at
    ensures Settling(rows, index, given, orig, inv, todo - {at}, -1, -1)
  {
  }

  lemma AllSettled(rows: seq<Row>, index: seq<nat>, given: seq<Row>, orig: seq<nat>, inv: seq<nat>, todo: set<nat>)
    requires Settling(rows, index, given, orig, inv, todo, -1, -1) && forall p :: 0 <= p < |orig| ==> p !in todo
    ensures Within(orig, |given|) && rows == Arranged(given, orig)
  {
  }

  /** The loop over cycles: every row ends up where the sort puts it, none lost and none copied twice. */
  method Permute(rows: array<Row>, keys: array<SortKey>, n: nat)
    requires n <= rows.Length && n <= keys.Length && rows != keys as object
    requires Permutation(Indices(keys[..n]))
    modifies rows, keys
    ensures Within(Indices(old(keys[..n])), n)
    ensures rows[..n] == Arranged(old(rows[..n]), Indices(old(keys[..n])))
  {
    hide Settling, Inverse, Permutation, Numbers;
    ghost var given, orig := rows[..n], Indices(keys[..n]);
    ghost var inv := MakeInverse(orig);
    ghost var todo := Numbers(n);
    NothingSettled(given, orig, inv);
    for i := 0 to n
      invariant Settling(rows[..n], Indices(keys[..n]), given, orig, inv, todo, -1, -1)
      invariant forall p :: 0 <= p < i ==> p !in todo
    {
      if keys[i].index == i {
        SettleFixed(rows[..n], Indices(keys[..n]), given, orig, inv, todo, i);
        todo := todo - {i};
      } else {
        OpenStart(rows[..n], Indices(keys[..n]), given, orig, inv, todo, i);
        todo := FollowCycle(rows, keys, n, i, given, orig, inv, todo);
      }
    }
    AllSettled(rows[..n], Indices(keys[..n]), given, orig, inv, todo);
  }

  lemma OpenStart(rows: seq<Row>, index: seq<nat>, given: seq<Row>, orig: seq<nat>, inv: seq<nat>, todo: set<nat>, at: nat)
    requires Settling(rows, index, given, orig, inv, todo, -1, -1) && at < |orig| && index[at] != at
    ensures at in todo
  {
  }

  // ---------- packing the kept rows forward ----------

  lemma {:induction false} AscendingIsAbove(s: seq<nat>, j: nat)
    requires Ascending(s) && j < |s|
    ensures j <= s[j]
  {
    if j > 0 {
      AscendingIsAbove(s, j - 1);
    }
  }

  /** The end of selectTop: place j gets the row that key j names, for every j and whatever moved before it. */
  method Pack(rows: array<Row>, keys: array<SortKey>, sorted: seq<SortKey>)
    requires |sorted| <= rows.Length && |sorted| <= keys.Length && rows != keys as object
    requires Ascending(Indices(sorted)) && Within(Indices(sorted), rows.Length)
    modifies rows, keys
    ensures rows[..|sorted|] == Arranged(old(rows[..]), Indices(sorted))
    ensures forall j :: 0 <= j < |sorted| ==> keys[j] == SortKey(sorted[j].first, j)
  {
    hide Ascending, Arranged;
    ghost var given, chosen := rows[..], Indices(sorted);
    for j := 0 to |sorted|
      invariant forall k :: 0 <= k < j ==> rows[k] == given[chosen[k]] && keys[k] == SortKey(sorted[k].first, k)
      invariant forall k :: j <= k < rows.Length ==> rows[k] == given[k]
    {
      AscendingIsAbove(chosen, j);
      if sorted[j].index != j {
        rows[j] := rows[sorted[j].index];
      }
      keys[j] := SortKey(sorted[j].first, j);
    }
  }

  // ---------- the whole of it ----------

  /** The rows a heap kept, in arrival order, are the best. */
  lemma KeptAreBest(rows: seq<Row>, terms: seq<Term>, rank: seq<nat>, kept: seq<SortKey>, sorted: seq<SortKey>)
    requires RanksOk(rows, terms, rank) && KeptOk(rows, terms, rank, kept, |rows|) && Shuffled(kept, sorted)
    requires Ranked(sorted, rank) && SortedBy(rank, true, sorted)
    ensures Within(Indices(sorted), |rows|) && Ascending(Indices(sorted)) && BestRows(rows, terms, Indices(sorted))
  {
    hide Before, Heap, HeapBut;
    var chosen := Indices(sorted);
    ShuffledBest(kept, sorted, rank, |rows|);
    forall i, j | 0 <= i < j < |chosen| ensures chosen[i] < chosen[j] {
      assert Weight(rank, true, sorted[i]) < Weight(rank, true, sorted[j]);
    }
    forall x, j | 0 <= x < |rows| && x !in chosen && 0 <= j < |chosen| ensures Before(rows, terms, chosen[j], x) {
      assert forall k :: 0 <= k < |sorted| ==> chosen[k] == sorted[k].index;
      assert !Has(sorted, x);
      assert RankAt(sorted, rank, j) < rank[x];
    }
  }

  /** selectTop: the best rows, packed to the front in arrival order, with fresh keys for them. */
  method SelectTop(rows: array<Row>, terms: seq<Term>, keys: array<SortKey>, wanted: nat) returns (ghost chosen: seq<nat>)
    requires 0 < wanted <= rows.Length == keys.Length && rows != keys as object && RowsOk(rows[..], terms)
    requires KeysOk(rows[..], terms, keys[..]) && Untouched(keys[..], 0)
    modifies rows, keys
    ensures |chosen| == wanted && Within(chosen, rows.Length) && Ascending(chosen)
    ensures BestRows(old(rows[..]), terms, chosen) && rows[..wanted] == Arranged(old(rows[..]), chosen)
    ensures KeysOk(rows[..wanted], terms, keys[..wanted]) && Untouched(keys[..wanted], 0)
  {
    hide RowsOk, KeyOk, KeptOk, RanksOk, Shuffled, SortedBy, BestRows, Ranked;
    ghost var given := rows[..];
    ghost var rank := Ranks(given, terms);
    KeepBest(rows[..], terms, keys, wanted, rank);
    ghost var kept := keys[..wanted];
    KeptParts(given, terms, rank, kept);
    var sorted := QSort(rows[..], terms, true, keys[..wanted], rank);
    KeptAreBest(given, terms, rank, kept, sorted);
    ShuffledLength(kept, sorted);
    Pack(rows, keys, sorted);
    chosen := Indices(sorted);
    PackedOk(given, terms, sorted, rows[..wanted], keys[..wanted]);
  }

  lemma KeptParts(rows: seq<Row>, terms: seq<Term>, rank: seq<nat>, kept: seq<SortKey>)
    requires KeptOk(rows, terms, rank, kept, |rows|)
    ensures KeysOk(rows, terms, kept) && Unique(kept)
  {
  }

  lemma ShuffledLength(a: seq<SortKey>, b: seq<SortKey>)
    requires Shuffled(a, b)
    ensures |a| == |b|
  {
  }

  lemma PackedOk(given: seq<Row>, terms: seq<Term>, sorted: seq<SortKey>, rows: seq<Row>, keys: seq<SortKey>)
    requires KeysOk(given, terms, sorted) && Within(Indices(sorted), |given|) && rows == Arranged(given, Indices(sorted))
    requires |keys| == |sorted| && forall j :: 0 <= j < |sorted| ==> keys[j] == SortKey(sorted[j].first, j)
    ensures KeysOk(rows, terms, keys) && Untouched(keys, 0)
  {
    forall j | 0 <= j < |keys| ensures KeyOk(rows, terms, keys[j]) {
      assert KeyOk(given, terms, sorted[j]);
    }
  }

  /** Sorting all of the given keys lists every row once, in the order of the full sort. */
  lemma SortedIsStable(rows: seq<Row>, terms: seq<Term>, rank: seq<nat>, keys: seq<SortKey>, sorted: seq<SortKey>)
    requires RanksOk(rows, terms, rank) && |keys| == |rows| && Untouched(keys, 0) && Shuffled(keys, sorted)
    requires Ranked(sorted, rank) && SortedBy(rank, false, sorted)
    ensures Indices(sorted) == StableOrder(rows, terms, |rows|)
    ensures Permutation(Indices(sorted))
  {
    hide Before, StableOrder;
    var order := Indices(sorted);
    forall p | 0 <= p < |rows| ensures p in order {
      assert keys[p].index == p;
      ShuffledHas(keys, sorted, p);
      var j :| 0 <= j < |sorted| && sorted[j].index == p;
      assert order[j] == p;
    }
    forall a, b | 0 <= a < b < |order| ensures Before(rows, terms, order[a], order[b]) {
      assert Weight(rank, false, sorted[a]) < Weight(rank, false, sorted[b]);
    }
    assert Unique(keys);
    BestIsPrefix(rows, terms, order);
    assert StableOrder(rows, terms, |rows|)[..|rows|] == StableOrder(rows, terms, |rows|);
  }

  /** The sort and the shuffle, over the first n rows. */
  method SortRows(rows: array<Row>, terms: seq<Term>, keys: array<SortKey>, n: nat)
    requires n <= rows.Length && n <= keys.Length && rows != keys as object && RowsOk(rows[..n], terms)
    requires KeysOk(rows[..n], terms, keys[..n]) && Untouched(keys[..n], 0)
    modifies rows, keys
    ensures rows[..n] == Arranged(old(rows[..n]), StableOrder(old(rows[..n]), terms, n))
  {
    hide RowsOk, KeyOk, RanksOk, Shuffled, SortedBy, Ranked, StableOrder;
    ghost var given := rows[..n];
    ghost var rank := Ranks(given, terms);
    var sorted := QSort(rows[..n], terms, false, keys[..n], rank);
    ShuffledLength(keys[..n], sorted);
    SortedIsStable(given, terms, rank, keys[..n], sorted);
    for j := 0 to n
      invariant keys[..j] == sorted[..j] && rows[..n] == given
    {
      keys[j] := sorted[j];
      assert keys[..j + 1] == keys[..j] + [sorted[j]];
    }
    assert keys[..n] == sorted;
    Permute(rows, keys, n);
  }

  /**
   applyOrder: the result is left holding the first rows of the full stable sort by all the
   terms - all of them, or as many as the limit asks for.
   */
  method ApplyOrder(rows: array<Row>, terms: seq<Term>, limit: int) returns (nrows: nat)
    requires RowsOk(rows[..], terms)
    modifies rows
    ensures terms == [] ==> nrows == rows.Length && rows[..] == old(rows[..])
    ensures terms != [] ==>
              && nrows == (if 0 <= limit < rows.Length then limit else rows.Length)
              && rows[..nrows] == Arranged(old(rows[..]), StableOrder(old(rows[..]), terms, rows.Length))[..nrows]
              && ByValues(old(rows[..]), terms, StableOrder(old(rows[..]), terms, rows.Length))
  {
    hide RowsOk, KeyOk, StableOrder, BestRows, ByValues;
    nrows := rows.Length;
    if terms == [] {
      return;
    }
    ghost var given := rows[..];
    StableOrderByValues(given, terms);
    var keys := MakeKeys(rows, terms);
    if 0 <= limit < rows.Length {
      if limit == 0 {
        return 0;
      }
      ghost var chosen := SelectTop(rows, terms, keys, limit);
      nrows := limit;
      SortOfBest(given, terms, chosen);
      SortRows(rows, terms, keys, nrows);
    } else {
      assert rows[..nrows] == given && keys[..nrows] == keys[..];
      SortRows(rows, terms, keys, nrows);
      assert Arranged(given, StableOrder(given, terms, nrows))[..nrows] == Arranged(given, StableOrder(given, terms, nrows));
    }
  }

  method MakeKeys(rows: array<Row>, terms: seq<Term>) returns (keys: array<SortKey>)
    requires RowsOk(rows[..], terms) && terms != []
    ensures fresh(keys) && keys.Length == rows.Length
    ensures KeysOk(rows[..], terms, keys[..]) && Untouched(keys[..], 0)
  {
    keys := new SortKey[rows.Length](_ => SortKey(Null(IntType), 0));
    for i := 0 to rows.Length
      invariant forall j :: 0 <= j < i ==> KeyOk(rows[..], terms, keys[j]) && keys[j].index == j
    {
      assert TermOk(rows[..][i], rows[..][i], terms[0]);
      keys[i] := SortKey(rows[i][terms[0].slot], i);
    }
  }
}
