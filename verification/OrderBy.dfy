/**
 selectTop and applyOrder (06_executor.c:2037-2144): whatever the limit, the result is left
 holding the first rows of the full stable sort, in place and each moved at most once after
 the sort.
 */
module OrderBy {
  import opened Ordering
  import opened TopN

  // ---------- the heap phase ----------

  lemma HoleAtRoot(keys: seq<SortKey>, rank: seq<nat>, at: nat)
    requires Ranked(keys, rank) && Heap(keys, rank, at + 1)
    ensures HeapBut(keys, rank, at, at)
  {
  }

  lemma LeavesAreHeaps(keys: seq<SortKey>, rank: seq<nat>)
    requires Ranked(keys, rank)
    ensures Heap(keys, rank, |keys| / 2)
  {
  }

  lemma RanksDiffer(rows: seq<Row>, terms: seq<Term>, rank: seq<nat>)
    requires RanksOk(rows, terms, rank)
    ensures |rank| == |rows|
    ensures forall i, j :: 0 <= i < |rank| && 0 <= j < |rank| && rank[i] == rank[j] ==> i == j
  {
    forall i, j | 0 <= i < |rank| && 0 <= j < |rank| && rank[i] == rank[j] ensures i == j {
      BeforeLaws(rows, terms, i, j, i);
    }
  }

  /** The first loop of selectTop: every inner node sifted, last to first. */
  method BuildHeap(rows: seq<Row>, terms: seq<Term>, keys: array<SortKey>, wanted: nat, ghost rank: seq<nat>)
    requires wanted <= keys.Length && RanksOk(rows, terms, rank) && KeysOk(rows, terms, keys[..wanted])
    modifies keys
    ensures Shuffled(old(keys[..wanted]), keys[..wanted]) && keys[wanted..] == old(keys[wanted..])
    ensures KeysOk(rows, terms, keys[..wanted]) && Ranked(keys[..wanted], rank) && Heap(keys[..wanted], rank, 0)
  {
    hide RanksOk, KeyOk, HeapBut, Heap, Shuffled, Ranked;
    ghost var given := keys[..wanted];
    SameShuffled(given);
    KeysRanked(rows, terms, rank, given);
    LeavesAreHeaps(given, rank);
    var i := wanted / 2;
    while i > 0
      invariant 0 <= i <= wanted / 2 && keys[wanted..] == old(keys[wanted..])
      invariant Shuffled(given, keys[..wanted]) && KeysOk(rows, terms, keys[..wanted])
      invariant Ranked(keys[..wanted], rank) && Heap(keys[..wanted], rank, i)
    {
      i := i - 1;
      ghost var before := keys[..wanted];
      HoleAtRoot(before, rank, i);
      SiftDown(rows, terms, keys, wanted, i, rank, i);
      ShuffledTwice(given, before, keys[..wanted]);
    }
  }

  /** What the second loop of selectTop keeps true of the heap after n rows. */
  ghost predicate KeptOk(rows: seq<Row>, terms: seq<Term>, rank: seq<nat>, kept: seq<SortKey>, n: nat) {
    && |rank| == |rows| && n <= |rows| && kept != [] && KeysOk(rows, terms, kept) && Ranked(kept, rank)
    && Heap(kept, rank, 0) && Best(kept, rank, n) && Below(kept, n) && Unique(kept)
  }

  lemma FirstKept(rows: seq<Row>, terms: seq<Term>, rank: seq<nat>, given: seq<SortKey>, kept: seq<SortKey>)
    requires RanksOk(rows, terms, rank) && 0 < |given| <= |rows| && Untouched(given, 0)
    requires Shuffled(given, kept) && KeysOk(rows, terms, kept) && Ranked(kept, rank) && Heap(kept, rank, 0)
    ensures KeptOk(rows, terms, rank, kept, |given|)
  {
    hide HeapBut;
    assert Unique(given) && Below(given, |given|);
    assert Ranked(given, rank);
    forall x | 0 <= x < |given| ensures Has(given, x) {
      assert given[x].index == x;
    }
    ShuffledBest(given, kept, rank, |given|);
    assert kept != [];
  }

  lemma SiftedKept(rows: seq<Row>, terms: seq<Term>, rank: seq<nat>, given: seq<SortKey>, kept: seq<SortKey>, n: nat)
    requires |rank| == |rows| && n <= |rows| && given != [] && Ranked(given, rank)
    requires Best(given, rank, n) && Below(given, n) && Unique(given)
    requires Shuffled(given, kept) && KeysOk(rows, terms, kept) && Ranked(kept, rank) && Heap(kept, rank, 0)
    ensures KeptOk(rows, terms, rank, kept, n)
  {
    hide HeapBut, Heap;
    ShuffledBest(given, kept, rank, n);
    assert kept != [];
  }

  /** One turn of that loop. */
  method Consider(rows: seq<Row>, terms: seq<Term>, keys: array<SortKey>, wanted: nat, i: nat, ghost rank: seq<nat>)
    requires 0 < wanted <= i < |rows| == keys.Length && RanksOk(rows, terms, rank)
    requires KeptOk(rows, terms, rank, keys[..wanted], i) && KeyOk(rows, terms, keys[i]) && keys[i].index == i
    modifies keys
    ensures KeptOk(rows, terms, rank, keys[..wanted], i + 1) && keys[wanted..] == old(keys[wanted..])
  {
    hide RanksOk, HeapBut, Shuffled, SortCompare, Best;
    ghost var before := keys[..wanted];
    assert before[0] == keys[0];
    RanksDiffer(rows, terms, rank);
    CompareIsRank(rows, terms, rank, keys[i], keys[0]);
    if Compare(rows, terms, keys[i], keys[0]) >= 0 {
      assert before[0].index < i;
      SkipKeepsBest(before, rank, i);
      return;
    }
    ReplaceKeepsBest(before, rank, i, keys[i]);
    keys[0] := keys[i];
    ghost var replaced := keys[..wanted];
    assert replaced == before[0 := keys[i]];
    SiftDown(rows, terms, keys, wanted, 0, rank, 0);
    SiftedKept(rows, terms, rank, replaced, keys[..wanted], i + 1);
  }

  /** The heap phase of selectTop: the k best rows, in some order, are in front. */
  method KeepBest(rows: seq<Row>, terms: seq<Term>, keys: array<SortKey>, wanted: nat, ghost rank: seq<nat>)
    requires 0 < wanted <= |rows| == keys.Length && RanksOk(rows, terms, rank)
    requires KeysOk(rows, terms, keys[..]) && Untouched(keys[..], 0)
    modifies keys
    ensures KeptOk(rows, terms, rank, keys[..wanted], |rows|)
  {
    hide RanksOk, KeyOk, KeptOk, Heap, Shuffled, Ranked;
    ghost var given := keys[..];
    assert forall j :: 0 <= j < wanted ==> given[..wanted][j] == given[j];
    BuildHeap(rows, terms, keys, wanted, rank);
    FirstKept(rows, terms, rank, given[..wanted], keys[..wanted]);
    for i := wanted to |rows|
      invariant keys[wanted..] == given[wanted..]
      invariant KeptOk(rows, terms, rank, keys[..wanted], i)
    {
      assert keys[i] == keys[wanted..][i - wanted] == given[i];
      Consider(rows, terms, keys, wanted, i, rank);
    }
  }

  // ---------- the library sort ----------

  /** What a sort goes by: a row's place in the full sort, or its place in the result. */
  ghost function Weight(rank: seq<nat>, byIndex: bool, k: SortKey): nat
    requires k.index < |rank|
  {
    if byIndex then k.index else rank[k.index]
  }

  ghost predicate SortedBy(rank: seq<nat>, byIndex: bool, keys: seq<SortKey>)
    requires Ranked(keys, rank)
  {
    forall i, j :: 0 <= i < j < |keys| ==> Weight(rank, byIndex, keys[i]) < Weight(rank, byIndex, keys[j])
  }

  method ComesBefore(rows: seq<Row>, terms: seq<Term>, byIndex: bool, a: SortKey, b: SortKey, ghost rank: seq<nat>)
    returns (before: bool)
    requires RanksOk(rows, terms, rank) && KeyOk(rows, terms, a) && KeyOk(rows, terms, b)
    ensures a.index < |rank| && b.index < |rank|
    ensures before <==> Weight(rank, byIndex, a) < Weight(rank, byIndex, b)
  {
    CompareIsRank(rows, terms, rank, a, b);
    before := if byIndex then a.index < b.index else Compare(rows, terms, a, b) < 0;
  }

  lemma InsertHas(a: seq<SortKey>, b: seq<SortKey>, key: SortKey, at: nat, k: SortKey)
    requires at <= |b| && (k in a <==> k in b)
    ensures k in a + [key] <==> k in b[..at] + [key] + b[at..]
  {
    assert b == b[..at] + b[at..];
  }

  lemma InsertUnique(a: seq<SortKey>, b: seq<SortKey>, key: SortKey, at: nat)
    requires Shuffled(a, b) && at <= |b| && Unique(a + [key])
    ensures Unique(b[..at] + [key] + b[at..])
  {
    var s, t := a + [key], b[..at] + [key] + b[at..];
    assert forall i :: 0 <= i < |a| ==> s[i] == a[i];
    assert Unique(a) && s[|a|] == key;
    forall j | 0 <= j < |b| ensures b[j].index != key.index {
      assert b[j] in a;
      var i :| 0 <= i < |a| && a[i] == b[j];
      assert s[i] == a[i];
    }
    assert forall k :: 0 <= k < |t| ==> t[k] == if k < at then b[k] else if k == at then key else b[k - 1];
  }

  lemma InsertShuffles(a: seq<SortKey>, b: seq<SortKey>, key: SortKey, at: nat)
    requires Shuffled(a, b) && at <= |b|
    ensures Shuffled(a + [key], b[..at] + [key] + b[at..])
  {
    hide Unique;
    forall k ensures k in a + [key] <==> k in b[..at] + [key] + b[at..] {
      InsertHas(a, b, key, at, k);
    }
    if Unique(a + [key]) {
      InsertUnique(a, b, key, at);
    }
  }

  lemma InsertSorts(rank: seq<nat>, byIndex: bool, b: seq<SortKey>, key: SortKey, at: nat)
    requires Ranked(b, rank) && key.index < |rank| && at <= |b| && SortedBy(rank, byIndex, b)
    requires forall k :: 0 <= k < at ==> Weight(rank, byIndex, b[k]) < Weight(rank, byIndex, key)
    requires forall k :: at <= k < |b| ==> Weight(rank, byIndex, key) < Weight(rank, byIndex, b[k])
    ensures var t := b[..at] + [key] + b[at..];
            Ranked(t, rank) && SortedBy(rank, byIndex, t)
  {
    var t := b[..at] + [key] + b[at..];
    assert forall k :: 0 <= k < |t| ==> t[k] == if k < at then b[k] else if k == at then key else b[k - 1];
  }

  lemma FreshWeight(rank: seq<nat>, byIndex: bool, a: seq<SortKey>, b: seq<SortKey>, key: SortKey)
    requires Shuffled(a, b) && Unique(a + [key]) && Ranked(b, rank) && key.index < |rank|
    requires forall i, j :: 0 <= i < |rank| && 0 <= j < |rank| && rank[i] == rank[j] ==> i == j
    ensures forall k :: 0 <= k < |b| ==> Weight(rank, byIndex, b[k]) != Weight(rank, byIndex, key)
  {
    forall k | 0 <= k < |b| ensures b[k].index != key.index {
      assert b[k] in a;
      var i :| 0 <= i < |a| && a[i] == b[k];
      assert (a + [key])[i] == a[i] && (a + [key])[|a|] == key;
    }
  }

  /** Where the insertion below puts a key. */
  method FindPlace(rows: seq<Row>, terms: seq<Term>, byIndex: bool, sorted: seq<SortKey>, key: SortKey, ghost rank: seq<nat>)
    returns (at: nat)
    requires RanksOk(rows, terms, rank) && KeysOk(rows, terms, sorted) && KeyOk(rows, terms, key)
    requires Ranked(sorted, rank) && key.index < |rank| && SortedBy(rank, byIndex, sorted)
    requires forall k :: 0 <= k < |sorted| ==> Weight(rank, byIndex, sorted[k]) != Weight(rank, byIndex, key)
    ensures at <= |sorted|
    ensures forall k :: 0 <= k < at ==> Weight(rank, byIndex, sorted[k]) < Weight(rank, byIndex, key)
    ensures forall k :: at <= k < |sorted| ==> Weight(rank, byIndex, key) < Weight(rank, byIndex, sorted[k])
  {
    hide RanksOk, KeyOk, Weight;
    at := |sorted|;
    while at > 0
      invariant 0 <= at <= |sorted|
      invariant forall k :: at <= k < |sorted| ==> Weight(rank, byIndex, key) < Weight(rank, byIndex, sorted[k])
    {
      var before := ComesBefore(rows, terms, byIndex, key, sorted[at - 1], rank);
      if !before {
        return;
      }
      at := at - 1;
    }
  }

  /** qsort, which is the C library's: any algorithm that meets this contract will do. */
  method QSort(rows: seq<Row>, terms: seq<Term>, byIndex: bool, keys: seq<SortKey>, ghost rank: seq<nat>)
    returns (sorted: seq<SortKey>)
    requires RanksOk(rows, terms, rank) && KeysOk(rows, terms, keys) && Unique(keys)
    ensures Shuffled(keys, sorted) && KeysOk(rows, terms, sorted)
    ensures Ranked(sorted, rank) && SortedBy(rank, byIndex, sorted)
  {
    hide RanksOk, KeyOk, Shuffled, Weight;
    sorted := [];
    SameShuffled([]);
    for i := 0 to |keys|
      invariant Shuffled(keys[..i], sorted) && KeysOk(rows, terms, sorted)
      invariant Ranked(sorted, rank) && SortedBy(rank, byIndex, sorted)
    {
      var key := keys[i];
      RanksDiffer(rows, terms, rank);
      KeyRanked(rows, terms, key);
      assert keys[..i + 1] == keys[..i] + [key];
      assert Unique(keys[..i + 1]);
      FreshWeight(rank, byIndex, keys[..i], sorted, key);
      var at := FindPlace(rows, terms, byIndex, sorted, key, rank);
      InsertShuffles(keys[..i], sorted, key, at);
      InsertSorts(rank, byIndex, sorted, key, at);
      sorted := sorted[..at] + [key] + sorted[at..];
    }
    assert keys[..|keys|] == keys;
  }

  lemma KeyRanked(rows: seq<Row>, terms: seq<Term>, key: SortKey)
    requires KeyOk(rows, terms, key)
    ensures key.index < |rows|
  {
  }
}
