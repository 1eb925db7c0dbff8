/**
 The bounded heap of ORDER BY with a LIMIT (06_executor.c:1997-2063): k sort keys as a max-heap
 under the order of the full sort, what sifting does to it, and when its k keys are the first k.
 */
module TopN {
  import opened Ordering

  // ---------- ranks ----------

  /** Where each row stands in the full sort. */
  ghost predicate RanksOk(rows: seq<Row>, terms: seq<Term>, rank: seq<nat>) {
    && RowsOk(rows, terms) && |rank| == |rows|
    && forall i, j :: 0 <= i < |rows| && 0 <= j < |rows| ==> (Before(rows, terms, i, j) <==> rank[i] < rank[j])
  }

  ghost function PositionOf(order: seq<nat>, x: nat): (at: nat)
    requires x in order
    ensures at < |order| && order[at] == x
  {
    if order[|order| - 1] == x then |order| - 1
    else
      assert order == order[..|order| - 1] + [order[|order| - 1]];
      PositionOf(order[..|order| - 1], x)
  }

  lemma Ranks(rows: seq<Row>, terms: seq<Term>) returns (rank: seq<nat>)
    requires RowsOk(rows, terms)
    ensures RanksOk(rows, terms, rank)
  {
    hide Before, RowsOk, StableOrder;
    var n := |rows|;
    StableOrderIs(rows, terms, n);
    var order := StableOrder(rows, terms, n);
    rank := seq(n, i requires 0 <= i < n && (forall i :: 0 <= i < n ==> i in order) => PositionOf(order, i));
    forall i, j | 0 <= i < n && 0 <= j < n ensures Before(rows, terms, i, j) <==> rank[i] < rank[j] {
      assert order[rank[i]] == i && order[rank[j]] == j;
      BeforeLaws(rows, terms, i, j, i);
      BeforeLaws(rows, terms, i, i, i);
    }
  }

  // ---------- keys ----------

  /** A key carries the first term's value of the row it stands for. */
  ghost predicate KeyOk(rows: seq<Row>, terms: seq<Term>, k: SortKey) {
    && terms != [] && k.index < |rows|
    && terms[0].slot < |rows[k.index]| && k.first == rows[k.index][terms[0].slot]
  }

  ghost predicate KeysOk(rows: seq<Row>, terms: seq<Term>, keys: seq<SortKey>) {
    forall j :: 0 <= j < |keys| ==> KeyOk(rows, terms, keys[j])
  }

  /** What a comparison of two keys may assume. */
  ghost predicate Sortable(rows: seq<Row>, terms: seq<Term>, a: SortKey, b: SortKey) {
    && terms != [] && a.index < |rows| && b.index < |rows| && TermsOk(rows[a.index], rows[b.index], terms)
    && Orderable(a.first, b.first)
  }

  lemma CompareIsRank(rows: seq<Row>, terms: seq<Term>, rank: seq<nat>, a: SortKey, b: SortKey)
    requires RanksOk(rows, terms, rank) && KeyOk(rows, terms, a) && KeyOk(rows, terms, b)
    ensures Sortable(rows, terms, a, b)
    ensures SortCompare(rows, terms, a, b) > 0 <==> rank[b.index] < rank[a.index]
    ensures SortCompare(rows, terms, a, b) < 0 <==> rank[a.index] < rank[b.index]
    ensures rank[a.index] == rank[b.index] ==> a.index == b.index
  {
    hide Before, SortCompare;
    PairOk(rows, terms, a.index, b.index);
    SortCompareIsBefore(rows, terms, a, b);
  }

  ghost predicate Unique(keys: seq<SortKey>) {
    forall i, j :: 0 <= i < j < |keys| ==> keys[i].index != keys[j].index
  }

  ghost predicate Has(keys: seq<SortKey>, x: nat) {
    exists j :: 0 <= j < |keys| && keys[j].index == x
  }

  /** The same keys in another order. */
  ghost predicate Shuffled(a: seq<SortKey>, b: seq<SortKey>) {
    && |a| == |b|
    && (forall k :: k in a <==> k in b)
    && (Unique(a) ==> Unique(b))
  }

  lemma SwapShuffles(s: seq<SortKey>, i: nat, j: nat)
    requires i < |s| && j < |s|
    ensures Shuffled(s, s[i := s[j]][j := s[i]])
  {
    var t := s[i := s[j]][j := s[i]];
    forall k ensures k in s <==> k in t {
      if k in s {
        var x :| 0 <= x < |s| && s[x] == k;
        assert t[if x == i then j else if x == j then i else x] == k;
      }
      if k in t {
        var x :| 0 <= x < |t| && t[x] == k;
        assert s[if x == i then j else if x == j then i else x] == k;
      }
    }
  }

  lemma ShuffledHas(a: seq<SortKey>, b: seq<SortKey>, x: nat)
    requires Shuffled(a, b)
    ensures Has(a, x) <==> Has(b, x)
  {
    if Has(a, x) {
      var j :| 0 <= j < |a| && a[j].index == x;
      assert a[j] in b;
    }
    if Has(b, x) {
      var j :| 0 <= j < |b| && b[j].index == x;
      assert b[j] in a;
    }
  }

  lemma ShuffledOk(rows: seq<Row>, terms: seq<Term>, a: seq<SortKey>, b: seq<SortKey>)
    requires Shuffled(a, b) && KeysOk(rows, terms, a)
    ensures KeysOk(rows, terms, b)
  {
    forall j | 0 <= j < |b| ensures KeyOk(rows, terms, b[j]) {
      assert b[j] in a;
    }
  }

  // ---------- the heap ----------

  predicate Child(p: int, c: int) {
    c == 2 * p + 1 || c == 2 * p + 2
  }

  ghost function RankAt(keys: seq<SortKey>, rank: seq<nat>, j: nat): nat
    requires j < |keys| && keys[j].index < |rank|
  {
    rank[keys[j].index]
  }

  ghost predicate Ranked(keys: seq<SortKey>, rank: seq<nat>) {
    forall j :: 0 <= j < |keys| ==> keys[j].index < |rank|
  }

  /** No child beats its parent, for parents from `from` on other than `hole`. */
  ghost predicate HeapBut(keys: seq<SortKey>, rank: seq<nat>, from: nat, hole: int)
    requires Ranked(keys, rank)
  {
    && (forall p: nat, c: nat :: from <= p && p != hole && c < |keys| && Child(p, c) ==>
          p < |keys| && RankAt(keys, rank, c) <= RankAt(keys, rank, p))
    && (forall p: nat, c: nat :: from <= p && Child(p, hole) && c < |keys| && Child(hole, c) ==>
          p < |keys| && RankAt(keys, rank, c) <= RankAt(keys, rank, p))
  }

  ghost predicate Heap(keys: seq<SortKey>, rank: seq<nat>, from: nat)
    requires Ranked(keys, rank)
  {
    HeapBut(keys, rank, from, -1)
  }

  lemma {:induction false} RootIsWorst(keys: seq<SortKey>, rank: seq<nat>, j: nat)
    requires Ranked(keys, rank) && Heap(keys, rank, 0) && j < |keys|
    ensures RankAt(keys, rank, j) <= RankAt(keys, rank, 0)
  {
    if j > 0 {
      var p := (j - 1) / 2;
      assert Child(p, j);
      RootIsWorst(keys, rank, p);
    }
  }

  /** The child, if any, that has to come up. */
  method WorstChild(rows: seq<Row>, terms: seq<Term>, keys: array<SortKey>, count: nat, at: nat, ghost rank: seq<nat>)
    returns (worst: nat)
    requires at < count <= keys.Length && RanksOk(rows, terms, rank) && KeysOk(rows, terms, keys[..count])
    ensures worst == at || (worst < count && Child(at, worst))
    ensures rank[keys[at].index] <= rank[keys[worst].index]
    ensures worst != at ==> rank[keys[at].index] < rank[keys[worst].index]
    ensures forall c: nat :: c < count && Child(at, c) ==> rank[keys[c].index] <= rank[keys[worst].index]
  {
    hide SortCompare, RanksOk, Sortable;
    assert forall j :: 0 <= j < count ==> keys[..count][j] == keys[j];
    assert forall j :: 0 <= j < count ==> KeyOk(rows, terms, keys[j]);
    worst := at;
    RankLength(rows, terms, rank);
    var left := at * 2 + 1;
    var right := left + 1;
    if left < count {
      CompareIsRank(rows, terms, rank, keys[left], keys[worst]);
      if Compare(rows, terms, keys[left], keys[worst]) > 0 {
        worst := left;
      }
    }
    if right < count {
      CompareIsRank(rows, terms, rank, keys[right], keys[worst]);
      if Compare(rows, terms, keys[right], keys[worst]) > 0 {
        worst := right;
      }
    }
  }

  lemma RankLength(rows: seq<Row>, terms: seq<Term>, rank: seq<nat>)
    requires RanksOk(rows, terms, rank)
    ensures |rank| == |rows|
  {
  }

  function Compare(rows: seq<Row>, terms: seq<Term>, a: SortKey, b: SortKey): int
    requires Sortable(rows, terms, a, b)
  {
    SortCompare(rows, terms, a, b)
  }

  ghost function Swapped(keys: seq<SortKey>, i: nat, j: nat): seq<SortKey>
    requires i < |keys| && j < |keys|
  {
    keys[i := keys[j]][j := keys[i]]
  }

  /** Bringing the worst child up moves the hole down to where it was. */
  lemma SiftStep(keys: seq<SortKey>, rank: seq<nat>, from: nat, at: nat, worst: nat)
    requires Ranked(keys, rank) && HeapBut(keys, rank, from, at) && from <= at < |keys| && worst < |keys| && Child(at, worst)
    requires RankAt(keys, rank, at) < RankAt(keys, rank, worst)
    requires forall c: nat :: c < |keys| && Child(at, c) ==> RankAt(keys, rank, c) <= RankAt(keys, rank, worst)
    ensures Ranked(Swapped(keys, at, worst), rank) && HeapBut(Swapped(keys, at, worst), rank, from, worst)
  {
    var t := Swapped(keys, at, worst);
    assert forall j :: 0 <= j < |keys| && j != at && j != worst ==> t[j] == keys[j];
    forall p: nat, c: nat | from <= p && p != worst && c < |t| && Child(p, c)
      ensures p < |t| && RankAt(t, rank, c) <= RankAt(t, rank, p)
    {
      if c == at {
        assert Child(p, at) && Child(at, worst);
      }
    }
  }

  lemma SiftDone(keys: seq<SortKey>, rank: seq<nat>, from: nat, at: nat)
    requires Ranked(keys, rank) && HeapBut(keys, rank, from, at) && at < |keys|
    requires forall c: nat :: c < |keys| && Child(at, c) ==> RankAt(keys, rank, c) <= RankAt(keys, rank, at)
    ensures Heap(keys, rank, from)
  {
  }

  lemma KeysRanked(rows: seq<Row>, terms: seq<Term>, rank: seq<nat>, keys: seq<SortKey>)
    requires RanksOk(rows, terms, rank) && KeysOk(rows, terms, keys)
    ensures Ranked(keys, rank)
  {
  }

  /** siftDown: the subtree at `start` becomes a heap again, with the same keys in it. */
  method SiftDown(rows: seq<Row>, terms: seq<Term>, keys: array<SortKey>, count: nat, start: nat, ghost rank: seq<nat>, ghost from: nat)
    requires from <= start < count <= keys.Length && RanksOk(rows, terms, rank) && KeysOk(rows, terms, keys[..count])
    requires Ranked(keys[..count], rank) && HeapBut(keys[..count], rank, from, start)
    modifies keys
    ensures Shuffled(old(keys[..count]), keys[..count]) && keys[count..] == old(keys[count..])
    ensures KeysOk(rows, terms, keys[..count]) && Ranked(keys[..count], rank) && Heap(keys[..count], rank, from)
  {
    hide RanksOk, KeyOk, HeapBut, Heap, Shuffled;
    ghost var given := keys[..count];
    SameShuffled(given);
    var at := start;
    while true
      invariant from <= at < count && keys[count..] == old(keys[count..])
      invariant Shuffled(given, keys[..count]) && KeysOk(rows, terms, keys[..count])
      invariant Ranked(keys[..count], rank) && HeapBut(keys[..count], rank, from, at)
      decreases count - at
    {
      var worst := WorstChild(rows, terms, keys, count, at, rank);
      ghost var before := keys[..count];
      if worst == at {
        SiftDone(before, rank, from, at);
        return;
      }
      SiftStep(before, rank, from, at, worst);
      SwapShuffles(before, at, worst);
      keys[at], keys[worst] := keys[worst], keys[at];
      assert keys[..count] == Swapped(before, at, worst);
      ShuffledOk(rows, terms, before, keys[..count]);
      ShuffledTwice(given, before, keys[..count]);
      at := worst;
    }
  }

  lemma SameShuffled(a: seq<SortKey>)
    ensures Shuffled(a, a)
  {
  }

  lemma ShuffledTwice(a: seq<SortKey>, b: seq<SortKey>, c: seq<SortKey>)
    requires Shuffled(a, b) && Shuffled(b, c)
    ensures Shuffled(a, c)
  {
  }

  // ---------- the best k ----------

  /** Every one of the first n rows that is not kept comes after all that are. */
  ghost predicate Best(keys: seq<SortKey>, rank: seq<nat>, n: nat)
    requires Ranked(keys, rank) && n <= |rank|
  {
    forall x, j :: 0 <= x < n && 0 <= j < |keys| && !Has(keys, x) ==> RankAt(keys, rank, j) < rank[x]
  }

  ghost predicate Below(keys: seq<SortKey>, n: nat) {
    forall j :: 0 <= j < |keys| ==> keys[j].index < n
  }

  /** Key x is the one of row x. */
  ghost predicate Untouched(keys: seq<SortKey>, from: nat) {
    forall x :: from <= x < |keys| ==> keys[x].index == x
  }

  lemma ShuffledBest(a: seq<SortKey>, b: seq<SortKey>, rank: seq<nat>, n: nat)
    requires Shuffled(a, b) && Ranked(a, rank) && Ranked(b, rank) && n <= |rank|
    ensures Best(a, rank, n) ==> Best(b, rank, n)
    ensures Below(a, n) ==> Below(b, n)
  {
    forall x, j | Best(a, rank, n) && 0 <= x < n && 0 <= j < |b| && !Has(b, x)
      ensures RankAt(b, rank, j) < rank[x]
    {
      ShuffledHas(a, b, x);
      assert b[j] in a;
      var i :| 0 <= i < |a| && a[i] == b[j];
      assert RankAt(a, rank, i) < rank[x];
    }
    forall j | Below(a, n) && 0 <= j < |b| ensures b[j].index < n {
      assert b[j] in a;
    }
  }

  /** A row that comes after the root of the heap changes nothing. */
  lemma SkipKeepsBest(keys: seq<SortKey>, rank: seq<nat>, n: nat)
    requires Ranked(keys, rank) && keys != [] && n < |rank| && Best(keys, rank, n) && Below(keys, n)
    requires Heap(keys, rank, 0) && RankAt(keys, rank, 0) < rank[n]
    ensures Best(keys, rank, n + 1) && Below(keys, n + 1)
  {
    forall j | 0 <= j < |keys| ensures RankAt(keys, rank, j) < rank[n] {
      RootIsWorst(keys, rank, j);
    }
  }

  /** A better one takes the place of the worst kept. */
  lemma ReplaceKeepsBest(keys: seq<SortKey>, rank: seq<nat>, n: nat, key: SortKey)
    requires Ranked(keys, rank) && keys != [] && n < |rank| && Best(keys, rank, n) && Below(keys, n) && Unique(keys)
    requires Heap(keys, rank, 0) && rank[n] < RankAt(keys, rank, 0) && key.index == n
    requires forall i, j :: 0 <= i < |rank| && 0 <= j < |rank| && rank[i] == rank[j] ==> i == j
    ensures var t := keys[0 := key];
            && Ranked(t, rank) && Best(t, rank, n + 1) && Below(t, n + 1) && Unique(t)
            && HeapBut(t, rank, 0, 0)
  {
    var t := keys[0 := key];
    var gone := keys[0].index;
    forall x, j | 0 <= x < n + 1 && 0 <= j < |t| && !Has(t, x)
      ensures RankAt(t, rank, j) < rank[x]
    {
      RootIsWorst(keys, rank, j);
      assert t[0].index == n;
      assert x < n;
      assert j > 0 ==> keys[j].index != gone;
      if Has(keys, x) && x != gone {
        HasReplaced(keys, key, x);
      }
    }
  }

  lemma HasReplaced(keys: seq<SortKey>, key: SortKey, x: nat)
    requires Has(keys, x) && x != keys[0].index
    ensures Has(keys[0 := key], x)
  {
    var i :| 0 <= i < |keys| && keys[i].index == x;
    assert keys[0 := key][i].index == x;
  }
}
