/**
 ORDER BY's order (06_executor.c:1957-1995), and the sort a query means: stable, by several
 terms, NULLs first, each term ascending or descending.
 */
module Ordering {
  import opened Values
  import opened IndexKeys

  type Row = seq<Value>

  datatype Term = Term(slot: nat, descending: bool)

  /** One key of the array that is sorted instead of the rows: the first term's value, and which row. */
  datatype SortKey = SortKey(first: Value, index: nat)

  predicate Orderable(a: Value, b: Value) {
    a.Null? || b.Null? || TypeOf(a) == TypeOf(b)
  }

  /** NULL sorts first, rather than being unknown. */
  function OrderCompare(a: Value, b: Value): int
    requires Orderable(a, b)
  {
    if a.Null? || b.Null? then (if a.Null? && b.Null? then 0 else if a.Null? then -1 else 1)
    else CompareValues(a, b)
  }

  function Directed(order: int, descending: bool): int {
    if descending then -order else order
  }

  /** Every row has every column, and a column has one type. */
  ghost predicate RowsOk(rows: seq<Row>, terms: seq<Term>) {
    forall i, j, t :: 0 <= i < |rows| && 0 <= j < |rows| && 0 <= t < |terms| ==> TermOk(rows[i], rows[j], terms[t])
  }

  predicate TermOk(a: Row, b: Row, t: Term) {
    t.slot < |a| && t.slot < |b| && Orderable(a[t.slot], b[t.slot])
  }

  predicate TermsOk(a: Row, b: Row, terms: seq<Term>) {
    forall t :: 0 <= t < |terms| ==> TermOk(a, b, terms[t])
  }

  /** The first term that tells two rows apart decides. */
  function CompareRows(a: Row, b: Row, terms: seq<Term>): int
    requires TermsOk(a, b, terms)
  {
    if terms == [] then 0
    else
      assert TermOk(a, b, terms[0]);
      var order := OrderCompare(a[terms[0].slot], b[terms[0].slot]);
      if order != 0 then Directed(order, terms[0].descending)
      else
        assert forall t :: 0 <= t < |terms[1..]| ==> terms[1..][t] == terms[t + 1];
        CompareRows(a, b, terms[1..])
  }

  /** sortCompare: the first value is in the key, the rest in the rows, and ties keep arrival order. */
  function SortCompare(rows: seq<Row>, terms: seq<Term>, a: SortKey, b: SortKey): int
    requires terms != [] && a.index < |rows| && b.index < |rows| && TermsOk(rows[a.index], rows[b.index], terms)
    requires Orderable(a.first, b.first)
  {
    var order := OrderCompare(a.first, b.first);
    if order != 0 then Directed(order, terms[0].descending)
    else
      assert forall t :: 0 <= t < |terms[1..]| ==> terms[1..][t] == terms[t + 1];
      var rest := CompareRows(rows[a.index], rows[b.index], terms[1..]);
      if rest != 0 then rest else Sign(a.index, b.index)
  }

  // ---------- it is an order ----------

  /** A value on the integer line, for texts of at most n bytes. */
  ghost function ValueRank(v: Value, n: nat): int {
    match v
    case Null(_) => -1
    case Int(i) => i + 0x8000_0000
    case Date(d) => d + 0x8000_0000
    case Text(t) => TextRank(t, n)
  }

  predicate Fits(v: Value, n: nat) {
    v.Text? ==> |v.text| <= n
  }

  lemma OrderIsRank(a: Value, b: Value, n: nat)
    requires Orderable(a, b) && Fits(a, n) && Fits(b, n)
    ensures OrderCompare(a, b) == Sign(ValueRank(a, n), ValueRank(b, n))
  {
    hide TextRank;
    if a.Text? && b.Text? {
      TextRankOrder(a.text, b.text, n);
    }
  }

  function Longest(a: Value, b: Value, c: Value): nat {
    |Content(a)| + |Content(b)| + |Content(c)|
  }

  function Content(v: Value): Bytes {
    if v.Text? then v.text else []
  }

  /** The three facts about one term that make the whole order one. */
  lemma OrderLaws(a: Value, b: Value, c: Value)
    requires Orderable(a, b) && Orderable(b, c) && Orderable(a, c)
    ensures OrderCompare(a, b) == -OrderCompare(b, a)
    ensures OrderCompare(a, b) < 0 && OrderCompare(b, c) < 0 ==> OrderCompare(a, c) < 0
    ensures OrderCompare(a, b) > 0 && OrderCompare(b, c) > 0 ==> OrderCompare(a, c) > 0
    ensures OrderCompare(a, b) == 0 ==> OrderCompare(a, c) == OrderCompare(b, c)
    ensures OrderCompare(b, c) == 0 ==> OrderCompare(a, c) == OrderCompare(a, b)
  {
    hide OrderCompare, ValueRank;
    var n := Longest(a, b, c);
    OrderIsRank(a, b, n);
    OrderIsRank(b, a, n);
    OrderIsRank(b, c, n);
    OrderIsRank(a, c, n);
  }

  lemma TermsTail(a: Row, b: Row, terms: seq<Term>)
    requires TermsOk(a, b, terms) && terms != []
    ensures TermOk(a, b, terms[0]) && TermsOk(a, b, terms[1..])
  {
    assert forall t :: 0 <= t < |terms[1..]| ==> terms[1..][t] == terms[t + 1];
  }

  lemma {:induction false} CompareLaws(a: Row, b: Row, c: Row, terms: seq<Term>)
    requires TermsOk(a, b, terms) && TermsOk(b, c, terms) && TermsOk(a, c, terms) && TermsOk(b, a, terms)
    ensures CompareRows(a, b, terms) == -CompareRows(b, a, terms)
    ensures CompareRows(a, b, terms) < 0 && CompareRows(b, c, terms) < 0 ==> CompareRows(a, c, terms) < 0
    ensures CompareRows(a, b, terms) == 0 ==> CompareRows(a, c, terms) == CompareRows(b, c, terms)
    ensures CompareRows(b, c, terms) == 0 ==> CompareRows(a, c, terms) == CompareRows(a, b, terms)
    decreases |terms|
  {
    hide OrderCompare;
    if terms != [] {
      TermsTail(a, b, terms);
      TermsTail(b, c, terms);
      TermsTail(a, c, terms);
      TermsTail(b, a, terms);
      var s := terms[0].slot;
      OrderLaws(a[s], b[s], c[s]);
      CompareLaws(a, b, c, terms[1..]);
    }
  }

  /** Row i comes before row j: by the terms, and by arrival where they tie. */
  ghost predicate Before(rows: seq<Row>, terms: seq<Term>, i: nat, j: nat)
    requires RowsOk(rows, terms) && i < |rows| && j < |rows|
  {
    PairOk(rows, terms, i, j);
    var order := CompareRows(rows[i], rows[j], terms);
    order < 0 || (order == 0 && i < j)
  }

  lemma PairOk(rows: seq<Row>, terms: seq<Term>, i: nat, j: nat)
    requires RowsOk(rows, terms) && i < |rows| && j < |rows|
    ensures TermsOk(rows[i], rows[j], terms)
  {
  }

  lemma BeforeLaws(rows: seq<Row>, terms: seq<Term>, i: nat, j: nat, k: nat)
    requires RowsOk(rows, terms) && i < |rows| && j < |rows| && k < |rows|
    ensures i == j || Before(rows, terms, i, j) || Before(rows, terms, j, i)
    ensures !(Before(rows, terms, i, j) && Before(rows, terms, j, i))
    ensures Before(rows, terms, i, j) && Before(rows, terms, j, k) ==> Before(rows, terms, i, k)
  {
    hide CompareRows, RowsOk;
    PairOk(rows, terms, i, j);
    PairOk(rows, terms, j, i);
    PairOk(rows, terms, j, k);
    PairOk(rows, terms, i, k);
    CompareLaws(rows[i], rows[j], rows[k], terms);
  }

  /** Comparing two keys is asking which row comes first. */
  lemma SortCompareIsBefore(rows: seq<Row>, terms: seq<Term>, a: SortKey, b: SortKey)
    requires RowsOk(rows, terms) && terms != [] && a.index < |rows| && b.index < |rows|
    requires TermsOk(rows[a.index], rows[b.index], terms)
    requires a.first == rows[a.index][terms[0].slot] && b.first == rows[b.index][terms[0].slot]
    ensures Orderable(a.first, b.first)
    ensures SortCompare(rows, terms, a, b) < 0 <==> Before(rows, terms, a.index, b.index)
    ensures SortCompare(rows, terms, a, b) == 0 <==> a.index == b.index
    ensures SortCompare(rows, terms, a, b) > 0 <==> Before(rows, terms, b.index, a.index)
  {
    hide OrderCompare, RowsOk;
    PairOk(rows, terms, b.index, a.index);
    TermsTail(rows[a.index], rows[b.index], terms);
    BeforeLaws(rows, terms, a.index, b.index, a.index);
    CompareLaws(rows[a.index], rows[b.index], rows[a.index], terms) by { PairOk(rows, terms, a.index, a.index); }
    CompareSelf(rows[a.index], terms) by { PairOk(rows, terms, a.index, a.index); }
  }

  lemma {:induction false} CompareSelf(a: Row, terms: seq<Term>)
    requires TermsOk(a, a, terms)
    ensures CompareRows(a, a, terms) == 0
    decreases |terms|
  {
    if terms != [] {
      TermsTail(a, a, terms);
      var v := a[terms[0].slot];
      OrderLaws(v, v, v);
      CompareSelf(a, terms[1..]);
    }
  }

  // ---------- the sort a query means ----------

  /** How many of a sorted list of rows come before row i or tie with it. */
  ghost function PlaceOf(rows: seq<Row>, terms: seq<Term>, order: seq<nat>, i: nat): (at: nat)
    requires RowsOk(rows, terms) && i < |rows| && forall k :: 0 <= k < |order| ==> order[k] < |rows|
    ensures at <= |order|
  {
    if order == [] then 0
    else
      var last := order[|order| - 1];
      PairOk(rows, terms, last, i);
      if CompareRows(rows[last], rows[i], terms) <= 0 then |order|
      else PlaceOf(rows, terms, order[..|order| - 1], i)
  }

  ghost predicate Within(order: seq<nat>, n: nat) {
    forall k :: 0 <= k < |order| ==> order[k] < n
  }

  /** Insertion sort of the first n rows, each put behind those it ties with. */
  ghost function StableOrder(rows: seq<Row>, terms: seq<Term>, n: nat): (order: seq<nat>)
    requires RowsOk(rows, terms) && n <= |rows|
    ensures |order| == n && Within(order, n)
  {
    if n == 0 then []
    else
      var before := StableOrder(rows, terms, n - 1);
      var at := PlaceOf(rows, terms, before, n - 1);
      before[..at] + [n - 1] + before[at..]
  }

  /** The rows in that order. */
  ghost function Arranged(rows: seq<Row>, order: seq<nat>): (out: seq<Row>)
    requires Within(order, |rows|)
    ensures |out| == |order| && forall k :: 0 <= k < |out| ==> out[k] == rows[order[k]]
  {
    seq(|order|, k requires 0 <= k < |order| => rows[order[k]])
  }

  ghost predicate InOrder(rows: seq<Row>, terms: seq<Term>, order: seq<nat>)
    requires RowsOk(rows, terms) && Within(order, |rows|)
  {
    forall a, b :: 0 <= a < b < |order| ==> Before(rows, terms, order[a], order[b])
  }

  /** Everything left of the insertion point comes first, everything right of it comes after. */
  lemma {:induction false} PlaceSplits(rows: seq<Row>, terms: seq<Term>, order: seq<nat>, i: nat)
    requires RowsOk(rows, terms) && i < |rows| && Within(order, i) && InOrder(rows, terms, order)
    ensures var at := PlaceOf(rows, terms, order, i);
            && (forall k :: 0 <= k < at ==> Before(rows, terms, order[k], i))
            && (forall k :: at <= k < |order| ==> Before(rows, terms, i, order[k]))
    decreases |order|
  {
    hide CompareRows, RowsOk;
    if order != [] {
      var last := order[|order| - 1];
      PairOk(rows, terms, last, i);
      PairOk(rows, terms, i, last);
      PairOk(rows, terms, last, last);
      CompareLaws(rows[last], rows[i], rows[i], terms) by { PairOk(rows, terms, i, i); }
      if CompareRows(rows[last], rows[i], terms) <= 0 {
        forall k | 0 <= k < |order| ensures Before(rows, terms, order[k], i) {
          BeforeLaws(rows, terms, order[k], last, i);
        }
      } else {
        PlaceSplits(rows, terms, order[..|order| - 1], i);
      }
    }
  }

  /** Inserting at the split point keeps the list in order. */
  lemma InsertedInOrder(rows: seq<Row>, terms: seq<Term>, before: seq<nat>, at: nat, i: nat)
    requires RowsOk(rows, terms) && i < |rows| && Within(before, |rows|) && InOrder(rows, terms, before) && at <= |before|
    requires forall k :: 0 <= k < at ==> Before(rows, terms, before[k], i)
    requires forall k :: at <= k < |before| ==> Before(rows, terms, i, before[k])
    ensures var order := before[..at] + [i] + before[at..];
            Within(order, |rows|) && InOrder(rows, terms, order)
  {
    hide Before, RowsOk;
    var order := before[..at] + [i] + before[at..];
    assert forall k :: 0 <= k < |order| ==> order[k] == if k < at then before[k] else if k == at then i else before[k - 1];
  }

  lemma {:induction false} StableOrderIs(rows: seq<Row>, terms: seq<Term>, n: nat)
    requires RowsOk(rows, terms) && n <= |rows|
    ensures InOrder(rows, terms, StableOrder(rows, terms, n))
    ensures forall i :: 0 <= i < n ==> i in StableOrder(rows, terms, n)
    decreases n
  {
    hide Before, RowsOk, PlaceOf, InOrder;
    if n == 0 {
      NothingInOrder(rows, terms);
    } else {
      StableOrderIs(rows, terms, n - 1);
      var before := StableOrder(rows, terms, n - 1);
      var at := PlaceOf(rows, terms, before, n - 1);
      PlaceSplits(rows, terms, before, n - 1);
      InsertedInOrder(rows, terms, before, at, n - 1);
      var order := StableOrder(rows, terms, n);
      assert order == before[..at] + [n - 1] + before[at..];
      forall i | 0 <= i < n ensures i in order {
        assert before == before[..at] + before[at..];
        assert i < n - 1 ==> i in before;
      }
    }
  }

  lemma NothingInOrder(rows: seq<Row>, terms: seq<Term>)
    requires RowsOk(rows, terms)
    ensures InOrder(rows, terms, [])
  {
  }

  // ---------- what the order means ----------

  /** Two values an ORDER BY cannot tell apart. */
  predicate Level(a: Value, b: Value) {
    if a.Null? || b.Null? then a.Null? && b.Null? else a == b
  }

  ghost predicate LevelTo(a: Row, b: Row, terms: seq<Term>, n: nat)
    requires TermsOk(a, b, terms) && n <= |terms|
  {
    forall t :: 0 <= t < n ==> TermOk(a, b, terms[t]) && Level(a[terms[t].slot], b[terms[t].slot])
  }

  /** Term t puts row a first: ascending the lower value, NULL lowest, and descending the higher. */
  ghost predicate TermPuts(a: Row, b: Row, t: Term)
    requires TermOk(a, b, t)
  {
    if t.descending then Lower(b[t.slot], a[t.slot]) else Lower(a[t.slot], b[t.slot])
  }

  /** The first term that tells the rows apart puts row a first. */
  ghost predicate SortsFirst(a: Row, b: Row, terms: seq<Term>)
    requires TermsOk(a, b, terms)
  {
    exists t :: 0 <= t < |terms| && LevelTo(a, b, terms, t) && TermOk(a, b, terms[t]) && TermPuts(a, b, terms[t])
  }

  lemma OrderCompareIs(a: Value, b: Value)
    requires Orderable(a, b)
    ensures OrderCompare(a, b) < 0 <==> Lower(a, b)
    ensures OrderCompare(a, b) > 0 <==> Lower(b, a)
    ensures OrderCompare(a, b) == 0 <==> Level(a, b)
  {
    hide Lower, CompareValues;
    LowerNull(a, b);
    LowerNull(b, a);
    if !a.Null? && !b.Null? {
      CompareIsLower(a, b);
    }
  }

  lemma LowerNull(a: Value, b: Value)
    ensures a.Null? ==> (Lower(a, b) <==> !b.Null?)
    ensures b.Null? ==> !Lower(a, b)
  {
  }

  lemma LevelStep(a: Row, b: Row, terms: seq<Term>, n: nat)
    requires TermsOk(a, b, terms) && terms != [] && n < |terms|
    ensures TermsOk(a, b, terms[1..]) && TermOk(a, b, terms[0])
    ensures LevelTo(a, b, terms, n + 1) <==> Level(a[terms[0].slot], b[terms[0].slot]) && LevelTo(a, b, terms[1..], n)
  {
    hide Level;
    TermsTail(a, b, terms);
    var rest := terms[1..];
    if LevelTo(a, b, rest, n) && Level(a[terms[0].slot], b[terms[0].slot]) {
      forall t | 0 <= t < n + 1 ensures TermOk(a, b, terms[t]) && Level(a[terms[t].slot], b[terms[t].slot]) {
        assert t > 0 ==> terms[t] == rest[t - 1];
      }
    }
    if LevelTo(a, b, terms, n + 1) {
      forall t | 0 <= t < n ensures TermOk(a, b, rest[t]) && Level(a[rest[t].slot], b[rest[t].slot]) {
        assert rest[t] == terms[t + 1];
      }
    }
  }

  lemma SortsFirstStep(a: Row, b: Row, terms: seq<Term>)
    requires TermsOk(a, b, terms) && terms != []
    ensures TermsOk(a, b, terms[1..]) && TermOk(a, b, terms[0])
    ensures SortsFirst(a, b, terms)
       <==> TermPuts(a, b, terms[0]) || (Level(a[terms[0].slot], b[terms[0].slot]) && SortsFirst(a, b, terms[1..]))
  {
    hide Level, TermPuts, LevelTo;
    TermsTail(a, b, terms);
    var rest := terms[1..];
    if TermPuts(a, b, terms[0]) {
      NoneLevel(a, b, terms);
    }
    if Level(a[terms[0].slot], b[terms[0].slot]) && SortsFirst(a, b, rest) {
      var t :| 0 <= t < |rest| && LevelTo(a, b, rest, t) && TermOk(a, b, rest[t]) && TermPuts(a, b, rest[t]);
      LevelStep(a, b, terms, t);
      assert terms[t + 1] == rest[t];
    }
    if SortsFirst(a, b, terms) {
      var t :| 0 <= t < |terms| && LevelTo(a, b, terms, t) && TermOk(a, b, terms[t]) && TermPuts(a, b, terms[t]);
      if t > 0 {
        LevelStep(a, b, terms, t - 1);
        assert terms[t] == rest[t - 1];
      }
    }
  }

  lemma NoneLevel(a: Row, b: Row, terms: seq<Term>)
    requires TermsOk(a, b, terms)
    ensures LevelTo(a, b, terms, 0)
  {
  }

  /** CompareRows in terms of the values: the sign says who sorts first, and 0 that nothing tells them apart. */
  lemma {:induction false} CompareRowsMeans(a: Row, b: Row, terms: seq<Term>)
    requires TermsOk(a, b, terms) && TermsOk(b, a, terms)
    ensures CompareRows(a, b, terms) < 0 <==> SortsFirst(a, b, terms)
    ensures CompareRows(a, b, terms) > 0 <==> SortsFirst(b, a, terms)
    ensures CompareRows(a, b, terms) == 0 <==> LevelTo(a, b, terms, |terms|)
    decreases |terms|
  {
    hide OrderCompare, Lower, LevelTo, SortsFirst, Level;
    if terms == [] {
      NothingSorts(a, b);
    } else {
      var s, rest := terms[0].slot, terms[1..];
      SortsFirstStep(a, b, terms);
      SortsFirstStep(b, a, terms);
      LevelStep(a, b, terms, |rest|);
      OrderCompareIs(a[s], b[s]);
      OrderCompareIs(b[s], a[s]);
      OrderLaws(a[s], b[s], b[s]);
      CompareRowsMeans(a, b, rest);
    }
  }

  lemma NothingSorts(a: Row, b: Row)
    ensures !SortsFirst(a, b, []) && !SortsFirst(b, a, []) && LevelTo(a, b, [], 0)
  {
  }

  /**
   ORDER BY in terms of values: of any two rows, the one placed earlier is put first by the first
   term that tells them apart, and where no term does they stand as they arrived.
   */
  ghost predicate ByValues(rows: seq<Row>, terms: seq<Term>, order: seq<nat>)
    requires RowsOk(rows, terms) && Within(order, |rows|)
  {
    forall x, y :: 0 <= x < y < |order| ==> Leads(rows, terms, order[x], order[y])
  }

  ghost predicate Leads(rows: seq<Row>, terms: seq<Term>, i: nat, j: nat)
    requires RowsOk(rows, terms) && i < |rows| && j < |rows|
  {
    PairOk(rows, terms, i, j);
    SortsFirst(rows[i], rows[j], terms) || (LevelTo(rows[i], rows[j], terms, |terms|) && i < j)
  }

  lemma StableOrderByValues(rows: seq<Row>, terms: seq<Term>)
    requires RowsOk(rows, terms)
    ensures ByValues(rows, terms, StableOrder(rows, terms, |rows|))
  {
    hide RowsOk, StableOrder, SortsFirst, LevelTo, CompareRows;
    StableOrderIs(rows, terms, |rows|);
    var order := StableOrder(rows, terms, |rows|);
    forall x, y | 0 <= x < y < |order| ensures Leads(rows, terms, order[x], order[y]) {
      assert Before(rows, terms, order[x], order[y]);
      PairOk(rows, terms, order[x], order[y]);
      PairOk(rows, terms, order[y], order[x]);
      CompareRowsMeans(rows[order[x]], rows[order[y]], terms);
    }
  }
}
