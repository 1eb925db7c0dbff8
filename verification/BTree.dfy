/**
 The B+ tree as a value (11_index.c:472-684): what inserting does to the whole tree.

 `Insert` follows insertInto node by node. The main results are that it keeps the tree's
 shape, `TreeOk`, and that on the entries read left to right it is insertion into a sorted
 list, `InsertSorted`.
 */
module BTree {
  import opened IndexKeys

  datatype Entry = Entry(key: StoredKey, payload: int)

  /** An internal node has one more kid than keys; keys[i] separates kids[i] from kids[i + 1]. */
  datatype Tree =
    | Leaf(id: nat, entries: seq<Entry>)
    | Inner(id: nat, keys: seq<StoredKey>, kids: seq<Tree>)

  /** What is left of a node after an insertion below it: itself, or two halves. */
  datatype Grown = One(tree: Tree) | Two(left: Tree, sep: StoredKey, right: Tree)

  function Keys(entries: seq<Entry>): (keys: seq<StoredKey>)
    ensures |keys| == |entries|
    ensures forall i :: 0 <= i < |keys| ==> keys[i] == entries[i].key
  {
    seq(|entries|, i requires 0 <= i < |entries| => entries[i].key)
  }

  ghost predicate Sorted(keys: seq<StoredKey>) {
    forall i, j :: 0 <= i < j < |keys| ==> Rank(keys[i]) <= Rank(keys[j])
  }

  ghost predicate Within(keys: seq<StoredKey>, lo: int, hi: int) {
    forall i :: 0 <= i < |keys| ==> lo <= Rank(keys[i]) <= hi
  }

  /** The first position whose key is not below r. */
  ghost function LowerBound(keys: seq<StoredKey>, r: int): (k: nat)
    ensures k <= |keys|
    ensures forall i :: 0 <= i < k ==> Rank(keys[i]) < r
    ensures k < |keys| ==> Rank(keys[k]) >= r
  {
    if keys == [] || Rank(keys[0]) >= r then 0 else 1 + LowerBound(keys[1..], r)
  }

  lemma LowerBoundIs(keys: seq<StoredKey>, r: int, k: nat)
    requires k <= |keys|
    requires forall i :: 0 <= i < k ==> Rank(keys[i]) < r
    requires k < |keys| ==> Rank(keys[k]) >= r
    ensures LowerBound(keys, r) == k
  {
    hide Rank;
    assert LowerBound(keys, r) == k;
  }

  ghost function InsertSorted(entries: seq<Entry>, e: Entry): seq<Entry> {
    var at := LowerBound(Keys(entries), Rank(e.key));
    entries[..at] + [e] + entries[at..]
  }

  // ---------- the algorithm ----------

  ghost predicate Shaped(t: Tree) {
    t.Inner? ==> |t.kids| == |t.keys| + 1 && forall i :: 0 <= i < |t.kids| ==> Shaped(t.kids[i])
  }

  ghost function InsertLeaf(id: nat, entries: seq<Entry>, e: Entry, order: nat, nextId: nat): (Grown, nat)
    requires order >= 4
  {
    var grown := InsertSorted(entries, e);
    var half := order / 2;
    if |grown| == order
    then (Two(Leaf(id, grown[..half]), grown[half].key, Leaf(nextId, grown[half..])), nextId + 1)
    else (One(Leaf(id, grown)), nextId)
  }

  /** Puts what became of kid `at` back into its parent, splitting the parent if that fills it. */
  ghost function Absorb(id: nat, keys: seq<StoredKey>, kids: seq<Tree>, at: nat, g: Grown, order: nat, nextId: nat): (Grown, nat)
    requires at <= |keys| && |kids| == |keys| + 1 && order >= 4
  {
    match g
    case One(kid) => (One(Inner(id, keys, kids[at := kid])), nextId)
    case Two(left, sep, right) =>
      var keys' := keys[..at] + [sep] + keys[at..];
      var kids' := kids[..at] + [left, right] + kids[at + 1..];
      var middle := order / 2;
      if |keys'| == order then
        (Two(Inner(id, keys'[..middle], kids'[..middle + 1]), keys'[middle],
             Inner(nextId, keys'[middle + 1..], kids'[middle + 1..])), nextId + 1)
      else (One(Inner(id, keys', kids')), nextId)
  }

  /** Inserts below t; new nodes take the ids from `nextId` on, and the next unused one is returned. */
  ghost function Insert(t: Tree, e: Entry, order: nat, nextId: nat): (Grown, nat)
    requires Shaped(t) && order >= 4
    decreases t
  {
    match t
    case Leaf(id, entries) => InsertLeaf(id, entries, e, order, nextId)
    case Inner(id, keys, kids) =>
      var at := LowerBound(keys, Rank(e.key));
      var (g, nextId') := Insert(kids[at], e, order, nextId);
      Absorb(id, keys, kids, at, g, order, nextId')
  }

  /** A split that reaches the root puts a new root above the two halves. */
  ghost function Raise(g: Grown, nextId: nat): (Tree, nat) {
    match g
    case One(tree) => (tree, nextId)
    case Two(left, sep, right) => (Inner(nextId, [sep], [left, right]), nextId + 1)
  }

  /** indexInsert, as far as the tree goes. */
  ghost function InsertRoot(t: Tree, e: Entry, order: nat, nextId: nat): (Tree, nat)
    requires Shaped(t) && order >= 4
  {
    var r := Insert(t, e, order, nextId);
    Raise(r.0, r.1)
  }

  // ---------- the invariant ----------

  ghost function KidLo(keys: seq<StoredKey>, lo: int, i: nat): int
    requires i <= |keys|
  {
    if i == 0 then lo else Rank(keys[i - 1])
  }

  ghost function KidHi(keys: seq<StoredKey>, hi: int, i: nat): int
    requires i <= |keys|
  {
    if i == |keys| then hi else Rank(keys[i])
  }

  /** Keys in order and in bounds, and every kid sound between the keys either side of it. */
  ghost predicate NodeOk(keys: seq<StoredKey>, kids: seq<Tree>, order: nat, depth: nat, lo: int, hi: int)
    decreases kids
  {
    && |kids| == |keys| + 1 && depth > 0
    && Sorted(keys) && Within(keys, lo, hi)
    && forall i :: 0 <= i < |kids| ==>
         TreeOk(kids[i], order, depth - 1, KidLo(keys, lo, i), KidHi(keys, hi, i), (order - 1) / 2)
  }

  /**
   A sound subtree: every leaf at the same depth, every node holding at least `min` and
   fewer than `order` keys, keys sorted, and separators bounding the subtrees beside them.
   */
  ghost predicate TreeOk(t: Tree, order: nat, depth: nat, lo: int, hi: int, min: int)
    decreases t
  {
    match t
    case Leaf(_, entries) =>
      && depth == 0 && min <= |entries| < order
      && Sorted(Keys(entries)) && Within(Keys(entries), lo, hi)
    case Inner(_, keys, kids) =>
      && 1 <= |keys| && min <= |keys| < order
      && NodeOk(keys, kids, order, depth, lo, hi)
  }

  ghost predicate GrownOk(g: Grown, order: nat, depth: nat, lo: int, hi: int, min: int) {
    match g
    case One(tree) => TreeOk(tree, order, depth, lo, hi, min)
    case Two(left, sep, right) =>
      && lo <= Rank(sep) <= hi
      && TreeOk(left, order, depth, lo, Rank(sep), (order - 1) / 2)
      && TreeOk(right, order, depth, Rank(sep), hi, (order - 1) / 2)
  }

  lemma InnerOk(t: Tree, order: nat, depth: nat, lo: int, hi: int, min: int)
    requires TreeOk(t, order, depth, lo, hi, min) && t.Inner?
    ensures NodeOk(t.keys, t.kids, order, depth, lo, hi) && 1 <= |t.keys| < order
  {
  }

  lemma {:induction false} OkIsShaped(t: Tree, order: nat, depth: nat, lo: int, hi: int, min: int)
    requires TreeOk(t, order, depth, lo, hi, min)
    ensures Shaped(t)
    decreases t
  {
    hide Rank;
    if t.Inner? {
      forall i | 0 <= i < |t.kids|
        ensures Shaped(t.kids[i])
      {
        OkIsShaped(t.kids[i], order, depth - 1, KidLo(t.keys, lo, i), KidHi(t.keys, hi, i), (order - 1) / 2);
      }
    }
  }

  lemma InsertSortedAt(entries: seq<Entry>, e: Entry, i: nat)
    requires i <= |entries|
    ensures var at, grown := LowerBound(Keys(entries), Rank(e.key)), InsertSorted(entries, e);
            && |grown| == |entries| + 1
            && grown[i] == if i < at then entries[i] else if i == at then e else entries[i - 1]
  {
    hide Rank, LowerBound;
  }

  lemma InsertSortedKeepsOrder(entries: seq<Entry>, e: Entry, lo: int, hi: int)
    requires Sorted(Keys(entries)) && Within(Keys(entries), lo, hi) && lo <= Rank(e.key) <= hi
    ensures Sorted(Keys(InsertSorted(entries, e))) && Within(Keys(InsertSorted(entries, e)), lo, hi)
  {
    hide Rank;
    var was, keys := Keys(entries), Keys(InsertSorted(entries, e));
    var at := LowerBound(was, Rank(e.key));
    forall i | 0 <= i < |keys|
      ensures keys[i] == if i < at then was[i] else if i == at then e.key else was[i - 1]
    {
      InsertSortedAt(entries, e, i);
    }
    forall i, j | 0 <= i < j < |keys|
      ensures Rank(keys[i]) <= Rank(keys[j])
    {
      if i == at {
        assert at == j - 1 || Rank(was[at]) <= Rank(was[j - 1]);
      }
    }
  }

  lemma InsertLeafOk(id: nat, entries: seq<Entry>, e: Entry, order: nat, nextId: nat, lo: int, hi: int, min: int)
    requires order >= 4 && TreeOk(Leaf(id, entries), order, 0, lo, hi, min) && lo <= Rank(e.key) <= hi
    ensures GrownOk(InsertLeaf(id, entries, e, order, nextId).0, order, 0, lo, hi, min)
  {
    hide Rank;
    InsertSortedKeepsOrder(entries, e, lo, hi);
    var grown := InsertSorted(entries, e);
    var half := order / 2;
    if |grown| == order {
      assert Keys(grown[..half]) == Keys(grown)[..half];
      assert Keys(grown[half..]) == Keys(grown)[half..];
    }
  }

  lemma NodeReplace(keys: seq<StoredKey>, kids: seq<Tree>, at: nat, kid: Tree, order: nat, depth: nat, lo: int, hi: int)
    requires NodeOk(keys, kids, order, depth, lo, hi) && at < |kids|
    requires TreeOk(kid, order, depth - 1, KidLo(keys, lo, at), KidHi(keys, hi, at), (order - 1) / 2)
    ensures NodeOk(keys, kids[at := kid], order, depth, lo, hi)
  {
  }

  lemma WidenKeys(keys: seq<StoredKey>, at: nat, sep: StoredKey, lo: int, hi: int)
    requires Sorted(keys) && Within(keys, lo, hi) && at <= |keys|
    requires KidLo(keys, lo, at) <= Rank(sep) <= KidHi(keys, hi, at) && lo <= Rank(sep) <= hi
    ensures Sorted(keys[..at] + [sep] + keys[at..]) && Within(keys[..at] + [sep] + keys[at..], lo, hi)
  {
    hide Rank;
    var keys' := keys[..at] + [sep] + keys[at..];
    forall i | 0 <= i < |keys'|
      ensures keys'[i] == if i < at then keys[i] else if i == at then sep else keys[i - 1]
    {
    }
    forall i, j | 0 <= i < j < |keys'|
      ensures Rank(keys'[i]) <= Rank(keys'[j])
    {
      assert i < at && at > 0 ==> Rank(keys[i]) <= Rank(keys[at - 1]);
      assert j > at && at < |keys| ==> Rank(keys[at]) <= Rank(keys[j - 1]);
    }
  }

  /** Bounds of the kids either side of a new separator. */
  lemma WidenBounds(keys: seq<StoredKey>, at: nat, sep: StoredKey, lo: int, hi: int, i: nat)
    requires at <= |keys| && i <= |keys| + 1
    ensures var keys' := keys[..at] + [sep] + keys[at..];
            && KidLo(keys', lo, i) == (if i <= at then KidLo(keys, lo, i) else if i == at + 1 then Rank(sep) else KidLo(keys, lo, i - 1))
            && KidHi(keys', hi, i) == (if i < at then KidHi(keys, hi, i) else if i == at then Rank(sep) else KidHi(keys, hi, i - 1))
  {
    hide Rank;
    var keys' := keys[..at] + [sep] + keys[at..];
    assert i < |keys'| ==> keys'[i] == if i < at then keys[i] else if i == at then sep else keys[i - 1];
    assert i > 0 ==> keys'[i - 1] == if i - 1 < at then keys[i - 1] else if i - 1 == at then sep else keys[i - 2];
  }

  lemma NodeWiden(keys: seq<StoredKey>, kids: seq<Tree>, at: nat, g: Grown, order: nat, depth: nat, lo: int, hi: int)
    requires NodeOk(keys, kids, order, depth, lo, hi) && at < |kids| && g.Two?
    requires GrownOk(g, order, depth - 1, KidLo(keys, lo, at), KidHi(keys, hi, at), (order - 1) / 2)
    ensures NodeOk(keys[..at] + [g.sep] + keys[at..], kids[..at] + [g.left, g.right] + kids[at + 1..], order, depth, lo, hi)
  {
    hide Rank;
    var keys' := keys[..at] + [g.sep] + keys[at..];
    var kids' := kids[..at] + [g.left, g.right] + kids[at + 1..];
    assert lo <= KidLo(keys, lo, at) && KidHi(keys, hi, at) <= hi;
    WidenKeys(keys, at, g.sep, lo, hi);
    forall i | 0 <= i < |kids'|
      ensures TreeOk(kids'[i], order, depth - 1, KidLo(keys', lo, i), KidHi(keys', hi, i), (order - 1) / 2)
    {
      WidenBounds(keys, at, g.sep, lo, hi, i);
      if i < at {
        assert TreeOk(kids[i], order, depth - 1, KidLo(keys, lo, i), KidHi(keys, hi, i), (order - 1) / 2);
      } else if i > at + 1 {
        assert TreeOk(kids[i - 1], order, depth - 1, KidLo(keys, lo, i - 1), KidHi(keys, hi, i - 1), (order - 1) / 2);
      }
    }
  }

  lemma NodeSplit(keys: seq<StoredKey>, kids: seq<Tree>, middle: nat, order: nat, depth: nat, lo: int, hi: int)
    requires NodeOk(keys, kids, order, depth, lo, hi) && middle < |keys|
    ensures NodeOk(keys[..middle], kids[..middle + 1], order, depth, lo, Rank(keys[middle]))
    ensures NodeOk(keys[middle + 1..], kids[middle + 1..], order, depth, Rank(keys[middle]), hi)
  {
    hide Rank;
    var r := Rank(keys[middle]);
    forall i | 0 <= i <= middle
      ensures TreeOk(kids[..middle + 1][i], order, depth - 1, KidLo(keys[..middle], lo, i), KidHi(keys[..middle], r, i), (order - 1) / 2)
    {
      assert TreeOk(kids[i], order, depth - 1, KidLo(keys, lo, i), KidHi(keys, hi, i), (order - 1) / 2);
    }
    var keys', kids' := keys[middle + 1..], kids[middle + 1..];
    forall i | 0 <= i < |kids'|
      ensures TreeOk(kids'[i], order, depth - 1, KidLo(keys', r, i), KidHi(keys', hi, i), (order - 1) / 2)
    {
      var k := middle + 1 + i;
      assert TreeOk(kids[k], order, depth - 1, KidLo(keys, lo, k), KidHi(keys, hi, k), (order - 1) / 2);
    }
  }

  lemma MakeInner(id: nat, keys: seq<StoredKey>, kids: seq<Tree>, order: nat, depth: nat, lo: int, hi: int, min: int)
    requires NodeOk(keys, kids, order, depth, lo, hi) && 1 <= |keys| && min <= |keys| < order
    ensures TreeOk(Inner(id, keys, kids), order, depth, lo, hi, min)
  {
  }

  lemma AbsorbOk(id: nat, keys: seq<StoredKey>, kids: seq<Tree>, at: nat, g: Grown, order: nat, nextId: nat,
                 depth: nat, lo: int, hi: int, min: int)
    requires order >= 4 && 1 <= |keys| && min <= |keys| < order && at <= |keys|
    requires NodeOk(keys, kids, order, depth, lo, hi)
    requires GrownOk(g, order, depth - 1, KidLo(keys, lo, at), KidHi(keys, hi, at), (order - 1) / 2)
    ensures GrownOk(Absorb(id, keys, kids, at, g, order, nextId).0, order, depth, lo, hi, min)
  {
    hide Rank, TreeOk, NodeOk;
    NodeShape(keys, kids, order, depth, lo, hi);
    match g
    case One(kid) =>
      NodeReplace(keys, kids, at, kid, order, depth, lo, hi);
      MakeInner(id, keys, kids[at := kid], order, depth, lo, hi, min);
    case Two(left, sep, right) =>
      NodeWiden(keys, kids, at, g, order, depth, lo, hi);
      var keys' := keys[..at] + [sep] + keys[at..];
      var kids' := kids[..at] + [left, right] + kids[at + 1..];
      if |keys'| == order {
        var middle := order / 2;
        NodeSplit(keys', kids', middle, order, depth, lo, hi);
        NodeShape(keys', kids', order, depth, lo, hi);
        MakeInner(id, keys'[..middle], kids'[..middle + 1], order, depth, lo, Rank(keys'[middle]), (order - 1) / 2);
        MakeInner(nextId, keys'[middle + 1..], kids'[middle + 1..], order, depth, Rank(keys'[middle]), hi, (order - 1) / 2);
      } else {
        MakeInner(id, keys', kids', order, depth, lo, hi, min);
      }
  }

  lemma NodeShape(keys: seq<StoredKey>, kids: seq<Tree>, order: nat, depth: nat, lo: int, hi: int)
    requires NodeOk(keys, kids, order, depth, lo, hi)
    ensures |kids| == |keys| + 1 && depth > 0 && Within(keys, lo, hi)
  {
  }

  /** Inserting anywhere below a node keeps that node sound, or splits it into two sound halves. */
  lemma {:induction false} InsertOk(t: Tree, e: Entry, order: nat, nextId: nat, depth: nat, lo: int, hi: int, min: int)
    requires order >= 4 && TreeOk(t, order, depth, lo, hi, min) && lo <= Rank(e.key) <= hi
    ensures Shaped(t) && GrownOk(Insert(t, e, order, nextId).0, order, depth, lo, hi, min)
    decreases t
  {
    hide Rank;
    OkIsShaped(t, order, depth, lo, hi, min);
    match t
    case Leaf(id, entries) => InsertLeafOk(id, entries, e, order, nextId, lo, hi, min);
    case Inner(id, keys, kids) =>
      var at := LowerBound(keys, Rank(e.key));
      InsertOk(kids[at], e, order, nextId, depth - 1, KidLo(keys, lo, at), KidHi(keys, hi, at), (order - 1) / 2);
      var (g, nextId') := Insert(kids[at], e, order, nextId);
      AbsorbOk(id, keys, kids, at, g, order, nextId', depth, lo, hi, min);
  }

  // ---------- what the tree holds ----------

  ghost function Entries(t: Tree): seq<Entry>
    decreases t
  {
    match t
    case Leaf(_, entries) => entries
    case Inner(_, _, kids) => AllEntries(kids)
  }

  ghost function AllEntries(kids: seq<Tree>): seq<Entry>
    decreases kids
  {
    if kids == [] then [] else Entries(kids[0]) + AllEntries(kids[1..])
  }

  ghost function GrownEntries(g: Grown): seq<Entry> {
    match g
    case One(tree) => Entries(tree)
    case Two(left, _, right) => Entries(left) + Entries(right)
  }

  lemma {:induction false} AllEntriesConcat(a: seq<Tree>, b: seq<Tree>)
    ensures AllEntries(a + b) == AllEntries(a) + AllEntries(b)
  {
    hide Entries, Rank;
    if a == [] {
      assert a + b == b;
    } else {
      AllEntriesConcat(a[1..], b);
      assert (a + b)[1..] == a[1..] + b && (a + b)[0] == a[0];
    }
  }

  lemma AllEntriesHead(kids: seq<Tree>)
    requires kids != []
    ensures AllEntries(kids) == Entries(kids[0]) + AllEntries(kids[1..])
  {
  }

  lemma AllEntriesAround(kids: seq<Tree>, at: nat)
    requires at < |kids|
    ensures AllEntries(kids) == AllEntries(kids[..at]) + Entries(kids[at]) + AllEntries(kids[at + 1..])
  {
    hide *;
    var before, rest, after := kids[..at], kids[at..], kids[at + 1..];
    assert kids == before + rest;
    AllEntriesConcat(before, rest);
    AllEntriesHead(rest);
    assert rest[1..] == after && rest[0] == kids[at];
  }

  ghost predicate EntriesWithin(entries: seq<Entry>, lo: int, hi: int) {
    forall i :: 0 <= i < |entries| ==> lo <= Rank(entries[i].key) <= hi
  }

  /** Everything in a sound subtree lies in its bounds. */
  lemma {:induction false} EntriesBounded(t: Tree, order: nat, depth: nat, lo: int, hi: int, min: int)
    requires TreeOk(t, order, depth, lo, hi, min)
    ensures EntriesWithin(Entries(t), lo, hi)
    decreases t, 1
  {
    hide Rank;
    match t
    case Leaf(_, entries) => assert forall i :: 0 <= i < |entries| ==> Keys(entries)[i] == entries[i].key;
    case Inner(_, keys, kids) =>
      KidsBounded(keys, kids, order, depth, lo, hi, 0, |kids|);
      assert kids[0..|kids|] == kids;
  }

  /** Kids from a up to b lie between the keys either side of that range. */
  lemma {:induction false} KidsBounded(keys: seq<StoredKey>, kids: seq<Tree>, order: nat, depth: nat, lo: int, hi: int, a: nat, b: nat)
    requires NodeOk(keys, kids, order, depth, lo, hi) && a <= b <= |kids|
    ensures a < b ==> EntriesWithin(AllEntries(kids[a..b]), KidLo(keys, lo, a), KidHi(keys, hi, b - 1))
    decreases kids, 0, b - a
  {
    hide Rank;
    if a < b {
      EntriesBounded(kids[a], order, depth - 1, KidLo(keys, lo, a), KidHi(keys, hi, a), (order - 1) / 2);
      KidsBounded(keys, kids, order, depth, lo, hi, a + 1, b);
      assert kids[a..b][1..] == kids[a + 1..b];
      if a + 1 < b {
        assert KidLo(keys, lo, a) <= KidLo(keys, lo, a + 1);
        assert KidHi(keys, hi, a) <= KidHi(keys, hi, b - 1);
      }
    }
  }

  /** Insertion into the middle of a list whose ends are on the right sides of the key. */
  lemma InsertSortedBetween(a: seq<Entry>, m: seq<Entry>, b: seq<Entry>, e: Entry)
    requires forall i :: 0 <= i < |a| ==> Rank(a[i].key) < Rank(e.key)
    requires b != [] ==> Rank(b[0].key) >= Rank(e.key)
    ensures InsertSorted(a + m + b, e) == a + InsertSorted(m, e) + b
  {
    hide Rank;
    var at := LowerBound(Keys(m), Rank(e.key));
    LowerBoundBetween(a, m, b, Rank(e.key));
    SpliceBetween(a, m, b, at, e);
  }

  lemma LowerBoundBetween(a: seq<Entry>, m: seq<Entry>, b: seq<Entry>, r: int)
    requires forall i :: 0 <= i < |a| ==> Rank(a[i].key) < r
    requires b != [] ==> Rank(b[0].key) >= r
    ensures LowerBound(Keys(a + m + b), r) == |a| + LowerBound(Keys(m), r)
  {
    hide Rank;
    var at := LowerBound(Keys(m), r);
    var keys, k := Keys(a + m + b), |a| + at;
    forall i | 0 <= i < k
      ensures Rank(keys[i]) < r
    {
      assert keys[i] == if i < |a| then a[i].key else Keys(m)[i - |a|];
    }
    if k < |keys| {
      assert keys[k] == if at < |m| then Keys(m)[at] else b[0].key;
    }
    LowerBoundIs(keys, r, k);
  }

  lemma SpliceBetween(a: seq<Entry>, m: seq<Entry>, b: seq<Entry>, at: nat, e: Entry)
    requires at <= |m|
    ensures (a + m + b)[..|a| + at] + [e] + (a + m + b)[|a| + at..] == a + (m[..at] + [e] + m[at..]) + b
  {
    assert (a + m + b)[..|a| + at] == a + m[..at];
    assert (a + m + b)[|a| + at..] == m[at..] + b;
  }

  lemma InsertLeafEntries(id: nat, entries: seq<Entry>, e: Entry, order: nat, nextId: nat)
    requires order >= 4
    ensures GrownEntries(InsertLeaf(id, entries, e, order, nextId).0) == InsertSorted(entries, e)
  {
    hide Rank;
    var grown := InsertSorted(entries, e);
    var half := order / 2;
    if |grown| == order {
      assert grown == grown[..half] + grown[half..];
    }
  }

  lemma AllEntriesOfPair(left: Tree, right: Tree)
    ensures AllEntries([left, right]) == Entries(left) + Entries(right)
  {
    hide Rank;
    assert [left, right][1..] == [right];
    assert [right][1..] == [];
    assert AllEntries([right]) == Entries(right) + AllEntries([]);
  }

  /** Absorbing changes only the stretch of entries that belonged to kid `at`. */
  lemma AbsorbEntries(id: nat, keys: seq<StoredKey>, kids: seq<Tree>, at: nat, g: Grown, order: nat, nextId: nat)
    requires at <= |keys| && |kids| == |keys| + 1 && order >= 4
    ensures GrownEntries(Absorb(id, keys, kids, at, g, order, nextId).0)
            == AllEntries(kids[..at]) + GrownEntries(g) + AllEntries(kids[at + 1..])
  {
    hide Rank;
    var before, after := kids[..at], kids[at + 1..];
    match g
    case One(kid) =>
      AllEntriesAround(kids[at := kid], at);
      assert kids[at := kid][..at] == before && kids[at := kid][at + 1..] == after;
    case Two(left, sep, right) =>
      var keys' := keys[..at] + [sep] + keys[at..];
      var kids' := before + [left, right] + after;
      AllEntriesConcat(before + [left, right], after);
      AllEntriesConcat(before, [left, right]);
      AllEntriesOfPair(left, right);
      var middle := order / 2;
      if |keys'| == order {
        AllEntriesConcat(kids'[..middle + 1], kids'[middle + 1..]);
        assert kids' == kids'[..middle + 1] + kids'[middle + 1..];
      }
  }

  /**
   Read left to right, inserting into the tree is inserting into a sorted list: exactly one
   entry more, in front of the entries with an equal key, and nothing else moved.
   */
  lemma {:induction false} InsertEntries(t: Tree, e: Entry, order: nat, nextId: nat, depth: nat, lo: int, hi: int, min: int)
    requires TreeOk(t, order, depth, lo, hi, min) && order >= 4
    ensures Shaped(t) && GrownEntries(Insert(t, e, order, nextId).0) == InsertSorted(Entries(t), e)
    decreases t
  {
    hide Rank;
    OkIsShaped(t, order, depth, lo, hi, min);
    match t
    case Leaf(id, entries) => InsertLeafEntries(id, entries, e, order, nextId);
    case Inner(id, keys, kids) =>
      var at := LowerBound(keys, Rank(e.key));
      InsertEntries(kids[at], e, order, nextId, depth - 1, KidLo(keys, lo, at), KidHi(keys, hi, at), (order - 1) / 2);
      var (g, nextId') := Insert(kids[at], e, order, nextId);
      AbsorbEntries(id, keys, kids, at, g, order, nextId');
      InsertAmongKids(keys, kids, e, order, depth, lo, hi);
  }

  /** Inserting among a node's entries is inserting among those of the kid the key leads to. */
  lemma InsertAmongKids(keys: seq<StoredKey>, kids: seq<Tree>, e: Entry, order: nat, depth: nat, lo: int, hi: int)
    requires NodeOk(keys, kids, order, depth, lo, hi)
    ensures var at := LowerBound(keys, Rank(e.key));
            InsertSorted(AllEntries(kids), e)
            == AllEntries(kids[..at]) + InsertSorted(Entries(kids[at]), e) + AllEntries(kids[at + 1..])
  {
    hide Rank, Entries;
    var at := LowerBound(keys, Rank(e.key));
    var before, after := AllEntries(kids[..at]), AllEntries(kids[at + 1..]);
    AllEntriesAround(kids, at);
    KidsBounded(keys, kids, order, depth, lo, hi, 0, at);
    KidsBounded(keys, kids, order, depth, lo, hi, at + 1, |kids|);
    assert kids[0..at] == kids[..at];
    assert kids[at + 1..|kids|] == kids[at + 1..];
    assert after != [] ==> at < |keys| && Rank(after[0].key) >= KidLo(keys, lo, at + 1);
    InsertSortedBetween(before, Entries(kids[at]), after, e);
  }

  /** A sound tree read left to right is in key order. */
  lemma {:induction false} EntriesSorted(t: Tree, order: nat, depth: nat, lo: int, hi: int, min: int)
    requires TreeOk(t, order, depth, lo, hi, min)
    ensures Sorted(Keys(Entries(t)))
    decreases t, 1
  {
    hide Rank;
    if t.Inner? {
      KidsSorted(t.keys, t.kids, order, depth, lo, hi, 0);
      assert t.kids[0..] == t.kids;
    }
  }

  lemma {:induction false} KidsSorted(keys: seq<StoredKey>, kids: seq<Tree>, order: nat, depth: nat, lo: int, hi: int, a: nat)
    requires NodeOk(keys, kids, order, depth, lo, hi) && a <= |kids|
    ensures Sorted(Keys(AllEntries(kids[a..])))
    decreases kids, 0, |kids| - a
  {
    hide Rank, Entries;
    if a < |kids| {
      var first, rest := Entries(kids[a]), AllEntries(kids[a + 1..]);
      EntriesSorted(kids[a], order, depth - 1, KidLo(keys, lo, a), KidHi(keys, hi, a), (order - 1) / 2);
      EntriesBounded(kids[a], order, depth - 1, KidLo(keys, lo, a), KidHi(keys, hi, a), (order - 1) / 2);
      KidsSorted(keys, kids, order, depth, lo, hi, a + 1);
      KidsBounded(keys, kids, order, depth, lo, hi, a + 1, |kids|);
      assert kids[a + 1..|kids|] == kids[a + 1..];
      assert kids[a..][1..] == kids[a + 1..];
      AllEntriesHead(kids[a..]);
      SortedConcat(first, rest, KidLo(keys, lo, a), KidHi(keys, hi, a), hi);
    }
  }

  lemma SortedConcat(a: seq<Entry>, b: seq<Entry>, lo: int, mid: int, hi: int)
    requires Sorted(Keys(a)) && Sorted(Keys(b)) && EntriesWithin(a, lo, mid) && (b != [] ==> EntriesWithin(b, mid, hi))
    ensures Sorted(Keys(a + b))
  {
    hide Rank;
    var keys := Keys(a + b);
    forall i, j | 0 <= i < j < |keys|
      ensures Rank(keys[i]) <= Rank(keys[j])
    {
      assert keys[i] == if i < |a| then Keys(a)[i] else Keys(b)[i - |a|];
      assert keys[j] == if j < |a| then Keys(a)[j] else Keys(b)[j - |a|];
    }
  }

  // ---------- whole trees ----------

  ghost function Depth(t: Tree): nat
    decreases t
  {
    if t.Leaf? || t.kids == [] then 0 else 1 + Depth(t.kids[0])
  }

  lemma {:induction false} OkDepth(t: Tree, order: nat, depth: nat, lo: int, hi: int, min: int)
    requires TreeOk(t, order, depth, lo, hi, min)
    ensures Depth(t) == depth
    decreases t
  {
    hide Rank;
    if t.Inner? {
      OkDepth(t.kids[0], order, depth - 1, KidLo(t.keys, lo, 0), KidHi(t.keys, hi, 0), (order - 1) / 2);
    }
  }

  /** A sound index tree: the root alone may be short of keys. */
  ghost predicate RootOk(t: Tree, order: nat, hi: int) {
    TreeOk(t, order, Depth(t), 0, hi, 0)
  }

  lemma RaiseOk(g: Grown, nextId: nat, order: nat, depth: nat, hi: int)
    requires order >= 4 && GrownOk(g, order, depth, 0, hi, 0)
    ensures RootOk(Raise(g, nextId).0, order, hi)
    ensures Entries(Raise(g, nextId).0) == GrownEntries(g)
  {
    hide Rank;
    match g
    case One(tree) => OkDepth(tree, order, depth, 0, hi, 0);
    case Two(left, sep, right) =>
      assert NodeOk([sep], [left, right], order, depth + 1, 0, hi);
      OkDepth(Raise(g, nextId).0, order, depth + 1, 0, hi, 0);
      AllEntriesOfPair(left, right);
  }

  /** indexInsert keeps the tree sound and inserts into the sorted list of its entries. */
  lemma InsertRootOk(t: Tree, e: Entry, order: nat, nextId: nat, hi: int)
    requires order >= 4 && RootOk(t, order, hi) && Rank(e.key) <= hi
    ensures Shaped(t)
    ensures RootOk(InsertRoot(t, e, order, nextId).0, order, hi)
    ensures Entries(InsertRoot(t, e, order, nextId).0) == InsertSorted(Entries(t), e)
  {
    hide Rank;
    InsertOk(t, e, order, nextId, Depth(t), 0, hi, 0);
    InsertEntries(t, e, order, nextId, Depth(t), 0, hi, 0);
    var r := Insert(t, e, order, nextId);
    RaiseOk(r.0, r.1, order, Depth(t), hi);
  }

  /** The tree after inserting a sequence of entries into an empty one, and the next unused id. */
  ghost function Build(es: seq<Entry>, order: nat): (Tree, nat)
    requires order >= 4
  {
    if es == [] then (Leaf(0, []), 1)
    else
      var r := Build(es[..|es| - 1], order);
      if Shaped(r.0) then InsertRoot(r.0, es[|es| - 1], order, r.1) else r
  }

  lemma InsertSortedAdds(entries: seq<Entry>, e: Entry)
    ensures multiset(InsertSorted(entries, e)) == multiset(entries) + multiset{e}
  {
    hide Rank;
    var at := LowerBound(Keys(entries), Rank(e.key));
    assert entries == entries[..at] + entries[at..];
  }

  lemma EmptyBuildOk(order: nat, hi: int)
    requires order >= 4 && hi >= 0
    ensures Build([], order) == (Leaf(0, []), 1) && RootOk(Leaf(0, []), order, hi) && Entries(Leaf(0, [])) == []
  {
  }

  lemma RootEntriesSorted(t: Tree, order: nat, hi: int)
    requires RootOk(t, order, hi)
    ensures Sorted(Keys(Entries(t)))
  {
    hide Rank, TreeOk, Entries, Sorted;
    EntriesSorted(t, order, Depth(t), 0, hi, 0);
  }

  /**
   Over every insertion sequence, duplicates included: the tree is sound, its entries read
   in key order, and they are exactly the entries inserted.
   */
  lemma {:induction false} BuildOk(es: seq<Entry>, order: nat, hi: int)
    requires order >= 4 && hi >= 0 && forall i :: 0 <= i < |es| ==> Rank(es[i].key) <= hi
    ensures RootOk(Build(es, order).0, order, hi)
    ensures Sorted(Keys(Entries(Build(es, order).0)))
    ensures multiset(Entries(Build(es, order).0)) == multiset(es)
  {
    hide Rank, InsertRoot, InsertSorted, Entries, RootOk, Sorted, Shaped;
    EmptyBuildOk(order, hi);
    if es != [] {
      var front, e := es[..|es| - 1], es[|es| - 1];
      var r := Build(front, order);
      BuildOk(front, order, hi);
      InsertRootOk(r.0, e, order, r.1, hi);
      InsertSortedAdds(Entries(r.0), e);
      assert es == front + [e];
    }
    RootEntriesSorted(Build(es, order).0, order, hi);
  }
}
