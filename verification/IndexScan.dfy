/**
 Reading an index (11_index.c:704-880): descend to a leaf, then walk the leaf chain.

 A scan's answer is stated over the tree's entries read left to right; that the stored keys
 are cut short is then shown never to hide an entry whose full value qualifies.
 */
module IndexScan {
  import opened Values
  import opened IndexKeys
  import opened BTree
  import opened BTreePages
  import opened IndexTree

  /** What one entry means to a scan: pass it by, keep its row, or stop. */
  datatype Verdict = Skip | Take | Stop

  /** The two kinds of scan: against a key, or for keys starting with some bytes. */
  datatype Test = Against(op: CompareOp, target: StoredKey) | StartsWith(bytes: Bytes)

  predicate OpenLeft(test: Test) {
    test.Against? && (test.op.Lt? || test.op.Lte?)
  }

  function PrefixOrder(key: Bytes, prefix: Bytes): int {
    var shared := Min(|key|, |prefix|);
    var order := Memcmp(key, prefix, shared);
    if order == 0 && |key| < |prefix| then -1 else order
  }

  predicate TestOk(test: Test, text: bool) {
    match test
    case Against(op, target) => KeyOk(target) && target.TextKey? == text && Indexable(op)
    case StartsWith(bytes) => text && |bytes| <= INDEX_KEY_MAX
  }

  function Judge(test: Test, key: StoredKey): Verdict
    requires test.Against? ==> SameKind(key, test.target)
    requires test.StartsWith? ==> key.TextKey?
  {
    match test
    case Against(op, target) =>
      var comparison := CompareKeys(key, target);
      if comparison > 0 && (op.Eq? || op.Lt? || op.Lte?) then Stop
      else
        var matches := match op
          case Eq => comparison == 0
          case Lt => comparison <= 0
          case Lte => comparison <= 0
          case Gt => comparison >= 0
          case Gte => comparison >= 0
          case _ => false;
        if matches then Take else Skip
    case StartsWith(bytes) =>
      var order := PrefixOrder(key.bytes, bytes);
      if order > 0 then Stop else if order < 0 then Skip else Take
  }

  ghost predicate EntriesTyped(entries: seq<Entry>, text: bool) {
    forall i :: 0 <= i < |entries| ==> KeyOk(entries[i].key) && entries[i].key.TextKey? == text
  }

  /** The rows of the entries a test takes, in order. */
  ghost function TakenRows(test: Test, entries: seq<Entry>, text: bool): seq<int>
    requires TestOk(test, text) && EntriesTyped(entries, text)
  {
    if entries == [] then []
    else
      var last := entries[|entries| - 1];
      TakenRows(test, entries[..|entries| - 1], text)
        + if Judge(test, last.key).Take? then [last.payload] else []
  }

  // ---------- ranks and verdicts ----------

  /** The key a scan looks for on its way down. */
  function SeekKey(test: Test): StoredKey {
    if test.Against? then test.target else TextKey(test.bytes, |test.bytes|)
  }

  /** Starting with the prefix, as one comparison of the key cut to the prefix's length. */
  lemma PrefixOrderIs(key: Bytes, prefix: Bytes)
    ensures PrefixOrder(key, prefix) == CompareText(key[..Min(|key|, |prefix|)], prefix)
    ensures PrefixOrder(key, prefix) == 0 <==> prefix <= key
  {
    var cut := key[..Min(|key|, |prefix|)];
    MemcmpPrefix(key, cut, prefix, |cut|);
    assert prefix[..|prefix|] == prefix;
    assert prefix <= key ==> cut == prefix;
  }

  lemma {:induction false} MemcmpPrefix(a: Bytes, a': Bytes, b: Bytes, n: nat)
    requires n <= |a| && n <= |a'| && n <= |b| && a[..n] == a'[..n]
    ensures Memcmp(a, b, n) == Memcmp(a', b, n)
  {
    if n > 0 {
      assert a[0] == a[..n][0] == a'[0];
      assert a[1..][..n - 1] == a[..n][1..] == a'[1..][..n - 1];
      MemcmpPrefix(a[1..], a'[1..], b[1..], n - 1);
    }
  }

  lemma CompareTextTransitive(a: Bytes, b: Bytes, c: Bytes)
    requires CompareText(a, b) <= 0
    ensures CompareText(a, c) <= CompareText(b, c)
  {
    hide TextRank;
    var n := |a| + |b| + |c|;
    TextRankOrder(a, b, n);
    TextRankOrder(a, c, n);
    TextRankOrder(b, c, n);
  }

  /** Keys ascend, so once a scan may stop nothing later could have been taken. */
  lemma StopIsFinal(test: Test, a: StoredKey, b: StoredKey, text: bool)
    requires TestOk(test, text) && KeyOk(a) && KeyOk(b) && a.TextKey? == b.TextKey? == text
    requires Rank(a) <= Rank(b) && Judge(test, a).Stop?
    ensures Judge(test, b).Stop?
  {
    hide TextRank, CompareText, PrefixOrder, CompareKeys;
    match test
    case Against(op, target) =>
      CompareIsRank(a, target);
      CompareIsRank(b, target);
    case StartsWith(p) =>
      TextRankOrder(a.bytes, b.bytes, INDEX_KEY_MAX);
      TruncateMonotone(a.bytes, b.bytes, |p|);
      PrefixOrderIs(a.bytes, p);
      PrefixOrderIs(b.bytes, p);
      CompareTextTransitive(a.bytes[..Min(|a.bytes|, |p|)], b.bytes[..Min(|b.bytes|, |p|)], p);
  }

  /** Nothing left of where a scan starts could have been taken. */
  lemma BeforeSeekIsSkipped(test: Test, k: StoredKey, text: bool)
    requires TestOk(test, text) && KeyOk(k) && k.TextKey? == text
    requires !OpenLeft(test) && Rank(k) < Rank(SeekKey(test))
    ensures !Judge(test, k).Take?
  {
    hide TextRank;
    match test
    case Against(op, target) => CompareIsRank(k, target);
    case StartsWith(p) =>
      TextRankOrder(k.bytes, p, INDEX_KEY_MAX);
      PrefixOrderIs(k.bytes, p);
  }

  lemma {:induction false} TakenRowsConcat(test: Test, a: seq<Entry>, b: seq<Entry>, text: bool)
    requires TestOk(test, text) && EntriesTyped(a, text) && EntriesTyped(b, text)
    ensures EntriesTyped(a + b, text)
    ensures TakenRows(test, a + b, text) == TakenRows(test, a, text) + TakenRows(test, b, text)
  {
    hide Rank, Judge, TestOk;
    if b == [] {
      assert a + b == a;
    } else {
      var front := b[..|b| - 1];
      TakenRowsConcat(test, a, front, text);
      assert (a + b)[..|a + b| - 1] == a + front;
    }
  }

  lemma {:induction false} NothingTaken(test: Test, entries: seq<Entry>, text: bool)
    requires TestOk(test, text) && EntriesTyped(entries, text)
    requires forall i :: 0 <= i < |entries| ==> !Judge(test, entries[i].key).Take?
    ensures TakenRows(test, entries, text) == []
  {
    hide Rank;
    if entries != [] {
      NothingTaken(test, entries[..|entries| - 1], text);
    }
  }

  // ---------- leaves and entries ----------

  ghost function Flat(leaves: seq<Tree>): seq<Entry> {
    if leaves == [] then [] else Entries(leaves[0]) + Flat(leaves[1..])
  }

  lemma {:induction false} FlatConcat(a: seq<Tree>, b: seq<Tree>)
    ensures Flat(a + b) == Flat(a) + Flat(b)
  {
    hide Rank, Entries;
    if a == [] {
      assert a + b == b;
    } else {
      FlatConcat(a[1..], b);
      assert (a + b)[1..] == a[1..] + b;
    }
  }

  lemma {:induction false} FlatLeaves(t: Tree)
    ensures Flat(Leaves(t)) == Entries(t)
    decreases t, 1
  {
    hide Rank;
    match t
    case Leaf(_, _) => assert Flat([t]) == Entries(t) + Flat([t][1..]); assert [t][1..] == [];
    case Inner(_, _, kids) => FlatAllLeaves(kids);
  }

  lemma {:induction false} FlatAllLeaves(kids: seq<Tree>)
    ensures Flat(AllLeaves(kids)) == AllEntries(kids)
    decreases kids, 0
  {
    hide Rank;
    if kids != [] {
      FlatLeaves(kids[0]);
      FlatAllLeaves(kids[1..]);
      FlatConcat(Leaves(kids[0]), AllLeaves(kids[1..]));
    }
  }

  lemma {:induction false} EntriesOfTyped(t: Tree, text: bool)
    requires Typed(t, text)
    ensures EntriesTyped(Entries(t), text)
    decreases t, 1
  {
    hide Rank;
    match t
    case Leaf(_, entries) =>
      forall i | 0 <= i < |entries| ensures KeyOk(entries[i].key) && entries[i].key.TextKey? == text {
        assert KeyOk(Keys(entries)[i]);
      }
    case Inner(_, _, kids) => EntriesOfAllTyped(kids, text);
  }

  lemma {:induction false} EntriesOfAllTyped(kids: seq<Tree>, text: bool)
    requires forall i :: 0 <= i < |kids| ==> Typed(kids[i], text)
    ensures EntriesTyped(AllEntries(kids), text)
    decreases kids, 0
  {
    hide Rank;
    if kids != [] {
      EntriesOfTyped(kids[0], text);
      EntriesOfAllTyped(kids[1..], text);
    }
  }

  lemma {:induction false} LeavesStored(pages: Pages, t: Tree, j: nat)
    requires Stored(pages, t) && j < |Leaves(t)|
    ensures Leaves(t)[j].Leaf? && Stored(pages, Leaves(t)[j])
    decreases t, 1
  {
    hide Rank;
    if t.Inner? {
      AllLeavesStored(pages, t.kids, j);
    }
  }

  lemma LeafPage(pages: Pages, t: Tree, j: nat)
    requires Stored(pages, t) && j < |Leaves(t)|
    ensures var leaf := Leaves(t)[j];
            leaf.id in pages && pages[leaf.id].LeafNode? && pages[leaf.id].entries == Entries(leaf)
  {
    hide Rank, Leaves;
    LeavesStored(pages, t, j);
  }

  lemma {:induction false} AllLeavesStored(pages: Pages, kids: seq<Tree>, j: nat)
    requires (forall i :: 0 <= i < |kids| ==> Stored(pages, kids[i])) && j < |AllLeaves(kids)|
    ensures AllLeaves(kids)[j].Leaf? && Stored(pages, AllLeaves(kids)[j])
    decreases kids, 0
  {
    hide Rank;
    var first := Leaves(kids[0]);
    if j < |first| {
      LeavesStored(pages, kids[0], j);
    } else {
      AllLeavesStored(pages, kids[1..], j - |first|);
    }
  }

  // ---------- descending ----------

  /** Going down to kid `at`, everything left of it is below the search key. */
  lemma SeekStep(u: Tree, r: int, order: nat, depth: nat, lo: int, hi: int, min: int)
    requires TreeOk(u, order, depth, lo, hi, min) && u.Inner?
    ensures var at := LowerBound(u.keys, r);
            && depth > 0 && |u.kids| == |u.keys| + 1
            && TreeOk(u.kids[at], order, depth - 1, KidLo(u.keys, lo, at), KidHi(u.keys, hi, at), (order - 1) / 2)
            && Leaves(u) == AllLeaves(u.kids[..at]) + Leaves(u.kids[at]) + AllLeaves(u.kids[at + 1..])
            && forall i :: 0 <= i < |Flat(AllLeaves(u.kids[..at]))| ==> Rank(Flat(AllLeaves(u.kids[..at]))[i].key) < r
  {
    hide Rank;
    InnerOk(u, order, depth, lo, hi, min);
    var at := LowerBound(u.keys, r);
    AllLeavesAround(u.kids, at);
    FlatAllLeaves(u.kids[..at]);
    KidsBounded(u.keys, u.kids, order, depth, lo, hi, 0, at);
    assert u.kids[0..at] == u.kids[..at];
  }

  ghost predicate AllRanksBelow(entries: seq<Entry>, r: int) {
    forall i :: 0 <= i < |entries| ==> Rank(entries[i].key) < r
  }

  /** A descent that has reached subtree u, with everything left of it below r. */
  ghost predicate Seeking(pages: Pages, t: Tree, u: Tree, text: bool, order: nat, depth: nat, lo: int, hi: int, min: int,
                          before: seq<Tree>, after: seq<Tree>, r: int)
  {
    && Stored(pages, u) && Typed(u, text) && TreeOk(u, order, depth, lo, hi, min)
    && Leaves(t) == before + Leaves(u) + after
    && AllRanksBelow(Flat(before), r)
  }

  lemma SeekAdvances(pages: Pages, t: Tree, u: Tree, text: bool, order: nat, depth: nat, lo: int, hi: int, min: int,
                     before: seq<Tree>, after: seq<Tree>, r: int)
    requires Seeking(pages, t, u, text, order, depth, lo, hi, min, before, after, r) && u.Inner?
    ensures var at := LowerBound(u.keys, r);
            && depth > 0 && |u.kids| == |u.keys| + 1
            && Sorted(u.keys) && KeysTyped(u.keys, text) && NodeIs(pages[u.id], u.keys, u.kids)
            && Seeking(pages, t, u.kids[at], text, order, depth - 1, KidLo(u.keys, lo, at), KidHi(u.keys, hi, at), (order - 1) / 2,
                       before + AllLeaves(u.kids[..at]), AllLeaves(u.kids[at + 1..]) + after, r)
  {
    hide Rank, Leaves, AllLeaves, Flat, TreeOk;
    SeekStep(u, r, order, depth, lo, hi, min);
    InnerOk(u, order, depth, lo, hi, min);
    var at := LowerBound(u.keys, r);
    FlatConcat(before, AllLeaves(u.kids[..at]));
    Regroup(before, AllLeaves(u.kids[..at]), Leaves(u.kids[at]), AllLeaves(u.kids[at + 1..]), after);
  }

  lemma Regroup(a: seq<Tree>, b: seq<Tree>, c: seq<Tree>, d: seq<Tree>, e: seq<Tree>)
    ensures a + (b + c + d) + e == (a + b) + c + (d + e)
  {
  }

  /** seekLeaf: everything in the leaves left of the one it reaches is below the search key. */
  method SeekLeaf(pages: Pages, root: nat, key: StoredKey, ghost text: bool, ghost order: nat, ghost t: Tree)
    returns (leaf: nat, ghost k: nat)
    requires Stored(pages, t) && Typed(t, text) && RootOk(t, order, RankLimit(text)) && root == t.id
    requires KeysTyped([key], text)
    ensures k < |Leaves(t)| && leaf == Leaves(t)[k].id
    ensures AllRanksBelow(Flat(Leaves(t)[..k]), Rank(key))
  {
    hide Rank;
    leaf := root;
    ghost var u, depth, lo, hi, min := t, Depth(t), 0 as int, RankLimit(text) as int, 0 as int;
    ghost var before: seq<Tree>, after: seq<Tree> := [], [];
    while pages[leaf].InnerNode?
      invariant Seeking(pages, t, u, text, order, depth, lo, hi, min, before, after, Rank(key)) && leaf == u.id
      decreases depth
    {
      SeekAdvances(pages, t, u, text, order, depth, lo, hi, min, before, after, Rank(key));
      var at, child := ChildFor(pages[leaf], key, text, u.keys, u.kids);
      before, after := before + AllLeaves(u.kids[..at]), AllLeaves(u.kids[at + 1..]) + after;
      leaf, lo, hi := child, KidLo(u.keys, lo, at), KidHi(u.keys, hi, at);
      u, depth, min := u.kids[at], depth - 1, (order - 1) / 2;
    }
    k := |before|;
    assert Leaves(u) == [u];
    assert Leaves(t)[..k] == before;
  }

  function FirstChild(node: Node): int
    requires node.InnerNode?
  {
    if |node.entries| > 0 then node.entries[0].payload else node.lastChild
  }

  /** leftmostLeaf. */
  method LeftmostLeaf(pages: Pages, root: nat, ghost order: nat, ghost t: Tree, ghost hi: int) returns (leaf: nat)
    requires Stored(pages, t) && RootOk(t, order, hi) && root == t.id
    ensures Leaves(t) != [] && leaf == Leaves(t)[0].id
  {
    hide Rank;
    leaf := root;
    ghost var u, depth, l, h, min := t, Depth(t), 0 as int, hi, 0 as int;
    ghost var after: seq<Tree> := [];
    while pages[leaf].InnerNode?
      invariant Stored(pages, u) && TreeOk(u, order, depth, l, h, min) && leaf == u.id
      invariant Leaves(t) == Leaves(u) + after
      decreases depth
    {
      InnerOk(u, order, depth, l, h, min);
      var child := FirstChild(pages[leaf]);
      assert child == u.kids[0].id;
      AllLeavesHead(u.kids);
      after := AllLeaves(u.kids[1..]) + after;
      leaf, h := child, KidHi(u.keys, h, 0);
      u, depth, min := u.kids[0], depth - 1, (order - 1) / 2;
    }
  }

  // ---------- walking the chain ----------

  /** Where entry i of leaf j lies among all the entries. */
  lemma EntryOfLeaf(t: Tree, j: nat, i: nat)
    requires j < |Leaves(t)| && i <= |Entries(Leaves(t)[j])|
    ensures var pos := |Flat(Leaves(t)[..j])| + i;
            && pos <= |Entries(t)|
            && (i < |Entries(Leaves(t)[j])| ==> pos < |Entries(t)| && Entries(t)[pos] == Entries(Leaves(t)[j])[i])
            && (i == |Entries(Leaves(t)[j])| ==> pos == |Flat(Leaves(t)[..j + 1])|)
  {
    hide Rank, Leaves, Entries;
    var leaves := Leaves(t);
    FlatLeaves(t);
    FlatConcat(leaves[..j], leaves[j..]);
    assert leaves == leaves[..j] + leaves[j..];
    assert Flat(leaves[j..]) == Entries(leaves[j]) + Flat(leaves[j..][1..]);
    FlatConcat(leaves[..j], [leaves[j]]);
    assert leaves[..j + 1] == leaves[..j] + [leaves[j]];
    assert [leaves[j]][1..] == [];
    assert Flat([leaves[j]]) == Entries(leaves[j]) + Flat([]);
  }

  lemma TakeOne(test: Test, entries: seq<Entry>, pos: nat, text: bool)
    requires TestOk(test, text) && EntriesTyped(entries, text) && pos < |entries|
    ensures TakenRows(test, entries[..pos + 1], text)
            == TakenRows(test, entries[..pos], text) + if Judge(test, entries[pos].key).Take? then [entries[pos].payload] else []
  {
    hide Rank;
    assert entries[..pos + 1][..pos] == entries[..pos];
  }

  lemma PrefixTaken(test: Test, entries: seq<Entry>, pos: nat, text: bool)
    requires TestOk(test, text) && EntriesTyped(entries, text) && pos <= |entries|
    ensures TakenRows(test, entries[..pos], text) <= TakenRows(test, entries, text)
  {
    hide Rank;
    TakenRowsConcat(test, entries[..pos], entries[pos..], text);
    assert entries == entries[..pos] + entries[pos..];
  }

  lemma StoppedTaken(test: Test, entries: seq<Entry>, pos: nat, text: bool)
    requires TestOk(test, text) && EntriesTyped(entries, text) && pos < |entries|
    requires Sorted(Keys(entries)) && Judge(test, entries[pos].key).Stop?
    ensures TakenRows(test, entries, text) == TakenRows(test, entries[..pos], text)
  {
    hide Rank, TakenRows, Judge;
    var rest := entries[pos..];
    forall i | 0 <= i < |rest| ensures !Judge(test, rest[i].key).Take? {
      assert Keys(entries)[pos] == entries[pos].key && Keys(entries)[pos + i] == rest[i].key;
      StopIsFinal(test, entries[pos].key, rest[i].key, text);
    }
    NothingTaken(test, rest, text);
    TakenRowsConcat(test, entries[..pos], rest, text);
    assert entries == entries[..pos] + rest;
  }

  /** One leaf's worth of a walk; `all` holds every entry and this leaf's begin at `from`. */
  method WalkLeaf(entries: seq<Entry>, taken: seq<int>, test: Test, maxRows: nat, ghost text: bool, ghost all: seq<Entry>, ghost from: nat)
    returns (done: bool, full: bool, rows: seq<int>)
    requires TestOk(test, text) && EntriesTyped(all, text) && Sorted(Keys(all))
    requires from + |entries| <= |all| && all[from..from + |entries|] == entries
    requires taken == TakenRows(test, all[..from], text) && |taken| <= maxRows
    ensures !done ==> rows == TakenRows(test, all[..from + |entries|], text) && |rows| <= maxRows
    ensures done ==> (full <==> |TakenRows(test, all, text)| > maxRows)
    ensures done && !full ==> rows == TakenRows(test, all, text)
  {
    hide Rank, TakenRows, Sorted;
    rows := taken;
    done, full := false, false;
    var i := 0;
    while i < |entries|
      invariant 0 <= i <= |entries|
      invariant rows == TakenRows(test, all[..from + i], text) && |rows| <= maxRows
    {
      assert entries[i] == all[from + i];
      TakeOne(test, all, from + i, text);
      var verdict := Judge(test, entries[i].key);
      if verdict.Stop? {
        StoppedTaken(test, all, from + i, text);
        return true, false, rows;
      }
      if verdict.Take? {
        if |rows| == maxRows {
          PrefixTaken(test, all, from + i + 1, text);
          return true, true, rows;
        }
        rows := rows + [entries[i].payload];
      }
      i := i + 1;
    }
  }

  /** Where the entries of leaf j lie among all the entries. */
  lemma LeafSlice(t: Tree, j: nat)
    requires j < |Leaves(t)|
    ensures var from, here := |Flat(Leaves(t)[..j])|, Entries(Leaves(t)[j]);
            && from + |here| == |Flat(Leaves(t)[..j + 1])| <= |Entries(t)|
            && Entries(t)[from..from + |here|] == here
  {
    hide Rank;
    var leaves := Leaves(t);
    var here := Entries(leaves[j]);
    EntryOfLeaf(t, j, |here|);
    forall i | 0 <= i < |here|
      ensures Entries(t)[|Flat(leaves[..j])| + i] == here[i]
    {
      EntryOfLeaf(t, j, i);
    }
  }

  /**
   The walk both scans share: from a leaf along the chain, keeping what the test takes, until
   the test says stop, the chain ends, or one row too many turns up.
   */
  method Walk(pages: Pages, start: int, test: Test, maxRows: nat, ghost text: bool, ghost t: Tree, ghost k: nat)
    returns (full: bool, rows: seq<int>)
    requires TestOk(test, text) && Stored(pages, t) && Chained(pages, Leaves(t), INVALID_PAGE)
    requires EntriesTyped(Entries(t), text) && Sorted(Keys(Entries(t)))
    requires k < |Leaves(t)| && start == Leaves(t)[k].id
    requires |Flat(Leaves(t)[..k])| <= |Entries(t)|
    requires TakenRows(test, Entries(t)[..|Flat(Leaves(t)[..k])|], text) == []
    ensures full <==> |TakenRows(test, Entries(t), text)| > maxRows
    ensures !full ==> rows == TakenRows(test, Entries(t), text)
  {
    hide Rank, TakenRows, Flat, Leaves, Entries, Stored, Judge, Sorted;
    ghost var all, leaves, j := Entries(t), Leaves(t), k;
    var leafPage := start;
    rows := [];
    while leafPage != INVALID_PAGE
      invariant k <= j <= |leaves| && leafPage == HeadOr(leaves[j..], INVALID_PAGE)
      invariant |Flat(leaves[..j])| <= |all|
      invariant rows == TakenRows(test, all[..|Flat(leaves[..j])|], text) && |rows| <= maxRows
      decreases |leaves| - j
    {
      LeafPage(pages, t, j);
      LeafSlice(t, j);
      assert Link(pages, leaves[j].id, HeadOr(leaves[j + 1..], INVALID_PAGE));
      var done;
      done, full, rows := WalkLeaf(pages[leafPage].entries, rows, test, maxRows, text, all, |Flat(leaves[..j])|);
      if done {
        return;
      }
      j := j + 1;
      leafPage := pages[leafPage].next;
    }
    full := false;
    FlatLeaves(t);
    assert leaves[..j] == leaves;
    assert all[..|all|] == all;
  }

  // ---------- the two scans ----------

  /** A scan's answer: the rows of exactly the entries its test takes, in key order. */
  method Scan(pages: Pages, root: nat, test: Test, maxRows: nat, ghost text: bool, ghost order: nat, ghost nextPage: nat, ghost t: Tree)
    returns (full: bool, rows: seq<int>)
    requires IndexOk(pages, nextPage, text, order, t) && root == t.id && TestOk(test, text)
    ensures EntriesTyped(Entries(t), text) && Sorted(Keys(Entries(t)))
    ensures full <==> |TakenRows(test, Entries(t), text)| > maxRows
    ensures !full ==> rows == TakenRows(test, Entries(t), text)
  {
    hide Rank;
    EntriesOfTyped(t, text);
    EntriesSorted(t, order, Depth(t), 0, RankLimit(text), 0);
    ghost var k := 0;
    var leaf: nat;
    if OpenLeft(test) {
      leaf := LeftmostLeaf(pages, root, order, t, RankLimit(text));
      EntryOfLeaf(t, 0, 0);
      assert Entries(t)[..|Flat(Leaves(t)[..0])|] == [];
    } else {
      leaf, k := SeekLeaf(pages, root, SeekKey(test), text, order, t);
      EntryOfLeaf(t, k, 0);
      SkipsBefore(test, t, k, text);
    }
    full, rows := Walk(pages, leaf, test, maxRows, text, t, k);
  }

  lemma SkipsBefore(test: Test, t: Tree, k: nat, text: bool)
    requires TestOk(test, text) && EntriesTyped(Entries(t), text) && !OpenLeft(test)
    requires k <= |Leaves(t)| && AllRanksBelow(Flat(Leaves(t)[..k]), Rank(SeekKey(test)))
    ensures |Flat(Leaves(t)[..k])| <= |Entries(t)|
    ensures TakenRows(test, Entries(t)[..|Flat(Leaves(t)[..k])|], text) == []
  {
    hide Rank, TakenRows, Leaves, Entries, Flat, Judge;
    var leaves := Leaves(t);
    var skipped := Flat(leaves[..k]);
    FlatLeaves(t);
    FlatConcat(leaves[..k], leaves[k..]);
    assert leaves == leaves[..k] + leaves[k..];
    assert Entries(t)[..|skipped|] == skipped;
    forall i | 0 <= i < |skipped| ensures !Judge(test, skipped[i].key).Take? {
      assert skipped[i] == Entries(t)[i];
      BeforeSeekIsSkipped(test, skipped[i].key, text);
    }
    NothingTaken(test, skipped, text);
  }

  // ---------- nothing is missed ----------

  /** What the executor would say of a full value: comparePredicate, for the indexable operators. */
  predicate Satisfies(op: CompareOp, v: Value, key: Value) {
    Comparable(v, key) &&
    match op
    case Eq => ValuesSame(v, key)
    case Lt => CompareValues(v, key) < 0
    case Lte => CompareValues(v, key) <= 0
    case Gt => CompareValues(v, key) > 0
    case Gte => CompareValues(v, key) >= 0
    case _ => false
  }

  lemma CompareFlips(a: Value, b: Value)
    requires Comparable(a, b)
    ensures CompareValues(a, b) == -CompareValues(b, a)
  {
    if a.Text? {
      var n := |a.text| + |b.text|;
      TextRankOrder(a.text, b.text, n);
      TextRankOrder(b.text, a.text, n);
    }
  }

  /** A value that qualifies is taken, however short its key was cut. */
  lemma ScanNeverMisses(op: CompareOp, v: Value, key: Value)
    requires Indexable(op) && Satisfies(op, v, key)
    ensures SameKind(MakeKey(v), MakeKey(key)) && Judge(Against(op, MakeKey(key)), MakeKey(v)).Take?
  {
    MakeKeyOk(v);
    MakeKeyOk(key);
    CompareIsRank(MakeKey(v), MakeKey(key));
    CompareFlips(v, key);
    SameIsEqual(v, key);
    if CompareValues(v, key) <= 0 { MakeKeyMonotone(v, key); }
    if CompareValues(v, key) >= 0 { MakeKeyMonotone(key, v); }
  }

  /** A text that starts with the prefix is taken, and the prefix may be longer than a key. */
  lemma PrefixScanNeverMisses(v: Value, prefix: Bytes)
    requires v.Text? && prefix <= v.text
    ensures Judge(StartsWith(Truncate(prefix)), MakeKey(v)).Take?
  {
    PrefixOrderIs(Truncate(v.text), Truncate(prefix));
    assert Truncate(prefix) <= Truncate(v.text);
  }

  lemma {:induction false} TakenIffJudged(test: Test, entries: seq<Entry>, text: bool, row: int)
    requires TestOk(test, text) && EntriesTyped(entries, text)
    ensures row in TakenRows(test, entries, text)
       <==> exists i :: 0 <= i < |entries| && entries[i].payload == row && Judge(test, entries[i].key).Take?
  {
    hide Rank;
    if entries != [] {
      var front, last := entries[..|entries| - 1], entries[|entries| - 1];
      TakenIffJudged(test, front, text, row);
      if i :| 0 <= i < |entries| && entries[i].payload == row && Judge(test, entries[i].key).Take? {
        assert i < |front| ==> front[i] == entries[i];
      }
      if i :| 0 <= i < |front| && front[i].payload == row && Judge(test, front[i].key).Take? {
        assert entries[i] == front[i];
      }
      assert last.payload == row && Judge(test, last.key).Take? ==>
               entries[|entries| - 1].payload == row && Judge(test, entries[|entries| - 1].key).Take?;
    }
  }

  /**
   What a scan takes by mistake is only what a cut key cannot tell from the literal: every other
   entry it takes satisfies the comparison, and numbers and dates it takes for =, <= and >= all do.
   */
  lemma ScanTakesOnly(op: CompareOp, v: Value, key: Value)
    requires Indexable(op) && Comparable(v, key)
    ensures SameKind(MakeKey(v), MakeKey(key))
    ensures Judge(Against(op, MakeKey(key)), MakeKey(v)).Take? ==> Satisfies(op, v, key) || Rank(MakeKey(v)) == Rank(MakeKey(key))
    ensures Judge(Against(op, MakeKey(key)), MakeKey(v)).Take? && !v.Text? && (op.Eq? || op.Lte? || op.Gte?) ==> Satisfies(op, v, key)
  {
    hide Rank, MakeKey, CompareKeys;
    MakeKeyOk(v);
    MakeKeyOk(key);
    CompareIsRank(MakeKey(v), MakeKey(key));
    CompareFlips(v, key);
    SameIsEqual(v, key);
    MakeKeyExact(v, key);
    MakeKeyExact(key, v);
    CompareIsLower(v, key);
    if CompareValues(v, key) <= 0 { MakeKeyMonotone(v, key); }
    if CompareValues(v, key) >= 0 { MakeKeyMonotone(key, v); }
  }

  /** A prefix scan takes the keys that start with what was searched for, and no others. */
  lemma PrefixScanTakesOnly(prefix: Bytes, k: StoredKey)
    requires k.TextKey? && |prefix| <= INDEX_KEY_MAX
    ensures Judge(StartsWith(prefix), k).Take? <==> prefix <= k.bytes
  {
    PrefixOrderIs(k.bytes, prefix);
  }
}
