/** An index: a root page, and the methods of 11_index.c that descend from it and split below it. */
module IndexTree {
  import opened Common
  import opened Values
  import opened IndexKeys
  import opened BTree
  import opened BTreePages

  /** An internal page with a separator put in front of position `at` and the new child after it. */
  function WidenNode(node: Node, at: nat, child: int, sep: StoredKey, right: int): Node
    requires node.InnerNode? && at <= |node.entries|
  {
    var shifted := node.entries[..at] + [Entry(sep, child)] + node.entries[at..];
    if at + 1 <= |node.entries|
    then InnerNode(shifted[at + 1 := shifted[at + 1].(payload := right)], node.lastChild)
    else InnerNode(shifted, right)
  }

  lemma WidenIs(node: Node, keys: seq<StoredKey>, kids: seq<Tree>, at: nat, g: Grown)
    requires NodeIs(node, keys, kids) && at < |kids| && g.Two? && g.left.id == kids[at].id
    ensures NodeIs(WidenNode(node, at, kids[at].id, g.sep, g.right.id),
                   keys[..at] + [g.sep] + keys[at..], kids[..at] + [g.left, g.right] + kids[at + 1..])
  {
    var keys' := keys[..at] + [g.sep] + keys[at..];
    var kids' := kids[..at] + [g.left, g.right] + kids[at + 1..];
    var wide := WidenNode(node, at, kids[at].id, g.sep, g.right.id);
    forall i | 0 <= i < |keys'|
      ensures wide.entries[i] == Entry(keys'[i], kids'[i].id)
    {
      if i > at {
        assert keys'[i] == keys[i - 1];
        assert i > at + 1 ==> kids'[i] == kids[i - 1];
      }
    }
  }

  /** The two halves of an internal page. */
  lemma HalvesAre(node: Node, keys: seq<StoredKey>, kids: seq<Tree>, middle: nat)
    requires NodeIs(node, keys, kids) && middle < |keys|
    ensures NodeIs(InnerNode(node.entries[..middle], node.entries[middle].payload), keys[..middle], kids[..middle + 1])
    ensures NodeIs(InnerNode(node.entries[middle + 1..], node.lastChild), keys[middle + 1..], kids[middle + 1..])
    ensures node.entries[middle].key == keys[middle]
  {
  }

  /** The top nodes of what a node grew into are in place. */
  ghost predicate NodesStored(pages: Pages, g: Grown) {
    match g
    case One(t) => t.Inner? && t.id in pages && NodeIs(pages[t.id], t.keys, t.kids)
    case Two(a, _, b) =>
      && a.Inner? && a.id in pages && NodeIs(pages[a.id], a.keys, a.kids)
      && b.Inner? && b.id in pages && NodeIs(pages[b.id], b.keys, b.kids)
  }

  /** A kid that did not split is still where its parent points. */
  lemma ReplacedNode(node: Node, keys: seq<StoredKey>, kids: seq<Tree>, at: nat, g: Grown)
    requires NodeIs(node, keys, kids) && at < |kids| && g.One? && g.tree.id == kids[at].id
    ensures NodeIs(node, keys, kids[at := g.tree])
  {
  }

  /** Pages outside a subtree have not moved. */
  ghost predicate OnlyTouches(pages: Pages, pages': Pages, t: Tree) {
    forall p: nat :: p in pages && !Has(t, p) ==> p in pages' && pages'[p] == pages[p]
  }

  /** Kids other than the one that grew are still stored. */
  lemma ForestStays(pages: Pages, pages': Pages, kids: seq<Tree>, at: nat, g: Grown)
    requires Apart(kids) && at < |kids| && OnlyTouches(pages, pages', kids[at])
    requires forall i :: 0 <= i < |kids| ==> Stored(pages, kids[i])
    requires GrownStored(pages', g)
    ensures forall i :: 0 <= i < |Replaced(kids, at, g)| ==> Stored(pages', Replaced(kids, at, g)[i])
  {
    forall i | 0 <= i < |kids| && i != at
      ensures Stored(pages', kids[i])
    {
      StoredMoves(pages, pages', kids[i]);
    }
  }

  /** The chain runs through what a kid grew into. */
  lemma ChainSplices(pages: Pages, pages': Pages, a: seq<Tree>, m: seq<Tree>, b: seq<Tree>, m': seq<Tree>, next: int)
    requires Chained(pages, a + m + b, next) && Chained(pages', m', HeadOr(b, next))
    requires m != [] && m' != [] && m[0].id == m'[0].id
    requires forall k :: 0 <= k < |a| && a[k].id in pages ==> a[k].id in pages' && pages'[a[k].id] == pages[a[k].id]
    requires forall k :: 0 <= k < |b| && b[k].id in pages ==> b[k].id in pages' && pages'[b[k].id] == pages[b[k].id]
    ensures Chained(pages', a + m' + b, next)
  {
    ChainParts(pages, a + m, b, next);
    ChainParts(pages, a, m, HeadOr(b, next));
    ChainMoves(pages, pages', a, HeadOr(m, HeadOr(b, next)));
    ChainMoves(pages, pages', b, next);
    ChainParts(pages', a, m', HeadOr(b, next));
    ChainParts(pages', a + m', b, next);
  }

  /** A node and its forest in place make the grown node. */
  lemma AbsorbStored(pages: Pages, pages': Pages, id: nat, keys: seq<StoredKey>, kids: seq<Tree>, at: nat, g: Grown, order: nat, nextId: nat)
    requires at <= |keys| && |kids| == |keys| + 1 && order >= 4
    requires forall i :: 0 <= i < |Replaced(kids, at, g)| ==> Stored(pages, Replaced(kids, at, g)[i])
    requires !KidsHave(Replaced(kids, at, g), id)
    requires forall p: nat :: p in pages && p != id ==> p in pages' && pages'[p] == pages[p]
    requires NodesStored(pages', Absorb(id, keys, kids, at, g, order, nextId).0)
    ensures GrownStored(pages', Absorb(id, keys, kids, at, g, order, nextId).0)
  {
    var kids' := Replaced(kids, at, g);
    forall i | 0 <= i < |kids'| ensures Stored(pages', kids'[i]) {
      StoredMoves(pages, pages', kids'[i]);
    }
    assert g.One? ==> kids' == kids[at := g.tree];
    var r := Absorb(id, keys, kids, at, g, order, nextId).0;
    match r
    case One(t) => assert t.kids == kids';
    case Two(a, _, b) => assert a.kids == kids'[..order / 2 + 1] && b.kids == kids'[order / 2 + 1..];
  }

  /** The leaves of kids other than the one that grew are where they were. */
  lemma OthersStay(pages: Pages, pages': Pages, kids: seq<Tree>, at: nat, part: seq<Tree>, from: nat)
    requires Apart(kids) && at < |kids| && OnlyTouches(pages, pages', kids[at])
    requires from + |part| <= |kids| && part == kids[from..from + |part|]
    requires at < from || from + |part| <= at
    requires forall k :: 0 <= k < |AllLeaves(part)| ==> AllLeaves(part)[k].id in pages
    ensures forall k :: 0 <= k < |AllLeaves(part)| ==>
              AllLeaves(part)[k].id in pages' && pages'[AllLeaves(part)[k].id] == pages[AllLeaves(part)[k].id]
  {
    AllLeavesOwned(part);
    forall k | 0 <= k < |AllLeaves(part)|
      ensures !Has(kids[at], AllLeaves(part)[k].id)
    {
      var p := AllLeaves(part)[k].id;
      assert KidsHave(part, p);
      var i :| 0 <= i < |part| && Has(part[i], p);
      assert part[i] == kids[from + i];
    }
  }

  /** What insertInto needs of the subtree it descends into; `next` is the leaf after its last. */
  ghost predicate CanInsert(pages: Pages, nextPage: nat, text: bool, order: nat, t: Tree, depth: nat, lo: int, hi: int, min: int, next: int) {
    && order >= 4
    && TreeOk(t, order, depth, lo, hi, min)
    && Stored(pages, t) && Separate(t) && Typed(t, text) && Chained(pages, Leaves(t), next)
    && forall p: nat :: Has(t, p) ==> p < nextPage
  }

  /** The pages now spell out what the subtree grew into, and only its own and new pages moved. */
  ghost predicate Inserted(pages: Pages, pages': Pages, t: Tree, g: Grown, next: int) {
    GrownStored(pages', g) && Chained(pages', GrownLeaves(g), next) && OnlyTouches(pages, pages', t)
  }

  lemma KidCanInsert(pages: Pages, nextPage: nat, text: bool, order: nat, t: Tree, depth: nat, lo: int, hi: int, min: int, next: int, at: nat)
    requires CanInsert(pages, nextPage, text, order, t, depth, lo, hi, min, next) && t.Inner? && at < |t.kids|
    ensures depth > 0 && at <= |t.keys|
    ensures CanInsert(pages, nextPage, text, order, t.kids[at], depth - 1, KidLo(t.keys, lo, at), KidHi(t.keys, hi, at),
                      (order - 1) / 2, HeadOr(AllLeaves(t.kids[at + 1..]), next))
  {
    var kids := t.kids;
    InnerOk(t, order, depth, lo, hi, min);
    var before, after := AllLeaves(kids[..at]), AllLeaves(kids[at + 1..]);
    AllLeavesAround(kids, at);
    ChainParts(pages, before + Leaves(kids[at]), after, next);
    ChainParts(pages, before, Leaves(kids[at]), HeadOr(after, next));
    forall p: nat | Has(kids[at], p) ensures Has(t, p) {}
  }

  /** What the page of an internal node shows. */
  lemma InnerFacts(pages: Pages, nextPage: nat, text: bool, order: nat, t: Tree, depth: nat, lo: int, hi: int, min: int, next: int)
    requires CanInsert(pages, nextPage, text, order, t, depth, lo, hi, min, next) && t.Inner?
    ensures order >= 4 && depth > 0 && |t.keys| < order && |t.kids| == |t.keys| + 1
    ensures t.id in pages && NodeIs(pages[t.id], t.keys, t.kids) && Sorted(t.keys) && KeysTyped(t.keys, text)
    ensures Stored(pages, t) && Separate(t) && Chained(pages, Leaves(t), next)
  {
    hide Rank;
    InnerOk(t, order, depth, lo, hi, min);
  }

  /** The kid a key leads to is the one whose bounds admit it. */
  lemma KidTakesKey(keys: seq<StoredKey>, r: int, lo: int, hi: int)
    requires lo <= r <= hi
    ensures var at := LowerBound(keys, r); KidLo(keys, lo, at) <= r <= KidHi(keys, hi, at)
  {
    hide Rank;
  }

  /** Everything about inserting below kid `at`, in one place. */
  lemma KidFacts(pages: Pages, nextPage: nat, text: bool, order: nat, t: Tree, e: Entry, at: nat)
    requires order >= 4 && t.Inner? && Shaped(t) && Separate(t) && at < |t.kids| && forall p: nat :: Has(t, p) ==> p < nextPage
    ensures Shaped(t.kids[at])
    ensures var r := Insert(t.kids[at], e, order, nextPage);
            && GrownLeaves(r.0) != [] && Leaves(t.kids[at]) != [] && GrownLeaves(r.0)[0].id == Leaves(t.kids[at])[0].id
            && nextPage <= r.1 && GrownId(r.0) == t.kids[at].id && GrownSeparate(r.0)
            && forall p: nat :: GrownHas(r.0, p) ==> Has(t.kids[at], p) || nextPage <= p < r.1
  {
    hide Rank, Insert, Absorb;
    InsertFirstLeaf(t.kids[at], e, order, nextPage);
    forall p: nat | Has(t.kids[at], p) ensures Has(t, p) {}
    InsertOwns(t.kids[at], e, order, nextPage);
  }

  /** The forest below t after kid `at` has grown. */
  lemma KidInserted(pages: Pages, pages': Pages, t: Tree, at: nat, g: Grown, next: int)
    requires t.Inner? && Stored(pages, t) && Separate(t) && Chained(pages, Leaves(t), next) && at < |t.kids|
    requires Inserted(pages, pages', t.kids[at], g, HeadOr(AllLeaves(t.kids[at + 1..]), next))
    requires GrownLeaves(g) != [] && Leaves(t.kids[at]) != [] && GrownLeaves(g)[0].id == Leaves(t.kids[at])[0].id
    ensures forall i :: 0 <= i < |Replaced(t.kids, at, g)| ==> Stored(pages', Replaced(t.kids, at, g)[i])
    ensures Chained(pages', AllLeaves(t.kids[..at]) + GrownLeaves(g) + AllLeaves(t.kids[at + 1..]), next)
    ensures t.id in pages' && pages'[t.id] == pages[t.id]
  {
    var kids := t.kids;
    assert !Has(kids[at], t.id);
    ForestStays(pages, pages', kids, at, g);
    var before, after := AllLeaves(kids[..at]), AllLeaves(kids[at + 1..]);
    AllLeavesAround(kids, at);
    assert forall k :: 0 <= k < |before| ==> (before + Leaves(kids[at]) + after)[k] == before[k];
    ChainParts(pages, before + Leaves(kids[at]), after, next);
    ChainParts(pages, before, Leaves(kids[at]), HeadOr(after, next));
    OthersStay(pages, pages', kids, at, kids[..at], 0);
    OthersStay(pages, pages', kids, at, kids[at + 1..], at + 1);
    ChainSplices(pages, pages', before, Leaves(kids[at]), after, GrownLeaves(g), next);
  }

  /** Nothing a forest holds is at the page of a node above it. */
  lemma LeavesElsewhere(kids: seq<Tree>, id: nat)
    requires !KidsHave(kids, id)
    ensures forall k :: 0 <= k < |AllLeaves(kids)| ==> AllLeaves(kids)[k].id != id
  {
    AllLeavesOwned(kids);
  }

  /** Putting the grown kid back into t finishes the insertion below t. */
  lemma AbsorbInserted(pages: Pages, pages1: Pages, pages': Pages, t: Tree, at: nat, g: Grown, order: nat, nextId: nat, nextId': nat, next: int)
    requires t.Inner? && Shaped(t) && order >= 4 && at < |t.kids| && Separate(t)
    requires OnlyTouches(pages, pages1, t.kids[at])
    requires forall p: nat :: Has(t, p) ==> p < nextId
    requires GrownSeparate(g) && forall p: nat :: GrownHas(g, p) ==> Has(t.kids[at], p) || nextId <= p < nextId'
    requires forall i :: 0 <= i < |Replaced(t.kids, at, g)| ==> Stored(pages1, Replaced(t.kids, at, g)[i])
    requires Chained(pages1, AllLeaves(t.kids[..at]) + GrownLeaves(g) + AllLeaves(t.kids[at + 1..]), next)
    requires forall p: nat :: p in pages1 && p != t.id ==> p in pages' && pages'[p] == pages1[p]
    requires NodesStored(pages', Absorb(t.id, t.keys, t.kids, at, g, order, nextId').0)
    ensures Inserted(pages, pages', t, Absorb(t.id, t.keys, t.kids, at, g, order, nextId').0, next)
  {
    var kids' := Replaced(t.kids, at, g);
    assert Has(t, t.id);
    forall p: nat | KidsHave(t.kids, p) ensures Has(t, p) {}
    ReplacedOwns(t.kids, at, g, nextId, nextId');
    AbsorbStored(pages1, pages', t.id, t.keys, t.kids, at, g, order, nextId');
    AbsorbLeaves(t.id, t.keys, t.kids, at, g, order, nextId');
    AllLeavesReplaced(t.kids, at, g);
    LeavesElsewhere(kids', t.id);
    ChainMoves(pages1, pages', AllLeaves(kids'), next);
    forall p: nat | p in pages && !Has(t, p) ensures p in pages' && pages'[p] == pages[p] {
      assert !Has(t.kids[at], p);
    }
  }

  lemma AllLeavesReplaced(kids: seq<Tree>, at: nat, g: Grown)
    requires at < |kids|
    ensures AllLeaves(Replaced(kids, at, g))
            == AllLeaves(kids[..at]) + GrownLeaves(g) + AllLeaves(kids[at + 1..])
  {
    var mid := if g.One? then [g.tree] else [g.left, g.right];
    AllLeavesConcat(kids[..at] + mid, kids[at + 1..]);
    AllLeavesConcat(kids[..at], mid);
    if g.One? {
      AllLeavesHead(mid);
      assert mid[1..] == [];
    } else {
      AllLeavesOfPair(g.left, g.right);
    }
  }

  /** A new root above two halves whose pages it does not use. */
  lemma RootStored(pages: Pages, pages': Pages, g: Grown, root: nat)
    requires g.Two? && GrownStored(pages, g) && Chained(pages, GrownLeaves(g), INVALID_PAGE) && GrownSeparate(g)
    requires root !in pages && !GrownHas(g, root)
    requires pages' == pages[root := InnerNode([Entry(g.sep, g.left.id)], g.right.id)]
    ensures var t := Inner(root, [g.sep], [g.left, g.right]);
            && Stored(pages', t) && Separate(t) && Chained(pages', Leaves(t), INVALID_PAGE)
            && forall p: nat :: Has(t, p) ==> p == root || GrownHas(g, p)
  {
    StoredMoves(pages, pages', g.left);
    StoredMoves(pages, pages', g.right);
    AllLeavesOfPair(g.left, g.right);
    ChainMoves(pages, pages', GrownLeaves(g), INVALID_PAGE);
  }

  ghost predicate AllBelow(pages: Pages, n: nat) {
    forall p: nat :: p in pages ==> p < n
  }

  /** The pages spell out a sound tree whose leaf chain lists its leaves left to right. */
  ghost predicate IndexOk(pages: Pages, nextPage: nat, text: bool, order: nat, t: Tree) {
    && order >= 4 && AllBelow(pages, nextPage)
    && RootOk(t, order, RankLimit(text))
    && Stored(pages, t) && Separate(t) && Typed(t, text) && Chained(pages, Leaves(t), INVALID_PAGE)
    && forall p: nat :: Has(t, p) ==> p < nextPage
  }

  /** What the root grew into, with a new root on top if it split, is a sound index. */
  lemma RaiseFinishes(below: Pages, pages': Pages, g: Grown, n: nat, text: bool, order: nat)
    requires order >= 4 && AllBelow(below, n) && GrownOk(g, order, Depth(if g.One? then g.tree else g.left), 0, RankLimit(text), 0)
    requires GrownStored(below, g) && GrownSeparate(g) && GrownTyped(g, text)
    requires Chained(below, GrownLeaves(g), INVALID_PAGE)
    requires forall p: nat :: GrownHas(g, p) ==> p < n
    requires pages' == if g.Two? then below[n := InnerNode([Entry(g.sep, g.left.id)], g.right.id)] else below
    ensures IndexOk(pages', Raise(g, n).1, text, order, Raise(g, n).0)
  {
    RaiseOk(g, n, order, Depth(if g.One? then g.tree else g.left), RankLimit(text));
    if g.Two? {
      RootStored(below, pages', g, n);
      RootTyped(g, n, text);
    }
    forall p: nat | Has(Raise(g, n).0, p) ensures p < Raise(g, n).1 {
      assert (g.Two? && p == n) || GrownHas(g, p);
    }
  }

  /** Everything about inserting at the root of a sound index, in one place. */
  lemma InsertFacts(pages: Pages, nextId: nat, text: bool, order: nat, t: Tree, e: Entry)
    requires IndexOk(pages, nextId, text, order, t) && KeysTyped([e.key], text) && Rank(e.key) <= RankLimit(text)
    ensures Shaped(t)
    ensures var r := Insert(t, e, order, nextId);
            && GrownOk(r.0, order, Depth(if r.0.One? then r.0.tree else r.0.left), 0, RankLimit(text), 0)
            && GrownSeparate(r.0) && GrownTyped(r.0, text) && GrownId(r.0) == t.id
            && (forall p: nat :: GrownHas(r.0, p) ==> p < r.1)
            && Entries(Raise(r.0, r.1).0) == InsertSorted(Entries(t), e)
  {
    var limit := RankLimit(text);
    InsertOk(t, e, order, nextId, Depth(t), 0, limit, 0);
    InsertEntries(t, e, order, nextId, Depth(t), 0, limit, 0);
    InsertOwns(t, e, order, nextId);
    InsertTyped(t, e, order, nextId, text);
    var r := Insert(t, e, order, nextId);
    GrownDepth(r.0, order, Depth(t), 0, limit);
    RaiseOk(r.0, r.1, order, Depth(t), limit);
  }

  lemma GrownDepth(g: Grown, order: nat, depth: nat, lo: int, hi: int)
    requires GrownOk(g, order, depth, lo, hi, 0)
    ensures Depth(if g.One? then g.tree else g.left) == depth
  {
    match g
    case One(t) => OkDepth(t, order, depth, lo, hi, 0);
    case Two(left, sep, _) => OkDepth(left, order, depth, lo, Rank(sep), (order - 1) / 2);
  }

  lemma RootTyped(g: Grown, root: nat, text: bool)
    requires g.Two? && GrownTyped(g, text)
    ensures Typed(Inner(root, [g.sep], [g.left, g.right]), text)
  {
  }

  /** Binary search for the first entry whose key is not below the search key. */
  method LowerBoundIn(entries: seq<Entry>, key: StoredKey, ghost text: bool) returns (low: nat)
    requires Sorted(Keys(entries)) && KeysTyped(Keys(entries), text) && KeysTyped([key], text)
    ensures low == LowerBound(Keys(entries), Rank(key))
  {
    hide Rank, CompareKeys, LowerBound;
    low := 0;
    var high := |entries|;
    assert KeyOk([key][0]);
    while low < high
      invariant 0 <= low <= high <= |entries|
      invariant forall i :: 0 <= i < low ==> Rank(Keys(entries)[i]) < Rank(key)
      invariant high < |entries| ==> Rank(Keys(entries)[high]) >= Rank(key)
    {
      var middle := low + (high - low) / 2;
      assert Keys(entries)[middle] == entries[middle].key;
      CompareIsRank(entries[middle].key, key);
      if CompareKeys(entries[middle].key, key) < 0 {
        low := middle + 1;
      } else {
        high := middle;
      }
    }
    LowerBoundIs(Keys(entries), Rank(key), low);
  }

  /** The child of an internal page that the search key leads to, and its position. */
  method ChildFor(node: Node, key: StoredKey, ghost text: bool, ghost keys: seq<StoredKey>, ghost kids: seq<Tree>) returns (at: nat, child: nat)
    requires NodeIs(node, keys, kids) && Sorted(keys) && KeysTyped(keys, text) && KeysTyped([key], text)
    ensures at == LowerBound(keys, Rank(key)) && child == kids[at].id
  {
    assert Keys(node.entries) == keys;
    at := LowerBoundIn(node.entries, key, text);
    child := if at < |node.entries| then node.entries[at].payload else node.lastChild;
  }

  /** Freed so far: the pages of the first i kids, each once. */
  ghost predicate FreedKids(freed: seq<nat>, kids: seq<Tree>, i: nat)
    requires i <= |kids|
  {
    Distinct(freed) && forall p: nat :: p in freed <==> KidsHave(kids[..i], p)
  }

  lemma FreeKid(freed: seq<nat>, part: seq<nat>, kids: seq<Tree>, i: nat)
    requires i < |kids| && Apart(kids) && FreedKids(freed, kids, i)
    requires Distinct(part) && forall p: nat :: p in part <==> Has(kids[i], p)
    ensures FreedKids(freed + part, kids, i + 1)
  {
    hide Has;
    forall p: nat ensures KidsHave(kids[..i + 1], p) <==> KidsHave(kids[..i], p) || Has(kids[i], p) {
      if KidsHave(kids[..i], p) {
        var j :| 0 <= j < i && Has(kids[..i][j], p);
        assert kids[..i + 1][j] == kids[j];
      }
      assert kids[..i + 1][i] == kids[i];
    }
    forall p: nat ensures !(p in freed && p in part) {
      if KidsHave(kids[..i], p) {
        var j :| 0 <= j < i && Has(kids[..i][j], p);
        assert Has(kids[j], p);
      }
    }
    DistinctConcat(freed, part);
  }

  /** freeSubtree: every page of the tree, each once. */
  method FreeSubtree(pages: Pages, pageId: nat, ghost t: Tree) returns (freed: seq<nat>)
    requires Stored(pages, t) && Separate(t) && pageId == t.id
    ensures Distinct(freed) && forall p: nat :: p in freed <==> Has(t, p)
    decreases t
  {
    freed := [];
    var node := pages[pageId];
    if node.InnerNode? {
      for i := 0 to |node.entries| + 1
        invariant FreedKids(freed, t.kids, i)
      {
        var child := if i < |node.entries| then node.entries[i].payload else node.lastChild;
        var part := FreeSubtree(pages, child, t.kids[i]);
        FreeKid(freed, part, t.kids, i);
        freed := freed + part;
      }
      assert t.kids[..|node.entries| + 1] == t.kids;
    }
    freed := freed + [pageId];
  }

  class Index {
    const text: bool
    const order: nat
    var rootPage: nat
    var keyCount: nat
    var pages: Pages
    var nextPage: nat
    ghost var tree: Tree

    ghost predicate Valid()
      reads this
    {
      && IndexOk(pages, nextPage, text, order, tree)
      && rootPage == tree.id && keyCount == |Entries(tree)|
    }

    /** createIndex: one empty leaf. */
    constructor (isText: bool)
      ensures Valid() && Entries(tree) == [] && text == isText && fresh(this)
    {
      text := isText;
      order := if isText then INDEX_SPACE / INDEX_ENTRY_TEXT else INDEX_SPACE / INDEX_ENTRY_INT;
      rootPage, keyCount, nextPage := 0, 0, 1;
      pages := map[0 := LeafNode([], INVALID_PAGE)];
      tree := Leaf(0, []);
      new;
      assert Leaves(tree)[1..] == [];
    }

    /** The first half of a rebuild: every page of the old tree given back, and one empty leaf for a root. */
    method Clear() returns (freed: seq<nat>)
      requires Valid()
      modifies this
      ensures Valid() && Entries(tree) == []
      ensures Distinct(freed) && forall p: nat :: p in freed <==> Has(old(tree), p)
      ensures forall p :: p in pages <==> (p in old(pages) && p !in freed) || p == rootPage
    {
      freed := FreeSubtree(pages, rootPage, tree);
      pages := map p | p in pages && p !in freed :: pages[p];
      rootPage := NewNode(LeafNode([], INVALID_PAGE));
      keyCount := 0;
      tree := Leaf(rootPage, []);
      assert Leaves(tree)[1..] == [];
    }

    method NewNode(node: Node) returns (id: nat)
      requires AllBelow(pages, nextPage)
      modifies this`pages, this`nextPage
      ensures id == old(nextPage) && nextPage == id + 1 && pages == old(pages)[id := node]
      ensures AllBelow(pages, nextPage)
    {
      id := nextPage;
      nextPage := nextPage + 1;
      pages := pages[id := node];
    }

    /** insertIntoLeaf and splitLeaf: the right half becomes a new leaf, chained in after this one. */
    method InsertIntoLeaf(pageId: nat, e: Entry, ghost entries: seq<Entry>, ghost next: int)
      returns (didSplit: bool, sep: StoredKey, right: nat)
      requires order >= 4 && AllBelow(pages, nextPage)
      requires Stored(pages, Leaf(pageId, entries)) && Link(pages, pageId, next)
      requires Sorted(Keys(entries)) && KeysTyped(Keys(entries), text) && KeysTyped([e.key], text)
      modifies this`pages, this`nextPage
      ensures var r := InsertLeaf(pageId, entries, e, order, old(nextPage));
              && nextPage == r.1 && didSplit == r.0.Two?
              && (didSplit ==> sep == r.0.sep && right == r.0.right.id)
              && GrownStored(pages, r.0) && Chained(pages, GrownLeaves(r.0), next)
      ensures AllBelow(pages, nextPage)
      ensures forall p: nat :: p in old(pages) && p != pageId ==> p in pages && pages[p] == old(pages)[p]
    {
      var at := LowerBoundIn(pages[pageId].entries, e.key, text);
      var grown := pages[pageId].entries[..at] + [e] + pages[pageId].entries[at..];
      assert grown == InsertSorted(entries, e);
      pages := pages[pageId := LeafNode(grown, pages[pageId].next)];
      didSplit, sep, right := false, e.key, 0;

      if |grown| == order {
        var half := order / 2;
        right := NewNode(LeafNode(grown[half..], pages[pageId].next));
        pages := pages[pageId := LeafNode(grown[..half], right)];
        didSplit, sep := true, grown[half].key;
        ghost var left := Leaf(pageId, grown[..half]);
        ghost var leaf := Leaf(right, grown[half..]);
        assert Leaves(left) + Leaves(leaf) == [left, leaf];
        assert [left, leaf][1..] == [leaf] && [left, leaf][2..] == [];
      } else {
        assert Leaves(Leaf(pageId, grown))[1..] == [];
      }
    }

    /** splitInternal: the middle key moves up, the entries after it move to a new page. */
    method SplitInternal(pageId: nat, ghost keys: seq<StoredKey>, ghost kids: seq<Tree>) returns (up: StoredKey, other: nat)
      requires order >= 4 && AllBelow(pages, nextPage)
      requires pageId in pages && NodeIs(pages[pageId], keys, kids) && |keys| == order
      modifies this`pages, this`nextPage
      ensures var middle := order / 2;
              && up == keys[middle] && other == old(nextPage) && nextPage == other + 1
              && pageId in pages && NodeIs(pages[pageId], keys[..middle], kids[..middle + 1])
              && other in pages && NodeIs(pages[other], keys[middle + 1..], kids[middle + 1..])
      ensures AllBelow(pages, nextPage)
      ensures forall p: nat :: p in old(pages) && p != pageId ==> p in pages && pages[p] == old(pages)[p]
    {
      var node := pages[pageId];
      var middle := |node.entries| / 2;
      HalvesAre(node, keys, kids, middle);
      up := node.entries[middle].key;
      other := NewNode(InnerNode(node.entries[middle + 1..], node.lastChild));
      pages := pages[pageId := InnerNode(node.entries[..middle], node.entries[middle].payload)];
    }

    /** The part of insertInto after a child split. */
    method AbsorbSplit(pageId: nat, at: nat, sep: StoredKey, right: nat,
                       ghost keys: seq<StoredKey>, ghost kids: seq<Tree>, ghost g: Grown)
      returns (didSplit: bool, up: StoredKey, other: nat)
      requires order >= 4 && AllBelow(pages, nextPage)
      requires pageId in pages && NodeIs(pages[pageId], keys, kids) && at <= |keys| < order
      requires g.Two? && g.left.id == kids[at].id && g.sep == sep && g.right.id == right
      modifies this`pages, this`nextPage
      ensures var r := Absorb(pageId, keys, kids, at, g, order, old(nextPage));
              && nextPage == r.1 && didSplit == r.0.Two?
              && (didSplit ==> up == r.0.sep && other == r.0.right.id)
              && NodesStored(pages, r.0)
      ensures AllBelow(pages, nextPage)
      ensures forall p: nat :: p in old(pages) && p != pageId ==> p in pages && pages[p] == old(pages)[p]
    {
      var node := pages[pageId];
      var child := if at < |node.entries| then node.entries[at].payload else node.lastChild;
      assert child == kids[at].id;
      WidenIs(node, keys, kids, at, g);
      pages := pages[pageId := WidenNode(node, at, child, sep, right)];
      didSplit, up, other := false, sep, 0;

      if |pages[pageId].entries| == order {
        up, other := SplitInternal(pageId, keys[..at] + [sep] + keys[at..], kids[..at] + [g.left, g.right] + kids[at + 1..]);
        didSplit := true;
      }
    }

    /** insertInto: descend to the child the key belongs in, and take in what comes back up. */
    method InsertInto(pageId: nat, e: Entry, ghost t: Tree, ghost depth: nat, ghost lo: int, ghost hi: int, ghost min: int, ghost next: int)
      returns (didSplit: bool, sep: StoredKey, right: nat)
      requires AllBelow(pages, nextPage) && pageId == t.id
      requires CanInsert(pages, nextPage, text, order, t, depth, lo, hi, min, next)
      requires lo <= Rank(e.key) <= hi && KeysTyped([e.key], text)
      modifies this`pages, this`nextPage
      ensures Shaped(t)
      ensures var r := Insert(t, e, order, old(nextPage));
              && nextPage == r.1 && didSplit == r.0.Two?
              && (didSplit ==> sep == r.0.sep && right == r.0.right.id)
              && Inserted(old(pages), pages, t, r.0, next)
      ensures AllBelow(pages, nextPage)
      decreases t
    {
      OkIsShaped(t, order, depth, lo, hi, min);
      if pages[pageId].LeafNode? {
        assert Leaves(t) == [t] && HeadOr([t][1..], next) == next;
        assert Link(pages, [t][0].id, HeadOr([t][1..], next));
        assert Has(t, pageId);
        didSplit, sep, right := InsertIntoLeaf(pageId, e, t.entries, next);
      } else {
        didSplit, sep, right := InsertIntoInner(pageId, e, t, depth, lo, hi, min, next);
      }
    }

    method InsertIntoInner(pageId: nat, e: Entry, ghost t: Tree, ghost depth: nat, ghost lo: int, ghost hi: int, ghost min: int, ghost next: int)
      returns (didSplit: bool, sep: StoredKey, right: nat)
      requires AllBelow(pages, nextPage) && pageId == t.id && t.Inner? && Shaped(t)
      requires CanInsert(pages, nextPage, text, order, t, depth, lo, hi, min, next)
      requires lo <= Rank(e.key) <= hi && KeysTyped([e.key], text)
      modifies this`pages, this`nextPage
      ensures var r := Insert(t, e, order, old(nextPage));
              && nextPage == r.1 && didSplit == r.0.Two?
              && (didSplit ==> sep == r.0.sep && right == r.0.right.id)
              && Inserted(old(pages), pages, t, r.0, next)
      ensures AllBelow(pages, nextPage)
      decreases t, 0
    {
      hide Rank, TreeOk, NodeOk, Stored, Separate, Typed, Leaves, AllLeaves, Has, Chained, NodeIs, Sorted, GrownOk, KidLo, KidHi;
      InnerFacts(pages, nextPage, text, order, t, depth, lo, hi, min, next);
      var at, child := ChildFor(pages[pageId], e.key, text, t.keys, t.kids);
      KidCanInsert(pages, nextPage, text, order, t, depth, lo, hi, min, next, at);
      KidFacts(pages, nextPage, text, order, t, e, at);
      KidTakesKey(t.keys, Rank(e.key), lo, hi);
      ghost var pages0, next0 := pages, nextPage;
      ghost var g := Insert(t.kids[at], e, order, next0).0;
      didSplit, sep, right := InsertInto(child, e, t.kids[at], depth - 1, KidLo(t.keys, lo, at), KidHi(t.keys, hi, at),
                                         (order - 1) / 2, HeadOr(AllLeaves(t.kids[at + 1..]), next));
      ghost var pages1, next1 := pages, nextPage;
      KidInserted(pages0, pages1, t, at, g, next);
      if didSplit {
        didSplit, sep, right := AbsorbSplit(pageId, at, sep, right, t.keys, t.kids, g);
      } else {
        ReplacedNode(pages[pageId], t.keys, t.kids, at, g);
      }
      AbsorbInserted(pages0, pages1, pages, t, at, g, order, next0, next1, next);
    }

    /** The part of indexInsert after the descent: a root that split gets a new root above it. */
    method RaiseRoot(didSplit: bool, sep: StoredKey, right: nat, ghost g: Grown)
      requires order >= 4 && AllBelow(pages, nextPage) && rootPage == GrownId(g)
      requires GrownOk(g, order, Depth(if g.One? then g.tree else g.left), 0, RankLimit(text), 0)
      requires GrownStored(pages, g) && GrownSeparate(g) && GrownTyped(g, text)
      requires Chained(pages, GrownLeaves(g), INVALID_PAGE)
      requires forall p: nat :: GrownHas(g, p) ==> p < nextPage
      requires didSplit == g.Two? && (didSplit ==> sep == g.sep && right == g.right.id)
      modifies this`pages, this`nextPage, this`rootPage, this`tree
      ensures tree == Raise(g, old(nextPage)).0 && rootPage == tree.id
      ensures IndexOk(pages, nextPage, text, order, tree)
    {
      ghost var below, n := pages, nextPage;
      if didSplit {
        rootPage := NewNode(InnerNode([Entry(sep, rootPage)], right));
      }
      tree := Raise(g, n).0;
      RaiseFinishes(below, pages, g, n, text, order);
    }

    method AddEntry(e: Entry)
      requires IndexOk(pages, nextPage, text, order, tree) && rootPage == tree.id
      requires KeysTyped([e.key], text) && Rank(e.key) <= RankLimit(text)
      modifies this`pages, this`nextPage, this`rootPage, this`tree
      ensures IndexOk(pages, nextPage, text, order, tree) && rootPage == tree.id
      ensures Entries(tree) == InsertSorted(old(Entries(tree)), e)
    {
      InsertFacts(pages, nextPage, text, order, tree, e);
      ghost var t, g := tree, Insert(tree, e, order, nextPage).0;
      var didSplit, sep, right := InsertInto(rootPage, e, t, Depth(t), 0, RankLimit(text), 0, INVALID_PAGE);
      RaiseRoot(didSplit, sep, right, g);
    }

    /**
     indexInsert: NULLs are not indexed; anything else becomes one entry more, and the root
     is replaced when it splits.
     */
    method Add(value: Value, row: int)
      requires Valid() && (value.Null? || TypeOf(value).TextType? == text)
      modifies this
      ensures Valid()
      ensures value.Null? ==> tree == old(tree)
      ensures !value.Null? ==> Entries(tree) == InsertSorted(old(Entries(tree)), Entry(MakeKey(value), row))
    {
      hide IndexOk, Entries, InsertSorted, Rank, RankLimit;
      if value.Null? {
        return;
      }
      var e := Entry(MakeKey(value), row);
      MakeKeyOk(value);
      RankBounded(e.key);
      InsertSortedAt(Entries(tree), e, 0);
      AddEntry(e);
      keyCount := keyCount + 1;
    }
  }
}
