/**
 The B+ tree as pages (11_index.c). A node is a page holding an array of entries; children
 and the next leaf are page ids. The `tree` an index carries is the value its pages spell
 out, and each method is proved to do to the pages what `BTree` does to the tree.
 */
module BTreePages {
  import opened IndexKeys
  import opened BTree

  const INVALID_PAGE := -1

  /** A node page. An internal entry's payload is the child left of its key. */
  datatype Node = LeafNode(entries: seq<Entry>, next: int) | InnerNode(entries: seq<Entry>, lastChild: int)

  type Pages = map<nat, Node>

  // ---------- which pages a tree owns ----------

  ghost predicate Has(t: Tree, p: nat)
    decreases t
  {
    t.id == p || (t.Inner? && exists i :: 0 <= i < |t.kids| && Has(t.kids[i], p))
  }

  ghost predicate KidsHave(kids: seq<Tree>, p: nat) {
    exists i :: 0 <= i < |kids| && Has(kids[i], p)
  }

  ghost predicate GrownHas(g: Grown, p: nat) {
    match g
    case One(tree) => Has(tree, p)
    case Two(left, _, right) => Has(left, p) || Has(right, p)
  }

  /** No page belongs to two nodes. */
  ghost predicate Separate(t: Tree)
    decreases t
  {
    t.Inner? ==> !KidsHave(t.kids, t.id) && Apart(t.kids) && forall i :: 0 <= i < |t.kids| ==> Separate(t.kids[i])
  }

  ghost predicate Apart(kids: seq<Tree>) {
    forall i, j, p: nat :: 0 <= i < |kids| && 0 <= j < |kids| && Has(kids[i], p) && Has(kids[j], p) ==> i == j
  }

  ghost predicate GrownSeparate(g: Grown) {
    match g
    case One(tree) => Separate(tree)
    case Two(left, _, right) =>
      Separate(left) && Separate(right) && forall p: nat :: !(Has(left, p) && Has(right, p))
  }

  ghost function GrownId(g: Grown): nat {
    if g.One? then g.tree.id else g.left.id
  }

  /** A forest's trees are separate and apart. */
  ghost predicate KidsSeparate(kids: seq<Tree>) {
    Apart(kids) && forall i :: 0 <= i < |kids| ==> Separate(kids[i])
  }

  /** Kid `at` replaced by what it grew into. */
  ghost function Replaced(kids: seq<Tree>, at: nat, g: Grown): seq<Tree>
    requires at < |kids|
  {
    kids[..at] + (if g.One? then [g.tree] else [g.left, g.right]) + kids[at + 1..]
  }

  /** Where the pages of a grown forest come from. */
  lemma ReplacedOwns(kids: seq<Tree>, at: nat, g: Grown, lo: nat, hi: nat)
    requires KidsSeparate(kids) && at < |kids| && GrownSeparate(g)
    requires forall p: nat :: KidsHave(kids, p) ==> p < lo
    requires forall p: nat :: GrownHas(g, p) ==> Has(kids[at], p) || lo <= p < hi
    ensures KidsSeparate(Replaced(kids, at, g))
    ensures forall p: nat :: KidsHave(Replaced(kids, at, g), p) ==> KidsHave(kids, p) || lo <= p < hi
  {
    var kids' := Replaced(kids, at, g);
    var n := if g.One? then 1 else 2;
    forall i, p: nat | 0 <= i < |kids'| && Has(kids'[i], p)
      ensures Has(kids[OldIndex(at, n, i)], p) || (at <= i < at + n && lo <= p < hi)
      ensures KidsHave(kids, p) || lo <= p < hi
    {
      assert !(at <= i < at + n) ==> kids'[i] == kids[OldIndex(at, n, i)];
      assert at <= i < at + n ==> GrownHas(g, p);
    }
    forall i, j, p: nat | 0 <= i < |kids'| && 0 <= j < |kids'| && Has(kids'[i], p) && Has(kids'[j], p)
      ensures i == j
    {
      var i', j' := OldIndex(at, n, i), OldIndex(at, n, j);
      assert Has(kids[i'], p) || Has(kids[j'], p) ==> KidsHave(kids, p);
      assert i' == j';
      if at <= i < at + n {
        assert g.Two? ==> kids'[at] == g.left && kids'[at + 1] == g.right;
      }
    }
    forall i | 0 <= i < |kids'|
      ensures Separate(kids'[i])
    {
      assert !(at <= i < at + n) ==> kids'[i] == kids[OldIndex(at, n, i)];
    }
  }

  /** Which kid a kid of the grown forest comes from, kid `at` having become n of them. */
  ghost function OldIndex(at: nat, n: nat, i: nat): int
    requires n > 0
  {
    if i < at then i else if i < at + n then at else i - n + 1
  }

  /** New nodes take unused pages, old nodes keep theirs, and nobody shares. */
  lemma {:induction false} InsertOwns(t: Tree, e: Entry, order: nat, nextId: nat)
    requires Shaped(t) && order >= 4 && Separate(t) && forall p: nat :: Has(t, p) ==> p < nextId
    ensures var r := Insert(t, e, order, nextId);
            && nextId <= r.1 && GrownId(r.0) == t.id && GrownSeparate(r.0)
            && forall p: nat :: GrownHas(r.0, p) ==> Has(t, p) || nextId <= p < r.1
    decreases t
  {
    match t
    case Leaf(id, entries) =>
      var r := InsertLeaf(id, entries, e, order, nextId);
      if r.0.Two? {
        assert id < nextId by { assert Has(t, id); }
      }
    case Inner(id, keys, kids) =>
      var at := LowerBound(keys, Rank(e.key));
      forall p: nat | KidsHave(kids, p) ensures Has(t, p) {}
      forall p: nat | Has(kids[at], p) ensures KidsHave(kids, p) {}
      InsertOwns(kids[at], e, order, nextId);
      var (g, nextId') := Insert(kids[at], e, order, nextId);
      assert Has(t, id);
      AbsorbOwns(id, keys, kids, at, g, order, nextId, nextId');
  }

  lemma AbsorbOwns(id: nat, keys: seq<StoredKey>, kids: seq<Tree>, at: nat, g: Grown, order: nat, nextId: nat, nextId': nat)
    requires at <= |keys| && |kids| == |keys| + 1 && order >= 4
    requires KidsSeparate(kids) && !KidsHave(kids, id) && GrownSeparate(g)
    requires id < nextId <= nextId' && forall p: nat :: KidsHave(kids, p) ==> p < nextId
    requires forall p: nat :: GrownHas(g, p) ==> Has(kids[at], p) || nextId <= p < nextId'
    ensures var r := Absorb(id, keys, kids, at, g, order, nextId');
            && nextId' <= r.1 && GrownId(r.0) == id && GrownSeparate(r.0)
            && forall p: nat :: GrownHas(r.0, p) ==> p == id || KidsHave(kids, p) || nextId <= p < r.1
  {
    hide Has;
    ReplacedOwns(kids, at, g, nextId, nextId');
    var kids' := Replaced(kids, at, g);
    var r := Absorb(id, keys, kids, at, g, order, nextId');
    assert g.One? ==> kids' == kids[at := g.tree];
    if r.0.Two? {
      ForestParts(kids', order / 2 + 1);
      InnerHas(r.0.left);
      InnerHas(r.0.right);
    } else {
      InnerHas(r.0.tree);
    }
  }

  lemma InnerHas(t: Tree)
    requires t.Inner?
    ensures forall p: nat :: Has(t, p) <==> t.id == p || KidsHave(t.kids, p)
  {
  }

  lemma ForestParts(kids: seq<Tree>, k: nat)
    requires KidsSeparate(kids) && k <= |kids|
    ensures KidsSeparate(kids[..k]) && KidsSeparate(kids[k..])
    ensures forall p: nat :: KidsHave(kids[..k], p) || KidsHave(kids[k..], p) ==> KidsHave(kids, p)
    ensures forall p: nat :: !(KidsHave(kids[..k], p) && KidsHave(kids[k..], p))
  {
    assert forall i :: 0 <= i < k ==> kids[..k][i] == kids[i];
    assert forall i :: 0 <= i < |kids| - k ==> kids[k..][i] == kids[k + i];
  }

  // ---------- the leaves, left to right ----------

  ghost function Leaves(t: Tree): seq<Tree>
    decreases t
  {
    if t.Leaf? then [t] else AllLeaves(t.kids)
  }

  ghost function AllLeaves(kids: seq<Tree>): seq<Tree>
    decreases kids
  {
    if kids == [] then [] else Leaves(kids[0]) + AllLeaves(kids[1..])
  }

  ghost function GrownLeaves(g: Grown): seq<Tree> {
    match g
    case One(tree) => Leaves(tree)
    case Two(left, _, right) => Leaves(left) + Leaves(right)
  }

  lemma {:induction false} AllLeavesConcat(a: seq<Tree>, b: seq<Tree>)
    ensures AllLeaves(a + b) == AllLeaves(a) + AllLeaves(b)
  {
    hide Leaves;
    if a == [] {
      assert a + b == b;
    } else {
      AllLeavesConcat(a[1..], b);
      assert (a + b)[1..] == a[1..] + b && (a + b)[0] == a[0];
    }
  }

  lemma AllLeavesHead(kids: seq<Tree>)
    requires kids != []
    ensures AllLeaves(kids) == Leaves(kids[0]) + AllLeaves(kids[1..])
  {
  }

  lemma AllLeavesAround(kids: seq<Tree>, at: nat)
    requires at < |kids|
    ensures AllLeaves(kids) == AllLeaves(kids[..at]) + Leaves(kids[at]) + AllLeaves(kids[at + 1..])
  {
    hide *;
    var before, rest, after := kids[..at], kids[at..], kids[at + 1..];
    assert kids == before + rest;
    AllLeavesConcat(before, rest);
    AllLeavesHead(rest);
    assert rest[1..] == after && rest[0] == kids[at];
  }

  lemma AllLeavesOfPair(left: Tree, right: Tree)
    ensures AllLeaves([left, right]) == Leaves(left) + Leaves(right)
  {
    assert [left, right][1..] == [right];
    assert [right][1..] == [];
    assert AllLeaves([right]) == Leaves(right) + AllLeaves([]);
  }

  lemma AbsorbLeaves(id: nat, keys: seq<StoredKey>, kids: seq<Tree>, at: nat, g: Grown, order: nat, nextId: nat)
    requires at <= |keys| && |kids| == |keys| + 1 && order >= 4
    ensures GrownLeaves(Absorb(id, keys, kids, at, g, order, nextId).0)
            == AllLeaves(kids[..at]) + GrownLeaves(g) + AllLeaves(kids[at + 1..])
  {
    var before, after := kids[..at], kids[at + 1..];
    match g
    case One(kid) =>
      AllLeavesAround(kids[at := kid], at);
      assert kids[at := kid][..at] == before && kids[at := kid][at + 1..] == after;
    case Two(left, sep, right) =>
      var kids' := before + [left, right] + after;
      AllLeavesConcat(before + [left, right], after);
      AllLeavesConcat(before, [left, right]);
      AllLeavesOfPair(left, right);
      if |keys| + 1 == order {
        AllLeavesConcat(kids'[..order / 2 + 1], kids'[order / 2 + 1..]);
        assert kids' == kids'[..order / 2 + 1] + kids'[order / 2 + 1..];
      }
  }

  lemma {:induction false} LeavesExist(t: Tree)
    requires Shaped(t)
    ensures Leaves(t) != []
    decreases t
  {
    if t.Inner? {
      LeavesExist(t.kids[0]);
    }
  }

  lemma {:induction false} LeavesOwned(t: Tree)
    ensures forall i :: 0 <= i < |Leaves(t)| ==> Has(t, Leaves(t)[i].id)
    decreases t, 1
  {
    if t.Inner? {
      AllLeavesOwned(t.kids);
      forall i | 0 <= i < |Leaves(t)| ensures Has(t, Leaves(t)[i].id) {
        assert KidsHave(t.kids, Leaves(t)[i].id);
      }
    }
  }

  lemma {:induction false} AllLeavesOwned(kids: seq<Tree>)
    ensures forall i :: 0 <= i < |AllLeaves(kids)| ==> KidsHave(kids, AllLeaves(kids)[i].id)
    decreases kids, 0
  {
    if kids != [] {
      LeavesOwned(kids[0]);
      AllLeavesOwned(kids[1..]);
      forall i | 0 <= i < |AllLeaves(kids)| ensures KidsHave(kids, AllLeaves(kids)[i].id) {
        var first := Leaves(kids[0]);
        if i < |first| {
          assert Has(kids[0], first[i].id);
        } else {
          var p := AllLeaves(kids[1..])[i - |first|].id;
          assert KidsHave(kids[1..], p);
          var k :| 0 <= k < |kids[1..]| && Has(kids[1..][k], p);
          assert Has(kids[k + 1], p);
        }
      }
    }
  }

  /** The leftmost leaf keeps its page. */
  lemma {:induction false} InsertFirstLeaf(t: Tree, e: Entry, order: nat, nextId: nat)
    requires Shaped(t) && order >= 4
    ensures var leaves := GrownLeaves(Insert(t, e, order, nextId).0);
            leaves != [] && Leaves(t) != [] && leaves[0].id == Leaves(t)[0].id
    decreases t
  {
    LeavesExist(t);
    if t.Inner? {
      var at := LowerBound(t.keys, Rank(e.key));
      InsertFirstLeaf(t.kids[at], e, order, nextId);
      var (g, nextId') := Insert(t.kids[at], e, order, nextId);
      AbsorbLeaves(t.id, t.keys, t.kids, at, g, order, nextId');
      AllLeavesAround(t.kids, at);
    }
  }

  ghost predicate Link(pages: Pages, p: nat, next: int) {
    p in pages && pages[p].LeafNode? && pages[p].next == next
  }

  /** The leaf chain lists exactly these leaves, then `next`. */
  ghost predicate Chained(pages: Pages, leaves: seq<Tree>, next: int) {
    forall k :: 0 <= k < |leaves| ==> Link(pages, leaves[k].id, HeadOr(leaves[k + 1..], next))
  }

  ghost function HeadOr(leaves: seq<Tree>, next: int): int {
    if leaves == [] then next else leaves[0].id
  }

  lemma ChainParts(pages: Pages, a: seq<Tree>, b: seq<Tree>, next: int)
    ensures Chained(pages, a + b, next) <==> Chained(pages, a, HeadOr(b, next)) && Chained(pages, b, next)
  {
    var whole := a + b;
    forall k | 0 <= k < |a|
      ensures whole[k] == a[k] && HeadOr(whole[k + 1..], next) == HeadOr(a[k + 1..], HeadOr(b, next))
    {
      assert whole[k + 1..] == a[k + 1..] + b;
    }
    forall k | 0 <= k < |b|
      ensures whole[|a| + k] == b[k] && HeadOr(whole[|a| + k + 1..], next) == HeadOr(b[k + 1..], next)
    {
      assert whole[|a| + k + 1..] == b[k + 1..];
    }
    if Chained(pages, whole, next) {
      forall k | 0 <= k < |b| ensures Link(pages, b[k].id, HeadOr(b[k + 1..], next)) {
        assert Link(pages, whole[|a| + k].id, HeadOr(whole[|a| + k + 1..], next));
      }
    }
    if Chained(pages, a, HeadOr(b, next)) && Chained(pages, b, next) {
      forall k | 0 <= k < |whole| ensures Link(pages, whole[k].id, HeadOr(whole[k + 1..], next)) {
        if k >= |a| {
          assert Link(pages, b[k - |a|].id, HeadOr(b[k - |a| + 1..], next));
          assert whole[|a| + (k - |a|)] == b[k - |a|];
        }
      }
    }
  }

  lemma ChainMoves(pages: Pages, pages': Pages, leaves: seq<Tree>, next: int)
    requires Chained(pages, leaves, next)
    requires forall k :: 0 <= k < |leaves| ==> leaves[k].id in pages' && pages'[leaves[k].id] == pages[leaves[k].id]
    ensures Chained(pages', leaves, next)
  {
  }

  // ---------- trees spelled out in pages ----------

  /** An internal node page with these keys and these children. */
  ghost predicate NodeIs(node: Node, keys: seq<StoredKey>, kids: seq<Tree>) {
    && node.InnerNode? && |kids| == |keys| + 1 && |node.entries| == |keys|
    && (forall i :: 0 <= i < |keys| ==> node.entries[i] == Entry(keys[i], kids[i].id))
    && node.lastChild == kids[|keys|].id
  }

  ghost predicate Stored(pages: Pages, t: Tree)
    decreases t
  {
    && t.id in pages
    && match t
       case Leaf(id, entries) => pages[id].LeafNode? && pages[id].entries == entries
       case Inner(id, keys, kids) =>
         NodeIs(pages[id], keys, kids) && forall i :: 0 <= i < |kids| ==> Stored(pages, kids[i])
  }

  ghost predicate GrownStored(pages: Pages, g: Grown) {
    match g
    case One(tree) => Stored(pages, tree)
    case Two(left, _, right) => Stored(pages, left) && Stored(pages, right)
  }

  /** A tree is where it was as long as its own pages are. */
  lemma {:induction false} StoredMoves(pages: Pages, pages': Pages, t: Tree)
    requires Stored(pages, t)
    requires forall p: nat :: Has(t, p) && p in pages ==> p in pages' && pages'[p] == pages[p]
    ensures Stored(pages', t)
    decreases t
  {
    assert Has(t, t.id);
    if t.Inner? {
      forall i | 0 <= i < |t.kids| ensures Stored(pages', t.kids[i]) {
        forall p: nat | Has(t.kids[i], p) ensures Has(t, p) {}
        StoredMoves(pages, pages', t.kids[i]);
      }
    }
  }

  /** Every key in the tree is of one kind and well formed. */
  ghost predicate Typed(t: Tree, text: bool)
    decreases t
  {
    match t
    case Leaf(_, entries) => KeysTyped(Keys(entries), text)
    case Inner(_, keys, kids) =>
      KeysTyped(keys, text) && forall i :: 0 <= i < |kids| ==> Typed(kids[i], text)
  }

  ghost predicate KeysTyped(keys: seq<StoredKey>, text: bool) {
    forall i :: 0 <= i < |keys| ==> KeyOk(keys[i]) && keys[i].TextKey? == text
  }

  ghost predicate GrownTyped(g: Grown, text: bool) {
    match g
    case One(tree) => Typed(tree, text)
    case Two(left, sep, right) => Typed(left, text) && Typed(right, text) && KeysTyped([sep], text)
  }

  lemma InsertSortedTyped(entries: seq<Entry>, e: Entry, text: bool)
    requires KeysTyped(Keys(entries), text) && KeysTyped([e.key], text)
    ensures KeysTyped(Keys(InsertSorted(entries, e)), text)
  {
    var at := LowerBound(Keys(entries), Rank(e.key));
    assert KeyOk([e.key][0]);
    forall i | 0 <= i < |InsertSorted(entries, e)|
      ensures var key := Keys(InsertSorted(entries, e))[i]; KeyOk(key) && key.TextKey? == text
    {
      InsertSortedAt(entries, e, i);
      assert i < at ==> KeyOk(Keys(entries)[i]);
      assert i > at ==> KeyOk(Keys(entries)[i - 1]);
    }
  }

  lemma {:induction false} InsertTyped(t: Tree, e: Entry, order: nat, nextId: nat, text: bool)
    requires Shaped(t) && order >= 4 && Typed(t, text) && KeysTyped([e.key], text)
    ensures GrownTyped(Insert(t, e, order, nextId).0, text)
    decreases t
  {
    match t
    case Leaf(id, entries) => InsertSortedTyped(entries, e, text);
      var grown := InsertSorted(entries, e);
      var half := order / 2;
      if |grown| == order {
        assert Keys(grown[..half]) == Keys(grown)[..half];
        assert Keys(grown[half..]) == Keys(grown)[half..];
        assert grown[half].key == Keys(grown)[half];
      }
    case Inner(id, keys, kids) =>
      var at := LowerBound(keys, Rank(e.key));
      InsertTyped(kids[at], e, order, nextId, text);
      var (g, nextId') := Insert(kids[at], e, order, nextId);
      AbsorbTyped(id, keys, kids, at, g, order, nextId', text);
  }

  lemma AbsorbTyped(id: nat, keys: seq<StoredKey>, kids: seq<Tree>, at: nat, g: Grown, order: nat, nextId: nat, text: bool)
    requires at <= |keys| && |kids| == |keys| + 1 && order >= 4
    requires KeysTyped(keys, text) && forall i :: 0 <= i < |kids| ==> Typed(kids[i], text)
    requires GrownTyped(g, text)
    ensures GrownTyped(Absorb(id, keys, kids, at, g, order, nextId).0, text)
  {
    if g.Two? {
      assert KeyOk([g.sep][0]);
      var keys' := keys[..at] + [g.sep] + keys[at..];
      var kids' := kids[..at] + [g.left, g.right] + kids[at + 1..];
      assert KeysTyped(keys', text);
      assert forall i :: 0 <= i < |kids'| ==> Typed(kids'[i], text);
    }
  }
}
