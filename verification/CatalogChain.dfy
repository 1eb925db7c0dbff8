/**
 The catalog on disk (12_persist.c:357-470): a byte string in a linked list of pages, written
 over as much of an existing list as it needs, with pages added or given back. Each page begins
 with the id of the next and the number of bytes it carries.
 */
module CatalogChain {
  import opened Common
  import opened Values
  import opened Records

  const CATALOG_HEADER := 8
  const CATALOG_PAYLOAD := PAGE_USABLE - CATALOG_HEADER
  const INVALID_CATALOG := 0xFFFF_FFFF

  /** Page ids are C ints, so they stop here; a larger word in a page reads as a negative id. */
  const ID_LIMIT := 0x8000_0000

  type PageId = nat

  // ---------- one page ----------

  function NextOf(page: Bytes): nat
    requires |page| == PAGE_SIZE
  {
    Get32(page, 0)
  }

  function UsedOf(page: Bytes): nat
    requires |page| == PAGE_SIZE
  {
    Get32(page, 4)
  }

  function SetNext(page: Bytes, next: nat): (out: Bytes)
    requires |page| == PAGE_SIZE && next < 0x1_0000_0000
    ensures |out| == PAGE_SIZE
  {
    Poke(page, 0, U32(next))
  }

  function SetPayload(page: Bytes, chunk: Bytes): (out: Bytes)
    requires |page| == PAGE_SIZE && |chunk| <= CATALOG_PAYLOAD
    ensures |out| == PAGE_SIZE
  {
    Poke(Poke(page, CATALOG_HEADER, chunk), 4, U32(|chunk|))
  }

  /** The bytes a page carries. */
  function Carried(page: Bytes): Bytes
    requires |page| == PAGE_SIZE && UsedOf(page) <= PAGE_SIZE - CATALOG_HEADER
  {
    page[CATALOG_HEADER..CATALOG_HEADER + UsedOf(page)]
  }

  lemma WordUnderPoke(page: Bytes, at: nat, bytes: Bytes, word: nat)
    requires at + |bytes| <= |page| && word + 4 <= |page|
    ensures word + 4 <= at || at + |bytes| <= word ==> Get32(Poke(page, at, bytes), word) == Get32(page, word)
  {
    var out := Poke(page, at, bytes);
    if word + 4 <= at || at + |bytes| <= word {
      PokeReads(page, at, bytes, word, word + 4);
      var x, y := out[word..word + 4], page[word..word + 4];
      assert x[0] == out[word] && x[1] == out[word + 1] && x[2] == out[word + 2] && x[3] == out[word + 3];
      assert y[0] == page[word] && y[1] == page[word + 1] && y[2] == page[word + 2] && y[3] == page[word + 3];
    }
  }

  lemma SetNextIs(page: Bytes, next: nat)
    requires |page| == PAGE_SIZE && next < 0x1_0000_0000
    ensures NextOf(SetNext(page, next)) == next && UsedOf(SetNext(page, next)) == UsedOf(page)
    ensures UsedOf(page) <= PAGE_SIZE - CATALOG_HEADER ==> Carried(SetNext(page, next)) == Carried(page)
  {
    hide Get32, U32, Poke;
    var out := SetNext(page, next);
    PokeReads(page, 0, U32(next), 0, 4);
    Get32Put(out, 0, next);
    WordUnderPoke(page, 0, U32(next), 4);
    if UsedOf(page) <= PAGE_SIZE - CATALOG_HEADER {
      PokeReads(page, 0, U32(next), CATALOG_HEADER, CATALOG_HEADER + UsedOf(page));
    }
  }

  lemma SetPayloadIs(page: Bytes, chunk: Bytes)
    requires |page| == PAGE_SIZE && |chunk| <= CATALOG_PAYLOAD
    ensures UsedOf(SetPayload(page, chunk)) == |chunk| && Carried(SetPayload(page, chunk)) == chunk
    ensures NextOf(SetPayload(page, chunk)) == NextOf(page)
  {
    hide Get32, U32, Poke;
    var a := Poke(page, CATALOG_HEADER, chunk);
    var out := SetPayload(page, chunk);
    PokeReads(a, 4, U32(|chunk|), 4, 8);
    Get32Put(out, 4, |chunk|);
    PokeReads(page, CATALOG_HEADER, chunk, CATALOG_HEADER, CATALOG_HEADER + |chunk|);
    PokeReads(a, 4, U32(|chunk|), CATALOG_HEADER, CATALOG_HEADER + |chunk|);
    WordUnderPoke(page, CATALOG_HEADER, chunk, 0);
    WordUnderPoke(a, 4, U32(|chunk|), 0);
  }

  // ---------- chains ----------

  type Pages = map<PageId, Bytes>

  function IdAt(ids: seq<PageId>, j: nat, end: nat): nat {
    if j < |ids| then ids[j] else end
  }

  /** Page j of the list leads to page j + 1, and the last to `end`. */
  ghost predicate Linked(pages: Pages, ids: seq<PageId>, end: nat) {
    forall j :: 0 <= j < |ids| ==> LinkOk(pages, ids[j], IdAt(ids, j + 1, end))
  }

  ghost predicate LinkOk(pages: Pages, id: PageId, next: nat) {
    && id in pages && |pages[id]| == PAGE_SIZE && id < ID_LIMIT && NextOf(pages[id]) == next
  }

  ghost predicate Bounded(pages: Pages, ids: seq<PageId>) {
    forall j :: 0 <= j < |ids| ==>
      ids[j] in pages && |pages[ids[j]]| == PAGE_SIZE && UsedOf(pages[ids[j]]) <= PAGE_SIZE - CATALOG_HEADER
  }

  /** What the pages of a list carry between them. */
  ghost function Contents(pages: Pages, ids: seq<PageId>): Bytes
    requires Bounded(pages, ids)
  {
    if ids == [] then []
    else Contents(pages, ids[..|ids| - 1]) + Carried(pages[ids[|ids| - 1]])
  }

  lemma {:induction false} ContentsSame(a: Pages, b: Pages, ids: seq<PageId>)
    requires Bounded(a, ids) && Bounded(b, ids)
    requires forall j :: 0 <= j < |ids| ==> Carried(a[ids[j]]) == Carried(b[ids[j]])
    ensures Contents(a, ids) == Contents(b, ids)
  {
    hide Carried;
    if ids != [] {
      ContentsSame(a, b, ids[..|ids| - 1]);
    }
  }

  /** readCatalogChain: everything the list carries, first page first, unless a page claims too much. */
  method ReadChain(pages: Pages, root: nat, ghost ids: seq<PageId>) returns (ok: bool, out: Bytes)
    requires Linked(pages, ids, INVALID_CATALOG) && root == IdAt(ids, 0, INVALID_CATALOG)
    ensures ok <==> Bounded(pages, ids)
    ensures ok ==> out == Contents(pages, ids)
  {
    hide Carried, NextOf, UsedOf;
    out := [];
    var page := root;
    ghost var j := 0;
    while page != INVALID_CATALOG && page < ID_LIMIT
      invariant 0 <= j <= |ids| && page == IdAt(ids, j, INVALID_CATALOG)
      invariant Bounded(pages, ids[..j]) && out == Contents(pages, ids[..j])
      decreases |ids| - j
    {
      assert LinkOk(pages, ids[j], IdAt(ids, j + 1, INVALID_CATALOG));
      if UsedOf(pages[page]) > PAGE_SIZE - CATALOG_HEADER {
        return false, [];
      }
      assert ids[..j + 1][..j] == ids[..j];
      out := out + Carried(pages[page]);
      page := NextOf(pages[page]);
      j := j + 1;
    }
    assert ids[..j] == ids;
    ok := true;
  }

  // ---------- writing ----------

  /** How many pages a byte string of this length takes: at least one. */
  function Needed(length: nat): (n: nat)
    ensures n > 0
  {
    if length <= CATALOG_PAYLOAD then 1 else 1 + Needed(length - CATALOG_PAYLOAD)
  }

  /** No fewer would do: all but the last are needed even when full. */
  lemma {:induction false} NeededIsLeast(length: nat)
    ensures length <= Needed(length) * CATALOG_PAYLOAD
    ensures Needed(length) > 1 ==> (Needed(length) - 1) * CATALOG_PAYLOAD < length
    decreases length
  {
    if length > CATALOG_PAYLOAD {
      NeededIsLeast(length - CATALOG_PAYLOAD);
    }
  }

  /** Where a write stands: pages done, old pages still to use, pages made, and what has been written. */
  ghost predicate Writing(pages: Pages, was: Pages, given: seq<PageId>, made: seq<PageId>,
                          done: seq<PageId>, rest: seq<PageId>, written: Bytes)
  {
    && Linked(pages, done + rest, INVALID_CATALOG) && Distinct(done + rest)
    && Bounded(pages, done) && Contents(pages, done) == written
    && done + rest == given + made
    && (forall p :: p in made ==> p !in was)
    && (forall p :: p in pages <==> p in was || p in made)
    && (forall p :: p in was && p !in done ==> pages[p] == was[p])
  }

  function BlankPage(): (page: Bytes)
    ensures |page| == PAGE_SIZE
  {
    seq(PAGE_SIZE, _ => 0)
  }

  /** A list that ends at one id, made to end at another. */
  function Relinked(pages: Pages, last: PageId, next: nat): Pages
    requires last in pages && |pages[last]| == PAGE_SIZE && next < 0x1_0000_0000
  {
    pages[last := SetNext(pages[last], next)]
  }

  lemma RelinkKeeps(pages: Pages, ids: seq<PageId>, end: nat, next: nat)
    requires ids != [] && Linked(pages, ids, end) && Distinct(ids) && Bounded(pages, ids) && next < 0x1_0000_0000
    ensures var last := ids[|ids| - 1];
            && last in pages && |pages[last]| == PAGE_SIZE
            && var out := Relinked(pages, last, next);
               Linked(out, ids, next) && Bounded(out, ids) && Contents(out, ids) == Contents(pages, ids)
  {
    hide NextOf, UsedOf, Carried, SetNext;
    var last := ids[|ids| - 1];
    assert LinkOk(pages, ids[|ids| - 1], IdAt(ids, |ids|, end));
    SetNextIs(pages[last], next);
    var out := Relinked(pages, last, next);
    forall j | 0 <= j < |ids| ensures LinkOk(out, ids[j], IdAt(ids, j + 1, next)) {
      assert LinkOk(pages, ids[j], IdAt(ids, j + 1, end));
      assert j < |ids| - 1 ==> ids[j] != last;
    }
    ContentsSame(out, pages, ids);
  }

  lemma LinkedSplit(pages: Pages, a: seq<PageId>, b: seq<PageId>, end: nat)
    requires Linked(pages, a + b, end)
    ensures Linked(pages, a, IdAt(b, 0, end)) && Linked(pages, b, end)
  {
    var ids := a + b;
    forall j | 0 <= j < |a| ensures LinkOk(pages, a[j], IdAt(a, j + 1, IdAt(b, 0, end))) {
      assert LinkOk(pages, ids[j], IdAt(ids, j + 1, end));
    }
    forall j | 0 <= j < |b| ensures LinkOk(pages, b[j], IdAt(b, j + 1, end)) {
      assert LinkOk(pages, ids[|a| + j], IdAt(ids, |a| + j + 1, end));
    }
  }

  lemma LinkedJoin(pages: Pages, a: seq<PageId>, b: seq<PageId>, end: nat)
    requires Linked(pages, a, IdAt(b, 0, end)) && Linked(pages, b, end)
    ensures Linked(pages, a + b, end)
  {
    var ids := a + b;
    forall j | 0 <= j < |ids| ensures LinkOk(pages, ids[j], IdAt(ids, j + 1, end)) {
      if j < |a| {
        assert LinkOk(pages, a[j], IdAt(a, j + 1, IdAt(b, 0, end)));
      } else {
        assert LinkOk(pages, b[j - |a|], IdAt(b, j - |a| + 1, end));
      }
    }
  }

  /** Lists only depend on their own pages. */
  lemma ListFrame(a: Pages, b: Pages, ids: seq<PageId>, end: nat)
    requires forall j :: 0 <= j < |ids| ==> ids[j] in a && ids[j] in b && a[ids[j]] == b[ids[j]]
    ensures Linked(a, ids, end) ==> Linked(b, ids, end)
    ensures Bounded(a, ids) ==> Bounded(b, ids) && Contents(a, ids) == Contents(b, ids)
  {
    if Linked(a, ids, end) {
      forall j | 0 <= j < |ids| ensures LinkOk(b, ids[j], IdAt(ids, j + 1, end)) {
        assert LinkOk(a, ids[j], IdAt(ids, j + 1, end));
      }
    }
    if Bounded(a, ids) {
      ContentsSame(a, b, ids);
    }
  }

  lemma DistinctParts(a: seq<PageId>, b: seq<PageId>)
    requires Distinct(a + b)
    ensures Distinct(a) && Distinct(b) && forall p :: p in a ==> p !in b
  {
    var ids := a + b;
    assert forall j :: 0 <= j < |a| ==> ids[j] == a[j];
    assert forall j :: 0 <= j < |b| ==> ids[|a| + j] == b[j];
  }

  /** A new page hung on the end of the list. */
  function Extended(pages: Pages, done: seq<PageId>, id: PageId): Pages
    requires done != [] ==> done[|done| - 1] in pages && |pages[done[|done| - 1]]| == PAGE_SIZE
    requires id < ID_LIMIT
  {
    (if done == [] then pages else Relinked(pages, done[|done| - 1], id))[id := SetNext(BlankPage(), INVALID_CATALOG)]
  }

  lemma ExtendKeeps(pages: Pages, was: Pages, given: seq<PageId>, made: seq<PageId>, done: seq<PageId>, written: Bytes, id: PageId)
    requires Writing(pages, was, given, made, done, [], written) && id !in pages && id < ID_LIMIT
    ensures done != [] ==> done[|done| - 1] in pages && |pages[done[|done| - 1]]| == PAGE_SIZE
    ensures Writing(Extended(pages, done, id), was, given, made + [id], done, [id], written)
  {
    hide NextOf, UsedOf, Carried, SetNext, Contents, Linked;
    assert done + [] == done;
    if done != [] {
      RelinkKeeps(pages, done, INVALID_CATALOG, id);
    } else {
      NothingLinked(pages, id);
    }
    var out := Extended(pages, done, id);
    var relinked := if done == [] then pages else Relinked(pages, done[|done| - 1], id);
    ListFrame(relinked, out, done, id);
    BlankLinked(out, id);
    LinkedJoin(out, done, [id], INVALID_CATALOG);
    assert Distinct(done + [id]);
    assert done + [id] == given + (made + [id]);
  }

  lemma NothingLinked(pages: Pages, end: nat)
    ensures Linked(pages, [], end)
  {
  }

  lemma BlankLinked(pages: Pages, id: PageId)
    requires id in pages && id < ID_LIMIT && pages[id] == SetNext(BlankPage(), INVALID_CATALOG)
    ensures Linked(pages, [id], INVALID_CATALOG)
  {
    SetNextIs(BlankPage(), INVALID_CATALOG);
  }

  /** Filling a page leaves every link alone. */
  lemma PayloadLinked(pages: Pages, ids: seq<PageId>, end: nat, current: PageId, chunk: Bytes)
    requires Linked(pages, ids, end) && current in pages && |pages[current]| == PAGE_SIZE && |chunk| <= CATALOG_PAYLOAD
    ensures Linked(pages[current := SetPayload(pages[current], chunk)], ids, end)
  {
    hide NextOf, SetPayload;
    SetPayloadIs(pages[current], chunk);
    var out := pages[current := SetPayload(pages[current], chunk)];
    forall j | 0 <= j < |ids| ensures LinkOk(out, ids[j], IdAt(ids, j + 1, end)) {
      assert LinkOk(pages, ids[j], IdAt(ids, j + 1, end));
    }
  }

  lemma ContentsAppend(pages: Pages, done: seq<PageId>, current: PageId, chunk: Bytes)
    requires Bounded(pages, done) && current in pages && |pages[current]| == PAGE_SIZE
    requires UsedOf(pages[current]) == |chunk| <= CATALOG_PAYLOAD && Carried(pages[current]) == chunk
    ensures Bounded(pages, done + [current]) && Contents(pages, done + [current]) == Contents(pages, done) + chunk
  {
    assert (done + [current])[..|done|] == done;
  }

  lemma ChunkKeeps(pages: Pages, was: Pages, given: seq<PageId>, made: seq<PageId>, done: seq<PageId>, rest: seq<PageId>,
                   written: Bytes, chunk: Bytes)
    requires Writing(pages, was, given, made, done, rest, written) && rest != [] && |chunk| <= CATALOG_PAYLOAD
    ensures rest[0] in pages && |pages[rest[0]]| == PAGE_SIZE && NextOf(pages[rest[0]]) == IdAt(rest, 1, INVALID_CATALOG)
    ensures Writing(pages[rest[0] := SetPayload(pages[rest[0]], chunk)], was, given, made, done + [rest[0]], rest[1..], written + chunk)
  {
    hide NextOf, UsedOf, Carried, Contents, Linked, SetPayload;
    var current, ids := rest[0], done + rest;
    assert ids == (done + [current]) + rest[1..];
    LinkedSplit(pages, done, rest, INVALID_CATALOG);
    LinkedHas(pages, rest, INVALID_CATALOG, 0);
    DistinctParts(done, rest);
    assert current in rest;
    var out := pages[current := SetPayload(pages[current], chunk)];
    SetPayloadIs(pages[current], chunk);
    PayloadLinked(pages, ids, INVALID_CATALOG, current, chunk);
    forall j | 0 <= j < |done| ensures done[j] in pages && done[j] != current {
      assert done[j] in done;
    }
    ListFrame(pages, out, done, INVALID_CATALOG);
    ContentsAppend(out, done, current, chunk);
  }

  /** The end of a write: the last page closes the list, and what is left over is a list of its own. */
  lemma CloseKeeps(pages: Pages, was: Pages, given: seq<PageId>, made: seq<PageId>, done: seq<PageId>, rest: seq<PageId>, written: Bytes)
    requires Writing(pages, was, given, made, done, rest, written) && done != []
    ensures var last := done[|done| - 1];
            && last in pages && |pages[last]| == PAGE_SIZE
            && var out := Relinked(pages, last, INVALID_CATALOG);
               && Linked(out, done, INVALID_CATALOG) && Linked(out, rest, INVALID_CATALOG)
               && Bounded(out, done) && Contents(out, done) == written
               && (forall p :: p in out <==> p in pages)
               && (forall p :: p in was && p !in done ==> p in out && out[p] == was[p])
  {
    hide NextOf, UsedOf, Carried, SetNext, Contents, Linked;
    DistinctParts(done, rest);
    LinkedSplit(pages, done, rest, INVALID_CATALOG);
    RelinkKeeps(pages, done, IdAt(rest, 0, INVALID_CATALOG), INVALID_CATALOG);
    var last := done[|done| - 1];
    var out := Relinked(pages, last, INVALID_CATALOG);
    forall j | 0 <= j < |rest| ensures rest[j] in pages && rest[j] != last {
      assert rest[j] in rest && last in done;
      LinkedHas(pages, rest, INVALID_CATALOG, j);
    }
    ListFrame(pages, out, rest, INVALID_CATALOG);
  }

  lemma LinkedHas(pages: Pages, ids: seq<PageId>, end: nat, j: nat)
    requires Linked(pages, ids, end) && j < |ids|
    ensures ids[j] in pages && |pages[ids[j]]| == PAGE_SIZE && NextOf(pages[ids[j]]) == IdAt(ids, j + 1, end)
  {
    assert LinkOk(pages, ids[j], IdAt(ids, j + 1, end));
  }

  /** Some ids taken out of a map of pages. */
  ghost predicate Removed(was: Pages, pages: Pages, ids: seq<PageId>) {
    forall p :: (p in pages <==> p in was && p !in ids) && (p in pages ==> pages[p] == was[p])
  }

  /** What a finished write leaves: the list it wrote, the ids it gave back, and everything else as it was. */
  ghost predicate Written(was: Pages, pages: Pages, given: seq<PageId>, done: seq<PageId>, surplus: seq<PageId>, blob: Bytes) {
    && Linked(pages, done, INVALID_CATALOG) && Distinct(done) && Bounded(pages, done) && Contents(pages, done) == blob
    && |done| == Needed(|blob|)
    && (if |done| <= |given| then done == given[..|done|] && surplus == given[|done|..] else given <= done && surplus == [])
    && (forall p :: p in done && p !in given ==> p !in was)
    && (forall p :: p in surplus ==> p !in pages)
    && (forall p :: p in was && p !in given ==> p in pages && pages[p] == was[p])
    && (forall p :: p in pages ==> p in was || p in done)
  }

  lemma FinishWrite(pages: Pages, was: Pages, given: seq<PageId>, made: seq<PageId>, done: seq<PageId>, rest: seq<PageId>, blob: Bytes,
                    out: Pages)
    requires Writing(pages, was, given, made, done, rest, blob) && done != [] && |done| == Needed(|blob|)
    requires made != [] ==> rest == []
    requires done[|done| - 1] in pages && |pages[done[|done| - 1]]| == PAGE_SIZE
    requires Removed(Relinked(pages, done[|done| - 1], INVALID_CATALOG), out, rest)
    requires forall p :: p in given ==> p in was
    ensures Written(was, out, given, done, rest, blob)
  {
    hide NextOf, UsedOf, Carried, SetNext, Contents, Linked;
    CloseKeeps(pages, was, given, made, done, rest, blob);
    DistinctParts(done, rest);
    var closed := Relinked(pages, done[|done| - 1], INVALID_CATALOG);
    forall j | 0 <= j < |done| ensures done[j] in closed && done[j] in out && closed[done[j]] == out[done[j]] {
      assert done[j] in done;
    }
    ListFrame(closed, out, done, INVALID_CATALOG);
    WhichPages(given, made, done, rest);
    forall p | p in was && p !in given ensures p !in done && p !in rest {
      assert p !in given + made;
      assert p !in done + rest;
    }
    forall p | p in done && p !in given ensures p in made {
      assert p in done + rest;
    }
    forall p | p in made ensures p in done {
      assert p in given + made;
    }
  }

  lemma WhichPages(given: seq<PageId>, made: seq<PageId>, done: seq<PageId>, rest: seq<PageId>)
    requires done + rest == given + made && (made != [] ==> rest == [])
    ensures if |done| <= |given| then done == given[..|done|] && rest == given[|done|..] else given <= done && rest == []
  {
    if made == [] {
      assert given + made == given;
      assert (done + rest)[..|done|] == done && (done + rest)[|done|..] == rest;
    } else {
      assert done + rest == done;
    }
  }

  /** n ids taken from those given back, last first, and new ones only once these are gone. */
  ghost predicate Took(free: seq<PageId>, count: nat, free': seq<PageId>, count': nat, n: nat) {
    && free' <= free && count <= count' && |free| - |free'| + count' - count == n
    && (count' > count ==> free' == [])
  }

  lemma TookOn(free: seq<PageId>, count: nat, free': seq<PageId>, count': nat, n: nat, free'': seq<PageId>, count'': nat, more: nat)
    requires Took(free, count, free', count', n)
    requires more > 0 ==> Took(free', count', free'', count'', more)
    requires more == 0 ==> free'' == free' && count'' == count'
    ensures Took(free, count, free'', count'', n + more)
  {
  }

  lemma TookNone(free: seq<PageId>, count: nat, free': seq<PageId>, count': nat)
    ensures Took(free, count, free', count', 0) <==> free' == free && count' == count
  {
  }

  class PageStore {
    var pages: Pages
    var freeIds: seq<PageId>
    var pageCount: nat

    ghost predicate Valid()
      reads this
    {
      && (forall p :: p in pages ==> p < pageCount)
      && (forall k :: 0 <= k < |freeIds| ==> freeIds[k] < pageCount && freeIds[k] !in pages)
      && Distinct(freeIds)
    }

    /** poolAllocate: the last freed id, or a new one, holding zeros. */
    method Allocate() returns (id: PageId)
      requires Valid()
      modifies this
      ensures Valid() && id !in old(pages) && pages == old(pages)[id := BlankPage()] && id < pageCount
      ensures pageCount <= old(pageCount) + 1 && Took(old(freeIds), old(pageCount), freeIds, pageCount, 1)
    {
      if |freeIds| > 0 {
        id := freeIds[|freeIds| - 1];
        freeIds := freeIds[..|freeIds| - 1];
      } else {
        id := pageCount;
        pageCount := pageCount + 1;
      }
      pages := pages[id := BlankPage()];
    }

    method Free(id: PageId)
      requires Valid() && id in pages
      modifies this
      ensures Valid() && pages == old(pages) - {id} && freeIds == old(freeIds) + [id] && pageCount == old(pageCount)
    {
      pages := pages - {id};
      freeIds := freeIds + [id];
    }

    /** What is left over goes back to the pool, each page once. */
    method Release(from: nat, ghost rest: seq<PageId>)
      requires Valid() && Linked(pages, rest, INVALID_CATALOG) && Distinct(rest) && from == IdAt(rest, 0, INVALID_CATALOG)
      modifies this
      ensures Valid() && freeIds == old(freeIds) + rest && Removed(old(pages), pages, rest) && pageCount == old(pageCount)
    {
      hide NextOf, Linked;
      ghost var was, j := pages, 0;
      var next := from;
      while next != INVALID_CATALOG
        invariant Valid() && 0 <= j <= |rest| && next == IdAt(rest, j, INVALID_CATALOG) && pageCount == old(pageCount)
        invariant freeIds == old(freeIds) + rest[..j] && Removed(was, pages, rest[..j])
        decreases |rest| - j
      {
        NextToFree(was, pages, rest, j);
        var following := NextOf(pages[next]);
        Free(next);
        assert rest[..j + 1] == rest[..j] + [rest[j]];
        next := following;
        j := j + 1;
      }
      EndIs(was, rest, j);
      assert rest[..j] == rest;
    }

    /** The first half of a turn: a page to write to, made if the old list has run out. */
    method PageToFill(current: nat, previous: nat, ghost was: Pages, ghost given: seq<PageId>, ghost made: seq<PageId>,
                      ghost done: seq<PageId>, ghost rest: seq<PageId>, ghost written: Bytes)
      returns (page: PageId, ghost grown: seq<PageId>, ghost left: seq<PageId>)
      requires Valid() && Writing(pages, was, given, made, done, rest, written) && pageCount < ID_LIMIT
      requires current == IdAt(rest, 0, INVALID_CATALOG)
      requires previous == if done == [] then INVALID_CATALOG else done[|done| - 1]
      modifies this
      ensures Valid() && Writing(pages, was, given, grown, done, left, written) && left != [] && page == left[0]
      ensures rest != [] ==> left == rest && grown == made && pageCount == old(pageCount) && freeIds == old(freeIds)
      ensures rest == [] ==> |left| == 1 && grown == made + left && pageCount <= old(pageCount) + 1
      ensures rest == [] ==> Took(old(freeIds), old(pageCount), freeIds, pageCount, 1)
    {
      hide Writing, Linked, SetNext;
      page, grown, left := current, made, rest;
      RestEnds(pages, was, given, made, done, rest, written);
      if current == INVALID_CATALOG {
        ghost var before := pages;
        page := Allocate();
        ExtendKeeps(before, was, given, made, done, written, page);
        pages := pages[page := SetNext(pages[page], INVALID_CATALOG)];
        if previous != INVALID_CATALOG {
          pages := pages[previous := SetNext(pages[previous], page)];
        }
        assert pages == Extended(before, done, page);
        grown, left := made + [page], [page];
      }
    }

    /** The end of a write: the list closed behind its last page, the rest released. */
    method Finish(last: PageId, next: nat, ghost was: Pages, ghost given: seq<PageId>, ghost made: seq<PageId>,
                  ghost done: seq<PageId>, ghost rest: seq<PageId>, ghost blob: Bytes)
      requires Valid() && Writing(pages, was, given, made, done, rest, blob) && |done| == Needed(|blob|)
      requires made != [] ==> rest == []
      requires last == done[|done| - 1] && next == IdAt(rest, 0, INVALID_CATALOG)
      requires forall p :: p in given ==> p in was
      modifies this
      ensures Valid() && Written(was, pages, given, done, rest, blob) && freeIds == old(freeIds) + rest && pageCount == old(pageCount)
    {
      hide Writing, Linked, Written, SetNext;
      ghost var before := pages;
      CloseKeeps(pages, was, given, made, done, rest, blob);
      RestEnds(pages, was, given, made, done, rest, blob);
      pages := pages[last := SetNext(pages[last], INVALID_CATALOG)];
      Release(next, rest);
      FinishWrite(before, was, given, made, done, rest, blob, pages);
    }

    /**
     writeCatalogChain: the string over the list that is there, extended or trimmed to fit. What
     is read back is what was written, surplus pages are freed once each, and no other page
     changes.
     */
    method WriteChain(blob: Bytes, root: nat, ghost ids: seq<PageId>) returns (first: nat, ghost done: seq<PageId>, ghost surplus: seq<PageId>)
      requires Valid() && Linked(pages, ids, INVALID_CATALOG) && Distinct(ids) && root == IdAt(ids, 0, INVALID_CATALOG)
      requires pageCount + Needed(|blob|) <= ID_LIMIT
      modifies this
      ensures Valid() && Written(old(pages), pages, ids, done, surplus, blob) && first == done[0]
      ensures |done| <= |ids| ==> freeIds == old(freeIds) + surplus
      ensures |done| > |ids| ==> Took(old(freeIds), old(pageCount), freeIds, pageCount, |done| - |ids|)
    {
      hide Took, Writing, Linked, Written, Contents, SetNext, SetPayload, NextOf, Distinct;
      ghost var was, made, rest := pages, [], ids;
      done := [];
      StartWriting(pages, ids);
      TookNone(freeIds, pageCount, freeIds, pageCount);
      var written := 0;
      var previous, current := INVALID_CATALOG, root;
      first := INVALID_CATALOG;
      while true
        invariant 0 <= written <= |blob| && Valid() && Writing(pages, was, ids, made, done, rest, blob[..written])
        invariant current == IdAt(rest, 0, INVALID_CATALOG)
        invariant previous == if done == [] then INVALID_CATALOG else done[|done| - 1]
        invariant first == if done == [] then INVALID_CATALOG else done[0]
        invariant done == [] ==> written == 0
        invariant |done| + Needed(|blob| - written) == Needed(|blob|)
        invariant pageCount + Needed(|blob| - written) <= ID_LIMIT
        invariant made != [] ==> rest == []
        invariant Took(old(freeIds), old(pageCount), freeIds, pageCount, |made|)
        decreases |blob| - written, if done == [] then 1 else 0
      {
        ghost var left;
        ghost var free, count, wasMade := freeIds, pageCount, |made|;
        current, made, left := PageToFill(current, previous, was, ids, made, done, rest, blob[..written]);
        TookOn(old(freeIds), old(pageCount), free, count, wasMade, freeIds, pageCount, |made| - wasMade);
        RestEnds(pages, was, ids, made, done, left, blob[..written]);
        var chunk := if |blob| - written > CATALOG_PAYLOAD then CATALOG_PAYLOAD else |blob| - written;
        var bytes := blob[written..written + chunk];
        ChunkKeeps(pages, was, ids, made, done, left, blob[..written], bytes);
        var next := NextOf(pages[current]);
        pages := pages[current := SetPayload(pages[current], bytes)];
        assert blob[..written] + bytes == blob[..written + chunk];
        done, rest := done + [current], left[1..];
        written := written + chunk;
        if first == INVALID_CATALOG {
          first := current;
        }
        if written == |blob| {
          assert blob[..written] == blob;
          WritingLengths(pages, was, ids, made, done, rest, blob);
          TookNone(old(freeIds), old(pageCount), freeIds, pageCount);
          assert rest == [] ==> freeIds + rest == freeIds;
          Finish(current, next, was, ids, made, done, rest, blob);
          surplus := rest;
          return;
        }
        previous, current := current, next;
      }
    }
  }

  /** A catalog that is written and read back is the same catalog, whatever list it was written over. */
  method SaveAndLoad(store: PageStore, blob: Bytes, root: nat, ghost ids: seq<PageId>) returns (out: Bytes)
    requires store.Valid() && Linked(store.pages, ids, INVALID_CATALOG) && Distinct(ids) && root == IdAt(ids, 0, INVALID_CATALOG)
    requires store.pageCount + Needed(|blob|) <= ID_LIMIT
    modifies store
    ensures out == blob
  {
    hide Linked, Contents, Needed;
    var first, done, surplus := store.WriteChain(blob, root, ids);
    var ok;
    ok, out := ReadChain(store.pages, first, done);
  }

  lemma StartWriting(pages: Pages, ids: seq<PageId>)
    requires Linked(pages, ids, INVALID_CATALOG) && Distinct(ids)
    ensures Writing(pages, pages, ids, [], [], ids, [])
    ensures forall p :: p in ids ==> p in pages
  {
    assert [] + ids == ids && ids + [] == ids;
    forall j | 0 <= j < |ids| ensures ids[j] in pages {
      assert LinkOk(pages, ids[j], IdAt(ids, j + 1, INVALID_CATALOG));
    }
  }

  /** The ids on a list are real ones, so the end marker ends it. */
  lemma RestEnds(pages: Pages, was: Pages, given: seq<PageId>, made: seq<PageId>, done: seq<PageId>, rest: seq<PageId>, written: Bytes)
    requires Writing(pages, was, given, made, done, rest, written)
    ensures IdAt(rest, 0, INVALID_CATALOG) == INVALID_CATALOG <==> rest == []
    ensures forall j :: 0 <= j < |done| ==> done[j] in pages && |pages[done[j]]| == PAGE_SIZE && done[j] < ID_LIMIT
    ensures Distinct(rest) && (rest != [] ==> rest[0] < ID_LIMIT)
  {
    hide NextOf;
    LinkedSplit(pages, done, rest, INVALID_CATALOG);
    DistinctParts(done, rest);
    EndIs(pages, rest, 0);
    forall j | 0 <= j < |done| ensures done[j] in pages && |pages[done[j]]| == PAGE_SIZE && done[j] < ID_LIMIT {
      assert LinkOk(pages, done[j], IdAt(done, j + 1, IdAt(rest, 0, INVALID_CATALOG)));
    }
  }

  lemma WritingLengths(pages: Pages, was: Pages, given: seq<PageId>, made: seq<PageId>, done: seq<PageId>, rest: seq<PageId>, written: Bytes)
    requires Writing(pages, was, given, made, done, rest, written)
    ensures |done| + |rest| == |given| + |made|
  {
    assert |done + rest| == |given + made|;
  }

  lemma NextToFree(was: Pages, pages: Pages, rest: seq<PageId>, j: nat)
    requires Linked(was, rest, INVALID_CATALOG) && Distinct(rest) && j <= |rest| && Removed(was, pages, rest[..j])
    requires IdAt(rest, j, INVALID_CATALOG) != INVALID_CATALOG
    ensures j < |rest| && rest[j] in pages && |pages[rest[j]]| == PAGE_SIZE && NextOf(pages[rest[j]]) == IdAt(rest, j + 1, INVALID_CATALOG)
  {
    LinkedHas(was, rest, INVALID_CATALOG, j);
  }

  lemma EndIs(was: Pages, rest: seq<PageId>, j: nat)
    requires Linked(was, rest, INVALID_CATALOG)
    ensures IdAt(rest, j, INVALID_CATALOG) == INVALID_CATALOG <==> j >= |rest|
  {
    if j < |rest| {
      assert LinkOk(was, rest[j], IdAt(rest, j + 1, INVALID_CATALOG));
    }
  }
}
