/**
 The buffer pool (14_pool.c), for a session with a writable file and a log attached.

 What each operation does to a `PoolState`, and what acquiring a frame may and may not do; the
 loops that compute these functions are in `BufferPool`.
 */
module Pool {
  import opened Common
  import opened Wal

  const INITIAL_FRAMES := 64
  const INITIAL_DIRECTORY := 256

  function ZeroPage(): Page {
    seq(PAGE_USABLE, _ => 0)
  }

  /** One frame; `pageId` is -1 while it holds no page. */
  datatype Frame = Frame(pageId: int, pins: nat, dirty: bool, logged: bool, referenced: bool, page: Page)

  function EmptyFrame(page: Page): Frame {
    Frame(-1, 0, false, false, false, page)
  }

  /** `directory[p]` is the frame page p is resident in, or -1. */
  datatype PoolState = PoolState(
    frames: seq<Frame>,
    hand: nat,
    directory: seq<int>,
    pageCount: nat,
    freeIds: seq<PageId>,
    root: int,
    disk: Disk,
    log: seq<LogFrame>,
    synced: nat)

  // ---------- reading the state ----------

  predicate Resident(s: PoolState, p: int) {
    0 <= p < |s.directory| && 0 <= s.directory[p] < |s.frames|
  }

  function FrameOf(s: PoolState, p: int): Frame
    requires Resident(s, p)
  {
    s.frames[s.directory[p]]
  }

  /** What pinning page p would show: its frame if it has one, else the file. */
  ghost predicate Reads(s: PoolState, p: PageId, page: Page) {
    if Resident(s, p) then FrameOf(s, p).page == page
    else p in s.disk.current.pages && s.disk.current.pages[p] == page
  }

  /** A changed page whose change is not in the log yet. */
  predicate Unlogged(f: Frame) {
    f.pageId >= 0 && f.dirty && !f.logged
  }

  /** A frame CLOCK may hand out: empty, or unpinned with nothing the log does not have. */
  predicate Evictable(f: Frame) {
    f.pageId < 0 || (f.pins == 0 && (f.dirty ==> f.logged))
  }

  /** The page directory and the frames are mutual inverses. */
  ghost predicate Linked(s: PoolState) {
    && (s.hand < |s.frames| || (s.hand == 0 && s.frames == []))
    && (forall i :: 0 <= i < |s.frames| && s.frames[i].pageId >= 0 ==>
          s.frames[i].pageId < |s.directory| && s.directory[s.frames[i].pageId] == i)
    && (forall p :: 0 <= p < |s.directory| && s.directory[p] != -1 ==>
          0 <= s.directory[p] < |s.frames| && s.frames[s.directory[p]].pageId == p)
  }

  // ---------- finding a frame ----------

  function FlushFrame(s: PoolState, i: nat): PoolState
    requires i < |s.frames| && s.frames[i].pageId >= 0
  {
    var f := s.frames[i];
    s.(disk := WritePage(s.disk, f.pageId, f.page),
       frames := s.frames[i := f.(dirty := false, logged := false)])
  }

  function NextHand(hand: nat, n: nat): nat {
    if hand + 1 < n then hand + 1 else 0
  }

  /** Whether the frame under the hand is taken rather than passed over. */
  predicate Taken(f: Frame) {
    f.pageId < 0 || (Evictable(f) && !f.referenced)
  }

  /** Passes over the frame under the hand; an evictable one loses its reference bit. */
  function PassOver(s: PoolState): PoolState
    requires s.hand < |s.frames|
  {
    var f := s.frames[s.hand];
    s.(hand := NextHand(s.hand, |s.frames|),
       frames := if Evictable(f) then s.frames[s.hand := f.(referenced := false)] else s.frames)
  }

  /** Takes the frame under the hand, writing its page out first if it is dirty. */
  function Take(s: PoolState): PoolState
    requires Linked(s) && s.hand < |s.frames|
  {
    var f := s.frames[s.hand];
    var moved := s.(hand := NextHand(s.hand, |s.frames|));
    if f.pageId < 0 then moved
    else (if f.dirty then FlushFrame(moved, s.hand) else moved).(directory := s.directory[f.pageId := -1])
  }

  /** Up to `steps` ticks of the CLOCK hand; -1 when none of them found a frame. */
  function Sweep(s: PoolState, steps: nat): (r: (PoolState, int))
    requires Linked(s) && s.frames != []
    ensures -1 <= r.1 < |s.frames|
    ensures |r.0.frames| == |s.frames|
    decreases steps
  {
    if steps == 0 then (s, -1)
    else if Taken(s.frames[s.hand]) then (Take(s), s.hand)
    else Sweep(PassOver(s), steps - 1)
  }

  function GrowFrames(s: PoolState): PoolState {
    var added := if s.frames == [] then INITIAL_FRAMES else |s.frames|;
    s.(frames := s.frames + seq(added, _ => EmptyFrame([])))
  }

  function Acquire(s: PoolState): (r: (PoolState, nat))
    requires Linked(s)
  {
    var swept := if s.frames == [] then (s, -1) else Sweep(s, 2 * |s.frames|);
    if swept.1 >= 0 then (swept.0, swept.1)
    else (GrowFrames(swept.0).(hand := 0), |swept.0.frames|)
  }

  predicate SameButReferenced(f: Frame, g: Frame) {
    g == f.(referenced := g.referenced)
  }

  /**
   What acquiring a frame may do: hand out frame i, which was empty, new, or unpinned with
   nothing unlogged in it; write that frame's page out if it was dirty; touch nothing else
   but reference bits and the hand.
   */
  ghost predicate Acquired(s: PoolState, t: PoolState, i: nat) {
    && t.pageCount == s.pageCount && t.freeIds == s.freeIds && t.root == s.root
    && t.log == s.log && t.synced == s.synced
    && |s.frames| <= |t.frames| && i < |t.frames| && t.hand < |t.frames|
    && (forall j :: 0 <= j < |s.frames| && j != i ==>
          SameButReferenced(s.frames[j], t.frames[j]))
    && (forall j :: |s.frames| <= j < |t.frames| ==> t.frames[j] == EmptyFrame([]))
    && if i < |s.frames| && 0 <= s.frames[i].pageId < |s.directory|
       then
         var f := s.frames[i];
         && Evictable(f)
         && t.directory == s.directory[f.pageId := -1]
         && t.disk == (if f.dirty then WritePage(s.disk, f.pageId, f.page) else s.disk)
       else t.directory == s.directory && t.disk == s.disk
  }

  /** Only reference bits and the hand have moved. */
  ghost predicate PassedOver(s: PoolState, t: PoolState) {
    && t == s.(frames := t.frames, hand := t.hand)
    && |t.frames| == |s.frames| && t.hand < |t.frames|
    && forall j :: 0 <= j < |s.frames| ==> SameButReferenced(s.frames[j], t.frames[j])
  }

  lemma PassOverAcquires(s: PoolState, u: PoolState, t: PoolState, i: nat)
    requires PassedOver(s, u) && Acquired(u, t, i)
    ensures Acquired(s, t, i)
  {
    forall j | 0 <= j < |s.frames| && j != i
      ensures SameButReferenced(s.frames[j], t.frames[j])
    {
      assert SameButReferenced(s.frames[j], u.frames[j]);
    }
    if i < |s.frames| {
      assert SameButReferenced(s.frames[i], u.frames[i]);
    }
  }

  lemma TakeAcquires(s: PoolState)
    requires Linked(s) && s.frames != [] && Taken(s.frames[s.hand])
    ensures Acquired(s, Take(s), s.hand)
  {
  }

  lemma PassOverPasses(s: PoolState)
    requires Linked(s) && s.frames != []
    ensures PassedOver(s, PassOver(s)) && Linked(PassOver(s))
  {
  }

  lemma PassedOverTwice(s: PoolState, u: PoolState, t: PoolState)
    requires PassedOver(s, u) && PassedOver(u, t)
    ensures PassedOver(s, t)
  {
    forall j | 0 <= j < |s.frames|
      ensures SameButReferenced(s.frames[j], t.frames[j])
    {
      assert SameButReferenced(s.frames[j], u.frames[j]);
    }
  }

  lemma {:induction false} SweepAcquires(s: PoolState, steps: nat)
    requires Linked(s) && s.frames != []
    ensures var r := Sweep(s, steps);
            if r.1 >= 0 then Acquired(s, r.0, r.1) else PassedOver(s, r.0)
    decreases steps
  {
    hide Take, PassOver, Acquired;
    if steps > 0 {
      if Taken(s.frames[s.hand]) {
        TakeAcquires(s);
      } else {
        var u := PassOver(s);
        PassOverPasses(s);
        SweepAcquires(u, steps - 1);
        var r := Sweep(u, steps - 1);
        if r.1 >= 0 {
          PassOverAcquires(s, u, r.0, r.1);
        } else {
          PassedOverTwice(s, u, r.0);
        }
      }
    }
  }

  lemma AcquireAcquires(s: PoolState)
    requires Linked(s)
    ensures Acquired(s, Acquire(s).0, Acquire(s).1)
  {
    if s.frames != [] {
      SweepAcquires(s, 2 * |s.frames|);
      var (t, i) := Sweep(s, 2 * |s.frames|);
      if i < 0 {
        forall j | 0 <= j < |s.frames|
          ensures SameButReferenced(s.frames[j], GrowFrames(t).frames[j])
        {
          assert SameButReferenced(s.frames[j], t.frames[j]);
        }
      }
    }
  }

  /** How many ticks it takes the hand to reach frame j. */
  ghost function Distance(s: PoolState, j: nat): nat
    requires s.hand < |s.frames| && j < |s.frames|
  {
    if s.hand <= j then j - s.hand else j + |s.frames| - s.hand
  }

  /**
   A sweep that reaches an evictable frame finds one; if the frame's reference bit is set
   the sweep needs another whole turn to come back to it.
   */
  lemma {:induction false} SweepFinds(s: PoolState, steps: nat, j: nat)
    requires Linked(s) && j < |s.frames| && Evictable(s.frames[j])
    requires Distance(s, j) + (if s.frames[j].pageId >= 0 && s.frames[j].referenced
                               then |s.frames| else 0) < steps
    ensures Sweep(s, steps).1 >= 0
    decreases steps
  {
    if !Taken(s.frames[s.hand]) {
      SweepFinds(PassOver(s), steps - 1, j);
    }
  }

  /** One tick brings the hand one frame nearer to every other frame, and leaves them alone. */
  lemma PassOverMoves(s: PoolState)
    requires Linked(s) && s.frames != []
    ensures var u := PassOver(s);
            && Linked(u) && |u.frames| == |s.frames|
            && forall k :: 0 <= k < |s.frames| && k != s.hand ==>
                 u.frames[k] == s.frames[k] && Distance(s, k) == Distance(u, k) + 1
  {
  }

  /**
   The second chance: while some frame may be taken as it is, no evictable frame with its
   reference bit set is, and of those that may be the hand takes the first it comes to.
   */
  lemma {:induction false} SecondChance(s: PoolState, steps: nat, j: nat)
    requires Linked(s) && j < |s.frames| && Taken(s.frames[j]) && Distance(s, j) < steps
    ensures var i := Sweep(s, steps).1;
            && 0 <= i && Taken(s.frames[i]) && Distance(s, i) <= Distance(s, j)
            && forall k :: 0 <= k < |s.frames| && Distance(s, k) < Distance(s, i) ==> !Taken(s.frames[k])
    decreases steps
  {
    hide PassOver, Taken, Take;
    if !Taken(s.frames[s.hand]) {
      var u := PassOver(s);
      PassOverMoves(s);
      SecondChance(u, steps - 1, j);
    }
  }

  /** The pool grows exactly when no frame is empty or evictable. */
  lemma GrowsOnlyWhenFull(s: PoolState)
    requires Linked(s)
    ensures |Acquire(s).0.frames| > |s.frames|
       <==> forall i :: 0 <= i < |s.frames| ==> !Evictable(s.frames[i])
  {
    AcquireAcquires(s);
    if s.frames != [] {
      SweepAcquires(s, 2 * |s.frames|);
      if i :| 0 <= i < |s.frames| && Evictable(s.frames[i]) {
        SweepFinds(s, 2 * |s.frames|, i);
      }
    }
  }

  // ---------- pinning ----------

  /** poolPin: the frame the page is in, or -1 when the page does not exist. */
  function PinPage(s: PoolState, p: int): (r: (PoolState, int))
    requires Linked(s)
  {
    if p < 0 || p >= s.pageCount then (s, -1)
    else if Resident(s, p) then
      var i := s.directory[p];
      var f := s.frames[i];
      (s.(frames := s.frames[i := f.(referenced := true, pins := f.pins + 1)]), i)
    else
      AcquireAcquires(s);
      var (t, i) := Acquire(s);
      var vacant := t.(frames := t.frames[i := t.frames[i].(pageId := -1)]);
      if p !in t.disk.current.pages || p >= |t.directory| then (vacant, -1)
      else
        (t.(frames := t.frames[i := Frame(p, 1, false, false, false, t.disk.current.pages[p])],
            directory := t.directory[p := i]), i)
  }

  function UnpinPage(s: PoolState, p: int, dirty: bool): PoolState {
    if !Resident(s, p) then s
    else
      var i := s.directory[p];
      var f := s.frames[i];
      var unpinned := f.(pins := if f.pins > 0 then f.pins - 1 else 0);
      s.(frames := s.frames[i := if dirty then unpinned.(dirty := true, logged := false) else unpinned])
  }

  /** A caller's stores through the pointer its pin gave it. */
  function StorePage(s: PoolState, p: int, page: Page): PoolState
    requires Resident(s, p)
  {
    var i := s.directory[p];
    s.(frames := s.frames[i := s.frames[i].(page := page)])
  }

  // ---------- allocating and freeing ----------

  function Doubled(size: nat, pages: nat): (r: nat)
    requires size > 0
    ensures r >= pages && r >= size
    decreases pages - size
  {
    if size >= pages then size else Doubled(2 * size, pages)
  }

  function GrowDirectory(directory: seq<int>, pages: nat): (r: seq<int>)
    ensures |r| >= pages && directory <= r
    ensures forall p :: |directory| <= p < |r| ==> r[p] == -1
  {
    if pages <= |directory| then directory
    else
      var grown := Doubled(if directory == [] then INITIAL_DIRECTORY else |directory|, pages);
      directory + seq(grown - |directory|, _ => -1)
  }

  function AllocatePage(s: PoolState): (r: (PoolState, PageId))
    requires Linked(s)
  {
    AcquireAcquires(s);
    var (t, i) := Acquire(s);
    var reuse := s.freeIds != [];
    var id := if reuse then s.freeIds[|s.freeIds| - 1] else s.pageCount;
    (t.(frames := t.frames[i := Frame(id, 0, true, false, true, ZeroPage())],
        directory := GrowDirectory(t.directory, id + 1)[id := i],
        pageCount := if reuse then s.pageCount else s.pageCount + 1,
        freeIds := if reuse then s.freeIds[..|s.freeIds| - 1] else []), id)
  }

  function FreePage(s: PoolState, p: PageId): PoolState {
    var dropped :=
      if !Resident(s, p) then s
      else
        var i := s.directory[p];
        s.(frames := s.frames[i := EmptyFrame(s.frames[i].page)],
           directory := s.directory[p := -1]);
    dropped.(freeIds := s.freeIds + [p])
  }

  // ---------- committing ----------

  function LastUnlogged(frames: seq<Frame>): int {
    if frames == [] then -1
    else if Unlogged(frames[|frames| - 1]) then |frames| - 1
    else LastUnlogged(frames[..|frames| - 1])
  }

  /** The log frames the first n pool frames contribute; the one at `last` carries the marker. */
  function CommitFrames(frames: seq<Frame>, n: nat, last: int, count: int, root: int): seq<LogFrame>
    requires n <= |frames|
  {
    if n == 0 then []
    else
      var f := frames[n - 1];
      CommitFrames(frames, n - 1, last, count, root)
        + if Unlogged(f) then [LogFrame(f.pageId, f.page, n - 1 == last, count, root)] else []
  }

  /** Everything unlogged goes to the end of the log; nothing is durable yet. */
  function AppendCommit(s: PoolState, root: int): PoolState {
    var last := LastUnlogged(s.frames);
    s.(root := root,
       log := s.log + CommitFrames(s.frames, |s.frames|, last, s.pageCount, root))
  }

  function MarkLogged(frames: seq<Frame>): seq<Frame> {
    seq(|frames|, i requires 0 <= i < |frames| =>
      if frames[i].pageId >= 0 && frames[i].dirty then frames[i].(logged := true) else frames[i])
  }

  /** The log is fsynced, and only then may the pages in it move. */
  function SyncCommit(s: PoolState): PoolState {
    s.(synced := |s.log|, frames := MarkLogged(s.frames))
  }

  /** poolCommit: nothing at all when nothing is unlogged. */
  function CommitPool(s: PoolState, root: int): PoolState {
    if LastUnlogged(s.frames) < 0 then s.(root := root)
    else SyncCommit(AppendCommit(s, root))
  }

  // ---------- checkpointing ----------

  /** Writes every dirty frame among the first n into the file. */
  function FlushFirst(s: PoolState, n: nat): (r: PoolState)
    requires n <= |s.frames|
    ensures |r.frames| == |s.frames|
    ensures forall i :: n <= i < |s.frames| ==> r.frames[i] == s.frames[i]
  {
    if n == 0 then s
    else
      var t := FlushFirst(s, n - 1);
      if t.frames[n - 1].pageId >= 0 && t.frames[n - 1].dirty then FlushFrame(t, n - 1) else t
  }

  function FlushAll(s: PoolState): PoolState {
    var t := FlushFirst(s, |s.frames|);
    t.(disk := WriteHeader(t.disk, t.pageCount, t.root))
  }

  function SyncPages(s: PoolState): PoolState {
    s.(disk := SyncFile(s.disk))
  }

  function TruncateLog(s: PoolState): PoolState {
    s.(log := [], synced := 0)
  }

  // ---------- rolling back ----------

  /** poolRollback: every dirty frame among the first n is forgotten. */
  function DropFirst(s: PoolState, n: nat): (r: PoolState)
    requires n <= |s.frames|
    ensures |r.frames| == |s.frames| && |r.directory| == |s.directory|
    ensures forall i :: n <= i < |s.frames| ==> r.frames[i] == s.frames[i]
  {
    if n == 0 then s
    else
      var t := DropFirst(s, n - 1);
      var f := t.frames[n - 1];
      if f.pageId < 0 || !f.dirty then t
      else
        t.(frames := t.frames[n - 1 := EmptyFrame(f.page)],
           directory := if f.pageId < |t.directory| then t.directory[f.pageId := -1] else t.directory)
  }

  function RollbackPool(s: PoolState, pages: int): PoolState {
    var t := DropFirst(s, |s.frames|);
    if 0 <= pages < t.pageCount then t.(pageCount := pages) else t
  }

  /** A pool that has just adopted a file: nothing resident, nothing free, no log. */
  function OpenPool(f: File): PoolState {
    var pages := if f.count >= 0 then f.count else 0;
    PoolState([], 0, GrowDirectory([], pages), pages, [], f.root, Disk(f, f, {}), [], 0)
  }

  /**
   rollbackTransaction: drop the dirty frames, take the size back, then reload. Reloading
   closes the database first, which checkpoints, and then rebuilds the pool from the file.
   */
  function RollbackTransaction(s: PoolState, pages: int): PoolState {
    OpenPool(TruncateLog(SyncPages(FlushAll(RollbackPool(s, pages)))).disk.durable)
  }
}
