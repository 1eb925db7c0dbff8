/**
 When a checkpoint is safe.

 poolCheckpoint writes out every dirty frame whether or not the log has it
 (14_pool.c:805-812), so it keeps the committed database only under a condition, which is
 given here exactly, together with the runs that meet it and a state that does not.
 */
module Checkpoint {
  import opened Common
  import opened Wal
  import opened Pool
  import opened CrashSafety

  /** A file has every page and the root of a database; the page count is left aside. */
  ghost predicate HasPages(f: File, db: File) {
    && f.root == db.root
    && forall p: PageId :: p in db.pages ==> p in f.pages && f.pages[p] == db.pages[p]
  }

  ghost function CheckpointPool(s: PoolState): PoolState {
    TruncateLog(SyncPages(FlushAll(s)))
  }

  /** No crash between the first page written and the log's removal, or after it, loses anything. */
  ghost predicate SurvivesCheckpoint(s: PoolState, db: File) {
    && (forall f: File, records: seq<LogRecord> ::
          CrashedFile(FlushAll(s).disk, f) && CrashedLog(s.log, |s.log|, |s.log|, records) ==>
            HasPages(Recovered(f, records), db))
    && (forall f: File :: CrashedFile(CheckpointPool(s).disk, f) ==> HasPages(Recovered(f, []), db))
  }

  /** A log just as it was written. */
  ghost function AsRecords(log: seq<LogFrame>): (records: seq<LogRecord>)
    ensures CrashedLog(log, |log|, |log|, records)
  {
    seq(|log|, i requires 0 <= i < |log| => Whole(log[i]))
  }

  /** A checkpoint of an idle pool is safe exactly when `SafeToCheckpoint` holds. */
  lemma CheckpointSafeIff(m: Machine)
    requires Inv(m) && m.phase.Idle? && m.saved.None?
    ensures SafeToCheckpoint(m.pool, m.committed) <==> SurvivesCheckpoint(m.pool, m.committed)
  {
    if SafeToCheckpoint(m.pool, m.committed) {
      SafeSurvives(m);
    } else {
      UnsafeLoses(m);
    }
  }

  lemma SafeSurvives(m: Machine)
    requires Inv(m) && m.phase.Idle? && m.saved.None? && SafeToCheckpoint(m.pool, m.committed)
    ensures SurvivesCheckpoint(m.pool, m.committed)
  {
    var flushed := Step(m, Flush);
    FlushKeeps(m);
    FlushFirstIs(m.pool, |m.pool.frames|);
    forall f: File, records: seq<LogRecord> |
      CrashedFile(FlushAll(m.pool).disk, f) && CrashedLog(m.pool.log, |m.pool.log|, |m.pool.log|, records)
      ensures HasPages(Recovered(f, records), m.committed)
    {
      CrashShows(flushed, f, |m.pool.log|, records);
    }
    var synced := Step(flushed, SyncFile);
    SyncFileKeeps(flushed);
    var done := Step(synced, Truncate);
    TruncateKeeps(synced);
    forall f: File | CrashedFile(CheckpointPool(m.pool).disk, f)
      ensures HasPages(Recovered(f, []), m.committed)
    {
      CrashShows(done, f, 0, []);
    }
  }

  lemma UnsafeLoses(m: Machine)
    requires Inv(m) && m.phase.Idle? && m.saved.None? && !SafeToCheckpoint(m.pool, m.committed)
    ensures !SurvivesCheckpoint(m.pool, m.committed)
  {
    var s, db := m.pool, m.committed;
    var done := CheckpointPool(s).disk.durable;
    assert CrashedFile(CheckpointPool(s).disk, done);
    assert Recovered(done, []) == done;
    if HasPages(done, db) {
      assert s.root == db.root by { FlushFirstIs(s, |s.frames|); }
      var p: PageId :| p in db.pages
                       && !(Reads(s, p, db.pages[p]) && (Resident(s, p) && FrameOf(s, p).dirty ==> Logged(s.log, p)));
      FlushedReads(s, m.live, p, db.pages[p]);
      assert Reads(s, p, db.pages[p]);
      TornPageIsLost(s, p, db);
    }
  }

  /** A dirty page the log does not know is lost if its write is torn. */
  lemma TornPageIsLost(s: PoolState, p: PageId, db: File)
    requires Linked(s) && p in db.pages && Resident(s, p) && FrameOf(s, p).dirty && !Logged(s.log, p)
    ensures !SurvivesCheckpoint(s, db)
  {
    FlushFirstIs(s, |s.frames|);
    var d := FlushAll(s).disk;
    assert DirtyBelow(s, |s.frames|, p);
    var torn := d.durable.(pages := d.durable.pages[p := db.pages[p] + [0]]);
    var records := AsRecords(s.log);
    assert CrashedFile(d, torn);
    WholePrefixIs(records, s.log, |s.log|);
    var committed := CommittedPrefix(WholePrefix(records));
    assert !Logged(committed, p) by {
      assert forall i :: 0 <= i < |committed| ==> committed[i] == s.log[i];
    }
    ReplayAt(torn.pages, committed, p);
    assert |db.pages[p] + [0]| != |db.pages[p]|;
    assert !HasPages(Recovered(torn, records), db);
  }

  /** Nothing committed has been freed, overwritten or left out of the log since. */
  ghost predicate Ready(m: Machine) {
    && m.pool.root == m.committed.root
    && forall p: PageId :: p in m.committed.pages ==>
         p in m.live && m.live[p] == m.committed.pages[p] && !UnloggedAt(m.pool, p)
  }

  lemma ReadyIsSafe(m: Machine)
    requires Inv(m) && m.phase.Idle? && Ready(m)
    ensures SafeToCheckpoint(m.pool, m.committed)
  {
    var s := m.pool;
    assert s.log[..s.synced] == s.log;
    forall p: PageId | p in m.committed.pages
      ensures Reads(s, p, m.committed.pages[p])
      ensures Resident(s, p) && FrameOf(s, p).dirty ==> Logged(s.log, p)
    {
      assert Reads(s, p, m.live[p]);
      assert !UnloggedAt(s, p);
      assert Resident(s, p) ==> s.frames[s.directory[p]].pageId == p;
    }
  }

  /** A commit leaves the pool ready, and a page count the checkpoint will not move. */
  lemma CommitReadies(m: Machine)
    requires Inv(m) && Enabled(m, SyncLog)
    ensures Ready(Step(m, SyncLog))
    ensures Step(m, SyncLog).committed.count == Step(m, SyncLog).pool.pageCount
  {
    MarkKeeps(m.pool, m.live);
  }

  /** Work that leaves the committed pages alone: reading, and a join's scratch pages. */
  ghost predicate ScratchOnly(m: Machine, e: Event) {
    match e
    case Pin(_) => true
    case Unpin(_) => true
    case Allocate => true
    case Write(p, _) => p !in m.committed.pages
    case Free(p) => p !in m.committed.pages
    case _ => false
  }

  lemma ScratchMarksNothing(m: Machine, e: Event, p: PageId)
    requires Inv(m) && Ready(m) && Enabled(m, e) && ScratchOnly(m, e) && p in m.committed.pages
    ensures !UnloggedAt(Step(m, e).pool, p)
  {
    match e
    case Write(q, page) => StoreElsewhere(m.pool, q, page, p);
    case Free(q) => DropLinks(m.pool, q);
    case Unpin(q) => UnpinMarksNothing(m.pool, q, p);
    case Pin(q) => PinMarksNothing(m, q, p);
    case Allocate => AllocateMarksNothing(m, p);
  }

  lemma ScratchStaysReady(m: Machine, e: Event)
    requires Inv(m) && Ready(m) && Enabled(m, e) && ScratchOnly(m, e)
    ensures Ready(Step(m, e))
  {
    hide Acquire, Inv, UnloggedAt;
    InvLinked(m);
    if e.Allocate? {
      AllocateKeeps(m);
    }
    if e.Pin? || e.Allocate? {
      AcquireAcquires(m.pool);
    }
    forall p: PageId | p in m.committed.pages
      ensures !UnloggedAt(Step(m, e).pool, p)
    {
      ScratchMarksNothing(m, e, p);
    }
  }

  lemma StoreElsewhere(s: PoolState, q: PageId, page: Page, p: PageId)
    requires Linked(s) && Resident(s, q) && p != q
    ensures UnloggedAt(UnpinPage(StorePage(s, q, page), q, true), p) == UnloggedAt(s, p)
  {
  }

  lemma UnpinMarksNothing(s: PoolState, q: PageId, p: PageId)
    requires Linked(s)
    ensures UnloggedAt(UnpinPage(s, q, false), p) == UnloggedAt(s, p)
  {
  }

  lemma AcquireMarksNothing(m: Machine, p: PageId) returns (v: PoolState, i: nat)
    requires Inv(m) && m.phase.Idle? && p in m.live && !UnloggedAt(m.pool, p)
    ensures Acquire(m.pool).1 == i && i < |Acquire(m.pool).0.frames| && v == Vacant(Acquire(m.pool).0, i)
    ensures PoolInv(v, m.live) && !UnloggedAt(v, p)
  {
    v, i := AcquireKeeps(m);
    var t := Acquire(m.pool).0;
    if Resident(v, p) {
      assert m.pool.directory[p] == v.directory[p] && v.directory[p] != i;
      assert SameButReferenced(m.pool.frames[v.directory[p]], t.frames[v.directory[p]]);
    }
  }

  lemma PinMarksNothing(m: Machine, q: PageId, p: PageId)
    requires Inv(m) && Enabled(m, Pin(q)) && p in m.live && !UnloggedAt(m.pool, p)
    ensures !UnloggedAt(PinPage(m.pool, q).0, p)
  {
    hide Acquire, PhaseOk, TransactionOk, Holds;
    if !Resident(m.pool, q) {
      var v, i := AcquireMarksNothing(m, p);
    }
  }

  lemma AllocateMarksNothing(m: Machine, p: PageId)
    requires Inv(m) && m.phase.Idle? && p in m.live && !UnloggedAt(m.pool, p)
    ensures !UnloggedAt(AllocatePage(m.pool).0, p)
  {
    AllocateKeeps(m);
    var v, i := AcquireMarksNothing(m, p);
    var (r, id) := AllocatePage(m.pool);
    if Resident(r, p) && r.directory[p] != i {
      assert r.frames[r.directory[p]] == v.frames[r.directory[p]];
      assert v.directory[p] == r.directory[p];
    }
  }

  /** The frame a pin returns is the one the directory names. */
  lemma PinnedIsResident(s: PoolState, p: PageId)
    requires Linked(s)
    ensures var (r, frame) := PinPage(s, p);
            0 <= frame < |r.frames| ==> Resident(r, p) && r.directory[p] == frame
  {
    hide Acquire;
    AcquireAcquires(s);
  }

  /** A page pinned, changed and left at that. */
  lemma WrittenPage(m: Machine, p: PageId, page: Page)
    requires Inv(m) && Enabled(m, Write(p, page))
    ensures var r := Step(m, Write(p, page));
            && r.committed == m.committed && r.phase == m.phase && r.saved == m.saved
            && forall other :: Reads(r.pool, p, other) <==> other == page
  {
    hide PhaseOk, TransactionOk, Holds, DiskOk;
  }

  /**
   A run that ends in a state where a checkpoint is not safe, from any file and for any page of
   it: adopt the file, pin the page, write other bytes to it, and fail before committing. The
   checkpoint that BEGIN makes then puts the uncommitted bytes in the durable file.
   */
  lemma FailedStatementIsKept(f: File, p: PageId, page: Page) returns (ms: seq<Machine>, es: seq<Event>)
    requires f.count >= 0 && (forall q: PageId :: q in f.pages ==> q < f.count) && p in f.pages && page != f.pages[p]
    ensures es == [Pin(p), Write(p, page)] && Run(ms, es) && ms[0] == Machine(OpenPool(f), f.pages, f, Idle, None)
    ensures var m := ms[2];
            && m.phase.Idle? && m.saved.None? && m.committed == f
            && !SafeToCheckpoint(m.pool, m.committed)
            && var durable := CheckpointPool(m.pool).disk.durable;
               p in durable.pages && durable.pages[p] == page
  {
    hide Inv, PinPage, OpenPool, FlushAll;
    var m0 := Machine(OpenPool(f), f.pages, f, Idle, None);
    OpenKeeps(f, f);
    InvLinked(m0);
    PinKeeps(m0, p);
    PinnedIsResident(m0.pool, p);
    StepKeeps(m0, Pin(p));
    var m1 := Step(m0, Pin(p));
    InvLinked(m1);
    WrittenPage(m1, p, page);
    StepKeeps(m1, Write(p, page));
    var m2 := Step(m1, Write(p, page));
    ms, es := [m0, m1, m2], [Pin(p), Write(p, page)];
    assert Started(m0);
    InvHasPool(m2);
    FlushedReads(m2.pool, m2.live, p, page);
  }

  lemma InvHasPool(m: Machine)
    requires Inv(m)
    ensures PoolInv(m.pool, m.live)
  {
  }
}
