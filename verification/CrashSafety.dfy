/**
 Crash safety of the pool and its log, over every run.

 A `Machine` is the pool together with what its callers believe: `live` is what each page
 they own was last written with, and `committed` is the database as of the last commit.
 Commits and checkpoints are split at their fsyncs, and a crash may happen between any two
 steps. Crashing includes recovery and reopening, so runs continue after it.
 */
module CrashSafety {
  import opened Common
  import opened Wal
  import opened Pool

  /** What BEGIN remembers: the pages in use then, and the size and root of the file. */
  datatype Saved = Saved(live: map<PageId, Page>, count: nat, root: int)

  datatype Phase =
    | Idle
    | Appended(next: File)   // a commit is in the log but not fsynced
    | Flushed                // a checkpoint has written pages but not fsynced them
    | Synced                 // and has fsynced them, with the log still in place

  datatype Machine = Machine(
    pool: PoolState,
    live: map<PageId, Page>,
    committed: File,
    phase: Phase,
    saved: Option<Saved>)

  datatype Event =
    | Pin(p: PageId)
    | Unpin(p: PageId)
    | Write(p: PageId, page: Page)
    | Allocate
    | Free(p: PageId)
    | Append(root: int)
    | SyncLog
    | Flush
    | SyncFile
    | Truncate
    | Begin
    | End
    | Rollback
    | Crash(file: File, kept: nat, records: seq<LogRecord>)

  /** A file shows a database when it has its header fields and each of its pages. */
  ghost predicate Shows(f: File, db: File) {
    && f.count == db.count && f.root == db.root
    && forall p: PageId :: p in db.pages ==> p in f.pages && f.pages[p] == db.pages[p]
  }

  /** Page p is resident with a change the log does not have. */
  ghost predicate UnloggedAt(s: PoolState, p: PageId) {
    Resident(s, p) && Unlogged(FrameOf(s, p))
  }

  /**
   The exact condition under which a checkpoint is safe: the pool shows every committed
   page, and each of those that is dirty has an image in the log to repair a torn write.
   */
  ghost predicate SafeToCheckpoint(s: PoolState, committed: File) {
    && s.root == committed.root
    && forall p: PageId :: p in committed.pages ==>
         && Reads(s, p, committed.pages[p])
         && (Resident(s, p) && FrameOf(s, p).dirty ==> Logged(s.log, p))
  }

  ghost predicate Enabled(m: Machine, e: Event) {
    match e
    case Crash(f, kept, records) =>
      CrashedFile(m.pool.disk, f) && CrashedLog(m.pool.log, m.pool.synced, kept, records)
    case SyncLog => m.phase.Appended?
    case SyncFile => m.phase.Flushed?
    case Truncate => m.phase.Synced?
    case _ =>
      m.phase.Idle? &&
      match e
      case Pin(p) => p in m.live
      case Unpin(p) => p in m.live
      case Write(p, _) => p in m.live && Resident(m.pool, p) && FrameOf(m.pool, p).pins > 0
      case Allocate => true
      case Free(p) => p in m.live
      case Append(_) => m.saved.None?
      case Flush => m.saved.None? && SafeToCheckpoint(m.pool, m.committed)
      case Begin => m.saved.None? && Checkpointed(m.pool)
      case _ => m.saved.Some?
  }

  /** What a checkpoint leaves: nothing dirty, nothing in the log, the header up to date. */
  ghost predicate Checkpointed(s: PoolState) {
    && s.log == []
    && s.disk.touched == {}
    && s.disk.durable.count == s.pageCount && s.disk.durable.root == s.root
    && AllClean(s)
  }

  ghost predicate AllClean(s: PoolState) {
    forall i :: 0 <= i < |s.frames| && s.frames[i].pageId >= 0 ==> !s.frames[i].dirty
  }

  /** The database recovery is to come back with. */
  ghost function Outcome(m: Machine, f: File, kept: nat): File
    requires kept <= |m.pool.log|
  {
    var db := if m.phase.Appended? && kept == |m.pool.log| then m.phase.next else m.committed;
    if CommittedPrefix(m.pool.log[..kept]) == [] then db.(count := f.count) else db
  }

  ghost function Step(m: Machine, e: Event): Machine
    requires Linked(m.pool) && Enabled(m, e)
  {
    match e
    case Pin(p) => m.(pool := PinPage(m.pool, p).0)
    case Unpin(p) => m.(pool := UnpinPage(m.pool, p, false))
    case Write(p, page) =>
      m.(pool := UnpinPage(StorePage(m.pool, p, page), p, true), live := m.live[p := page])
    case Allocate =>
      var (s, id) := AllocatePage(m.pool);
      m.(pool := s, live := m.live[id := ZeroPage()])
    case Free(p) => m.(pool := FreePage(m.pool, p), live := m.live - {p})
    case Append(root) =>
      if LastUnlogged(m.pool.frames) < 0
      then m.(pool := m.pool.(root := root), committed := m.committed.(pages := m.live))
      else m.(pool := AppendCommit(m.pool, root), phase := Appended(File(m.live, m.pool.pageCount, root)))
    case SyncLog => m.(pool := SyncCommit(m.pool), committed := m.phase.next, phase := Idle)
    case Flush => m.(pool := FlushAll(m.pool), phase := Flushed)
    case SyncFile => m.(pool := SyncPages(m.pool), phase := Synced)
    case Truncate =>
      m.(pool := TruncateLog(m.pool), committed := m.committed.(count := m.pool.pageCount), phase := Idle)
    case Begin => m.(saved := Some(Saved(m.live, m.pool.pageCount, m.pool.root)))
    case End => m.(saved := None)
    case Rollback =>
      m.(pool := RollbackTransaction(m.pool, m.saved.value.count), live := m.saved.value.live, saved := None)
    case Crash(f, kept, records) =>
      var db := Outcome(m, f, kept);
      Machine(OpenPool(Recovered(f, records)), db.pages, db, Idle, None)
  }

  // ---------- the invariant ----------

  /** Every frame belongs to a live page, and a clean frame is what the file holds. */
  ghost predicate FrameOk(s: PoolState, live: map<PageId, Page>, f: Frame) {
    f.pageId >= 0 ==>
      && f.pageId in live
      && (f.logged ==> f.dirty)
      && (!f.dirty ==> f.pageId in s.disk.current.pages && s.disk.current.pages[f.pageId] == f.page)
  }

  ghost predicate PoolInv(s: PoolState, live: map<PageId, Page>) {
    && Linked(s)
    && s.pageCount <= |s.directory|
    && (forall i :: 0 <= i < |s.frames| ==> FrameOk(s, live, s.frames[i]))
    && (forall p: PageId :: p in live ==> p < s.pageCount && Reads(s, p, live[p]))
    && (forall k :: 0 <= k < |s.freeIds| ==> s.freeIds[k] < s.pageCount && s.freeIds[k] !in live)
    && (forall j, k :: 0 <= j < k < |s.freeIds| ==> s.freeIds[j] != s.freeIds[k])
  }

  /** Replaying the log onto whatever a crash leaves of the file gives this image of p. */
  ghost predicate Stable(log: seq<LogFrame>, d: Disk, p: PageId, page: Page) {
    if Logged(log, p) then Latest(log, p) == page
    else p !in d.touched && p in d.durable.pages && d.durable.pages[p] == page
  }

  /**
   The write-ahead rule: everything but the unlogged changes is already recoverable, and a
   page past the committed size can only be an unlogged one.
   */
  ghost predicate WriteAhead(log: seq<LogFrame>, s: PoolState, live: map<PageId, Page>, count: int) {
    && (forall p: PageId :: p in live && !UnloggedAt(s, p) ==> p < count && Stable(log, s.disk, p, live[p]))
    && (forall i :: 0 <= i < |s.frames| && s.frames[i].pageId >= 0 && s.frames[i].logged ==>
          Logged(log, s.frames[i].pageId))
  }

  /** The log and the file between them hold this database. */
  ghost predicate Holds(log: seq<LogFrame>, d: Disk, db: File) {
    && (log != [] ==> log[|log| - 1].commit && log[|log| - 1].count == db.count && log[|log| - 1].root == db.root)
    && (log == [] ==> d.durable.root == db.root)
    && forall p: PageId :: p in db.pages ==> p < db.count && Stable(log, d, p, db.pages[p])
  }

  ghost predicate HeaderWritten(d: Disk) {
    d.current.count == d.durable.count && d.current.root == d.durable.root
  }

  /** A file with a checkpoint's pages and header in it. */
  ghost predicate Checkpoints(f: File, s: PoolState, db: File) {
    && f.count == s.pageCount && f.root == db.root
    && forall p: PageId :: p in db.pages ==> p in f.pages && f.pages[p] == db.pages[p]
  }

  ghost predicate PhaseOk(m: Machine)
    requires m.pool.synced <= |m.pool.log|
  {
    var s, base := m.pool, m.pool.log[..m.pool.synced];
    && (!m.phase.Appended? ==> s.synced == |s.log|)
    && (base == [] && !m.phase.Synced? ==> s.disk.durable.count == m.committed.count)
    && match m.phase
       case Idle =>
         && HeaderWritten(s.disk)
         && WriteAhead(base, s, m.live, m.committed.count)
       case Appended(next) =>
         && HeaderWritten(s.disk)
         && WriteAhead(base, s, m.live, m.committed.count)
         && LastUnlogged(s.frames) >= 0
         && s.log == base + CommitFrames(s.frames, |s.frames|, LastUnlogged(s.frames), s.pageCount, s.root)
         && next == File(m.live, s.pageCount, s.root)
       case Flushed =>
         AllClean(s) && s.root == m.committed.root && Checkpoints(s.disk.current, s, m.committed)
       case Synced =>
         && AllClean(s) && s.root == m.committed.root && Checkpoints(s.disk.durable, s, m.committed)
         && s.disk.touched == {} && s.disk.current == s.disk.durable
  }

  /** Inside a transaction the file is exactly what BEGIN left. */
  ghost predicate TransactionOk(m: Machine) {
    m.saved.Some? ==>
      var s, b := m.pool, m.saved.value;
      && m.phase.Idle? && s.log == [] && s.disk.touched == {} && s.disk.current == s.disk.durable
      && b.count <= s.pageCount && s.root == b.root
      && s.disk.durable.count == b.count && s.disk.durable.root == b.root
      && forall p: PageId :: p in b.live ==>
           p < b.count && p in s.disk.durable.pages && s.disk.durable.pages[p] == b.live[p]
  }

  ghost predicate Inv(m: Machine) {
    && PoolInv(m.pool, m.live)
    && DiskOk(m.pool.disk)
    && m.pool.synced <= |m.pool.log|
    && 0 <= m.committed.count <= m.pool.pageCount
    && Holds(m.pool.log[..m.pool.synced], m.pool.disk, m.committed)
    && PhaseOk(m)
    && TransactionOk(m)
  }

  lemma InvLinked(m: Machine)
    requires Inv(m)
    ensures Linked(m.pool)
  {
  }

  // ---------- a crash ----------

  /** Replay over anything a crash may leave shows the database the log and file hold. */
  lemma ReplayShows(log: seq<LogFrame>, d: Disk, db: File, f: File)
    requires Holds(log, d, db) && CrashedFile(d, f)
    ensures forall p: PageId :: p in db.pages ==>
              p in Replay(f.pages, log) && Replay(f.pages, log)[p] == db.pages[p]
  {
    var replayed := Replay(f.pages, log);
    forall p: PageId | p in db.pages
      ensures p in replayed && replayed[p] == db.pages[p]
    {
      assert Stable(log, d, p, db.pages[p]);
      ReplayAt(f.pages, log, p);
      if !Logged(log, p) {
        assert Agree(f.pages, d.durable.pages, p);
      }
    }
  }

  lemma {:induction false} LatestOfConcat(a: seq<LogFrame>, b: seq<LogFrame>, p: PageId)
    ensures Logged(a + b, p) <==> Logged(a, p) || Logged(b, p)
    ensures Logged(b, p) ==> Latest(a + b, p) == Latest(b, p)
    ensures Logged(a, p) && !Logged(b, p) ==> Latest(a + b, p) == Latest(a, p)
  {
    if Logged(a, p) {
      var i :| 0 <= i < |a| && a[i].id == p;
      assert (a + b)[i].id == p;
    }
    if Logged(b, p) {
      var i :| 0 <= i < |b| && b[i].id == p;
      assert (a + b)[|a| + i].id == p;
    }
    if b == [] {
      assert a + b == a;
    } else {
      var front := b[..|b| - 1];
      assert (a + b)[..|a + b| - 1] == a + front;
      LatestOfConcat(a, front, p);
      if Logged(b, p) && b[|b| - 1].id != p {
        var i :| 0 <= i < |b| && b[i].id == p;
        assert front[i].id == p;
      }
      if Logged(front, p) {
        var i :| 0 <= i < |front| && front[i].id == p;
        assert b[i].id == p;
      }
      if b[|b| - 1].id == p {
        assert b[|b| - 1].id == p;
      }
    }
  }

  lemma {:induction false} CommitFramesLog(s: PoolState, n: nat, last: int, count: int, root: int, p: PageId)
    requires Linked(s) && n <= |s.frames|
    ensures var added := CommitFrames(s.frames, n, last, count, root);
            if Resident(s, p) && s.directory[p] < n && Unlogged(FrameOf(s, p))
            then Logged(added, p) && Latest(added, p) == FrameOf(s, p).page
            else !Logged(added, p)
    decreases n
  {
    hide Latest, Logged;
    if n == 0 {
      NothingLogged(p);
    } else {
      CommitFramesLog(s, n - 1, last, count, root, p);
      var f := s.frames[n - 1];
      var before := CommitFrames(s.frames, n - 1, last, count, root);
      if Unlogged(f) {
        var one := LogFrame(f.pageId, f.page, n - 1 == last, count, root);
        LatestOfConcat(before, [one], p);
        OneLogged(one, p);
      } else {
        assert before + [] == before;
      }
    }
  }

  lemma NothingLogged(p: PageId)
    ensures !Logged([], p)
  {
  }

  lemma OneLogged(f: LogFrame, p: PageId)
    ensures Logged([f], p) <==> f.id == p
    ensures f.id == p ==> Latest([f], p) == f.image
  {
    assert [f][0] == f;
  }

  lemma {:induction false} LastUnloggedIs(frames: seq<Frame>)
    ensures -1 <= LastUnlogged(frames) < |frames|
    ensures LastUnlogged(frames) >= 0 ==> Unlogged(frames[LastUnlogged(frames)])
    ensures forall i :: LastUnlogged(frames) < i < |frames| ==> !Unlogged(frames[i])
  {
    if frames != [] && !Unlogged(frames[|frames| - 1]) {
      LastUnloggedIs(frames[..|frames| - 1]);
    }
  }

  /** The marker is on the last frame of a commit and nowhere else. */
  lemma {:induction false} OneMarker(frames: seq<Frame>, n: nat, last: int, count: int, root: int)
    requires n <= |frames| && 0 <= last < |frames| && Unlogged(frames[last])
    requires forall i :: last < i < |frames| ==> !Unlogged(frames[i])
    ensures var added := CommitFrames(frames, n, last, count, root);
            && (forall k :: 0 <= k < |added| ==> added[k].count == count && added[k].root == root)
            && (forall k :: 0 <= k < |added| ==> (added[k].commit <==> last < n && k == |added| - 1))
            && (last < n ==> added != [])
    decreases n
  {
    if n > 0 {
      OneMarker(frames, n - 1, last, count, root);
    }
  }

  /** Once its frames are in the log, a commit's pages are all recoverable from it. */
  lemma AppendHolds(base: seq<LogFrame>, s: PoolState, live: map<PageId, Page>, count: int)
    requires PoolInv(s, live) && WriteAhead(base, s, live, count) && count <= s.pageCount
    requires LastUnlogged(s.frames) >= 0
    ensures var added := CommitFrames(s.frames, |s.frames|, LastUnlogged(s.frames), s.pageCount, s.root);
            && added != []
            && (forall k :: 0 <= k < |added| ==> (added[k].commit <==> k == |added| - 1))
            && Holds(base + added, s.disk, File(live, s.pageCount, s.root))
  {
    var last := LastUnlogged(s.frames);
    var added := CommitFrames(s.frames, |s.frames|, last, s.pageCount, s.root);
    LastUnloggedIs(s.frames);
    OneMarker(s.frames, |s.frames|, last, s.pageCount, s.root);
    forall p: PageId | p in live
      ensures Stable(base + added, s.disk, p, live[p])
    {
      CommitFramesLog(s, |s.frames|, last, s.pageCount, s.root, p);
      LatestOfConcat(base, added, p);
      if UnloggedAt(s, p) {
        assert Reads(s, p, live[p]);
      } else {
        assert Stable(base, s.disk, p, live[p]);
      }
    }
  }

  /** A commit counts once its last frame is there, and not before. */
  lemma CommittedOfPrefix(base: seq<LogFrame>, added: seq<LogFrame>, kept: nat)
    requires base == [] || base[|base| - 1].commit
    requires forall k :: 0 <= k < |added| ==> (added[k].commit <==> k == |added| - 1)
    requires |base| <= kept <= |base + added|
    ensures CommittedPrefix((base + added)[..kept]) == if kept == |base + added| then base + added else base
  {
    var log := base + added;
    var seen := log[..kept];
    if kept == |log| {
      assert seen == log;
      CommittedPrefixIs(seen, |seen|);
    } else {
      assert forall i :: |base| <= i < |seen| ==> seen[i] == added[i - |base|];
      assert |base| > 0 ==> seen[|base| - 1] == base[|base| - 1];
      CommittedPrefixIs(seen, |base|);
      assert seen[..|base|] == base;
    }
  }

  /** How far the log a crash leaves commits to: past its marker, or not at all. */
  lemma MarkerDecides(m: Machine, kept: nat)
    requires Inv(m) && m.pool.synced <= kept <= |m.pool.log|
    ensures var s := m.pool;
            CommittedPrefix(s.log[..kept])
            == if m.phase.Appended? && kept == |s.log| then s.log else s.log[..s.synced]
    ensures m.phase.Appended? ==> m.pool.log != [] && Holds(m.pool.log, m.pool.disk, m.phase.next)
  {
    var s := m.pool;
    var base := s.log[..s.synced];
    if m.phase.Appended? {
      var added := CommitFrames(s.frames, |s.frames|, LastUnlogged(s.frames), s.pageCount, s.root);
      AppendHolds(base, s, m.live, m.committed.count);
      CommittedOfPrefix(base, added, kept);
    } else {
      assert s.log == base + [];
      CommittedOfPrefix(base, [], kept);
    }
  }

  /** Recovery from a log that holds db, down to the header when the log is empty. */
  lemma RecoveredShows(log: seq<LogFrame>, d: Disk, db: File, f: File, records: seq<LogRecord>)
    requires Holds(log, d, db) && CrashedFile(d, f) && CommittedPrefix(WholePrefix(records)) == log
    requires log == [] ==> f.root == db.root
    ensures Shows(Recovered(f, records), if log == [] then db.(count := f.count) else db)
  {
    hide CommittedPrefix, WholePrefix, Stable, CrashedFile;
    ReplayShows(log, d, db, f);
  }

  /** What the header of a crashed file says. */
  lemma HeaderAfterCrash(m: Machine, f: File)
    requires Inv(m) && CrashedFile(m.pool.disk, f)
    ensures m.pool.log[..m.pool.synced] == [] ==> f.root == m.committed.root
    ensures m.pool.log[..m.pool.synced] == [] && (m.phase.Idle? || m.phase.Appended?) ==> f.count == m.committed.count
    ensures m.pool.log[..m.pool.synced] == [] ==> f.count == m.committed.count || f.count == m.pool.pageCount
  {
    hide PoolInv, TransactionOk, WriteAhead, CommitFrames, LastUnlogged, Stable, DiskOk;
  }

  /**
   Whatever a crash leaves, recovery shows the last committed database - or, in the middle
   of a commit, the one being committed, exactly when its marker survived.
   */
  lemma CrashShows(m: Machine, f: File, kept: nat, records: seq<LogRecord>)
    requires Inv(m) && CrashedFile(m.pool.disk, f) && CrashedLog(m.pool.log, m.pool.synced, kept, records)
    ensures Shows(Recovered(f, records), Outcome(m, f, kept))
    ensures m.phase.Idle? ==> Outcome(m, f, kept) == m.committed
    ensures m.phase.Appended? ==>
              Outcome(m, f, kept) == if kept == |m.pool.log| then m.phase.next else m.committed
    ensures m.phase.Flushed? || m.phase.Synced? ==>
              || Outcome(m, f, kept) == m.committed
              || Outcome(m, f, kept) == m.committed.(count := m.pool.pageCount)
  {
    hide PoolInv, DiskOk, TransactionOk, PhaseOk, Holds, CrashedFile, Recovered, CommittedPrefix, Shows;
    var s := m.pool;
    WholePrefixIs(records, s.log, kept);
    MarkerDecides(m, kept);
    HeaderAfterCrash(m, f);
    if m.phase.Appended? && kept == |s.log| {
      RecoveredShows(s.log, s.disk, m.phase.next, f, records);
    } else {
      RecoveredShows(s.log[..s.synced], s.disk, m.committed, f, records);
    }
  }

  // ---------- steps that only move frames ----------

  /** Frame i given up by whoever held it. */
  ghost function Vacant(t: PoolState, i: nat): PoolState
    requires i < |t.frames|
  {
    t.(frames := t.frames[i := t.frames[i].(pageId := -1)])
  }

  /** File writes that obey the write-ahead rule: only pages the log has an image of. */
  ghost predicate WroteLogged(log: seq<LogFrame>, d: Disk, d': Disk) {
    && d'.durable == d.durable
    && d'.current.count == d.current.count && d'.current.root == d.current.root
    && (d'.touched == {} ==> d' == d)
    && forall p: PageId :: p in d'.touched && p !in d.touched ==> Logged(log, p)
  }

  lemma AcquiredKeepsPool(s: PoolState, t: PoolState, i: nat, live: map<PageId, Page>)
    requires PoolInv(s, live) && Acquired(s, t, i)
    ensures PoolInv(Vacant(t, i), live)
  {
    var v := Vacant(t, i);
    forall j | 0 <= j < |v.frames|
      ensures FrameOk(v, live, v.frames[j])
      ensures v.frames[j].pageId >= 0 ==>
                v.frames[j].pageId < |v.directory| && v.directory[v.frames[j].pageId] == j
    {
      if j != i && j < |s.frames| {
        assert SameButReferenced(s.frames[j], v.frames[j]);
        assert FrameOk(s, live, s.frames[j]);
      }
    }
    forall p | 0 <= p < |v.directory| && v.directory[p] != -1
      ensures 0 <= v.directory[p] < |v.frames| && v.frames[v.directory[p]].pageId == p
    {
      assert s.directory[p] == v.directory[p];
      assert v.directory[p] != i;
      assert SameButReferenced(s.frames[v.directory[p]], t.frames[v.directory[p]]);
    }
    forall p: PageId | p in live
      ensures Reads(v, p, live[p])
    {
      assert Reads(s, p, live[p]);
      if Resident(s, p) && s.directory[p] == i {
        assert FrameOk(s, live, s.frames[i]);
      } else if Resident(s, p) {
        assert SameButReferenced(s.frames[s.directory[p]], v.frames[s.directory[p]]);
      }
    }
  }

  lemma AcquiredKeepsWriteAhead(log: seq<LogFrame>, s: PoolState, t: PoolState, i: nat, live: map<PageId, Page>, count: int)
    requires PoolInv(s, live) && Acquired(s, t, i) && DiskOk(s.disk) && WriteAhead(log, s, live, count)
    ensures WriteAhead(log, Vacant(t, i), live, count)
    ensures DiskOk(t.disk) && WroteLogged(log, s.disk, t.disk)
  {
    var v := Vacant(t, i);
    forall p: PageId | p in live && !UnloggedAt(v, p)
      ensures p < count && Stable(log, v.disk, p, live[p])
    {
      if Resident(s, p) && s.directory[p] != i {
        assert SameButReferenced(s.frames[s.directory[p]], v.frames[s.directory[p]]);
      }
      assert !UnloggedAt(s, p);
      assert Stable(log, s.disk, p, live[p]);
    }
    forall j | 0 <= j < |v.frames| && v.frames[j].pageId >= 0 && v.frames[j].logged
      ensures Logged(log, v.frames[j].pageId)
    {
      assert SameButReferenced(s.frames[j], v.frames[j]);
    }
    forall p: PageId | p !in t.disk.touched
      ensures Agree(t.disk.durable.pages, t.disk.current.pages, p)
    {
      assert Agree(s.disk.durable.pages, s.disk.current.pages, p);
    }
  }

  lemma WroteLoggedHolds(log: seq<LogFrame>, d: Disk, d': Disk, db: File)
    requires Holds(log, d, db) && WroteLogged(log, d, d')
    ensures Holds(log, d', db)
  {
    forall p: PageId | p in db.pages
      ensures Stable(log, d', p, db.pages[p])
    {
      assert Stable(log, d, p, db.pages[p]);
    }
  }

  /** What an idle pool's invariant needs when only frames and logged pages have moved. */
  lemma IdleKeeps(m: Machine, s: PoolState, live: map<PageId, Page>)
    requires Inv(m) && m.phase.Idle?
    requires PoolInv(s, live) && WriteAhead(s.log, s, live, m.committed.count)
    requires s.log == m.pool.log && s.synced == m.pool.synced && s.root == m.pool.root
    requires s.pageCount >= m.pool.pageCount
    requires DiskOk(s.disk) && WroteLogged(s.log, m.pool.disk, s.disk)
    ensures Inv(m.(pool := s, live := live))
  {
    assert s.log[..s.synced] == s.log;
    WroteLoggedHolds(s.log, m.pool.disk, s.disk, m.committed);
    if m.saved.Some? {
      forall p: PageId ensures p !in s.disk.touched {
        assert p !in m.pool.disk.touched;
        assert !Logged(s.log, p);
      }
    }
  }

  /** Reading a page into an empty frame. */
  lemma LoadKeeps(log: seq<LogFrame>, v: PoolState, i: nat, p: PageId, live: map<PageId, Page>, count: int)
    requires PoolInv(v, live) && WriteAhead(log, v, live, count)
    requires i < |v.frames| && v.frames[i].pageId < 0
    requires p in live && !Resident(v, p) && p in v.disk.current.pages
    ensures var r := v.(frames := v.frames[i := Frame(p, 1, false, false, false, v.disk.current.pages[p])],
                        directory := v.directory[p := i]);
            PoolInv(r, live) && WriteAhead(log, r, live, count)
  {
    var r := v.(frames := v.frames[i := Frame(p, 1, false, false, false, v.disk.current.pages[p])],
                directory := v.directory[p := i]);
    forall j | 0 <= j < |r.frames|
      ensures FrameOk(r, live, r.frames[j])
    {
      assert FrameOk(v, live, v.frames[j]);
    }
    forall q: PageId | q in live
      ensures Reads(r, q, live[q])
      ensures UnloggedAt(r, q) == UnloggedAt(v, q)
    {
      assert Reads(v, q, live[q]);
    }
  }

  /** Only pins and reference bits differ. */
  ghost predicate SameContents(s: PoolState, r: PoolState) {
    && r == s.(frames := r.frames)
    && |r.frames| == |s.frames|
    && forall j :: 0 <= j < |s.frames| ==> SameContent(s.frames[j], r.frames[j])
  }

  ghost predicate SameContent(f: Frame, g: Frame) {
    f.pageId == g.pageId && f.dirty == g.dirty && f.logged == g.logged && f.page == g.page
  }

  lemma SameContentsKeeps(m: Machine, r: PoolState)
    requires Inv(m) && m.phase.Idle? && SameContents(m.pool, r)
    ensures Inv(m.(pool := r))
  {
    var s := m.pool;
    assert s.log[..s.synced] == s.log;
    forall j | 0 <= j < |r.frames|
      ensures FrameOk(r, m.live, r.frames[j])
      ensures r.frames[j].pageId == s.frames[j].pageId
      ensures r.frames[j].logged ==> s.frames[j].logged
    {
      assert SameContent(s.frames[j], r.frames[j]);
      assert FrameOk(s, m.live, s.frames[j]);
    }
    forall p: PageId | p in m.live
      ensures Reads(r, p, m.live[p])
      ensures UnloggedAt(r, p) == UnloggedAt(s, p)
    {
      assert Reads(s, p, m.live[p]);
      if Resident(s, p) {
        assert SameContent(s.frames[s.directory[p]], r.frames[s.directory[p]]);
      }
    }
    IdleKeeps(m, r, m.live);
  }

  /** A pinned page changed and marked dirty. */
  lemma StoreKeeps(log: seq<LogFrame>, s: PoolState, p: PageId, page: Page, live: map<PageId, Page>, count: int)
    requires PoolInv(s, live) && WriteAhead(log, s, live, count)
    requires p in live && Resident(s, p)
    ensures var r := UnpinPage(StorePage(s, p, page), p, true);
            PoolInv(r, live[p := page]) && WriteAhead(log, r, live[p := page], count)
  {
    var live' := live[p := page];
    var r := UnpinPage(StorePage(s, p, page), p, true);
    var i := s.directory[p];
    assert r == s.(frames := s.frames[i := r.frames[i]]);
    forall j | 0 <= j < |r.frames|
      ensures FrameOk(r, live', r.frames[j])
    {
      assert FrameOk(s, live, s.frames[j]);
    }
    forall q: PageId | q in live'
      ensures Reads(r, q, live'[q])
      ensures q != p ==> UnloggedAt(r, q) == UnloggedAt(s, q)
    {
      if q != p {
        assert Reads(s, q, live[q]);
      }
    }
  }

  /** A new page in an empty frame, under an id nobody uses. */
  ghost predicate Filled(v: PoolState, i: nat, id: PageId, r: PoolState) {
    && i < |v.frames| && v.frames[i].pageId < 0
    && r.frames == v.frames[i := Frame(id, 0, true, false, true, ZeroPage())]
    && r.hand == v.hand && r.disk == v.disk && r.pageCount >= v.pageCount && id < r.pageCount
    && r.directory == GrowDirectory(v.directory, id + 1)[id := i] && r.pageCount <= |r.directory|
    && r.freeIds <= v.freeIds && id !in r.freeIds
  }

  lemma FillLinks(v: PoolState, i: nat, id: PageId, r: PoolState)
    requires Linked(v) && Filled(v, i, id, r) && !Resident(v, id)
    ensures Linked(r)
    ensures forall q: PageId :: q != id ==>
              Resident(r, q) == Resident(v, q) && (Resident(v, q) ==> FrameOf(r, q) == FrameOf(v, q))
  {
    forall q: PageId | q != id
      ensures Resident(r, q) == Resident(v, q) && (Resident(v, q) ==> FrameOf(r, q) == FrameOf(v, q))
    {
      assert q < |v.directory| ==> r.directory[q] == v.directory[q];
    }
  }

  lemma FillKeeps(log: seq<LogFrame>, v: PoolState, i: nat, id: PageId, r: PoolState, live: map<PageId, Page>, count: int)
    requires PoolInv(v, live) && WriteAhead(log, v, live, count)
    requires Filled(v, i, id, r) && id !in live
    ensures PoolInv(r, live[id := ZeroPage()]) && WriteAhead(log, r, live[id := ZeroPage()], count)
  {
    var live' := live[id := ZeroPage()];
    assert !Resident(v, id) by {
      assert Resident(v, id) ==> FrameOk(v, live, FrameOf(v, id));
    }
    FillLinks(v, i, id, r);
    forall j | 0 <= j < |r.frames|
      ensures FrameOk(r, live', r.frames[j])
    {
      assert FrameOk(v, live, v.frames[j]);
    }
    forall q: PageId | q in live'
      ensures Reads(r, q, live'[q])
      ensures q != id ==> UnloggedAt(r, q) == UnloggedAt(v, q)
    {
      if q != id {
        assert Reads(v, q, live[q]);
      } else {
        assert Resident(r, id);
      }
    }
  }

  lemma DropLinks(s: PoolState, p: PageId)
    requires Linked(s)
    ensures Linked(FreePage(s, p)) && !Resident(FreePage(s, p), p)
    ensures forall q: PageId :: q != p ==>
              && Resident(FreePage(s, p), q) == Resident(s, q)
              && (Resident(s, q) ==> FrameOf(FreePage(s, p), q) == FrameOf(s, q))
  {
    var r := FreePage(s, p);
    forall q: PageId | q != p
      ensures Resident(r, q) == Resident(s, q) && (Resident(s, q) ==> FrameOf(r, q) == FrameOf(s, q))
    {
      assert q < |s.directory| ==> r.directory[q] == s.directory[q];
    }
  }

  lemma DropKeepsPool(s: PoolState, p: PageId, live: map<PageId, Page>)
    requires PoolInv(s, live) && p in live
    ensures PoolInv(FreePage(s, p), live - {p})
  {
    var r := FreePage(s, p);
    var live' := live - {p};
    DropLinks(s, p);
    forall j | 0 <= j < |r.frames|
      ensures FrameOk(r, live', r.frames[j])
    {
      assert FrameOk(s, live, s.frames[j]);
    }
    forall q: PageId | q in live'
      ensures Reads(r, q, live'[q])
    {
      assert Reads(s, q, live[q]);
    }
    forall k | 0 <= k < |r.freeIds|
      ensures r.freeIds[k] < r.pageCount && r.freeIds[k] !in live'
    {
      assert k < |s.freeIds| ==> r.freeIds[k] == s.freeIds[k];
    }
  }

  lemma DropUnlogs(s: PoolState, p: PageId, live: map<PageId, Page>)
    requires PoolInv(s, live)
    ensures FreePage(s, p).disk == s.disk && |FreePage(s, p).frames| == |s.frames|
    ensures forall q: PageId :: q != p ==> UnloggedAt(FreePage(s, p), q) == UnloggedAt(s, q)
    ensures forall i :: 0 <= i < |s.frames| && FreePage(s, p).frames[i].pageId >= 0 ==> FreePage(s, p).frames[i] == s.frames[i]
  {
    DropLinks(s, p);
  }

  lemma DropKeeps(log: seq<LogFrame>, s: PoolState, p: PageId, live: map<PageId, Page>, count: int)
    requires PoolInv(s, live) && WriteAhead(log, s, live, count) && p in live
    ensures PoolInv(FreePage(s, p), live - {p}) && WriteAhead(log, FreePage(s, p), live - {p}, count)
  {
    hide PoolInv, FreePage, UnloggedAt, Stable, Logged;
    DropKeepsPool(s, p, live);
    DropUnlogs(s, p, live);
  }

  // ---------- every step keeps the invariant ----------

  /** Acquiring a frame for an idle pool, with the frame then empty. */
  lemma AcquireKeeps(m: Machine) returns (v: PoolState, i: nat)
    requires Inv(m) && m.phase.Idle?
    ensures Acquire(m.pool).1 == i && Acquired(m.pool, Acquire(m.pool).0, i)
    ensures v == Vacant(Acquire(m.pool).0, i)
    ensures PoolInv(v, m.live) && WriteAhead(m.pool.log, v, m.live, m.committed.count)
    ensures DiskOk(v.disk) && WroteLogged(m.pool.log, m.pool.disk, v.disk)
  {
    var s := m.pool;
    assert s.log[..s.synced] == s.log;
    var (t, k) := Acquire(s);
    AcquireAcquires(s);
    AcquiredKeepsPool(s, t, k, m.live);
    AcquiredKeepsWriteAhead(s.log, s, t, k, m.live, m.committed.count);
    v, i := Vacant(t, k), k;
  }

  /** Pinning a live page shows exactly what was last written to it. */
  lemma PinKeeps(m: Machine, p: PageId)
    requires Inv(m) && Enabled(m, Pin(p))
    ensures Inv(Step(m, Pin(p)))
    ensures var (s, frame) := PinPage(m.pool, p);
            0 <= frame < |s.frames| && s.frames[frame].page == m.live[p] && s.frames[frame].pins > 0
  {
    hide Acquire, WriteAhead, PhaseOk, TransactionOk, Holds;
    var s := m.pool;
    var r := PinPage(s, p).0;
    assert Reads(s, p, m.live[p]);
    if Resident(s, p) {
      SameContentsKeeps(m, r);
    } else {
      LoadedKeeps(m, p);
    }
  }

  lemma LoadedKeeps(m: Machine, p: PageId)
    requires Inv(m) && Enabled(m, Pin(p)) && !Resident(m.pool, p)
    ensures var (s, frame) := PinPage(m.pool, p);
            && Inv(m.(pool := s))
            && 0 <= frame < |s.frames| && s.frames[frame].page == m.live[p] && s.frames[frame].pins > 0
  {
    hide Acquire, WriteAhead, PhaseOk, TransactionOk, Holds, DiskOk, WroteLogged;
    var r := PinPage(m.pool, p).0;
    var v, i := AcquireKeeps(m);
    assert Reads(v, p, m.live[p]);
    assert !Resident(v, p);
    LoadKeeps(m.pool.log, v, i, p, m.live, m.committed.count);
    assert r == v.(frames := v.frames[i := Frame(p, 1, false, false, false, v.disk.current.pages[p])],
                   directory := v.directory[p := i]);
    IdleKeeps(m, r, m.live);
  }

  lemma WriteKeeps(m: Machine, p: PageId, page: Page)
    requires Inv(m) && Enabled(m, Write(p, page))
    ensures Inv(Step(m, Write(p, page)))
  {
    var s := m.pool;
    assert s.log[..s.synced] == s.log;
    StoreKeeps(s.log, s, p, page, m.live, m.committed.count);
    IdleKeeps(m, UnpinPage(StorePage(s, p, page), p, true), m.live[p := page]);
  }

  lemma AllocateKeeps(m: Machine)
    requires Inv(m) && Enabled(m, Allocate)
    ensures Inv(Step(m, Allocate))
    ensures AllocatePage(m.pool).1 !in m.live
  {
    var v, i := AcquireKeeps(m);
    var (r, id) := AllocatePage(m.pool);
    assert r.frames == v.frames[i := Frame(id, 0, true, false, true, ZeroPage())];
    FillKeeps(m.pool.log, v, i, id, r, m.live, m.committed.count);
    IdleKeeps(m, r, m.live[id := ZeroPage()]);
  }

  lemma FreeKeeps(m: Machine, p: PageId)
    requires Inv(m) && Enabled(m, Free(p))
    ensures Inv(Step(m, Free(p)))
  {
    assert m.pool.log[..m.pool.synced] == m.pool.log;
    DropKeeps(m.pool.log, m.pool, p, m.live, m.committed.count);
    IdleKeeps(m, FreePage(m.pool, p), m.live - {p});
  }

  lemma AppendKeeps(m: Machine, root: int)
    requires Inv(m) && Enabled(m, Append(root))
    ensures Inv(Step(m, Append(root)))
  {
    var s := m.pool;
    var base := s.log[..s.synced];
    assert base == s.log;
    LastUnloggedIs(s.frames);
    var r := AppendCommit(s, root);
    if LastUnlogged(s.frames) < 0 {
      forall p: PageId | p in m.live
        ensures p < m.committed.count && Stable(base, s.disk, p, m.live[p])
      {
        assert !UnloggedAt(s, p);
      }
    } else {
      assert r.log[..r.synced] == base;
    }
    PoolFieldsOnly(s, if LastUnlogged(s.frames) < 0 then s.(root := root) else r, m.live, base, m.committed.count);
  }

  /** The root, the log and the sync mark are not part of what the pool shows. */
  lemma PoolFieldsOnly(s: PoolState, r: PoolState, live: map<PageId, Page>, log: seq<LogFrame>, count: int)
    requires PoolInv(s, live) && WriteAhead(log, s, live, count)
    requires r == s.(root := r.root, log := r.log, synced := r.synced)
    ensures PoolInv(r, live) && WriteAhead(log, r, live, count)
  {
    forall i | 0 <= i < |r.frames|
      ensures FrameOk(r, live, r.frames[i])
    {
      assert FrameOk(s, live, s.frames[i]);
    }
    forall p: PageId | p in live
      ensures Reads(r, p, live[p])
      ensures UnloggedAt(r, p) == UnloggedAt(s, p)
    {
      assert Reads(s, p, live[p]);
    }
  }

  /** Marking pages logged changes nothing they show. */
  lemma MarkKeeps(s: PoolState, live: map<PageId, Page>)
    requires PoolInv(s, live)
    ensures PoolInv(SyncCommit(s), live)
    ensures forall p: PageId :: !UnloggedAt(SyncCommit(s), p)
  {
    var r := SyncCommit(s);
    forall i | 0 <= i < |r.frames|
      ensures FrameOk(r, live, r.frames[i]) && r.frames[i].pageId == s.frames[i].pageId
    {
      assert FrameOk(s, live, s.frames[i]);
    }
    forall p: PageId | p in live
      ensures Reads(r, p, live[p])
    {
      assert Reads(s, p, live[p]);
    }
  }

  lemma SyncLogKeeps(m: Machine)
    requires Inv(m) && Enabled(m, SyncLog)
    ensures Inv(Step(m, SyncLog))
  {
    var s := m.pool;
    var r := SyncCommit(s);
    var base := s.log[..s.synced];
    AppendHolds(base, s, m.live, m.committed.count);
    MarkKeeps(s, m.live);
    assert r.log[..r.synced] == s.log;
    forall p: PageId | p in m.live
      ensures Stable(s.log, r.disk, p, m.live[p])
    {
      assert Stable(s.log, s.disk, p, m.phase.next.pages[p]);
    }
    forall i | 0 <= i < |r.frames| && r.frames[i].pageId >= 0 && r.frames[i].logged
      ensures Logged(s.log, r.frames[i].pageId)
    {
      var p := s.frames[i].pageId;
      var last := LastUnlogged(s.frames);
      assert FrameOk(s, m.live, s.frames[i]);
      CommitFramesLog(s, |s.frames|, last, s.pageCount, s.root, p);
      LatestOfConcat(base, CommitFrames(s.frames, |s.frames|, last, s.pageCount, s.root), p);
    }
  }

  // ---------- checkpoints ----------

  ghost predicate DirtyBelow(s: PoolState, n: nat, p: PageId) {
    Resident(s, p) && s.directory[p] < n && FrameOf(s, p).dirty
  }

  /** What a flush of the first n frames did to frames and file. */
  ghost predicate FlushedTo(s: PoolState, n: nat, r: PoolState) {
    && r == s.(frames := r.frames, disk := r.disk)
    && |r.frames| == |s.frames|
    && r.disk.durable == s.disk.durable
    && r.disk.current.count == s.disk.current.count && r.disk.current.root == s.disk.current.root
    && (forall i :: 0 <= i < |s.frames| ==>
          && r.frames[i].pageId == s.frames[i].pageId && r.frames[i].page == s.frames[i].page
          && r.frames[i].dirty == (s.frames[i].dirty && (s.frames[i].pageId < 0 || i >= n))
          && (r.frames[i].logged ==> s.frames[i].logged && r.frames[i].dirty == s.frames[i].dirty))
    && forall p: PageId ::
         if DirtyBelow(s, n, p)
         then p in r.disk.touched && p in r.disk.current.pages && r.disk.current.pages[p] == FrameOf(s, p).page
         else (p in r.disk.touched <==> p in s.disk.touched)
              && Agree(r.disk.current.pages, s.disk.current.pages, p)
  }

  lemma {:induction false} FlushFirstIs(s: PoolState, n: nat)
    requires Linked(s) && n <= |s.frames|
    ensures FlushedTo(s, n, FlushFirst(s, n))
    decreases n
  {
    hide FlushedTo;
    if n == 0 {
      FlushedNone(s);
    } else {
      FlushFirstIs(s, n - 1);
      FlushedOne(s, n - 1, FlushFirst(s, n - 1));
    }
  }

  lemma FlushedNone(s: PoolState)
    requires Linked(s)
    ensures FlushedTo(s, 0, s)
  {
  }

  /** Frame n passed by, or written out and clean. */
  lemma FlushedOne(s: PoolState, n: nat, t: PoolState)
    requires Linked(s) && n < |s.frames| && FlushedTo(s, n, t)
    ensures |t.frames| == |s.frames|
    ensures FlushedTo(s, n + 1, if t.frames[n].pageId >= 0 && t.frames[n].dirty then FlushFrame(t, n) else t)
  {
    var r := if t.frames[n].pageId >= 0 && t.frames[n].dirty then FlushFrame(t, n) else t;
    forall p: PageId
      ensures if DirtyBelow(s, n + 1, p)
              then p in r.disk.touched && p in r.disk.current.pages && r.disk.current.pages[p] == FrameOf(s, p).page
              else (p in r.disk.touched <==> p in s.disk.touched)
                   && Agree(r.disk.current.pages, s.disk.current.pages, p)
    {
      assert DirtyBelow(s, n + 1, p) == (DirtyBelow(s, n, p) || (s.frames[n].pageId == p && s.frames[n].dirty));
      assert !DirtyBelow(s, n, p) ==> Agree(t.disk.current.pages, s.disk.current.pages, p);
    }
  }

  lemma FlushKeeps(m: Machine)
    requires Inv(m) && Enabled(m, Flush)
    ensures Inv(Step(m, Flush))
  {
    var s := m.pool;
    var t, r := FlushFirst(s, |s.frames|), FlushAll(s);
    FlushFirstIs(s, |s.frames|);
    assert s.log[..s.synced] == s.log == r.log[..r.synced];
    FlushKeepsPool(s, m.live);
    forall p: PageId | p !in r.disk.touched
      ensures Agree(r.disk.durable.pages, r.disk.current.pages, p)
    {
      assert !DirtyBelow(s, |s.frames|, p);
      assert Agree(s.disk.durable.pages, s.disk.current.pages, p);
    }
    forall p: PageId | p in m.committed.pages
      ensures Stable(s.log, r.disk, p, m.committed.pages[p])
      ensures p in r.disk.current.pages && r.disk.current.pages[p] == m.committed.pages[p]
    {
      assert Stable(s.log, s.disk, p, m.committed.pages[p]);
      assert Reads(s, p, m.committed.pages[p]);
      FlushedReads(s, m.live, p, m.committed.pages[p]);
      assert DirtyBelow(s, |s.frames|, p) ==> Logged(s.log, p);
    }
  }

  lemma FlushKeepsPool(s: PoolState, live: map<PageId, Page>)
    requires PoolInv(s, live)
    ensures PoolInv(FlushAll(s), live) && AllClean(FlushAll(s))
  {
    var r := FlushAll(s);
    FlushFirstIs(s, |s.frames|);
    assert Linked(r);
    forall i | 0 <= i < |r.frames|
      ensures FrameOk(r, live, r.frames[i])
    {
      assert FrameOk(s, live, s.frames[i]);
      if r.frames[i].pageId >= 0 {
        assert DirtyBelow(s, |s.frames|, r.frames[i].pageId) == s.frames[i].dirty;
      }
    }
    forall p: PageId | p in live
      ensures Reads(r, p, live[p])
    {
      assert Reads(s, p, live[p]);
      assert !Resident(s, p) ==> !DirtyBelow(s, |s.frames|, p);
    }
  }

  /** After the flush the file shows what the pool showed. */
  lemma FlushedReads(s: PoolState, live: map<PageId, Page>, p: PageId, page: Page)
    requires PoolInv(s, live)
    ensures var current := FlushAll(s).disk.current.pages;
            Reads(s, p, page) <==> p in current && current[p] == page
  {
    FlushFirstIs(s, |s.frames|);
    var t := FlushFirst(s, |s.frames|);
    if DirtyBelow(s, |s.frames|, p) {
    } else {
      assert Agree(t.disk.current.pages, s.disk.current.pages, p);
      if Resident(s, p) {
        assert FrameOk(s, live, FrameOf(s, p));
      }
    }
  }

  lemma SyncFileKeeps(m: Machine)
    requires Inv(m) && Enabled(m, SyncFile)
    ensures Inv(Step(m, SyncFile))
  {
    var s, r := m.pool, SyncPages(m.pool);
    forall i | 0 <= i < |r.frames|
      ensures FrameOk(r, m.live, r.frames[i])
    {
      assert FrameOk(s, m.live, s.frames[i]);
    }
    forall p: PageId | p in m.live
      ensures Reads(r, p, m.live[p])
    {
      assert Reads(s, p, m.live[p]);
    }
    forall p: PageId | p in m.committed.pages
      ensures Stable(s.log[..s.synced], r.disk, p, m.committed.pages[p])
    {
      assert Stable(s.log[..s.synced], s.disk, p, m.committed.pages[p]);
    }
  }

  lemma TruncateKeeps(m: Machine)
    requires Inv(m) && Enabled(m, Truncate)
    ensures Inv(Step(m, Truncate))
    ensures Checkpointed(Step(m, Truncate).pool)
  {
    var s, r := m.pool, TruncateLog(m.pool);
    forall i | 0 <= i < |r.frames|
      ensures FrameOk(r, m.live, r.frames[i])
      ensures r.frames[i].pageId >= 0 ==> !r.frames[i].logged
    {
      assert FrameOk(s, m.live, s.frames[i]);
    }
    forall p: PageId | p in m.live
      ensures Reads(r, p, m.live[p])
      ensures Stable([], r.disk, p, m.live[p])
    {
      assert Reads(s, p, m.live[p]);
      if Resident(s, p) {
        assert FrameOk(s, m.live, FrameOf(s, p));
      }
    }
    assert r.log[..r.synced] == [];
  }

  // ---------- transactions, crashes, runs ----------

  lemma BeginKeeps(m: Machine)
    requires Inv(m) && Enabled(m, Begin)
    ensures Inv(Step(m, Begin))
  {
    var s := m.pool;
    assert s.log[..s.synced] == [];
    var durable, current := s.disk.durable.pages, s.disk.current.pages;
    forall p: PageId
      ensures p in durable <==> p in current
      ensures p in durable ==> durable[p] == current[p]
    {
      assert Agree(durable, current, p);
    }
    assert current == durable;
    forall p: PageId | p in m.live
      ensures p in s.disk.durable.pages && s.disk.durable.pages[p] == m.live[p]
    {
      assert !UnloggedAt(s, p);
      assert Stable([], s.disk, p, m.live[p]);
    }
  }

  /** Dropping the dirty frames leaves none, and leaves the file alone. */
  lemma {:induction false} DropFirstIs(s: PoolState, n: nat)
    requires n <= |s.frames|
    ensures var r := DropFirst(s, n);
            && r == s.(frames := r.frames, directory := r.directory)
            && forall i :: 0 <= i < n && r.frames[i].pageId >= 0 ==> !r.frames[i].dirty
    decreases n
  {
    if n > 0 {
      DropFirstIs(s, n - 1);
    }
  }

  lemma {:induction false} FlushNothing(s: PoolState, n: nat)
    requires n <= |s.frames| && AllClean(s)
    ensures FlushFirst(s, n) == s
    decreases n
  {
    if n > 0 {
      FlushNothing(s, n - 1);
    }
  }

  /** A pool opened on a file that shows a database shows that database. */
  lemma OpenKeeps(f: File, db: File)
    requires Shows(f, db) && forall p: PageId :: p in db.pages ==> p < db.count
    requires db.count >= 0
    ensures Inv(Machine(OpenPool(f), db.pages, db, Idle, None))
  {
    var s := OpenPool(f);
    assert s.log[..s.synced] == [];
    forall p: PageId | p in db.pages
      ensures Reads(s, p, db.pages[p]) && Stable([], s.disk, p, db.pages[p])
    {
      assert !Resident(s, p);
      assert !Logged([], p);
    }
  }

  /** With the dirty frames gone, reloading the file rewrites it with what it already holds. */
  lemma RollbackReopens(m: Machine)
    requires Inv(m) && m.saved.Some?
    ensures RollbackTransaction(m.pool, m.saved.value.count) == OpenPool(m.pool.disk.durable)
  {
    var s := m.pool;
    var dropped := RollbackPool(s, m.saved.value.count);
    DropFirstIs(s, |s.frames|);
    FlushNothing(dropped, |dropped.frames|);
  }

  /**
   ROLLBACK: every page BEGIN knew reads as it did then, the size and root are what they
   were, and the file is byte for byte the one BEGIN left.
   */
  lemma RollbackKeeps(m: Machine)
    requires Inv(m) && Enabled(m, Rollback)
    ensures Inv(Step(m, Rollback))
    ensures var r, b := Step(m, Rollback), m.saved.value;
            && r.live == b.live && r.pool.pageCount == b.count && r.pool.root == b.root
            && r.pool.disk.durable == m.pool.disk.durable
            && forall p: PageId :: p in b.live ==> Reads(r.pool, p, b.live[p])
  {
    hide PoolInv;
    var s, b := m.pool, m.saved.value;
    var f := s.disk.durable;
    RollbackReopens(m);
    assert s.log[..s.synced] == [];
    OpenKeeps(f, File(b.live, b.count, b.root));
    forall p: PageId | p in m.committed.pages
      ensures Stable([], Disk(f, f, {}), p, m.committed.pages[p])
    {
      assert Stable([], s.disk, p, m.committed.pages[p]);
    }
    assert OpenPool(f).log[..0] == [];
  }

  lemma CrashKeeps(m: Machine, f: File, kept: nat, records: seq<LogRecord>)
    requires Inv(m) && Enabled(m, Crash(f, kept, records))
    ensures Inv(Step(m, Crash(f, kept, records)))
  {
    var db := Outcome(m, f, kept);
    CrashShows(m, f, kept, records);
    MarkerDecides(m, kept);
    OpenKeeps(Recovered(f, records), db);
  }

  lemma UnpinKeeps(m: Machine, p: PageId)
    requires Inv(m) && Enabled(m, Unpin(p))
    ensures Inv(Step(m, Unpin(p)))
  {
    SameContentsKeeps(m, UnpinPage(m.pool, p, false));
  }

  lemma EndKeeps(m: Machine)
    requires Inv(m) && Enabled(m, End)
    ensures Inv(Step(m, End))
  {
  }

  lemma StepKeeps(m: Machine, e: Event)
    requires Inv(m) && Enabled(m, e)
    ensures Inv(Step(m, e))
  {
    hide Inv, Step, Enabled;
    match e
    case Pin(p) => PinKeeps(m, p);
    case Unpin(p) => UnpinKeeps(m, p);
    case Write(p, page) => WriteKeeps(m, p, page);
    case Allocate => AllocateKeeps(m);
    case Free(p) => FreeKeeps(m, p);
    case Append(root) => AppendKeeps(m, root);
    case SyncLog => SyncLogKeeps(m);
    case Flush => FlushKeeps(m);
    case SyncFile => SyncFileKeeps(m);
    case Truncate => TruncateKeeps(m);
    case Begin => BeginKeeps(m);
    case End => EndKeeps(m);
    case Rollback => RollbackKeeps(m);
    case Crash(f, kept, records) => CrashKeeps(m, f, kept, records);
  }

  /** A session opened on a file whose pages are all counted. */
  ghost predicate Started(m: Machine) {
    exists f: File :: m == Machine(OpenPool(f), f.pages, f, Idle, None)
                      && f.count >= 0 && forall p: PageId :: p in f.pages ==> p < f.count
  }

  ghost predicate Run(ms: seq<Machine>, es: seq<Event>) {
    && |ms| == |es| + 1
    && Started(ms[0])
    && forall i :: 0 <= i < |es| ==> Linked(ms[i].pool) && Enabled(ms[i], es[i]) && ms[i + 1] == Step(ms[i], es[i])
  }

  lemma {:induction false} RunKeeps(ms: seq<Machine>, es: seq<Event>, k: nat)
    requires Run(ms, es) && k < |ms|
    ensures Inv(ms[k])
  {
    if k == 0 {
      var f: File :| ms[0] == Machine(OpenPool(f), f.pages, f, Idle, None)
                     && f.count >= 0 && forall p: PageId :: p in f.pages ==> p < f.count;
      OpenKeeps(f, f);
    } else {
      RunKeeps(ms, es, k - 1);
      StepKeeps(ms[k - 1], es[k - 1]);
    }
  }

  /**
   Crash atomicity, over every run: whatever state the run is in and whatever the crash
   leaves, recovery comes back with the committed database, or with the one whose commit was
   in flight if and only if its marker frame survived. A checkpoint in flight may have moved
   the recorded page count and nothing else.
   */
  lemma CrashAtomicity(ms: seq<Machine>, es: seq<Event>, k: nat, f: File, kept: nat, records: seq<LogRecord>)
    requires Run(ms, es) && k < |ms|
    requires CrashedFile(ms[k].pool.disk, f) && CrashedLog(ms[k].pool.log, ms[k].pool.synced, kept, records)
    ensures var m := ms[k];
            match m.phase
            case Idle => Shows(Recovered(f, records), m.committed)
            case Appended(next) =>
              Shows(Recovered(f, records), if kept == |m.pool.log| then next else m.committed)
            case _ =>
              || Shows(Recovered(f, records), m.committed)
              || Shows(Recovered(f, records), m.committed.(count := m.pool.pageCount))
  {
    RunKeeps(ms, es, k);
    CrashShows(ms[k], f, kept, records);
  }

  /** Pool transparency, over every run: pinning a live page shows what was last written to it. */
  lemma Transparency(ms: seq<Machine>, es: seq<Event>, k: nat, p: PageId)
    requires Run(ms, es) && k < |ms| && ms[k].phase.Idle? && p in ms[k].live
    ensures Linked(ms[k].pool)
    ensures var (s, frame) := PinPage(ms[k].pool, p);
            0 <= frame < |s.frames| && s.frames[frame].page == ms[k].live[p]
  {
    RunKeeps(ms, es, k);
    PinKeeps(ms[k], p);
  }

  /** Steps a transaction can take before it ends. */
  predicate WithinTransaction(e: Event) {
    e.Pin? || e.Unpin? || e.Write? || e.Allocate? || e.Free?
  }

  /** Nothing a transaction does reaches the file before COMMIT. */
  lemma TransactionLeavesFile(m: Machine, e: Event)
    requires Inv(m) && m.saved.Some? && WithinTransaction(e) && Enabled(m, e)
    ensures Step(m, e).pool.disk == m.pool.disk && Step(m, e).saved == m.saved
  {
    StepKeeps(m, e);
    if e.Pin? || e.Allocate? {
      var v, i := AcquireKeeps(m);
      assert v.disk == m.pool.disk;
    }
  }

  lemma BeginRemembers(m: Machine)
    requires Linked(m.pool) && Enabled(m, Begin)
    ensures var r := Step(m, Begin);
            r.pool.disk == m.pool.disk && r.saved == Some(Saved(m.live, m.pool.pageCount, m.pool.root))
  {
  }

  /** From BEGIN on, the machine remembers BEGIN and the file stays as it was. */
  lemma {:induction false} TransactionRemembers(ms: seq<Machine>, es: seq<Event>, i: nat, j: nat)
    requires Run(ms, es) && i < j < |ms|
    requires es[i] == Begin && forall k :: i < k < j ==> WithinTransaction(es[k])
    ensures ms[j].pool.disk == ms[i].pool.disk
    ensures ms[j].saved == Some(Saved(ms[i].live, ms[i].pool.pageCount, ms[i].pool.root))
    decreases j
  {
    hide Inv, Step, Enabled, Started, Linked;
    if j == i + 1 {
      BeginRemembers(ms[i]);
    } else {
      TransactionRemembers(ms, es, i, j - 1);
      RunKeeps(ms, es, j - 1);
      TransactionLeavesFile(ms[j - 1], es[j - 1]);
    }
  }

  /**
   Rollback, over every run: from BEGIN through any writes, allocations and frees to
   ROLLBACK, the file never changes and every page ends reading as it did at BEGIN.
   */
  lemma RollbackRestores(ms: seq<Machine>, es: seq<Event>, i: nat, j: nat)
    requires Run(ms, es) && i < j < |es|
    requires es[i] == Begin && es[j] == Rollback && forall k :: i < k < j ==> WithinTransaction(es[k])
    ensures ms[j].pool.disk == ms[i].pool.disk
    ensures ms[j + 1].live == ms[i].live
    ensures ms[j + 1].pool.pageCount == ms[i].pool.pageCount && ms[j + 1].pool.root == ms[i].pool.root
    ensures ms[j + 1].pool.disk.durable == ms[i].pool.disk.durable
    ensures forall p: PageId :: p in ms[i].live ==> Reads(ms[j + 1].pool, p, ms[i].live[p])
  {
    TransactionRemembers(ms, es, i, j);
    RunKeeps(ms, es, j);
    RollbackKeeps(ms[j]);
  }

  lemma CrashWithinTransaction(m: Machine, f: File, kept: nat, records: seq<LogRecord>)
    requires Inv(m) && m.saved.Some?
    requires CrashedFile(m.pool.disk, f) && CrashedLog(m.pool.log, m.pool.synced, kept, records)
    ensures var b := m.saved.value;
            Shows(Recovered(f, records), File(b.live, b.count, b.root))
  {
    hide PoolInv, PhaseOk, Holds;
    WholePrefixIs(records, m.pool.log, kept);
    assert WholePrefix(records) == [];
    var b, durable := m.saved.value, m.pool.disk.durable;
    forall p: PageId | p in b.live ensures p in f.pages && f.pages[p] == b.live[p] {
      assert Agree(f.pages, durable.pages, p);
    }
  }

  /** A crash anywhere inside a transaction recovers to the state BEGIN found. */
  lemma CrashUndoesTransaction(ms: seq<Machine>, es: seq<Event>, i: nat, j: nat, f: File, kept: nat, records: seq<LogRecord>)
    requires Run(ms, es) && i < j < |ms|
    requires es[i] == Begin && forall k :: i < k < j ==> WithinTransaction(es[k])
    requires CrashedFile(ms[j].pool.disk, f) && CrashedLog(ms[j].pool.log, ms[j].pool.synced, kept, records)
    ensures Shows(Recovered(f, records), File(ms[i].live, ms[i].pool.pageCount, ms[i].pool.root))
  {
    hide Inv, Shows, Recovered, CrashedFile, CrashedLog, Started;
    TransactionRemembers(ms, es, i, j);
    RunKeeps(ms, es, j);
    CrashWithinTransaction(ms[j], f, kept, records);
  }
}
