/**
 poolCommit as one call (14_pool.c:752-793): the two steps the machine splits it into, and what
 its caller may rely on when it returns.
 */
module Commits {
  import opened Common
  import opened Wal
  import opened Pool
  import opened CrashSafety

  /** Append and, if that left anything to sync, the sync. */
  ghost function Committed(m: Machine, root: int): Machine
    requires Inv(m) && Enabled(m, Append(root))
  {
    var appended := Step(m, Append(root));
    if appended.phase.Appended? then Step(appended, SyncLog) else appended
  }

  /** What recovery is to come back with: the new size and root travel only with a changed page. */
  ghost function CommittedBy(m: Machine, root: int): File {
    if LastUnlogged(m.pool.frames) >= 0 then File(m.live, m.pool.pageCount, root)
    else m.committed.(pages := m.live)
  }

  /** The one call is those steps. */
  lemma CommitIsSteps(m: Machine, root: int)
    requires Inv(m) && Enabled(m, Append(root))
    ensures var r := Committed(m, root);
            && Inv(r) && r.phase.Idle? && r.saved.None? && r.live == m.live
            && r.pool == CommitPool(m.pool, root) && r.committed == CommittedBy(m, root)
  {
    hide Inv, LastUnlogged, AppendCommit, SyncCommit;
    InvLinked(m);
    AppendKeeps(m, root);
    var appended := Step(m, Append(root));
    InvLinked(appended);
    if appended.phase.Appended? {
      SyncLogKeeps(appended);
    }
  }

  lemma IdleParts(m: Machine)
    requires Inv(m) && m.phase.Idle?
    ensures m.pool.synced == |m.pool.log|
  {
  }

  /** Afterwards no page is waiting for the log, and the whole log is synced. */
  lemma NothingUnlogged(m: Machine, root: int)
    requires Inv(m) && Enabled(m, Append(root))
    ensures var s := CommitPool(m.pool, root);
            && s.synced == |s.log|
            && forall i :: 0 <= i < |s.frames| ==> !Unlogged(s.frames[i])
  {
    hide Inv, Step, CommittedBy;
    CommitIsSteps(m, root);
    IdleParts(Committed(m, root));
    LastUnloggedIs(m.pool.frames);
  }

  /**
   A commit that has returned survives every crash: each page comes back as last written. The size
   and root come back with them exactly when a page was unlogged, or when neither had changed.
   */
  lemma CommitIsDurable(m: Machine, root: int, f: File, kept: nat, records: seq<LogRecord>)
    requires Inv(m) && Enabled(m, Append(root))
    requires var s := CommitPool(m.pool, root); CrashedFile(s.disk, f) && CrashedLog(s.log, s.synced, kept, records)
    ensures Shows(Recovered(f, records), CommittedBy(m, root))
    ensures Shows(Recovered(f, records), File(m.live, m.pool.pageCount, root))
       <==> LastUnlogged(m.pool.frames) >= 0 || (m.committed.count == m.pool.pageCount && m.committed.root == root)
  {
    hide Inv, Step, CommitPool, Recovered;
    CommitIsSteps(m, root);
    CrashShows(Committed(m, root), f, kept, records);
  }

  /** The same over every run: commit at its end, crash, and what was written is there. */
  lemma CommitEndsRun(ms: seq<Machine>, es: seq<Event>, k: nat, root: int, f: File, kept: nat, records: seq<LogRecord>)
    requires Run(ms, es) && k < |ms| && ms[k].phase.Idle? && ms[k].saved.None?
    requires var s := CommitPool(ms[k].pool, root); CrashedFile(s.disk, f) && CrashedLog(s.log, s.synced, kept, records)
    ensures forall p: PageId :: p in ms[k].live ==>
              p in Recovered(f, records).pages && Recovered(f, records).pages[p] == ms[k].live[p]
  {
    hide Inv, CommitPool, Recovered;
    RunKeeps(ms, es, k);
    CommitIsDurable(ms[k], root, f, kept, records);
  }
}
