/**
 Page ids (14_pool.c:639-691): an id is in use or on the free list, and the file grows only when
 that list is empty.
 */
module PageIds {
  import opened Common
  import opened Wal
  import opened Pool
  import opened CrashSafety

  /** Freeing a page and allocating one gives the same page back, and leaves the list as it was. */
  lemma FreedIsReused(s: PoolState, p: PageId)
    requires Linked(s)
    ensures Linked(FreePage(s, p))
    ensures var (t, id) := AllocatePage(FreePage(s, p));
            id == p && t.pageCount == s.pageCount && t.freeIds == s.freeIds
  {
    hide Acquire;
    DropLinks(s, p);
    AcquireAcquires(FreePage(s, p));
  }

  /** Every id the file has room for is in use or waits to be used again. */
  ghost predicate Accounted(m: Machine) {
    forall p: PageId :: p < m.pool.pageCount ==> p in m.live || p in m.pool.freeIds
  }

  lemma AllocateAccounts(m: Machine)
    requires Inv(m) && Enabled(m, Allocate) && Accounted(m)
    ensures Accounted(Step(m, Allocate))
    ensures Step(m, Allocate).pool.pageCount > m.pool.pageCount ==> m.pool.freeIds == []
  {
    hide Acquire, PhaseOk, TransactionOk, Holds;
    AcquireAcquires(m.pool);
    var s, r := m.pool, Step(m, Allocate);
    forall p: PageId | p < r.pool.pageCount ensures p in r.live || p in r.pool.freeIds {
      if p < s.pageCount && p in s.freeIds {
        var k :| 0 <= k < |s.freeIds| && s.freeIds[k] == p;
        assert k < |s.freeIds| - 1 ==> r.pool.freeIds[k] == p;
      }
    }
  }

  /** Neither the count nor the list is touched. */
  lemma OthersAccount(m: Machine, e: Event)
    requires Inv(m) && Enabled(m, e) && !e.Allocate? && !e.Free? && !e.Rollback? && !e.Crash?
    ensures var r := Step(m, e);
            r.pool.pageCount == m.pool.pageCount && r.pool.freeIds == m.pool.freeIds && forall p :: p in m.live ==> p in r.live
  {
    hide PhaseOk, TransactionOk, Holds, Acquire, FlushFirst, CommitFrames, LastUnlogged;
    AcquireAcquires(m.pool);
    FlushFirstIs(m.pool, |m.pool.frames|);
  }

  lemma StepAccounts(m: Machine, e: Event)
    requires Inv(m) && Enabled(m, e) && !e.Rollback? && !e.Crash? && Accounted(m)
    ensures Accounted(Step(m, e))
    ensures Step(m, e).pool.pageCount > m.pool.pageCount ==> m.pool.freeIds == []
  {
    hide Inv, Acquire, FlushFirst, CommitFrames, LastUnlogged, Linked;
    InvLinked(m);
    match e
    case Allocate => AllocateAccounts(m);
    case Free(p) =>
      var s, r := m.pool, FreePage(m.pool, p);
      assert r.freeIds == s.freeIds + [p];
    case _ => OthersAccount(m, e);
  }

  /** Over every run, up to the first rollback or crash, from a file with no holes: no id is ever lost. */
  lemma {:induction false} NoIdIsLost(ms: seq<Machine>, es: seq<Event>, k: nat)
    requires Run(ms, es) && k < |ms| && Accounted(ms[0])
    requires forall i :: 0 <= i < k ==> !es[i].Rollback? && !es[i].Crash?
    ensures Accounted(ms[k])
    ensures forall i :: 0 <= i < |ms[k].pool.freeIds| ==> ms[k].pool.freeIds[i] !in ms[k].live
    decreases k
  {
    hide Step, Enabled, Accounted, Started, Inv;
    RunKeeps(ms, es, k);
    FreeAreNotLive(ms[k]);
    if k > 0 {
      NoIdIsLost(ms, es, k - 1);
      RunKeeps(ms, es, k - 1);
      StepAccounts(ms[k - 1], es[k - 1]);
    }
  }

  lemma FreeAreNotLive(m: Machine)
    requires Inv(m)
    ensures forall i :: 0 <= i < |m.pool.freeIds| ==> m.pool.freeIds[i] !in m.live
  {
  }
}
