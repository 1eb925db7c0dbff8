/**
 What a pin is worth (14_pool.c:444-483, 14_pool.c:493-552, 14_pool.c:589-602): the count in a
 frame is the number of pins not yet given back, over every run, and while it is above zero the
 page keeps its frame.
 */
module Pins {
  import opened Common
  import opened Wal
  import opened Pool
  import opened CrashSafety

  ghost function PinsOf(s: PoolState, p: PageId): nat {
    if Resident(s, p) then FrameOf(s, p).pins else 0
  }

  /** Whether this event gives a pin of p back; writing is storing through a pin and giving it back. */
  predicate Releases(e: Event, p: PageId) {
    (e.Unpin? || e.Write?) && e.p == p
  }

  /** Whether it takes the page away from everyone who has it. */
  predicate Revokes(e: Event, p: PageId) {
    (e.Free? && e.p == p) || e.Rollback? || e.Crash?
  }

  /** The pins of page p outstanding after the first k events; giving back one too many does nothing. */
  function Held(es: seq<Event>, k: nat, p: PageId): nat
    requires k <= |es|
  {
    if k == 0 then 0
    else
      var before := Held(es, k - 1, p);
      if es[k - 1] == Pin(p) then before + 1
      else if Releases(es[k - 1], p) then (if before > 0 then before - 1 else 0)
      else if Revokes(es[k - 1], p) then 0
      else before
  }

  /** What acquiring a frame does to page p: a page someone has pinned keeps its frame and its pins. */
  lemma AcquireSpares(s: PoolState, p: PageId)
    requires Linked(s)
    ensures var (t, i) := Acquire(s);
            PinsOf(s, p) > 0 ==> s.directory[p] != i && Resident(t, p) && t.directory[p] == s.directory[p]
                                 && FrameOf(t, p).pins == FrameOf(s, p).pins && FrameOf(t, p).page == FrameOf(s, p).page
    ensures var (t, i) := Acquire(s);
            PinsOf(s, p) == 0 && Resident(t, p) && t.directory[p] != i ==> FrameOf(t, p).pins == 0
  {
    hide Acquire;
    AcquireAcquires(s);
    var (t, i) := Acquire(s);
    if Resident(s, p) && s.directory[p] != i {
      assert SameButReferenced(FrameOf(s, p), t.frames[s.directory[p]]);
    }
  }

  ghost predicate PinStep(s: PoolState, t: PoolState, e: Event, p: PageId) {
    && PinsOf(t, p) == (if e == Pin(p) then PinsOf(s, p) + 1
                        else if Releases(e, p) then (if PinsOf(s, p) > 0 then PinsOf(s, p) - 1 else 0)
                        else if Revokes(e, p) then 0
                        else PinsOf(s, p))
    && (PinsOf(s, p) > 0 && PinsOf(t, p) > 0 ==> t.directory[p] == s.directory[p])
  }

  lemma PinPins(m: Machine, q: PageId, p: PageId)
    requires Inv(m) && Enabled(m, Pin(q))
    ensures PinStep(m.pool, PinPage(m.pool, q).0, Pin(q), p)
  {
    hide Acquire, PhaseOk, TransactionOk, Holds, Shows;
    PinKeeps(m, q);
    AcquireAcquires(m.pool);
    AcquireSpares(m.pool, p);
  }

  lemma AllocatePins(m: Machine, p: PageId)
    requires Inv(m) && Enabled(m, Allocate)
    ensures PinStep(m.pool, AllocatePage(m.pool).0, Allocate, p)
  {
    hide Acquire, PhaseOk, TransactionOk, Holds, Shows;
    AllocateKeeps(m);
    AcquireAcquires(m.pool);
    AcquireSpares(m.pool, p);
    if Resident(m.pool, p) {
      assert FrameOk(m.pool, m.live, FrameOf(m.pool, p));
    }
  }

  lemma {:induction false} FlushPins(s: PoolState, n: nat)
    requires Linked(s) && n <= |s.frames|
    ensures FlushFirst(s, n).directory == s.directory
    ensures forall i :: 0 <= i < |s.frames| ==> FlushFirst(s, n).frames[i].pins == s.frames[i].pins
    decreases n
  {
    if n > 0 {
      FlushPins(s, n - 1);
    }
  }

  lemma UnpinPins(s: PoolState, q: PageId, p: PageId)
    requires Linked(s)
    ensures PinStep(s, UnpinPage(s, q, false), Unpin(q), p)
  {
  }

  lemma WritePins(s: PoolState, q: PageId, page: Page, p: PageId)
    requires Linked(s) && Resident(s, q)
    ensures PinStep(s, UnpinPage(StorePage(s, q, page), q, true), Write(q, page), p)
  {
  }

  lemma FreePins(s: PoolState, q: PageId, p: PageId)
    requires Linked(s)
    ensures PinStep(s, FreePage(s, q), Free(q), p)
  {
    DropLinks(s, q);
  }

  /** Nobody's pins change and no page moves. */
  ghost predicate SamePins(s: PoolState, t: PoolState) {
    && t.directory == s.directory && |t.frames| == |s.frames|
    && forall i :: 0 <= i < |s.frames| ==> t.frames[i].pins == s.frames[i].pins
  }

  lemma OthersPins(m: Machine, e: Event, p: PageId)
    requires Inv(m) && Enabled(m, e)
    requires e.Append? || e.SyncLog? || e.Flush? || e.SyncFile? || e.Truncate? || e.Begin? || e.End?
    ensures Linked(m.pool) && SamePins(m.pool, Step(m, e).pool) && PinStep(m.pool, Step(m, e).pool, e, p)
  {
    hide PhaseOk, TransactionOk, Holds, FlushFirst, CommitFrames, LastUnlogged;
    FlushPins(m.pool, |m.pool.frames|);
  }

  /** What every step does to the pins of page p. */
  lemma StepPins(m: Machine, e: Event, p: PageId)
    requires Inv(m) && Enabled(m, e)
    ensures Linked(m.pool) && PinStep(m.pool, Step(m, e).pool, e, p)
  {
    hide Inv, PinStep, PinPage, AllocatePage, UnpinPage, StorePage, FreePage, RollbackTransaction, OpenPool, Recovered, Linked;
    InvLinked(m);
    match e
    case Pin(q) => PinPins(m, q, p);
    case Unpin(q) => UnpinPins(m.pool, q, p);
    case Write(q, page) => WritePins(m.pool, q, page, p);
    case Allocate => AllocatePins(m, p);
    case Free(q) => FreePins(m.pool, q, p);
    case Rollback =>
      RollbackReopens(m);
      ReopenedPins(m.pool, m.pool.disk.durable, e, p);
    case Crash(f, kept, records) => ReopenedPins(m.pool, Recovered(f, records), e, p);
    case _ => OthersPins(m, e, p);
  }

  lemma ReopenedPins(s: PoolState, f: File, e: Event, p: PageId)
    requires e.Rollback? || e.Crash?
    ensures PinStep(s, OpenPool(f), e, p)
  {
    NobodyHome(f, p);
  }

  lemma NobodyHome(f: File, p: PageId)
    ensures !Resident(OpenPool(f), p) && PinsOf(OpenPool(f), p) == 0
  {
  }

  /** Over every run, a frame's pin count is the number of pins of its page still outstanding. */
  lemma {:induction false} PinsAreCounted(ms: seq<Machine>, es: seq<Event>, k: nat, p: PageId)
    requires Run(ms, es) && k < |ms|
    ensures PinsOf(ms[k].pool, p) == Held(es, k, p)
  {
    hide Inv, Step, Enabled, PinsOf;
    if k == 0 {
      var f: File :| ms[0] == Machine(OpenPool(f), f.pages, f, Idle, None);
      NobodyHome(f, p);
    } else {
      PinsAreCounted(ms, es, k - 1, p);
      RunKeeps(ms, es, k - 1);
      StepPins(ms[k - 1], es[k - 1], p);
    }
  }

  /**
   While a page has a pin outstanding it stays in the frame it was in, that frame is handed to
   nobody, and it shows what was last written to the page.
   */
  lemma {:induction false} PinnedStays(ms: seq<Machine>, es: seq<Event>, i: nat, j: nat, p: PageId)
    requires Run(ms, es) && i <= j < |ms| && forall k :: i <= k <= j ==> Held(es, k, p) > 0
    ensures Resident(ms[i].pool, p) && Resident(ms[j].pool, p)
    ensures ms[j].pool.directory[p] == ms[i].pool.directory[p]
    ensures Linked(ms[j].pool) && Acquire(ms[j].pool).1 != ms[i].pool.directory[p]
    ensures p in ms[j].live && FrameOf(ms[j].pool, p).page == ms[j].live[p]
    decreases j
  {
    hide Inv, Step, Enabled, Held, Acquire, Started;
    PinsAreCounted(ms, es, i, p);
    PinsAreCounted(ms, es, j, p);
    RunKeeps(ms, es, j);
    PinnedShows(ms[j], p);
    AcquireSpares(ms[j].pool, p);
    if i < j {
      PinnedStays(ms, es, i, j - 1, p);
      PinsAreCounted(ms, es, j - 1, p);
      RunKeeps(ms, es, j - 1);
      StepPins(ms[j - 1], es[j - 1], p);
    }
  }

  lemma PinnedShows(m: Machine, p: PageId)
    requires Inv(m) && PinsOf(m.pool, p) > 0
    ensures Linked(m.pool) && p in m.live && FrameOf(m.pool, p).page == m.live[p]
  {
    assert FrameOk(m.pool, m.live, FrameOf(m.pool, p));
    assert Reads(m.pool, p, m.live[p]);
  }

  /** Pins of p taken less pins given back, by the events after event i and before event k. */
  function Balance(es: seq<Event>, i: nat, k: nat, p: PageId): int
    requires i < k <= |es|
  {
    if k == i + 1 then 0
    else Balance(es, i, k - 1, p) + (if es[k - 1] == Pin(p) then 1 else if Releases(es[k - 1], p) then -1 else 0)
  }

  lemma {:induction false} HeldAtLeast(es: seq<Event>, i: nat, k: nat, p: PageId)
    requires i < k <= |es| && forall n :: i < n < k ==> !Revokes(es[n], p)
    ensures Held(es, k, p) >= Held(es, i + 1, p) + Balance(es, i, k, p)
    decreases k
  {
    if i + 1 < k {
      HeldAtLeast(es, i, k - 1, p);
    }
  }

  /**
   One reader's view: from its pin on, as long as the others give back no more pins than they
   take and nobody frees the page or rolls back, the page does not move and its frame is not reused.
   */
  lemma PinHolds(ms: seq<Machine>, es: seq<Event>, i: nat, j: nat, p: PageId)
    requires Run(ms, es) && i < j <= |es| && es[i] == Pin(p)
    requires forall k :: i < k <= j ==> Balance(es, i, k, p) >= 0
    requires forall k :: i < k < j ==> !Revokes(es[k], p)
    ensures Resident(ms[i + 1].pool, p) && Resident(ms[j].pool, p)
    ensures ms[j].pool.directory[p] == ms[i + 1].pool.directory[p]
    ensures Linked(ms[j].pool) && Acquire(ms[j].pool).1 != ms[i + 1].pool.directory[p]
    ensures p in ms[j].live && FrameOf(ms[j].pool, p).page == ms[j].live[p]
  {
    hide Balance, Run, Acquire;
    forall k | i < k <= j ensures Held(es, k, p) > 0 {
      HeldAtLeast(es, i, k, p);
    }
    RunLength(ms, es);
    PinnedStays(ms, es, i + 1, j, p);
  }

  lemma RunLength(ms: seq<Machine>, es: seq<Event>)
    requires Run(ms, es)
    ensures |ms| == |es| + 1
  {
  }

  // ---------- which frames are given up first ----------

  /** A page found in the pool earns its reference bit; one that had to be read in does not. */
  lemma PinReferences(s: PoolState, p: PageId)
    requires Linked(s) && PinPage(s, p).1 >= 0
    ensures var r := PinPage(s, p).0;
            Resident(r, p) && (FrameOf(r, p).referenced <==> Resident(s, p))
  {
    hide Acquire;
    AcquireAcquires(s);
  }

  /** So a page touched again outlives one more eviction, as long as some other frame can be taken. */
  lemma TouchedIsSpared(s: PoolState, p: PageId, j: nat)
    requires Linked(s) && Resident(s, p) && p < s.pageCount
    requires j < |s.frames| && j != s.directory[p] && Taken(s.frames[j])
    ensures var t := UnpinPage(PinPage(s, p).0, p, false);
            Linked(t) && Resident(t, p) && t.directory[p] == s.directory[p] && Acquire(t).1 != s.directory[p]
  {
    hide Sweep, Distance;
    var t := UnpinPage(PinPage(s, p).0, p, false);
    assert t.frames[j] == s.frames[j];
    NearEnough(t, j);
    SecondChance(t, 2 * |t.frames|, j);
  }

  lemma NearEnough(s: PoolState, j: nat)
    requires s.hand < |s.frames| && j < |s.frames|
    ensures Distance(s, j) < |s.frames|
  {
  }
}
