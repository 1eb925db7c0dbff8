/**
 The buffer pool as the engine runs it (14_pool.c): fields updated in place by loops, each
 method proved to compute the corresponding function of `Pool`.
 */
module BufferPool {
  import opened Wal
  import opened Pool

  lemma NextHandIsModulo(hand: nat, n: nat)
    requires hand < n
    ensures (hand + 1) % n == NextHand(hand, n)
  {
    if hand + 1 < n {
      assert (hand + 1) % n == hand + 1;
    }
  }

  lemma SweepStep(s: PoolState, steps: nat)
    requires Linked(s) && s.frames != [] && steps > 0
    ensures Taken(s.frames[s.hand]) ==> Sweep(s, steps) == (Take(s), s.hand)
    ensures !Taken(s.frames[s.hand]) ==>
              Linked(PassOver(s)) && |PassOver(s).frames| == |s.frames| && Sweep(s, steps) == Sweep(PassOver(s), steps - 1)
  {
  }

  lemma {:induction false} LastUnloggedFound(frames: seq<Frame>, n: nat, last: int)
    requires n <= |frames| && -1 <= last < n
    requires last >= 0 ==> Unlogged(frames[last])
    requires forall i :: last < i < n ==> !Unlogged(frames[i])
    ensures LastUnlogged(frames[..n]) == last
    decreases n
  {
    if n > 0 {
      assert frames[..n][..n - 1] == frames[..n - 1];
      if last < n - 1 {
        LastUnloggedFound(frames, n - 1, last);
      }
    }
  }

  lemma {:induction false} LastIsFrame(frames: seq<Frame>)
    ensures -1 <= LastUnlogged(frames) < |frames|
  {
    if frames != [] {
      LastIsFrame(frames[..|frames| - 1]);
    }
  }

  class BufferPool {
    var frames: seq<Frame>
    var hand: nat
    var pageFrame: seq<int>
    var pageCount: nat
    var freeIds: seq<PageId>
    var catalogRootPage: int
    var disk: Disk
    var log: seq<LogFrame>
    var synced: nat

    ghost function State(): PoolState
      reads this
    {
      PoolState(frames, hand, pageFrame, pageCount, freeIds, catalogRootPage, disk, log, synced)
    }

    /** poolAdopt followed by poolSetWritable: take a file, read nothing yet. */
    constructor Adopt(file: File)
      requires file.count >= 0
      ensures State() == OpenPool(file)
    {
      frames, hand := [], 0;
      pageFrame := GrowDirectory([], file.count);
      pageCount := file.count;
      freeIds := [];
      catalogRootPage := file.root;
      disk := Disk(file, file, {});
      log, synced := [], 0;
    }

    method Flush(i: nat)
      requires i < |frames| && frames[i].pageId >= 0
      modifies this
      ensures State() == FlushFrame(old(State()), i)
    {
      disk := WritePage(disk, frames[i].pageId, frames[i].page);
      frames := frames[i := frames[i].(dirty := false, logged := false)];
    }

    /** One tick of the hand: the frame it takes, or -1 when it passes it over. */
    method Tick() returns (taken: int)
      requires Linked(State()) && frames != []
      modifies this
      ensures if Taken(old(frames[hand]))
              then taken == old(hand) && State() == Take(old(State()))
              else taken == -1 && State() == PassOver(old(State()))
    {
      var i := hand;
      NextHandIsModulo(hand, |frames|);
      hand := (hand + 1) % |frames|;

      if frames[i].pageId < 0 {
        return i;
      }
      if frames[i].pins > 0 || (frames[i].dirty && !frames[i].logged) {
        return -1;
      }
      if frames[i].referenced {
        frames := frames[i := frames[i].(referenced := false)];
        return -1;
      }
      if frames[i].dirty {
        Flush(i);
      }
      pageFrame := pageFrame[frames[i].pageId := -1];
      return i;
    }

    /** Two turns of the hand at most; the pool grows when neither finds a frame. */
    method AcquireFrame() returns (i: nat)
      requires Linked(State())
      modifies this
      ensures (State(), i) == Acquire(old(State()))
    {
      hide Take, PassOver, Taken;
      ghost var before := State();
      for step := 0 to |frames| * 2
        invariant Linked(State()) && |frames| == |before.frames|
        invariant frames == [] ==> State() == before
        invariant frames != [] ==> Sweep(before, 2 * |before.frames|) == Sweep(State(), 2 * |frames| - step)
      {
        SweepStep(State(), 2 * |frames| - step);
        var taken := Tick();
        if taken >= 0 {
          return taken;
        }
      }

      i := |frames|;
      var grown := if |frames| == 0 then INITIAL_FRAMES else |frames|;
      frames := frames + seq(grown, _ => EmptyFrame([]));
      hand := 0;
    }

    /** The frame the page is in, pinned; -1 when there is no such page. */
    method Pin(p: int) returns (frame: int)
      requires Linked(State())
      modifies this
      ensures (State(), frame) == PinPage(old(State()), p)
    {
      if p < 0 || p >= pageCount {
        return -1;
      }
      ghost var t := State();
      frame := if p < |pageFrame| then pageFrame[p] else -1;
      if frame >= 0 {
        frames := frames[frame := frames[frame].(referenced := true)];
      } else {
        AcquireAcquires(State());
        frame := AcquireFrame();
        t := State();
        frames := frames[frame := frames[frame].(pageId := -1)];
        if p !in disk.current.pages || p >= |pageFrame| {
          return -1;
        }
        frames := frames[frame := Frame(p, 0, false, false, false, disk.current.pages[p])];
        pageFrame := pageFrame[p := frame];
      }
      frames := frames[frame := frames[frame].(pins := frames[frame].pins + 1)];
      assert frames == t.frames[frame := frames[frame]];
    }

    method Unpin(p: int, dirty: bool)
      requires Linked(State())
      modifies this
      ensures State() == UnpinPage(old(State()), p, dirty)
    {
      if p < 0 || p >= |pageFrame| || pageFrame[p] < 0 {
        return;
      }
      var frame := pageFrame[p];
      if frames[frame].pins > 0 {
        frames := frames[frame := frames[frame].(pins := frames[frame].pins - 1)];
      }
      if dirty {
        frames := frames[frame := frames[frame].(dirty := true, logged := false)];
      }
    }

    method Allocate() returns (id: PageId)
      requires Linked(State())
      modifies this
      ensures (State(), id) == AllocatePage(old(State()))
    {
      hide Acquire, GrowDirectory, Doubled, Linked;
      AcquireAcquires(State());
      var frame := AcquireFrame();
      ghost var t := State();
      if |freeIds| > 0 {
        id := freeIds[|freeIds| - 1];
        freeIds := freeIds[..|freeIds| - 1];
      } else {
        id := pageCount;
        pageCount := pageCount + 1;
      }
      pageFrame := GrowDirectory(pageFrame, id + 1);
      frames := frames[frame := Frame(id, 0, true, false, true, ZeroPage())];
      pageFrame := pageFrame[id := frame];
    }

    method Free(p: PageId)
      requires Linked(State())
      modifies this
      ensures State() == FreePage(old(State()), p)
    {
      if p < |pageFrame| && pageFrame[p] >= 0 {
        var frame := pageFrame[p];
        frames := frames[frame := EmptyFrame(frames[frame].page)];
        pageFrame := pageFrame[p := -1];
      }
      freeIds := freeIds + [p];
    }

    /** The first loop of poolCommit: the frame that is to carry the marker, or -1. */
    method FindLast() returns (last: int)
      ensures last == LastUnlogged(frames)
    {
      last := -1;
      for i := 0 to |frames|
        invariant -1 <= last < i
        invariant last >= 0 ==> Unlogged(frames[last])
        invariant forall j :: last < j < i ==> !Unlogged(frames[j])
      {
        if frames[i].pageId >= 0 && frames[i].dirty && !frames[i].logged {
          last := i;
        }
      }
      LastUnloggedFound(frames, |frames|, last);
      assert frames[..|frames|] == frames;
    }

    /** The second: one log frame for each unlogged page. */
    method AppendFrames(last: int)
      modifies this`log
      ensures log == old(log) + CommitFrames(frames, |frames|, last, pageCount, catalogRootPage)
    {
      for i := 0 to |frames|
        invariant log == old(log) + CommitFrames(frames, i, last, pageCount, catalogRootPage)
      {
        if frames[i].pageId < 0 || !frames[i].dirty || frames[i].logged {
          continue;
        }
        log := log + [LogFrame(frames[i].pageId, frames[i].page, i == last, pageCount, catalogRootPage)];
      }
    }

    /** The third: every dirty page may now move. */
    method MarkFrames()
      modifies this`frames
      ensures frames == MarkLogged(old(frames))
    {
      ghost var before := frames;
      for i := 0 to |frames|
        invariant |frames| == |before|
        invariant forall j :: 0 <= j < i ==> frames[j] == MarkLogged(before)[j]
        invariant forall j :: i <= j < |frames| ==> frames[j] == before[j]
      {
        if frames[i].pageId >= 0 && frames[i].dirty {
          frames := frames[i := frames[i].(logged := true)];
        }
      }
    }

    /** poolSetCatalogRoot and poolCommit: log every unlogged page, sync, then mark. */
    method Commit(root: int)
      modifies this
      ensures State() == CommitPool(old(State()), root)
    {
      hide CommitFrames, LastUnlogged, MarkLogged;
      catalogRootPage := root;
      var last := FindLast();
      LastIsFrame(frames);
      if last < 0 {
        return;
      }
      AppendFrames(last);
      synced := |log|;
      MarkFrames();
    }

    /** Pages out, header out, file synced, and only then is the log dropped. */
    method Checkpoint()
      modifies this
      ensures State() == TruncateLog(SyncPages(FlushAll(old(State()))))
    {
      ghost var before := State();
      for i := 0 to |frames|
        invariant State() == FlushFirst(before, i)
        invariant |frames| == |before.frames|
      {
        if frames[i].pageId < 0 || !frames[i].dirty {
          continue;
        }
        Flush(i);
      }
      disk := WriteHeader(disk, pageCount, catalogRootPage);
      disk := SyncFile(disk);
      log, synced := [], 0;
    }

    /** poolRollback: dirty frames emptied, and the page count reset if it grew. */
    method Rollback(pages: int)
      requires Linked(State())
      modifies this
      ensures State() == RollbackPool(old(State()), pages)
    {
      ghost var before := State();
      for i := 0 to |frames|
        invariant State() == DropFirst(before, i)
        invariant |frames| == |before.frames| && |pageFrame| == |before.directory|
      {
        if frames[i].pageId < 0 || !frames[i].dirty {
          continue;
        }
        if frames[i].pageId < |pageFrame| {
          pageFrame := pageFrame[frames[i].pageId := -1];
        }
        frames := frames[i := EmptyFrame(frames[i].page)];
      }
      if 0 <= pages < pageCount {
        pageCount := pages;
      }
    }
  }
}
