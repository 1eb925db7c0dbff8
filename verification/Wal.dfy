/**
 The write-ahead log and the file it protects (15_wal.c).

 A `Page` is the PAGE_USABLE bytes its owner sees; the trailing checksum belongs to the
 pool and is modelled as a perfect whole-or-torn flag. A `Disk` keeps what is certainly on
 the platter (`durable`) apart from what has been written but not yet fsynced (`current`).
 */
module Wal {
  type PageId = nat
  type Page = seq<int>

  /** The database file: a header page (page count, catalog root) and data pages. */
  datatype File = File(pages: map<PageId, Page>, count: int, root: int)

  datatype Disk = Disk(durable: File, current: File, touched: set<PageId>)

  datatype LogFrame = LogFrame(id: PageId, image: Page, commit: bool, count: int, root: int)

  /** What recovery finds when it reads a log: frames that pass their checksum, or a torn one. */
  datatype LogRecord = Whole(frame: LogFrame) | Torn

  /** Whether two page maps say the same thing about one page, absence included. */
  ghost predicate Agree(a: map<PageId, Page>, b: map<PageId, Page>, p: PageId) {
    && (p in a <==> p in b)
    && (p in a ==> a[p] == b[p])
  }

  // ---------- writing the file ----------

  function WritePage(d: Disk, p: PageId, page: Page): Disk {
    d.(current := d.current.(pages := d.current.pages[p := page]), touched := d.touched + {p})
  }

  function WriteHeader(d: Disk, count: int, root: int): Disk {
    d.(current := d.current.(count := count, root := root))
  }

  function SyncFile(d: Disk): Disk {
    Disk(d.current, d.current, {})
  }

  /** Pages not written since the last fsync are the same on the platter and in the cache. */
  ghost predicate DiskOk(d: Disk) {
    forall p: PageId :: p !in d.touched ==> Agree(d.durable.pages, d.current.pages, p)
  }

  /**
   What a crash may leave of the file. A page written since the last fsync may hold
   anything at all - the old image, any newer one, or a torn mixture - and the header
   write is either kept or lost. Everything else is what was fsynced.
   */
  ghost predicate CrashedFile(d: Disk, f: File) {
    && (|| (f.count == d.durable.count && f.root == d.durable.root)
        || (f.count == d.current.count && f.root == d.current.root))
    && forall p: PageId :: p !in d.touched ==> Agree(f.pages, d.durable.pages, p)
  }

  /** What a crash may leave of the log: the synced frames, some of the rest, then a torn tail. */
  ghost predicate CrashedLog(log: seq<LogFrame>, synced: nat, kept: nat, records: seq<LogRecord>) {
    && synced <= kept <= |log|
    && kept <= |records|
    && (forall i :: 0 <= i < kept ==> records[i] == Whole(log[i]))
    && (kept < |records| ==> records[kept].Torn?)
  }

  // ---------- what replay means ----------

  /** Applies every frame in order. */
  function Replay(pages: map<PageId, Page>, frames: seq<LogFrame>): map<PageId, Page> {
    if frames == [] then pages
    else
      var last := frames[|frames| - 1];
      Replay(pages, frames[..|frames| - 1])[last.id := last.image]
  }

  ghost predicate Logged(frames: seq<LogFrame>, p: PageId) {
    exists i :: 0 <= i < |frames| && frames[i].id == p
  }

  /** The newest image of a page in the log. */
  ghost function Latest(frames: seq<LogFrame>, p: PageId): Page
    requires Logged(frames, p)
  {
    var last := frames[|frames| - 1];
    if last.id == p then last.image
    else
      assert Logged(frames[..|frames| - 1], p) by {
        var i :| 0 <= i < |frames| && frames[i].id == p;
        assert frames[..|frames| - 1][i].id == p;
      }
      Latest(frames[..|frames| - 1], p)
  }

  lemma {:induction false} ReplayAt(pages: map<PageId, Page>, frames: seq<LogFrame>, p: PageId)
    ensures if Logged(frames, p)
            then p in Replay(pages, frames) && Replay(pages, frames)[p] == Latest(frames, p)
            else Agree(Replay(pages, frames), pages, p)
  {
    if frames != [] {
      var front := frames[..|frames| - 1];
      ReplayAt(pages, front, p);
      if Logged(frames, p) && frames[|frames| - 1].id != p {
        var i :| 0 <= i < |frames| && frames[i].id == p;
        assert front[i].id == p;
      }
      if Logged(front, p) {
        var i :| 0 <= i < |front| && front[i].id == p;
        assert frames[i].id == p;
      }
    }
  }

  /** Replay only looks at the pages it does not overwrite. */
  lemma ReplayIgnoresLogged(a: map<PageId, Page>, b: map<PageId, Page>, frames: seq<LogFrame>)
    requires forall p: PageId :: !Logged(frames, p) ==> Agree(a, b, p)
    ensures Replay(a, frames) == Replay(b, frames)
  {
    var ra, rb := Replay(a, frames), Replay(b, frames);
    forall p: PageId
      ensures p in ra <==> p in rb
      ensures p in ra ==> ra[p] == rb[p]
    {
      ReplayAt(a, frames, p);
      ReplayAt(b, frames, p);
      assert !Logged(frames, p) ==> Agree(a, b, p);
    }
  }

  lemma {:induction false} ReplayAppend(pages: map<PageId, Page>, a: seq<LogFrame>, f: LogFrame)
    ensures Replay(pages, a + [f]) == Replay(pages, a)[f.id := f.image]
  {
    assert (a + [f])[..|a + [f]| - 1] == a;
  }

  // ---------- recovery ----------

  /** The frames before the first torn one. */
  function WholePrefix(records: seq<LogRecord>): seq<LogFrame> {
    if records == [] || records[0].Torn? then []
    else [records[0].frame] + WholePrefix(records[1..])
  }

  /** Frames up to and including the last commit marker. */
  function CommittedPrefix(frames: seq<LogFrame>): (committed: seq<LogFrame>)
    ensures committed <= frames
    ensures committed == [] || committed[|committed| - 1].commit
    ensures forall i :: |committed| <= i < |frames| ==> !frames[i].commit
  {
    if frames == [] then []
    else if frames[|frames| - 1].commit then frames
    else CommittedPrefix(frames[..|frames| - 1])
  }

  /** The file recovery leaves, given the file and the log it found. */
  function Recovered(db: File, records: seq<LogRecord>): File {
    var committed := CommittedPrefix(WholePrefix(records));
    if committed == [] then db
    else
      var marker := committed[|committed| - 1];
      File(Replay(db.pages, committed), marker.count, marker.root)
  }

  lemma {:induction false} WholePrefixIs(records: seq<LogRecord>, log: seq<LogFrame>, kept: nat)
    requires kept <= |log| && kept <= |records|
    requires forall i :: 0 <= i < kept ==> records[i] == Whole(log[i])
    requires kept < |records| ==> records[kept].Torn?
    ensures WholePrefix(records) == log[..kept]
    decreases kept
  {
    if kept > 0 {
      assert forall i :: 0 <= i < kept - 1 ==> records[1..][i] == Whole(log[1..][i]);
      WholePrefixIs(records[1..], log[1..], kept - 1);
      assert log[..kept] == [log[0]] + log[1..][..kept - 1];
    }
  }

  /** The prefix ending at a known marker is the committed prefix when nothing after it commits. */
  lemma {:induction false} CommittedPrefixIs(frames: seq<LogFrame>, n: nat)
    requires n <= |frames|
    requires n == 0 || frames[n - 1].commit
    requires forall i :: n <= i < |frames| ==> !frames[i].commit
    ensures CommittedPrefix(frames) == frames[..n]
  {
    var committed := CommittedPrefix(frames);
    assert committed != [] ==> frames[|committed| - 1].commit;
    assert |committed| == n;
  }

  /** The second pass of recovery: the first n frames, written in order. */
  method WriteFrames(pages: map<PageId, Page>, frames: seq<LogFrame>, n: nat) returns (out: map<PageId, Page>)
    requires n <= |frames|
    ensures out == Replay(pages, frames[..n])
  {
    out := pages;
    for i := 0 to n
      invariant out == Replay(pages, frames[..i])
    {
      out := out[frames[i].id := frames[i].image];
      assert frames[..i + 1] == frames[..i] + [frames[i]];
      ReplayAppend(pages, frames[..i], frames[i]);
    }
  }

  /**
   walRecover: a first pass that finds how far the log commits to, then a second that
   writes every frame up to there, and last the header.
   */
  method Recover(db: File, records: seq<LogRecord>) returns (out: File, recovered: nat)
    ensures out == Recovered(db, records)
    ensures recovered == |CommittedPrefix(WholePrefix(records))|
  {
    hide WholePrefix, CommittedPrefix, Replay;
    var whole := [];
    var frames := 0;
    var lastGood := -1;
    var finalPages, finalRoot := 0, -1;

    while frames < |records| && records[frames].Whole?
      invariant 0 <= frames <= |records| && |whole| == frames
      invariant forall i :: 0 <= i < frames ==> records[i] == Whole(whole[i])
      invariant -1 <= lastGood < frames
      invariant lastGood >= 0 ==> whole[lastGood].commit
      invariant lastGood >= 0 ==> finalPages == whole[lastGood].count && finalRoot == whole[lastGood].root
      invariant forall i :: lastGood < i < frames ==> !whole[i].commit
    {
      var frame := records[frames].frame;
      if frame.commit {
        lastGood, finalPages, finalRoot := frames, frame.count, frame.root;
      }
      whole := whole + [frame];
      frames := frames + 1;
    }
    WholePrefixIs(records, whole, frames);
    assert whole[..frames] == whole;
    CommittedPrefixIs(whole, lastGood + 1);

    if lastGood < 0 {
      return db, 0;
    }

    var pages := WriteFrames(db.pages, whole, lastGood + 1);
    out := File(pages, finalPages, finalRoot);
    recovered := lastGood + 1;
  }

  /**
   A file in any state an interrupted recovery can leave: pages the replay writes may hold
   anything, the header may be the old one or the new one, and nothing else has moved.
   */
  ghost predicate PartlyRecovered(db: File, records: seq<LogRecord>, f: File) {
    var committed := CommittedPrefix(WholePrefix(records));
    && (forall p: PageId :: !Logged(committed, p) ==> Agree(f.pages, db.pages, p))
    && (committed == [] ==> f.count == db.count && f.root == db.root)
  }

  /** Running recovery again after any interruption ends in the same file. */
  lemma RecoveryRestarts(db: File, records: seq<LogRecord>, f: File)
    requires PartlyRecovered(db, records, f)
    ensures Recovered(f, records) == Recovered(db, records)
    ensures PartlyRecovered(db, records, Recovered(db, records))
  {
    var committed := CommittedPrefix(WholePrefix(records));
    ReplayIgnoresLogged(f.pages, db.pages, committed);
    forall p: PageId | !Logged(committed, p)
      ensures Agree(Replay(db.pages, committed), db.pages, p)
    {
      ReplayAt(db.pages, committed, p);
    }
    if committed == [] {
      assert f.pages == db.pages by { assert Replay(f.pages, []) == f.pages; }
    }
  }
}
