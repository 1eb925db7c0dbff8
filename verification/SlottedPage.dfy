/**
 One heap page (07_storage.c:28-76, 07_storage.c:433-488): the slot directory behind
 the header, records growing down from the pool's trailer.
 */
module SlottedPage {
  import opened Common
  import opened Values
  import opened Records

  const PAGE_HEADER := 8
  const SLOT_WIDTH := 8
  const SLOTS_PER_PAGE := 1024

  /** The largest record a page has room for, and the largest heapInsert lets through. */
  const LARGEST_FIT := PAGE_USABLE - PAGE_HEADER - SLOT_WIDTH
  const LARGEST_ALLOWED := PAGE_SIZE - PAGE_HEADER - SLOT_WIDTH

  /** What a slot holds; a tombstone keeps its slot. */
  datatype Stored = Gone | Live(row: Row)

  function SlotAt(i: nat): nat {
    PAGE_HEADER + i * SLOT_WIDTH
  }

  function SlotCount(data: Bytes): nat
    requires |data| == PAGE_SIZE
  {
    Get32(data, 0)
  }

  function DataStart(data: Bytes): nat
    requires |data| == PAGE_SIZE
  {
    Get32(data, 4)
  }

  function OffsetOf(data: Bytes, i: nat): nat
    requires |data| == PAGE_SIZE && i < SLOTS_PER_PAGE - 1
  {
    Get32(data, SlotAt(i))
  }

  function LengthOf(data: Bytes, i: nat): nat
    requires |data| == PAGE_SIZE && i < SLOTS_PER_PAGE - 1
  {
    Get32(data, SlotAt(i) + 4)
  }

  /** A live slot's record is its row's encoding, between the free space and the trailer. */
  ghost predicate SlotOk(data: Bytes, i: nat, s: Stored, start: nat)
    requires |data| == PAGE_SIZE && i < SLOTS_PER_PAGE - 1
  {
    match s
    case Gone => OffsetOf(data, i) == 0
    case Live(row) =>
      && RowStorable(row) && LengthOf(data, i) == |Encode(row)|
      && start <= OffsetOf(data, i) && OffsetOf(data, i) + LengthOf(data, i) <= PAGE_USABLE
      && data[OffsetOf(data, i)..OffsetOf(data, i) + LengthOf(data, i)] == Encode(row)
  }

  /** Each record lies wholly below the ones written before it. */
  ghost predicate Apart(data: Bytes, slots: seq<Stored>)
    requires |data| == PAGE_SIZE && |slots| < SLOTS_PER_PAGE
  {
    forall i, j :: 0 <= i < j < |slots| && slots[i].Live? && slots[j].Live? ==>
      OffsetOf(data, j) + LengthOf(data, j) <= OffsetOf(data, i)
  }

  /** Header, directory, free space, records and trailer, in that order and never overlapping. */
  ghost predicate PageOk(data: Bytes, slots: seq<Stored>) {
    && |data| == PAGE_SIZE
    && |slots| < SLOTS_PER_PAGE && SlotCount(data) == |slots|
    && SlotAt(|slots|) <= DataStart(data) <= PAGE_USABLE
    && (forall i :: 0 <= i < |slots| ==> SlotOk(data, i, slots[i], DataStart(data)))
    && Apart(data, slots)
  }

  /** Reading a word only looks at its own four bytes. */
  lemma SameWord(a: Bytes, b: Bytes, at: nat)
    requires |a| == |b| && at + 4 <= |a| && a[at..at + 4] == b[at..at + 4]
    ensures Get32(a, at) == Get32(b, at)
  {
    var x, y := a[at..at + 4], b[at..at + 4];
    assert x[0] == a[at] && x[1] == a[at + 1] && x[2] == a[at + 2] && x[3] == a[at + 3];
    assert y[0] == b[at] && y[1] == b[at + 1] && y[2] == b[at + 2] && y[3] == b[at + 3];
  }

  lemma WordOf(data: Bytes, at: nat, bytes: Bytes, word: nat)
    requires at + |bytes| <= |data| && word + 4 <= |data|
    ensures word + 4 <= at || at + |bytes| <= word ==> Get32(Poke(data, at, bytes), word) == Get32(data, word)
    ensures forall n: nat :: n < 0x1_0000_0000 && word == at && bytes == U32(n) ==> Get32(Poke(data, at, bytes), word) == n
  {
    hide U32, Get32, Poke;
    PokeReads(data, at, bytes, word, word + 4);
    var out := Poke(data, at, bytes);
    if word + 4 <= at || at + |bytes| <= word {
      SameWord(out, data, word);
    }
    forall n: nat | n < 0x1_0000_0000 && word == at && bytes == U32(n) ensures Get32(out, word) == n {
      Get32Put(out, word, n);
    }
  }

  // ---------- an empty page ----------

  function EmptyPage(): Bytes {
    Poke(seq(PAGE_SIZE, _ => 0), 4, U32(PAGE_USABLE))
  }

  lemma EmptyPageOk()
    ensures PageOk(EmptyPage(), [])
    ensures DataStart(EmptyPage()) == PAGE_USABLE
  {
    var zeros: Bytes := seq(PAGE_SIZE, _ => 0);
    WordOf(zeros, 4, U32(PAGE_USABLE), 0);
    WordOf(zeros, 4, U32(PAGE_USABLE), 4);
  }

  // ---------- adding a record ----------

  /** The page after heapInsert has put a row in its next slot. */
  function PageInsert(data: Bytes, row: Row): (out: Bytes)
    requires |data| == PAGE_SIZE && RowStorable(row) && SlotCount(data) < SLOTS_PER_PAGE - 1
    requires |Encode(row)| <= DataStart(data) <= PAGE_USABLE
    ensures |out| == PAGE_SIZE
  {
    var n, start := SlotCount(data), DataStart(data) - |Encode(row)|;
    var a := Poke(data, start, Encode(row));
    var b := Poke(a, SlotAt(n), U32(start));
    var c := Poke(b, SlotAt(n) + 4, U32(|Encode(row)|));
    Poke(Poke(c, 0, U32(n + 1)), 4, U32(start))
  }

  /** What an insertion does to the words of a page, when the record has room. */
  lemma InsertWords(data: Bytes, row: Row, word: nat)
    requires |data| == PAGE_SIZE && RowStorable(row) && SlotCount(data) < SLOTS_PER_PAGE - 1
    requires SlotAt(SlotCount(data) + 1) + |Encode(row)| <= DataStart(data) <= PAGE_USABLE
    requires word + 4 <= SlotAt(SlotCount(data) + 1)
    ensures var n, start, out := SlotCount(data), DataStart(data) - |Encode(row)|, PageInsert(data, row);
            && (word == 0 ==> Get32(out, word) == n + 1)
            && (word == 4 ==> Get32(out, word) == start)
            && (word == SlotAt(n) ==> Get32(out, word) == start)
            && (word == SlotAt(n) + 4 ==> Get32(out, word) == |Encode(row)|)
            && (PAGE_HEADER <= word && word + 4 <= SlotAt(n) ==> Get32(out, word) == Get32(data, word))
  {
    hide U32, Get32, Encode, Poke;
    var n, start := SlotCount(data), DataStart(data) - |Encode(row)|;
    var a := Poke(data, start, Encode(row));
    var b := Poke(a, SlotAt(n), U32(start));
    var c := Poke(b, SlotAt(n) + 4, U32(|Encode(row)|));
    var d := Poke(c, 0, U32(n + 1));
    WordOf(data, start, Encode(row), word);
    WordOf(a, SlotAt(n), U32(start), word);
    WordOf(b, SlotAt(n) + 4, U32(|Encode(row)|), word);
    WordOf(c, 0, U32(n + 1), word);
    WordOf(d, 4, U32(start), word);
  }

  /** And what it does to a stretch of the record area. */
  lemma InsertBytes(data: Bytes, row: Row, from: nat, to: nat)
    requires |data| == PAGE_SIZE && RowStorable(row) && SlotCount(data) < SLOTS_PER_PAGE - 1
    requires SlotAt(SlotCount(data) + 1) + |Encode(row)| <= DataStart(data) <= PAGE_USABLE
    requires from <= to <= PAGE_SIZE && DataStart(data) - |Encode(row)| <= from
    ensures DataStart(data) <= from ==> PageInsert(data, row)[from..to] == data[from..to]
    ensures from == DataStart(data) - |Encode(row)| && to == DataStart(data) ==> PageInsert(data, row)[from..to] == Encode(row)
  {
    hide U32, Get32, Encode, Poke;
    var n, start := SlotCount(data), DataStart(data) - |Encode(row)|;
    var a := Poke(data, start, Encode(row));
    var b := Poke(a, SlotAt(n), U32(start));
    var c := Poke(b, SlotAt(n) + 4, U32(|Encode(row)|));
    var d := Poke(c, 0, U32(n + 1));
    PokeReads(data, start, Encode(row), from, to);
    PokeReads(a, SlotAt(n), U32(start), from, to);
    PokeReads(b, SlotAt(n) + 4, U32(|Encode(row)|), from, to);
    PokeReads(c, 0, U32(n + 1), from, to);
    PokeReads(d, 4, U32(start), from, to);
  }

  /** An older slot and its record are where they were. */
  lemma InsertKeepsSlot(data: Bytes, slots: seq<Stored>, row: Row, i: nat)
    requires PageOk(data, slots) && RowStorable(row) && |slots| < SLOTS_PER_PAGE - 1 && i < |slots|
    requires SlotAt(|slots| + 1) + |Encode(row)| <= DataStart(data)
    ensures var out := PageInsert(data, row);
            && OffsetOf(out, i) == OffsetOf(data, i) && LengthOf(out, i) == LengthOf(data, i)
            && SlotOk(out, i, slots[i], DataStart(data) - |Encode(row)|)
  {
    hide Get32, Encode, PageInsert, Apart;
    assert SlotOk(data, i, slots[i], DataStart(data));
    InsertWords(data, row, SlotAt(i));
    InsertWords(data, row, SlotAt(i) + 4);
    if slots[i].Live? {
      InsertBytes(data, row, OffsetOf(data, i), OffsetOf(data, i) + LengthOf(data, i));
    }
  }

  /** The new slot and its record are where they should be. */
  lemma InsertNewSlot(data: Bytes, row: Row)
    requires |data| == PAGE_SIZE && RowStorable(row) && SlotCount(data) < SLOTS_PER_PAGE - 1
    requires SlotAt(SlotCount(data) + 1) + |Encode(row)| <= DataStart(data) <= PAGE_USABLE
    ensures var n, start, out := SlotCount(data), DataStart(data) - |Encode(row)|, PageInsert(data, row);
            && SlotCount(out) == n + 1 && DataStart(out) == start
            && OffsetOf(out, n) == start && LengthOf(out, n) == |Encode(row)| && SlotOk(out, n, Live(row), start)
  {
    hide Get32, Encode, PageInsert;
    var n, start := SlotCount(data), DataStart(data) - |Encode(row)|;
    InsertWords(data, row, 0);
    InsertWords(data, row, 4);
    InsertWords(data, row, SlotAt(n));
    InsertWords(data, row, SlotAt(n) + 4);
    InsertBytes(data, row, start, start + |Encode(row)|);
  }

  /** A record with room for itself and its slot disturbs nothing that is there. */
  lemma InsertKeeps(data: Bytes, slots: seq<Stored>, row: Row)
    requires PageOk(data, slots) && RowStorable(row) && |slots| < SLOTS_PER_PAGE - 1
    requires SlotAt(|slots| + 1) + |Encode(row)| <= DataStart(data)
    ensures PageOk(PageInsert(data, row), slots + [Live(row)])
    ensures DataStart(PageInsert(data, row)) == DataStart(data) - |Encode(row)|
  {
    hide Get32, Encode, PageInsert, SlotCount, DataStart, OffsetOf, LengthOf;
    var n, start, out := |slots|, DataStart(data) - |Encode(row)|, PageInsert(data, row);
    InsertNewSlot(data, row);
    forall i | 0 <= i < n
      ensures OffsetOf(out, i) == OffsetOf(data, i) && LengthOf(out, i) == LengthOf(data, i)
      ensures SlotOk(out, i, slots[i], start)
    {
      InsertKeepsSlot(data, slots, row, i);
    }
    forall i | 0 <= i < n && slots[i].Live? ensures DataStart(data) <= OffsetOf(data, i) {
      assert SlotOk(data, i, slots[i], DataStart(data));
    }
  }

  // ---------- removing one ----------

  function PageDelete(data: Bytes, i: nat): (out: Bytes)
    requires |data| == PAGE_SIZE && i < SLOTS_PER_PAGE - 1
    ensures |out| == PAGE_SIZE
  {
    Poke(data, SlotAt(i), U32(0))
  }

  lemma DeleteKeeps(data: Bytes, slots: seq<Stored>, i: nat)
    requires PageOk(data, slots) && i < |slots|
    ensures PageOk(PageDelete(data, i), slots[i := Gone])
  {
    hide Get32, Encode, U32;
    var out := PageDelete(data, i);
    WordOf(data, SlotAt(i), U32(0), 0);
    WordOf(data, SlotAt(i), U32(0), 4);
    WordOf(data, SlotAt(i), U32(0), SlotAt(i));
    forall j | 0 <= j < |slots| && j != i
      ensures OffsetOf(out, j) == OffsetOf(data, j) && LengthOf(out, j) == LengthOf(data, j)
      ensures SlotOk(out, j, slots[j], DataStart(data))
    {
      assert SlotOk(data, j, slots[j], DataStart(data));
      WordOf(data, SlotAt(i), U32(0), SlotAt(j));
      WordOf(data, SlotAt(i), U32(0), SlotAt(j) + 4);
      if slots[j].Live? {
        PokeReads(data, SlotAt(i), U32(0), OffsetOf(data, j), OffsetOf(data, j) + LengthOf(data, j));
      }
    }
  }

  // ---------- the guard ----------

  /**
   heapInsert's guard is written with PAGE_SIZE, so it lets through records up to eight bytes
   longer than a page has room for. On a new page the layout holds exactly when the record is
   no longer than the room.
   */
  lemma GuardIsLoose(row: Row)
    requires RowStorable(row) && |Encode(row)| <= LARGEST_ALLOWED
    ensures |EmptyPage()| == PAGE_SIZE && SlotCount(EmptyPage()) == 0 && DataStart(EmptyPage()) == PAGE_USABLE
    ensures PageOk(PageInsert(EmptyPage(), row), [Live(row)]) <==> |Encode(row)| <= LARGEST_FIT
  {
    hide Get32, Encode, EmptyPage;
    EmptyPageOk();
    if |Encode(row)| <= LARGEST_FIT {
      InsertKeeps(EmptyPage(), [], row);
      assert [] + [Live(row)] == [Live(row)];
    } else {
      LastWord(EmptyPage(), row);
    }
  }

  /** Whatever else happens, the last word written is the new data start. */
  lemma LastWord(data: Bytes, row: Row)
    requires |data| == PAGE_SIZE && RowStorable(row) && SlotCount(data) < SLOTS_PER_PAGE - 1
    requires |Encode(row)| <= DataStart(data) <= PAGE_USABLE
    ensures DataStart(PageInsert(data, row)) == DataStart(data) - |Encode(row)|
  {
    hide Get32, Encode, U32, Poke;
    var n, start := SlotCount(data), DataStart(data) - |Encode(row)|;
    var a := Poke(data, start, Encode(row));
    var b := Poke(a, SlotAt(n), U32(start));
    var c := Poke(b, SlotAt(n) + 4, U32(|Encode(row)|));
    WordOf(Poke(c, 0, U32(n + 1)), 4, U32(start), 4);
  }

  /** The bytes of a page that has taken one record too long for it, up to where its slot ends. */
  lemma OversizeHead(row: Row)
    requires RowStorable(row) && LARGEST_FIT < |Encode(row)| <= LARGEST_ALLOWED
    requires |EmptyPage()| == PAGE_SIZE && SlotCount(EmptyPage()) == 0 && DataStart(EmptyPage()) == PAGE_USABLE
    ensures var out, size := PageInsert(EmptyPage(), row), |Encode(row)|;
            && out[8..12] == U32(PAGE_USABLE - size) && out[12..16] == U32(size)
            && (PAGE_USABLE - size == 15 ==> out[16] == Encode(row)[1])
  {
    hide Get32, U32, EmptyPage, Encode, PageInsert;
    var size, out := |Encode(row)|, PageInsert(EmptyPage(), row);
    forall i | 8 <= i < 12 ensures out[i] == U32(PAGE_USABLE - size)[i - 8] {
      OversizeByte(row, i);
    }
    forall i | 12 <= i < 16 ensures out[i] == U32(size)[i - 12] {
      OversizeByte(row, i);
    }
    OversizeByte(row, 16);
  }

  lemma OversizeByte(row: Row, i: nat)
    requires RowStorable(row) && LARGEST_FIT < |Encode(row)| <= LARGEST_ALLOWED && 8 <= i <= 16
    requires |EmptyPage()| == PAGE_SIZE && SlotCount(EmptyPage()) == 0 && DataStart(EmptyPage()) == PAGE_USABLE
    ensures var size := |Encode(row)|;
            PageInsert(EmptyPage(), row)[i]
            == if i < 12 then U32(PAGE_USABLE - size)[i - 8] else if i < 16 then U32(size)[i - 12]
               else Encode(row)[16 - (PAGE_USABLE - size)]
  {
    hide Get32, U32, EmptyPage, Poke, Encode;
    var data, size := EmptyPage(), |Encode(row)|;
    var start := PAGE_USABLE - size;
    var a := Poke(data, start, Encode(row));
    var b := Poke(a, 8, U32(start));
    var c := Poke(b, 12, U32(size));
    PokeAt(data, start, Encode(row), i);
    PokeAt(a, 8, U32(start), i);
    PokeAt(b, 12, U32(size), i);
    PokeAt(c, 0, U32(1), i);
    PokeAt(Poke(c, 0, U32(1)), 4, U32(start), i);
  }

  /**
   Such a record overlaps its own slot: the slot is written over the record's column count, and
   the row that comes back has a different number of columns - except in the one case where the
   bytes of the slot happen to say the same, eight columns in a record of the longest size.
   */
  lemma OversizeIsLost(row: Row)
    requires RowStorable(row) && LARGEST_FIT < |Encode(row)| <= LARGEST_ALLOWED
    ensures |EmptyPage()| == PAGE_SIZE && SlotCount(EmptyPage()) == 0 && DataStart(EmptyPage()) == PAGE_USABLE
    ensures Get16(PageInsert(EmptyPage(), row), PAGE_USABLE - |Encode(row)|) == |row|
       <==> |row| == 8 && |Encode(row)| == LARGEST_ALLOWED
  {
    hide EmptyPage, PageInsert, U32, Get16;
    EmptyPageOk();
    OversizeHead(row);
    EncodedCount(row);
    CountMisread(PageInsert(EmptyPage(), row), |Encode(row)|, |row|);
  }

  lemma EncodedCount(row: Row)
    requires RowStorable(row)
    ensures |Encode(row)| > 2 ==> row != []
    ensures |Encode(row)| >= 2 && Encode(row)[1] == 0
  {
  }

  lemma CountMisread(out: Bytes, size: nat, ncols: nat)
    requires |out| == PAGE_SIZE && LARGEST_FIT < size <= LARGEST_ALLOWED && 0 < ncols <= MAX_COLS
    requires out[8..12] == U32(PAGE_USABLE - size) && out[12..16] == U32(size) && (PAGE_USABLE - size == 15 ==> out[16] == 0)
    ensures Get16(out, PAGE_USABLE - size) == ncols <==> ncols == 8 && size == LARGEST_ALLOWED
  {
    var start := PAGE_USABLE - size;
    var low, high := out[8..12], out[12..16];
    assert out[8] == low[0] && out[9] == low[1] && out[10] == low[2] && out[11] == low[3];
    assert out[12] == high[0] && out[13] == high[1] && out[14] == high[2] && out[15] == high[3];
    assert low == [start, 0, 0, 0];
    assert high[1] == 31 && high[2] == 0 && high[3] == 0;
    assert start == 11 ==> high[0] == 237;
  }

  /** One column of 8163 bytes of text is enough: 8169 bytes, accepted, and not one column when read. */
  lemma OversizeExample()
    ensures var row := [Text(seq(8163, _ => 65))];
            && RowStorable(row) && |Encode(row)| == 8169 <= LARGEST_ALLOWED
            && |EmptyPage()| == PAGE_SIZE && SlotCount(EmptyPage()) == 0 && DataStart(EmptyPage()) == PAGE_USABLE
            && Get16(PageInsert(EmptyPage(), row), PAGE_USABLE - |Encode(row)|) != |row|
  {
    hide EmptyPage, PageInsert, Get16;
    var row := [Text(seq(8163, _ => 65))];
    assert Sizes(row, 1) == Sizes(row, 0) + FieldSize(row[0]);
    SizesIs(row, 1);
    OversizeIsLost(row);
  }
}
