/**
 Records (07_storage.c:184-280, 07_storage.c:518-566): a row as bytes in a page, written field
 by field and read back by walking the fields in order.
 */
module Records {
  import opened Common
  import opened Values

  const TEXT_LIMIT := 0x1_0000

  type Row = seq<Value>

  // ---------- little-endian fields ----------

  function U16(n: nat): (b: Bytes)
    requires n < 0x1_0000
    ensures |b| == 2
  {
    [n % 256, n / 256]
  }

  function U32(n: nat): (b: Bytes)
    requires n < 0x1_0000_0000
    ensures |b| == 4
  {
    [n % 256, n / 256 % 256, n / 65536 % 256, n / 16777216]
  }

  function Get16(b: Bytes, at: nat): (n: nat)
    requires at + 2 <= |b|
    ensures n < 0x1_0000
  {
    (b[at] as int) + 256 * (b[at + 1] as int)
  }

  function Get32(b: Bytes, at: nat): (n: nat)
    requires at + 4 <= |b|
    ensures n < 0x1_0000_0000
  {
    (b[at] as int) + 256 * (b[at + 1] as int) + 65536 * (b[at + 2] as int) + 16777216 * (b[at + 3] as int)
  }

  lemma Get16Put(b: Bytes, at: nat, n: nat)
    requires n < 0x1_0000 && at + 2 <= |b| && b[at..at + 2] == U16(n)
    ensures Get16(b, at) == n
  {
    assert b[at] == b[at..at + 2][0] && b[at + 1] == b[at..at + 2][1];
  }

  lemma U32Adds(n: nat)
    requires n < 0x1_0000_0000
    ensures Get32(U32(n), 0) == n
  {
    assert n / 256 / 256 == n / 65536 && n / 65536 / 256 == n / 16777216;
  }

  lemma Get32Put(b: Bytes, at: nat, n: nat)
    requires n < 0x1_0000_0000 && at + 4 <= |b| && b[at..at + 4] == U32(n)
    ensures Get32(b, at) == n
  {
    hide U32;
    U32Adds(n);
    var w := b[at..at + 4];
    assert b[at] == w[0] && b[at + 1] == w[1] && b[at + 2] == w[2] && b[at + 3] == w[3];
  }

  /** An int as the unsigned word that is stored, and back. */
  function Word(i: Int32): (n: nat)
    ensures n < 0x1_0000_0000
  {
    if i < 0 then i + 0x1_0000_0000 else i
  }

  function Signed(n: nat): (i: Int32)
    requires n < 0x1_0000_0000
    ensures Word(i) == n
  {
    if n >= 0x8000_0000 then n - 0x1_0000_0000 else n
  }

  // ---------- the format ----------

  const INT_TAG: Byte := 0
  const TEXT_TAG: Byte := 1
  const DATE_TAG: Byte := 3

  function Field(v: Value): Bytes
    requires Storable(v)
  {
    match v
    case Null(_) => [1]
    case Int(i) => [0, INT_TAG] + U32(Word(i))
    case Date(d) => [0, DATE_TAG] + U32(Word(d))
    case Text(t) => [0, TEXT_TAG] + U16(|t|) + t
  }

  predicate Storable(v: Value) {
    v.Text? ==> |v.text| < TEXT_LIMIT
  }

  predicate RowStorable(row: Row) {
    |row| <= MAX_COLS && forall c :: 0 <= c < |row| ==> Storable(row[c])
  }

  /** The bytes of the first n fields. */
  function Fields(row: Row, n: nat): Bytes
    requires RowStorable(row) && n <= |row|
  {
    if n == 0 then [] else Fields(row, n - 1) + Field(row[n - 1])
  }

  function Encode(row: Row): Bytes
    requires RowStorable(row)
  {
    U16(|row|) + Fields(row, |row|)
  }

  /** What a value reads back as: a NULL forgets its type, for the schema to supply. */
  function AsRead(v: Value): Value {
    if v.Null? then Null(TextType) else v
  }

  function RowAsRead(row: Row): (r: Row)
    ensures |r| == |row| && forall c :: 0 <= c < |row| ==> r[c] == AsRead(row[c])
  {
    seq(|row|, c requires 0 <= c < |row| => AsRead(row[c]))
  }

  lemma {:induction false} FieldsPrefix(row: Row, n: nat, m: nat)
    requires RowStorable(row) && n <= m <= |row|
    ensures |Fields(row, n)| <= |Fields(row, m)| && Fields(row, m)[..|Fields(row, n)|] == Fields(row, n)
    decreases m
  {
    hide Field, RowStorable;
    if n < m {
      FieldsPrefix(row, n, m - 1);
      var k, before := |Fields(row, n)|, Fields(row, m - 1);
      assert Fields(row, m)[..k] == before[..k];
    }
  }

  /** Where field c lies in a record. */
  lemma FieldAt(row: Row, c: nat)
    requires RowStorable(row) && c < |row|
    ensures var at, field := 2 + |Fields(row, c)|, Field(row[c]);
            at + |field| == 2 + |Fields(row, c + 1)| <= |Encode(row)| && Encode(row)[at..at + |field|] == field
  {
    hide Field, U16;
    FieldsPrefix(row, c + 1, |row|);
    var f, head, from, to := Fields(row, |row|), U16(|row|), |Fields(row, c)|, |Fields(row, c + 1)|;
    assert Fields(row, c + 1)[from..to] == Field(row[c]);
    SliceOfSlice(f, 0, to, from, to);
    assert f[0..to] == f[..to];
    SliceOfSlice(Encode(row), 2, |Encode(row)|, from, to);
    assert Encode(row)[2..] == f;
  }

  // ---------- measuring and writing ----------

  function FieldSize(v: Value): nat {
    if v.Null? then 1 else if v.Text? then 4 + |v.text| else 6
  }

  lemma FieldSizeIs(v: Value)
    requires Storable(v)
    ensures |Field(v)| == FieldSize(v)
  {
  }

  /** The fields' sizes added up, which is defined for any row whatever. */
  function Sizes(row: Row, n: nat): nat
    requires n <= |row|
  {
    if n == 0 then 0 else Sizes(row, n - 1) + FieldSize(row[n - 1])
  }

  lemma {:induction false} SizesIs(row: Row, n: nat)
    requires RowStorable(row) && n <= |row|
    ensures |Fields(row, n)| == Sizes(row, n)
    decreases n
  {
    if n > 0 {
      SizesIs(row, n - 1);
      FieldSizeIs(row[n - 1]);
    }
  }

  /** A row short enough for a page has texts short enough for their length field. */
  lemma {:induction false} SmallIsStorable(row: Row, n: nat)
    requires n <= |row| && Sizes(row, n) < TEXT_LIMIT
    ensures forall c :: 0 <= c < n ==> Storable(row[c])
    decreases n
  {
    if n > 0 {
      SmallIsStorable(row, n - 1);
    }
  }

  /** recordSize. */
  method RecordSize(row: Row) returns (size: nat)
    ensures size == 2 + Sizes(row, |row|)
    ensures RowStorable(row) ==> size == |Encode(row)|
  {
    size := 2;
    for c := 0 to |row|
      invariant size == 2 + Sizes(row, c)
    {
      size := size + 1;
      if !row[c].Null? {
        size := size + 1;
        size := size + if row[c].Text? then 2 + |row[c].text| else 4;
      }
    }
    if RowStorable(row) {
      SizesIs(row, |row|);
    }
  }

  /** A page with some of its bytes replaced. */
  function Poke(data: Bytes, at: nat, bytes: Bytes): (out: Bytes)
    requires at + |bytes| <= |data|
    ensures |out| == |data|
  {
    data[..at] + bytes + data[at + |bytes|..]
  }

  lemma PokeAt(data: Bytes, at: nat, bytes: Bytes, i: nat)
    requires at + |bytes| <= |data| && i < |data|
    ensures Poke(data, at, bytes)[i] == if at <= i < at + |bytes| then bytes[i - at] else data[i]
  {
  }

  lemma PokeReads(data: Bytes, at: nat, bytes: Bytes, from: nat, to: nat)
    requires at + |bytes| <= |data| && from <= to <= |data|
    ensures from == at && to == at + |bytes| ==> Poke(data, at, bytes)[from..to] == bytes
    ensures to <= at || at + |bytes| <= from ==> Poke(data, at, bytes)[from..to] == data[from..to]
  {
    hide Poke;
    forall i | from <= i < to
      ensures Poke(data, at, bytes)[i] == if at <= i < at + |bytes| then bytes[i - at] else data[i]
    {
      PokeAt(data, at, bytes, i);
    }
  }

  lemma PokeTwice(data: Bytes, at: nat, a: Bytes, b: Bytes)
    requires at + |a| + |b| <= |data|
    ensures Poke(Poke(data, at, a), at + |a|, b) == Poke(data, at, a + b)
  {
  }

  method PutBytes(data: array<Byte>, at: nat, bytes: Bytes)
    requires at + |bytes| <= data.Length
    modifies data
    ensures data[..] == Poke(old(data[..]), at, bytes)
  {
    ghost var given := data[..];
    for i := 0 to |bytes|
      invariant forall k :: 0 <= k < i ==> data[at + k] == bytes[k]
      invariant forall k :: 0 <= k < at || at + i <= k < data.Length ==> data[k] == given[k]
    {
      data[at + i] := bytes[i];
    }
    assert forall k :: at <= k < at + |bytes| ==> data[k] == bytes[k - at];
  }

  /** writeRecord: the encoding of the row, where the caller says, and nothing else. */
  method WriteRecord(data: array<Byte>, at: nat, row: Row)
    requires RowStorable(row) && at + |Encode(row)| <= data.Length
    modifies data
    ensures data[..] == Poke(old(data[..]), at, Encode(row))
  {
    hide Field, U16, Poke;
    ghost var given := data[..];
    var head := U16(|row|);
    PutBytes(data, at, head);
    assert head + Fields(row, 0) == head;
    var n := 2;
    for c := 0 to |row|
      invariant n == 2 + |Fields(row, c)| <= |Encode(row)|
      invariant data[..] == Poke(given, at, head + Fields(row, c))
    {
      FieldAt(row, c);
      ghost var sofar := head + Fields(row, c);
      PutBytes(data, at + n, Field(row[c]));
      PokeTwice(given, at, sofar, Field(row[c]));
      assert sofar + Field(row[c]) == head + Fields(row, c + 1);
      n := n + |Field(row[c])|;
    }
  }

  // ---------- reading ----------

  /** One field, and where the next begins. */
  method ReadField(data: array<Byte>, at: nat, ghost v: Value) returns (value: Value, next: nat)
    requires Storable(v) && at + |Field(v)| <= data.Length && data[at..at + |Field(v)|] == Field(v)
    ensures value == AsRead(v) && next == at + |Field(v)|
  {
    ghost var field := Field(v);
    assert forall i :: 0 <= i < |field| ==> data[at + i] == field[i];
    assert data[at + 0] == field[0];
    assert field[0] != 0 <==> v.Null?;
    if data[at] != 0 {
      return Null(TextType), at + 1;
    }
    var tag := data[at + 1];
    if tag == INT_TAG || tag == DATE_TAG {
      assert data[..][at + 2..at + 6] == field[2..6];
      Get32Put(data[..], at + 2, Word(if v.Int? then v.number else v.day));
      var i := Signed(Get32(data[..], at + 2));
      return if tag == INT_TAG then Int(i) else Date(i), at + 6;
    }
    assert data[..][at + 2..at + 4] == field[2..4];
    Get16Put(data[..], at + 2, |v.text|);
    var length := Get16(data[..], at + 2);
    assert data[at + 4..at + 4 + length] == field[4..];
    return Text(data[at + 4..at + 4 + length]), at + 4 + length;
  }

  lemma SliceOfSlice(data: Bytes, a: nat, b: nat, x: nat, y: nat)
    requires a <= b <= |data| && x <= y <= b - a
    ensures data[a..b][x..y] == data[a + x..a + y]
  {
    forall i | 0 <= i < y - x ensures data[a..b][x..y][i] == data[a + x..a + y][i] {
      assert data[a..b][x + i] == data[a + x + i];
    }
  }

  lemma FieldInPage(data: Bytes, at: nat, row: Row, c: nat)
    requires RowStorable(row) && c < |row| && at + |Encode(row)| <= |data| && data[at..at + |Encode(row)|] == Encode(row)
    ensures var from, field := at + 2 + |Fields(row, c)|, Field(row[c]);
            from + |field| <= |data| && from + |field| == at + 2 + |Fields(row, c + 1)| && data[from..from + |field|] == field
  {
    hide Field, Fields, Encode;
    FieldAt(row, c);
    var from, field := 2 + |Fields(row, c)|, Field(row[c]);
    SliceOfSlice(data, at, at + |Encode(row)|, from, from + |field|);
  }

  lemma CountInPage(data: Bytes, at: nat, row: Row)
    requires RowStorable(row) && at + |Encode(row)| <= |data| && data[at..at + |Encode(row)|] == Encode(row)
    ensures at + 2 <= |data| && Get16(data, at) == |row|
  {
    assert data[at..at + 2] == data[at..at + |Encode(row)|][..2] == U16(|row|);
    Get16Put(data, at, |row|);
  }

  /** readRecord: the row that was written, up to the type of its NULLs. */
  method ReadRecord(data: array<Byte>, at: nat, ghost row: Row) returns (out: Row)
    requires RowStorable(row) && at + |Encode(row)| <= data.Length && data[at..at + |Encode(row)|] == Encode(row)
    ensures out == RowAsRead(row)
  {
    hide Field, Get16, Encode, Fields;
    assert data[..][at..at + |Encode(row)|] == Encode(row);
    CountInPage(data[..], at, row);
    var ncols := Get16(data[..], at);
    var n := at + 2;
    out := [];
    NoFields(row);
    for c := 0 to ncols
      invariant n == at + 2 + |Fields(row, c)|
      invariant out == RowAsRead(row)[..c]
    {
      FieldInPage(data[..], at, row, c);
      var value;
      assert data[n..n + |Field(row[c])|] == data[..][n..n + |Field(row[c])|];
      value, n := ReadField(data, n, row[c]);
      out := out + [value];
    }
  }

  lemma NoFields(row: Row)
    requires RowStorable(row)
    ensures Fields(row, 0) == []
  {
  }

  /** A row buffer after decoding the columns up to `upto`: the rest keep what they had. */
  function Partly(row: Row, buffer: Row, upto: int): (out: Row)
    requires |row| <= |buffer|
    ensures |out| == |buffer|
  {
    var n := if upto < 0 then 0 else if upto >= |row| then |row| else upto + 1;
    RowAsRead(row)[..n] + buffer[n..]
  }

  /** decodeRecord: only as far as asked, over whatever the buffer held before. */
  method DecodeRecord(data: array<Byte>, at: nat, buffer: Row, upto: int, ghost row: Row) returns (out: Row)
    requires RowStorable(row) && at + |Encode(row)| <= data.Length && data[at..at + |Encode(row)|] == Encode(row)
    requires |buffer| == MAX_COLS
    ensures out == Partly(row, buffer, upto)
  {
    hide Field, Get16, Encode, Fields;
    assert data[..][at..at + |Encode(row)|] == Encode(row);
    CountInPage(data[..], at, row);
    var ncols := Get16(data[..], at);
    var last := if upto >= ncols then ncols - 1 else upto;
    last := if last >= MAX_COLS then MAX_COLS - 1 else last;
    var n := at + 2;
    out := buffer;
    NoFields(row);
    var c := 0;
    while c <= last
      invariant 0 <= c && (c == 0 || c <= last + 1) && last < |row| && n == at + 2 + |Fields(row, c)|
      invariant out == RowAsRead(row)[..c] + buffer[c..]
    {
      FieldInPage(data[..], at, row, c);
      var value;
      assert data[n..n + |Field(row[c])|] == data[..][n..n + |Field(row[c])|];
      value, n := ReadField(data, n, row[c]);
      out := out[c := value];
      c := c + 1;
    }
  }
}
