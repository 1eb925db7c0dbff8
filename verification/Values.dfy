/**
 Values, and the two orders the engine has on them (07_storage.c). Floats are not part of
 the model, and neither are the pointers text lives behind: a text is its bytes.
 */
module Values {
  type Byte = b: int | 0 <= b < 256
  type Bytes = seq<Byte>
  type Int32 = i: int | -0x8000_0000 <= i < 0x8000_0000

  datatype ColType = IntType | TextType | DateType

  /** The operators a comparison in a condition may use. */
  datatype CompareOp = Eq | Ne | Lt | Lte | Gt | Gte | Like | NotLike | IsNull | IsNotNull | In | Exists

  datatype Value =
    | Null(kind: ColType)
    | Int(number: Int32)
    | Date(day: Int32)
    | Text(text: Bytes)

  /** indexableOperator: what a tree can be searched by. */
  predicate Indexable(op: CompareOp) {
    op.Eq? || op.Lt? || op.Lte? || op.Gt? || op.Gte?
  }

  function TypeOf(v: Value): ColType {
    match v
    case Null(kind) => kind
    case Int(_) => IntType
    case Date(_) => DateType
    case Text(_) => TextType
  }

  /** Two values `compareValues` may be asked about. */
  predicate Comparable(a: Value, b: Value) {
    !a.Null? && !b.Null? && TypeOf(a) == TypeOf(b)
  }

  /** memcmp over the first n bytes, as a sign. */
  function Memcmp(a: Bytes, b: Bytes, n: nat): (order: int)
    requires n <= |a| && n <= |b|
    ensures -1 <= order <= 1
    ensures order == 0 <==> a[..n] == b[..n]
  {
    if n == 0 then 0
    else if a[0] != b[0] then (if a[0] < b[0] then -1 else 1)
    else
      var order := Memcmp(a[1..], b[1..], n - 1);
      assert a[..n] == [a[0]] + a[1..][..n - 1];
      assert b[..n] == [b[0]] + b[1..][..n - 1];
      order
  }

  function Min(a: nat, b: nat): nat {
    if a < b then a else b
  }

  function Sign(a: int, b: int): int {
    if a < b then -1 else if a > b then 1 else 0
  }

  /** compareText: the shared bytes first, then the lengths. */
  function CompareText(a: Bytes, b: Bytes): int {
    var order := Memcmp(a, b, Min(|a|, |b|));
    if order != 0 then order else Sign(|a|, |b|)
  }

  function CompareValues(a: Value, b: Value): int
    requires Comparable(a, b)
  {
    match a
    case Int(i) => Sign(i, b.number)
    case Date(d) => Sign(d, b.day)
    case Text(t) => CompareText(t, b.text)
  }

  /** valuesSame: equality that never needs an order. */
  predicate ValuesSame(a: Value, b: Value)
    requires Comparable(a, b)
  {
    match a
    case Int(i) => i == b.number
    case Date(d) => d == b.day
    case Text(t) => |t| == |b.text| && Memcmp(t, b.text, |t|) == 0
  }

  /** valuesEqual: equality for grouping, where NULLs belong together whatever their type. */
  predicate ValuesEqual(a: Value, b: Value) {
    if a.Null? || b.Null? then a.Null? && b.Null?
    else TypeOf(a) == TypeOf(b) && ValuesSame(a, b)
  }

  lemma SameIsEqual(a: Value, b: Value)
    requires Comparable(a, b)
    ensures ValuesSame(a, b) <==> a == b
    ensures ValuesSame(a, b) <==> CompareValues(a, b) == 0
  {
    if a.Text? {
      assert a.text[..|a.text|] == a.text;
      assert b.text[..|b.text|] == b.text;
    }
  }

  /** For grouping, two values are equal when they are the same value, or both NULL. */
  lemma GroupedAlike(a: Value, b: Value)
    ensures ValuesEqual(a, b) <==> if a.Null? || b.Null? then a.Null? && b.Null? else a == b
  {
    if Comparable(a, b) {
      SameIsEqual(a, b);
    }
  }

  /** The text order one byte at a time. */
  lemma CompareTextStep(a: Bytes, b: Bytes)
    ensures a == [] || b == [] ==> CompareText(a, b) == Sign(|a|, |b|)
    ensures a != [] && b != [] ==>
              CompareText(a, b) == if a[0] != b[0] then Sign(a[0], b[0]) else CompareText(a[1..], b[1..])
  {
  }

  // ---------- what the order means ----------

  /** Bytes are unsigned, the first that differs decides, and a text comes before its extensions. */
  ghost predicate TextLower(a: Bytes, b: Bytes) {
    exists k :: 0 <= k < |b| && k <= |a| && a[..k] == b[..k] && (k == |a| || a[k] < b[k])
  }

  /** NULL is below every value; numbers and dates go by size; values of two types are not ordered. */
  ghost predicate Lower(a: Value, b: Value) {
    match a
    case Null(_) => !b.Null?
    case Int(i) => b.Int? && i < b.number
    case Date(d) => b.Date? && d < b.day
    case Text(t) => b.Text? && TextLower(t, b.text)
  }

  /** Where two byte strings first differ decides. */
  lemma {:induction false} FirstDifference(a: Bytes, b: Bytes, n: nat) returns (k: nat)
    requires n <= |a| && n <= |b|
    ensures k <= n && a[..k] == b[..k] && (k < n ==> a[k] != b[k])
    ensures Memcmp(a, b, n) == if k == n then 0 else Sign(a[k], b[k])
    decreases n
  {
    k := 0;
    if n > 0 && a[0] == b[0] {
      var x, y := a[1..], b[1..];
      var rest := FirstDifference(x, y, n - 1);
      k := rest + 1;
      assert a[..k] == [a[0]] + x[..rest] && b[..k] == [b[0]] + y[..rest];
      assert rest < n - 1 ==> a[k] == x[rest] && b[k] == y[rest];
    }
  }

  lemma MemcmpIs(a: Bytes, b: Bytes, n: nat)
    requires n <= |a| && n <= |b|
    ensures Memcmp(a, b, n) < 0 <==> exists k :: 0 <= k < n && a[..k] == b[..k] && a[k] < b[k]
    ensures Memcmp(a, b, n) > 0 <==> exists k :: 0 <= k < n && a[..k] == b[..k] && b[k] < a[k]
  {
    hide Memcmp;
    var first := FirstDifference(a, b, n);
    PrefixSame(a, b, first);
    forall k | 0 <= k < n && a[..k] == b[..k] && a[k] != b[k] ensures k == first {
      PrefixSame(a, b, k);
    }
  }

  lemma PrefixSame(a: Bytes, b: Bytes, k: nat)
    requires k <= |a| && k <= |b| && a[..k] == b[..k]
    ensures forall i :: 0 <= i < k ==> a[i] == b[i]
  {
    forall i | 0 <= i < k ensures a[i] == b[i] {
      assert a[..k][i] == b[..k][i];
    }
  }

  lemma CompareTextIsLower(a: Bytes, b: Bytes)
    ensures CompareText(a, b) < 0 <==> TextLower(a, b)
    ensures CompareText(a, b) > 0 <==> TextLower(b, a)
    ensures CompareText(a, b) == 0 <==> a == b
  {
    hide Memcmp;
    var n := Min(|a|, |b|);
    MemcmpIs(a, b, n);
    assert a[..|a|] == a && b[..|b|] == b;
    if Memcmp(a, b, n) == 0 {
      assert a[..n] == b[..n];
      forall k | 0 <= k < n ensures a[k] == b[k] {
        assert a[..n][k] == b[..n][k];
      }
    }
  }

  /** compareValues is that order. */
  lemma CompareIsLower(a: Value, b: Value)
    requires Comparable(a, b)
    ensures CompareValues(a, b) < 0 <==> Lower(a, b)
    ensures CompareValues(a, b) > 0 <==> Lower(b, a)
    ensures CompareValues(a, b) == 0 <==> a == b
  {
    if a.Text? {
      CompareTextIsLower(a.text, b.text);
    }
  }
}
