/**
 Keys as an index stores them (11_index.c): an int or a date biased to an unsigned word, a
 text cut to at most INDEX_KEY_MAX bytes, stored beside the length it had.

 `Rank` places every stored key on the integer line so that `CompareKeys` is the order of
 the integers; the tree proofs only ever talk about ranks.
 */
module IndexKeys {
  import opened Common
  import opened Values

  const INDEX_KEY_MAX := 40
  const INDEX_ENTRY_INT := 8
  const INDEX_ENTRY_TEXT := 52
  const INDEX_HEADER := 16
  const INDEX_SPACE := PAGE_USABLE - INDEX_HEADER

  datatype StoredKey = IntKey(bits: nat) | TextKey(bytes: Bytes, fullLength: nat)

  function Truncate(t: Bytes): Bytes {
    if |t| < INDEX_KEY_MAX then t else t[..INDEX_KEY_MAX]
  }

  function MakeKey(v: Value): StoredKey {
    match v
    case Int(i) => IntKey(i + 0x8000_0000)
    case Date(d) => IntKey(d + 0x8000_0000)
    case Text(t) => TextKey(Truncate(t), |t|)
    case Null(kind) => if kind.TextType? then TextKey([], 0) else IntKey(0x8000_0000)
  }

  /** What makeKey can have produced. */
  predicate KeyOk(k: StoredKey) {
    match k
    case IntKey(bits) => bits < 0x1_0000_0000
    case TextKey(bytes, fullLength) => |bytes| == Min(fullLength, INDEX_KEY_MAX)
  }

  predicate SameKind(a: StoredKey, b: StoredKey) {
    a.IntKey? == b.IntKey?
  }

  function CompareKeys(a: StoredKey, b: StoredKey): int
    requires SameKind(a, b)
  {
    if a.IntKey? then Sign(a.bits, b.bits)
    else
      var order := Memcmp(a.bytes, b.bytes, Min(|a.bytes|, |b.bytes|));
      if order != 0 then order
      else if |a.bytes| != |b.bytes| then Sign(|a.bytes|, |b.bytes|)
      else if |a.bytes| == INDEX_KEY_MAX && a.fullLength != b.fullLength then 0
      else Sign(a.fullLength, b.fullLength)
  }

  // ---------- ranks ----------

  /** 257 to the power n: one digit per byte, and one more for "no byte here". */
  ghost function Width(n: nat): (w: nat)
    ensures w > 0
  {
    if n == 0 then 1 else 257 * Width(n - 1)
  }

  ghost function Digit(t: Bytes): nat {
    if t == [] then 0 else t[0] as int + 1
  }

  ghost function Rest(t: Bytes): Bytes {
    if t == [] then [] else t[1..]
  }

  ghost function TextRank(t: Bytes, n: nat): nat
    decreases n
  {
    if n == 0 then 0 else Digit(t) * Width(n - 1) + TextRank(Rest(t), n - 1)
  }

  ghost function Rank(k: StoredKey): nat {
    match k
    case IntKey(bits) => bits
    case TextKey(bytes, _) => TextRank(bytes, INDEX_KEY_MAX)
  }

  lemma Scale(a: nat, b: nat, w: nat)
    requires a < b
    ensures a * w + w <= b * w
    decreases b
  {
    if a + 1 < b {
      Scale(a, b - 1, w);
    }
    assert b * w == (b - 1) * w + w;
  }

  lemma {:induction false} TextRankBound(t: Bytes, n: nat)
    ensures TextRank(t, n) < Width(n)
    decreases n
  {
    if n > 0 {
      TextRankBound(Rest(t), n - 1);
      Scale(Digit(t), 257, Width(n - 1));
    }
  }

  /** Rank order is text order, as far as n bytes go. */
  lemma {:induction false} TextRankOrder(a: Bytes, b: Bytes, n: nat)
    requires |a| <= n && |b| <= n
    ensures Sign(TextRank(a, n), TextRank(b, n)) == CompareText(a, b)
    decreases n
  {
    CompareTextStep(a, b);
    if n > 0 {
      TextRankBound(Rest(a), n - 1);
      TextRankBound(Rest(b), n - 1);
      if Digit(a) < Digit(b) {
        Scale(Digit(a), Digit(b), Width(n - 1));
      } else if Digit(b) < Digit(a) {
        Scale(Digit(b), Digit(a), Width(n - 1));
      } else {
        TextRankOrder(Rest(a), Rest(b), n - 1);
        CompareTextStep(Rest(a), Rest(b));
      }
    }
  }

  /** compareKeys is the order of the ranks, so it is a total preorder. */
  lemma CompareIsRank(a: StoredKey, b: StoredKey)
    requires SameKind(a, b) && KeyOk(a) && KeyOk(b)
    ensures CompareKeys(a, b) == Sign(Rank(a), Rank(b))
  {
    if a.TextKey? {
      TextRankOrder(a.bytes, b.bytes, INDEX_KEY_MAX);
    }
  }

  /** No key of this kind ranks higher. */
  ghost function RankLimit(text: bool): nat {
    if text then Width(INDEX_KEY_MAX) else 0x1_0000_0000
  }

  lemma RankBounded(k: StoredKey)
    requires KeyOk(k)
    ensures Rank(k) <= RankLimit(k.TextKey?)
  {
    if k.TextKey? {
      TextRankBound(k.bytes, INDEX_KEY_MAX);
    }
  }

  // ---------- truncation ----------

  lemma MakeKeyOk(v: Value)
    ensures KeyOk(MakeKey(v)) && MakeKey(v).TextKey? == TypeOf(v).TextType?
  {
  }

  lemma CutTail(b: Bytes, n: nat)
    requires b != [] && n > 0
    ensures b[..Min(|b|, n)] != [] && b[..Min(|b|, n)][0] == b[0]
    ensures b[..Min(|b|, n)][1..] == b[1..][..Min(|b[1..]|, n - 1)]
  {
  }

  lemma {:induction false} TruncateMonotone(a: Bytes, b: Bytes, n: nat)
    requires CompareText(a, b) <= 0
    ensures CompareText(a[..Min(|a|, n)], b[..Min(|b|, n)]) <= 0
    decreases n
  {
    CompareTextStep(a, b);
    var ta, tb := a[..Min(|a|, n)], b[..Min(|b|, n)];
    CompareTextStep(ta, tb);
    if n > 0 && a != [] && b != [] && a[0] == b[0] {
      TruncateMonotone(a[1..], b[1..], n - 1);
      CutTail(a, n);
      CutTail(b, n);
    }
  }

  /** Cutting keys short can merge values but never reorder them. */
  lemma MakeKeyMonotone(a: Value, b: Value)
    requires Comparable(a, b) && CompareValues(a, b) <= 0
    ensures Rank(MakeKey(a)) <= Rank(MakeKey(b))
  {
    if a.Text? {
      TruncateMonotone(a.text, b.text, INDEX_KEY_MAX);
      assert Truncate(a.text) == a.text[..Min(|a.text|, INDEX_KEY_MAX)];
      assert Truncate(b.text) == b.text[..Min(|b.text|, INDEX_KEY_MAX)];
      TextRankOrder(Truncate(a.text), Truncate(b.text), INDEX_KEY_MAX);
    }
  }

  // ---------- what a stored key tells apart ----------

  lemma TruncateIs(t: Bytes)
    ensures Truncate(t) <= t && |Truncate(t)| == Min(|t|, INDEX_KEY_MAX)
  {
  }

  /**
   Stored keys order numbers and dates exactly as their values, and texts as their first
   INDEX_KEY_MAX bytes, so two texts only share a key when they share those bytes.
   */
  lemma MakeKeyExact(a: Value, b: Value)
    requires Comparable(a, b)
    ensures !a.Text? ==> (Rank(MakeKey(a)) < Rank(MakeKey(b)) <==> Lower(a, b)) && (Rank(MakeKey(a)) == Rank(MakeKey(b)) <==> a == b)
    ensures a.Text? ==> (Rank(MakeKey(a)) < Rank(MakeKey(b)) <==> TextLower(Truncate(a.text), Truncate(b.text)))
    ensures a.Text? ==> (Rank(MakeKey(a)) == Rank(MakeKey(b)) <==> Truncate(a.text) == Truncate(b.text))
  {
    hide TextRank, TextLower;
    if a.Text? {
      TruncateIs(a.text);
      TruncateIs(b.text);
      TextRankOrder(Truncate(a.text), Truncate(b.text), INDEX_KEY_MAX);
      CompareTextIsLower(Truncate(a.text), Truncate(b.text));
    }
  }
}
