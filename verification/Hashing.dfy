/** hashValue and hashKey (06_executor.c:60-112): 32-bit FNV-1a over what a value carries. */
module Hashing {
  import opened Values

  const FNV_BASIS: bv32 := 2166136261
  const FNV_PRIME: bv32 := 16777619
  const NULL_MIX: bv32 := 0x9E3779B9

  /** One FNV-1a round; 32-bit multiplication wraps. */
  function Mix(hash: bv32, bits: bv32): bv32 {
    (hash ^ bits) * FNV_PRIME
  }

  function Fold(hash: bv32, bytes: Bytes): bv32
    decreases |bytes|
  {
    if bytes == [] then hash
    else Fold(Mix(hash, bytes[0] as bv32), bytes[1..])
  }

  /** The four bytes of a 32-bit integer, low byte first. */
  function WordBytes(i: Int32): Bytes {
    var bits := i % 0x1_0000_0000;
    [bits % 256, bits / 0x100 % 256, bits / 0x1_0000 % 256, bits / 0x100_0000 % 256]
  }

  function HashBits(v: Value): bv32 {
    match v
    case Null(_) => FNV_BASIS ^ NULL_MIX
    case Int(i) => Fold(FNV_BASIS, WordBytes(i))
    case Date(d) => Fold(FNV_BASIS, WordBytes(d))
    case Text(t) => Fold(FNV_BASIS, t)
  }

  function HashValue(v: Value): nat {
    HashBits(v) as nat
  }

  function FoldValues(hash: bv32, key: seq<Value>): bv32
    decreases |key|
  {
    if key == [] then hash
    else FoldValues(Mix(hash, HashBits(key[0])), key[1..])
  }

  function HashKey(key: seq<Value>): nat {
    FoldValues(FNV_BASIS, key) as nat
  }

  /** Two keys that grouping and DISTINCT hold equal: NULLs match NULLs of any type. */
  predicate KeysEqual(a: seq<Value>, b: seq<Value>) {
    |a| == |b| && forall k :: 0 <= k < |a| ==> ValuesEqual(a[k], b[k])
  }

  lemma EqualValuesHashAlike(a: Value, b: Value)
    requires ValuesEqual(a, b)
    ensures HashBits(a) == HashBits(b)
  {
    if !a.Null? {
      SameIsEqual(a, b);
    }
  }

  lemma {:induction false} FoldAlike(hash: bv32, a: seq<Value>, b: seq<Value>)
    requires KeysEqual(a, b)
    ensures FoldValues(hash, a) == FoldValues(hash, b)
    decreases |a|
  {
    hide Mix, HashBits;
    if a != [] {
      EqualValuesHashAlike(a[0], b[0]);
      FoldAlike(Mix(hash, HashBits(a[0])), a[1..], b[1..]);
    }
  }

  /** Keys that are equal hash alike, which is all that a table keyed on the hash needs. */
  lemma EqualKeysHashAlike(a: seq<Value>, b: seq<Value>)
    requires KeysEqual(a, b)
    ensures HashKey(a) == HashKey(b)
  {
    FoldAlike(FNV_BASIS, a, b);
  }

  lemma KeysEqualIsEquivalence(a: seq<Value>, b: seq<Value>, c: seq<Value>)
    ensures KeysEqual(a, a)
    ensures KeysEqual(a, b) ==> KeysEqual(b, a)
    ensures KeysEqual(a, b) && KeysEqual(b, c) ==> KeysEqual(a, c)
  {
    forall x: Value, y: Value ensures ValuesEqual(x, y) <==> (x.Null? && y.Null?) || (!x.Null? && x == y) {
      if Comparable(x, y) {
        SameIsEqual(x, y);
      }
    }
  }
}
