/**
 GROUP BY and DISTINCT (06_executor.c:1507-1604, 06_executor.c:1743-1772,
 06_executor.c:2230-2280): open-addressed tables beside what they stand for, the first
 occurrences of each key in the order they arrive.
 */
module Grouping {
  import opened Values
  import opened ProbeTable
  import opened Hashing

  type Key = seq<Value>

  const FIRST_BUCKETS := 256

  // ---------- what they compute ----------

  ghost predicate SeenBefore(keys: seq<Key>, key: Key) {
    exists j :: 0 <= j < |keys| && KeysEqual(keys[j], key)
  }

  /** Every key that no earlier one equals, in order of arrival. */
  ghost function FirstSeen(keys: seq<Key>): seq<Key> {
    if keys == [] then []
    else
      var front, last := keys[..|keys| - 1], keys[|keys| - 1];
      FirstSeen(front) + if SeenBefore(front, last) then [] else [last]
  }

  ghost predicate PairwiseDifferent(keys: seq<Key>) {
    forall i, j :: 0 <= i < j < |keys| ==> !KeysEqual(keys[i], keys[j])
  }

  /** A key has been seen exactly when its first occurrence has been kept. */
  lemma {:induction false} FirstSeenCovers(keys: seq<Key>, key: Key)
    ensures SeenBefore(keys, key) <==> SeenBefore(FirstSeen(keys), key)
  {
    if keys != [] {
      var front, last := keys[..|keys| - 1], keys[|keys| - 1];
      FirstSeenCovers(front, key);
      FirstSeenCovers(front, last);
      SeenAppend(front, last, key);
      SeenAppend(FirstSeen(front), last, key);
      assert keys == front + [last];
      assert FirstSeen(front) + [] == FirstSeen(front);
      if KeysEqual(last, key) && SeenBefore(front, last) {
        SeenEquals(front, last, key);
      }
    }
  }

  lemma SeenAppend(keys: seq<Key>, last: Key, key: Key)
    ensures SeenBefore(keys + [last], key) <==> SeenBefore(keys, key) || KeysEqual(last, key)
  {
    var all := keys + [last];
    assert all[|keys|] == last;
    assert forall j :: 0 <= j < |keys| ==> all[j] == keys[j];
  }

  lemma SeenEquals(keys: seq<Key>, a: Key, b: Key)
    requires SeenBefore(keys, a) && KeysEqual(a, b)
    ensures SeenBefore(keys, b)
  {
    var j :| 0 <= j < |keys| && KeysEqual(keys[j], a);
    KeysEqualIsEquivalence(keys[j], a, b);
  }

  lemma {:induction false} FirstSeenDiffer(keys: seq<Key>)
    ensures PairwiseDifferent(FirstSeen(keys))
  {
    if keys != [] {
      var front, last := keys[..|keys| - 1], keys[|keys| - 1];
      FirstSeenDiffer(front);
      FirstSeenCovers(front, last);
    }
  }

  /** No earlier key equals the one at i. */
  ghost predicate FirstAt(keys: seq<Key>, i: nat)
    requires i < |keys|
  {
    forall j :: 0 <= j < i ==> !KeysEqual(keys[j], keys[i])
  }

  ghost predicate FirstPositions(keys: seq<Key>, at: seq<nat>) {
    && Ascending(at)
    && (forall k :: 0 <= k < |at| ==> at[k] < |keys|)
    && forall i :: 0 <= i < |keys| ==> (i in at <==> FirstAt(keys, i))
  }

  lemma FirstAtFront(keys: seq<Key>, n: nat, i: nat)
    requires i < n <= |keys|
    ensures FirstAt(keys[..n], i) <==> FirstAt(keys, i)
  {
    assert forall j :: 0 <= j <= i ==> keys[..n][j] == keys[j];
  }

  lemma FirstAtLast(keys: seq<Key>)
    requires keys != []
    ensures FirstAt(keys, |keys| - 1) <==> !SeenBefore(keys[..|keys| - 1], keys[|keys| - 1])
  {
    assert forall j :: 0 <= j < |keys| - 1 ==> keys[..|keys| - 1][j] == keys[j];
  }

  /** What is kept is the first occurrence of each key itself, in the order they arrived. */
  lemma {:induction false} FirstSeenAre(keys: seq<Key>) returns (at: seq<nat>)
    ensures FirstPositions(keys, at)
    ensures |FirstSeen(keys)| == |at| && forall k :: 0 <= k < |at| ==> FirstSeen(keys)[k] == keys[at[k]]
  {
    hide FirstAt, SeenBefore;
    if keys == [] {
      at := [];
    } else {
      var n := |keys| - 1;
      var before := FirstSeenAre(keys[..n]);
      at := before + if SeenBefore(keys[..n], keys[n]) then [] else [n];
      FirstAtLast(keys);
      forall i | 0 <= i < |keys| ensures i in at <==> FirstAt(keys, i) {
        if i < n {
          FirstAtFront(keys, n, i);
        }
      }
    }
  }

  lemma FirstSeenStep(keys: seq<Key>, i: nat)
    requires i < |keys|
    ensures FirstSeen(keys[..i + 1])
         == FirstSeen(keys[..i]) + if SeenBefore(FirstSeen(keys[..i]), keys[i]) then [] else [keys[i]]
  {
    assert keys[..i + 1][..i] == keys[..i];
    FirstSeenCovers(keys[..i], keys[i]);
  }

  // ---------- a table of keys ----------

  /** The bucket each key belongs to. */
  ghost function Homes(keys: seq<Key>, n: nat): (homes: seq<nat>)
    requires n > 0
    ensures |homes| == |keys| && forall i :: 0 <= i < |keys| ==> homes[i] == Home(HashKey(keys[i]), n)
  {
    seq(|keys|, i requires 0 <= i < |keys| => Home(HashKey(keys[i]), n))
  }

  ghost predicate Holds(buckets: seq<nat>, keys: seq<Key>, dist: seq<nat>) {
    |keys| < |buckets| && Placed(buckets, Homes(keys, |buckets|), dist)
  }

  /**
   The walk both lookups make: the entry whose key equals this one, or else the bucket a new
   entry would go in.
   */
  method Find(buckets: array<nat>, keys: seq<Key>, key: Key, ghost dist: seq<nat>) returns (entry: int, probe: nat, ghost d: nat)
    requires Holds(buckets[..], keys, dist)
    ensures -1 <= entry < |keys|
    ensures entry >= 0 ==> KeysEqual(keys[entry], key)
    ensures entry < 0 ==> !SeenBefore(keys, key)
    ensures entry < 0 ==>
              && d < buckets.Length && probe == Slot(Home(HashKey(key), buckets.Length), d, buckets.Length)
              && buckets[probe] == 0
              && forall e :: 0 <= e < d ==> buckets[Slot(Home(HashKey(key), buckets.Length), e, buckets.Length)] != 0
  {
    hide Placed, HashKey, KeysEqual, Home;
    ghost var before := buckets[..];
    var n := buckets.Length;
    ghost var home, homes := Home(HashKey(key), n), Homes(keys, n);
    probe, d := Home(HashKey(key), n), 0;
    while buckets[probe] != 0
      invariant d < n && probe == Slot(home, d, n)
      invariant forall e :: 0 <= e < d ==> buckets[Slot(home, e, n)] != 0
      invariant forall e :: 0 <= e < d ==>
                  buckets[Slot(home, e, n)] <= |keys| && !KeysEqual(keys[buckets[Slot(home, e, n)] - 1], key)
      decreases n - d
    {
      BucketBelow(before, homes, dist, probe);
      if KeysEqual(keys[buckets[probe] - 1], key) {
        entry := buckets[probe] - 1;
        return;
      }
      ProbeEnds(before, homes, dist, home, d);
      NextSlotIs(home, d, n);
      probe := NextSlot(probe, n);
      d := d + 1;
    }
    entry := -1;
    NotThere(before, keys, dist, key, d);
  }

  lemma BucketBelow(buckets: seq<nat>, homes: seq<nat>, dist: seq<nat>, p: nat)
    requires Placed(buckets, homes, dist) && p < |buckets|
    ensures buckets[p] <= |homes|
  {
  }

  /** A key the walk did not meet before the first empty bucket is in no entry at all. */
  lemma NotThere(buckets: seq<nat>, keys: seq<Key>, dist: seq<nat>, key: Key, d: nat)
    requires Holds(buckets, keys, dist) && d < |buckets|
    requires buckets[Slot(Home(HashKey(key), |buckets|), d, |buckets|)] == 0
    requires forall e :: 0 <= e < d ==>
               var b := buckets[Slot(Home(HashKey(key), |buckets|), e, |buckets|)];
               b != 0 && b <= |keys| && !KeysEqual(keys[b - 1], key)
    ensures !SeenBefore(keys, key)
  {
    hide Placed, HashKey, Home, Slot, KeysEqual;
    var home, homes := Home(HashKey(key), |buckets|), Homes(keys, |buckets|);
    forall i | 0 <= i < |keys| ensures !KeysEqual(keys[i], key) {
      if KeysEqual(keys[i], key) {
        EqualKeysHashAlike(keys[i], key);
        SeenAll(buckets, homes, dist, home, d, i);
      }
    }
  }

  /** Filling the bucket a failed walk ended at. */
  lemma AddKey(buckets: seq<nat>, keys: seq<Key>, dist: seq<nat>, key: Key, d: nat)
    requires Holds(buckets, keys, dist) && d < |buckets| && |keys| + 1 < |buckets|
    requires buckets[Slot(Home(HashKey(key), |buckets|), d, |buckets|)] == 0
    requires forall e :: 0 <= e < d ==> buckets[Slot(Home(HashKey(key), |buckets|), e, |buckets|)] != 0
    ensures Holds(buckets[Slot(Home(HashKey(key), |buckets|), d, |buckets|) := |keys| + 1], keys + [key], dist + [d])
  {
    hide Placed, HashKey, Home, Slot;
    var n := |buckets|;
    StoreKeeps(buckets, Homes(keys, n), dist, Home(HashKey(key), n), d);
    assert Homes(keys + [key], n) == Homes(keys, n) + [Home(HashKey(key), n)];
  }

  // ---------- DISTINCT ----------

  /**
   applyDistinct: rows packed forward in place. Exactly the first occurrence of each row is
   left, in order. `capacity` is the table an earlier query left behind.
   */
  method ApplyDistinct(rows: array<Key>, capacity: nat) returns (kept: nat)
    requires capacity == 0 || PowerOfTwo(capacity)
    modifies rows
    ensures kept <= rows.Length && rows[..kept] == FirstSeen(old(rows[..]))
  {
    hide Holds, SeenBefore, KeysEqual, HashKey, Home, FirstSeen, PowerOfTwo;
    ghost var given := rows[..];
    FirstSeenNone();
    if rows.Length == 0 {
      assert given == [];
      return 0;
    }
    var n := BucketsFor(rows.Length, capacity);
    var buckets := new nat[n](_ => 0);
    ghost var dist := [];
    EmptyTable(buckets[..]);
    kept := 0;
    for r := 0 to rows.Length
      invariant kept <= r && fresh(buckets) && buckets.Length == n
      invariant forall k :: r <= k < rows.Length ==> rows[k] == given[k]
      invariant rows[..kept] == FirstSeen(given[..r])
      invariant Holds(buckets[..], rows[..kept], dist)
    {
      kept, dist := KeepIfNew(rows, buckets, kept, r, dist, given);
    }
    assert given[..rows.Length] == given;
  }

  /** One row of it: kept behind the others unless an equal one is there already. */
  method KeepIfNew(rows: array<Key>, buckets: array<nat>, kept: nat, r: nat, ghost dist: seq<nat>, ghost given: seq<Key>)
    returns (now: nat, ghost dist': seq<nat>)
    requires kept <= r < rows.Length == |given| && 2 * rows.Length <= buckets.Length && rows != buckets as object
    requires rows[r] == given[r] && rows[..kept] == FirstSeen(given[..r]) && Holds(buckets[..], rows[..kept], dist)
    modifies rows, buckets
    ensures now <= r + 1 && forall k :: r < k < rows.Length ==> rows[k] == old(rows[k])
    ensures rows[..now] == FirstSeen(given[..r + 1]) && Holds(buckets[..], rows[..now], dist')
  {
    hide Holds, SeenBefore, KeysEqual, HashKey, Home, FirstSeen, Slot;
    FirstSeenStep(given, r);
    now, dist' := kept, dist;
    var row := rows[r];
    var entry, probe, d := Find(buckets, rows[..kept], row, dist);
    FoundIs(rows[..kept], row, entry);
    if entry < 0 {
      ghost var keys, before := rows[..kept], buckets[..];
      AddKey(before, keys, dist, row, d);
      dist' := dist + [d];
      rows[kept] := row;
      assert rows[..kept + 1] == keys + [row];
      now := kept + 1;
      buckets[probe] := now;
      assert buckets[..] == before[probe := now];
    }
  }

  lemma FirstSeenNone()
    ensures FirstSeen([]) == []
  {
  }

  lemma EmptyTable(buckets: seq<nat>)
    requires buckets != [] && forall p :: 0 <= p < |buckets| ==> buckets[p] == 0
    ensures Holds(buckets, [], [])
  {
    assert Homes([], |buckets|) == [];
  }

  lemma FoundIs(keys: seq<Key>, key: Key, entry: int)
    requires -1 <= entry < |keys|
    requires entry >= 0 ==> KeysEqual(keys[entry], key)
    requires entry < 0 ==> !SeenBefore(keys, key)
    ensures SeenBefore(keys, key) <==> entry >= 0
  {
  }

  /** The table is more than twice as large as what goes into it. */
  method BucketsFor(rows: nat, capacity: nat) returns (n: nat)
    requires rows > 0 && (capacity == 0 || PowerOfTwo(capacity))
    ensures n >= 2 * rows && PowerOfTwo(n)
  {
    var wanted := 1;
    while wanted < rows * 2
      invariant PowerOfTwo(wanted)
      decreases rows * 2 - wanted
    {
      DoublePowerOfTwo(wanted);
      wanted := 2 * wanted;
    }
    n := if wanted > capacity then wanted else capacity;
  }

  // ---------- GROUP BY ----------

  /** Every key hashed once, when its group was made. */
  ghost predicate HashesOf(hashes: seq<nat>, keys: seq<Key>) {
    |hashes| == |keys| && forall i :: 0 <= i < |keys| ==> hashes[i] == HashKey(keys[i])
  }

  /** reserveGroup's bound: less than two thirds full. */
  predicate Roomy(groups: nat, buckets: nat) {
    groups * 3 < buckets * 2
  }

  class GroupTable {
    var keys: seq<Key>
    var hashes: seq<nat>
    var buckets: array<nat>
    ghost var dist: seq<nat>

    ghost predicate Valid()
      reads this, buckets
    {
      && HashesOf(hashes, keys)
      && (buckets.Length == 0 ==> keys == [])
      && (buckets.Length > 0 ==>
            PowerOfTwo(buckets.Length) && Roomy(|keys|, buckets.Length) && Holds(buckets[..], keys, dist))
    }

    /** resetting between queries: no groups and no buckets. */
    constructor ()
      ensures Valid() && keys == [] && fresh(buckets)
    {
      keys, hashes, dist := [], [], [];
      buckets := new nat[0];
    }

    /** The group a key belongs to, or -1. */
    method FindGroup(key: Key) returns (group: int)
      requires Valid()
      ensures -1 <= group < |keys|
      ensures group >= 0 ==> KeysEqual(keys[group], key)
      ensures group < 0 ==> !SeenBefore(keys, key)
    {
      if buckets.Length == 0 {
        return -1;
      }
      ghost var d;
      var probe;
      group, probe, d := Find(buckets, keys, key, dist);
    }

    /** Twice the buckets, with every group put back by the hash it was found by. */
    method Rehash()
      requires Valid()
      modifies this
      ensures Valid() && keys == old(keys) && hashes == old(hashes) && fresh(buckets)
      ensures buckets.Length == if old(buckets.Length) == 0 then FIRST_BUCKETS else 2 * old(buckets.Length)
    {
      hide Placed, HashKey, Home, PowerOfTwo;
      var grown := if buckets.Length == 0 then FIRST_BUCKETS else 2 * buckets.Length;
      GrownIsPower(buckets.Length);
      ghost var homes := Homes(keys, grown);
      var moved := new nat[grown](_ => 0);
      ghost var placed := [];
      NothingPlaced(moved[..]);
      for g := 0 to |keys|
        invariant Placed(moved[..], homes[..g], placed)
        invariant fresh(moved) && unchanged(this)
      {
        ghost var d := Store(moved, Home(hashes[g], grown), g, homes[..g], placed);
        placed := placed + [d];
        assert homes[..g + 1] == homes[..g] + [homes[g]];
      }
      assert homes[..|keys|] == homes;
      buckets, dist := moved, placed;
    }

    /** reserveGroup: afterwards one more group still leaves the table within its bound. */
    method Reserve()
      requires Valid()
      modifies this
      ensures Valid() && keys == old(keys) && hashes == old(hashes)
      ensures buckets.Length > 0 && Roomy(|keys| + 1, buckets.Length)
      ensures buckets == old(buckets) || fresh(buckets)
    {
      if !Roomy(|keys| + 1, buckets.Length) {
        Rehash();
      }
    }

    /** A group for a key that has none. */
    method AddGroup(key: Key) returns (group: nat)
      requires Valid() && !SeenBefore(keys, key)
      modifies this, buckets
      ensures Valid() && keys == old(keys) + [key] && group == |old(keys)|
      ensures buckets == old(buckets) || fresh(buckets)
    {
      hide Placed, HashKey, Home, PowerOfTwo, SeenBefore;
      Reserve();
      group := |keys|;
      var hash := HashKey(key);
      ghost var d := Store(buckets, Home(hash, buckets.Length), group, Homes(keys, buckets.Length), dist);
      KeyPlaced(buckets[..], keys, key, dist + [d]);
      HashAppended(hashes, keys, key);
      hashes := hashes + [hash];
      keys := keys + [key];
      dist := dist + [d];
    }

    /** What projectGroups does with each row. */
    method GroupFor(key: Key) returns (group: nat)
      requires Valid()
      modifies this, buckets
      ensures Valid() && (buckets == old(buckets) || fresh(buckets))
      ensures keys == old(keys) + if SeenBefore(old(keys), key) then [] else [key]
      ensures group < |keys| && KeysEqual(keys[group], key)
    {
      hide Holds, KeysEqual, SeenBefore, HashKey;
      var found := FindGroup(key);
      FoundIs(keys, key, found);
      if found >= 0 {
        return found;
      }
      KeysEqualIsEquivalence(key, key, key);
      group := AddGroup(key);
    }
  }

  lemma KeyPlaced(buckets: seq<nat>, keys: seq<Key>, key: Key, dist: seq<nat>)
    requires |keys| + 1 < |buckets| && Placed(buckets, Homes(keys, |buckets|) + [Home(HashKey(key), |buckets|)], dist)
    ensures Holds(buckets, keys + [key], dist)
  {
    hide Placed, HashKey, Home;
    assert Homes(keys + [key], |buckets|) == Homes(keys, |buckets|) + [Home(HashKey(key), |buckets|)];
  }

  lemma HashAppended(hashes: seq<nat>, keys: seq<Key>, key: Key)
    requires HashesOf(hashes, keys)
    ensures HashesOf(hashes + [HashKey(key)], keys + [key])
  {
  }

  lemma GrownIsPower(n: nat)
    requires n == 0 || PowerOfTwo(n)
    ensures PowerOfTwo(if n == 0 then FIRST_BUCKETS else 2 * n)
  {
    if n == 0 {
      DoublePowerOfTwo(1);
      DoublePowerOfTwo(2);
      DoublePowerOfTwo(4);
      DoublePowerOfTwo(8);
      DoublePowerOfTwo(16);
      DoublePowerOfTwo(32);
      DoublePowerOfTwo(64);
      DoublePowerOfTwo(128);
    } else {
      DoublePowerOfTwo(n);
    }
  }

  /** Rows are in one group exactly when their keys are equal. */
  ghost predicate SharedExactly(rowKeys: seq<Key>, groups: seq<nat>)
    requires |groups| <= |rowKeys|
  {
    forall i, j :: 0 <= i < |groups| && 0 <= j < |groups| ==> (groups[i] == groups[j] <==> KeysEqual(rowKeys[i], rowKeys[j]))
  }

  /** The grouping loop of projectGroups: one group per distinct key, in first-seen order. */
  method GroupRows(rowKeys: seq<Key>) returns (keys: seq<Key>, groups: seq<nat>)
    ensures keys == FirstSeen(rowKeys)
    ensures |groups| == |rowKeys| && SharedExactly(rowKeys, groups)
    ensures forall i :: 0 <= i < |groups| ==> groups[i] < |keys| && KeysEqual(keys[groups[i]], rowKeys[i])
  {
    hide FirstSeen, SeenBefore, KeysEqual, Holds, HashesOf, PowerOfTwo;
    FirstSeenNone();
    var table := new GroupTable();
    groups := [];
    for i := 0 to |rowKeys|
      invariant table.Valid() && fresh(table) && fresh(table.buckets)
      invariant table.keys == FirstSeen(rowKeys[..i])
      invariant |groups| == i
      invariant forall r :: 0 <= r < i ==> groups[r] < |table.keys| && KeysEqual(table.keys[groups[r]], rowKeys[r])
    {
      FirstSeenStep(rowKeys, i);
      var group := table.GroupFor(rowKeys[i]);
      groups := groups + [group];
    }
    keys := table.keys;
    assert rowKeys[..|rowKeys|] == rowKeys;
    GroupsAreClasses(rowKeys, keys, groups);
  }

  lemma GroupsAreClasses(rowKeys: seq<Key>, keys: seq<Key>, groups: seq<nat>)
    requires keys == FirstSeen(rowKeys) && |groups| == |rowKeys|
    requires forall i :: 0 <= i < |groups| ==> groups[i] < |keys| && KeysEqual(keys[groups[i]], rowKeys[i])
    ensures SharedExactly(rowKeys, groups)
  {
    FirstSeenDiffer(rowKeys);
    forall i, j | 0 <= i < |groups| && 0 <= j < |groups|
      ensures groups[i] == groups[j] <==> KeysEqual(rowKeys[i], rowKeys[j])
    {
      hide KeysEqual, FirstSeen;
      var a, b := keys[groups[i]], keys[groups[j]];
      KeysEqualIsEquivalence(a, rowKeys[i], rowKeys[j]);
      KeysEqualIsEquivalence(rowKeys[i], a, rowKeys[j]);
      KeysEqualIsEquivalence(a, rowKeys[j], b);
      KeysEqualIsEquivalence(rowKeys[j], b, a);
      KeysEqualIsEquivalence(b, rowKeys[j], a);
    }
  }
}
