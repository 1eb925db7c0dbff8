/**
 Open addressing as the executor uses it three times over (hash join, grouping, DISTINCT in
 06_executor.c): a bucket holds 0 or an entry number plus one, entries are only ever added,
 and a probe starts at the hash's own bucket and moves on by one, wrapping at the end. Bucket
 counts are powers of two in the engine, so `& mask` there is the remainder here.

 `Placed` says where every entry sits: at some distance from its own bucket, with nothing on
 the way but older entries. From that come the three facts the callers rely on: probes end,
 a walk to the first empty bucket passes every entry with that hash, and it passes them in
 the order they were added.
 */
module ProbeTable {
  import opened Common

  /** The bucket d steps after `home`. */
  function Slot(home: nat, d: nat, n: nat): (slot: nat)
    requires home < n && d <= n
    ensures slot < n
  {
    if home + d < n then home + d else home + d - n
  }

  /** Every bucket count is one of these. */
  ghost predicate PowerOfTwo(n: nat) {
    n == 1 || (n > 1 && n % 2 == 0 && PowerOfTwo(n / 2))
  }

  lemma DoublePowerOfTwo(n: nat)
    requires PowerOfTwo(n)
    ensures PowerOfTwo(2 * n)
  {
  }

  /** The bucket a hash starts at. */
  function Home(hash: nat, n: nat): (home: nat)
    requires n > 0
    ensures home < n
  {
    hash % n
  }

  function NextSlot(at: nat, n: nat): nat
    requires at < n
  {
    (at + 1) % n
  }

  lemma NextSlotIs(home: nat, d: nat, n: nat)
    requires home < n && d < n
    ensures NextSlot(Slot(home, d, n), n) == Slot(home, d + 1, n)
  {
    var at := Slot(home, d, n);
    if at + 1 < n {
      assert (at + 1) % n == at + 1;
    }
  }

  /** The entry in a bucket that is not empty. */
  function EntryAt(buckets: seq<nat>, p: nat): nat
    requires p < |buckets|
  {
    if buckets[p] == 0 then 0 else buckets[p] - 1
  }

  /** Entry i sits dist[i] buckets after its own, past older entries only. */
  ghost predicate Sits(buckets: seq<nat>, home: nat, d: nat, i: nat) {
    && home < |buckets| && d < |buckets|
    && buckets[Slot(home, d, |buckets|)] == i + 1
    && forall e :: 0 <= e < d ==> 0 < buckets[Slot(home, e, |buckets|)] <= i
  }

  ghost predicate Placed(buckets: seq<nat>, homes: seq<nat>, dist: seq<nat>) {
    && |dist| == |homes|
    && (forall i :: 0 <= i < |homes| ==> Sits(buckets, homes[i], dist[i], i))
    && (forall p :: 0 <= p < |buckets| && buckets[p] != 0 ==>
          buckets[p] <= |homes| && p == Slot(homes[buckets[p] - 1], dist[buckets[p] - 1], |buckets|))
  }

  lemma NothingPlaced(buckets: seq<nat>)
    requires forall p :: 0 <= p < |buckets| ==> buckets[p] == 0
    ensures Placed(buckets, [], [])
  {
  }

  // ---------- probes end ----------

  /** Distinct numbers below m: at most m of them. */
  lemma {:induction false} Pigeonhole(s: seq<nat>, m: nat)
    requires Distinct(s) && forall i :: 0 <= i < |s| ==> s[i] < m
    ensures |s| <= m
    decreases m
  {
    assert s != [] ==> s[0] < m;
    if m > 0 {
      if k :| 0 <= k < |s| && s[k] == m - 1 {
        var rest := s[..k] + s[k + 1..];
        assert forall i :: 0 <= i < |rest| ==> rest[i] == s[if i < k then i else i + 1];
        Pigeonhole(rest, m - 1);
      } else {
        Pigeonhole(s, m - 1);
      }
    }
  }

  lemma HasEmpty(buckets: seq<nat>, homes: seq<nat>, dist: seq<nat>)
    requires Placed(buckets, homes, dist) && |homes| < |buckets|
    ensures exists p :: 0 <= p < |buckets| && buckets[p] == 0
  {
    var entries := seq(|buckets|, p requires 0 <= p < |buckets| => EntryAt(buckets, p));
    assert forall p :: 0 <= p < |buckets| ==> entries[p] == EntryAt(buckets, p);
    if forall p :: 0 <= p < |buckets| ==> buckets[p] != 0 {
      Pigeonhole(entries, |homes|);
      assert false;
    }
  }

  /** While every bucket passed was taken, the probe has not been all the way round. */
  lemma ProbeEnds(buckets: seq<nat>, homes: seq<nat>, dist: seq<nat>, home: nat, d: nat)
    requires Placed(buckets, homes, dist) && |homes| < |buckets| && home < |buckets| && d < |buckets|
    requires forall e :: 0 <= e <= d ==> buckets[Slot(home, e, |buckets|)] != 0
    ensures d + 1 < |buckets|
  {
    HasEmpty(buckets, homes, dist);
    var p :| 0 <= p < |buckets| && buckets[p] == 0;
    var e := if home <= p then p - home else p + |buckets| - home;
    assert buckets[Slot(home, e, |buckets|)] == 0;
  }

  // ---------- adding an entry ----------

  /** Filling an empty bucket leaves an entry where it sits. */
  lemma SitsStill(buckets: seq<nat>, home: nat, d: nat, i: nat, at: nat, entry: nat)
    requires Sits(buckets, home, d, i) && at < |buckets| && buckets[at] == 0
    ensures Sits(buckets[at := entry], home, d, i)
  {
    var n := |buckets|;
    assert forall e :: 0 <= e <= d ==> Slot(home, e, n) != at;
  }

  /** The new entry sits behind everything it had to pass. */
  lemma SitsNow(buckets: seq<nat>, count: nat, home: nat, d: nat)
    requires home < |buckets| && d < |buckets| && buckets[Slot(home, d, |buckets|)] == 0
    requires forall e :: 0 <= e < d ==> buckets[Slot(home, e, |buckets|)] != 0
    requires forall p :: 0 <= p < |buckets| ==> buckets[p] <= count
    ensures Sits(buckets[Slot(home, d, |buckets|) := count + 1], home, d, count)
  {
    var n := |buckets|;
    assert forall e :: 0 <= e < d ==> Slot(home, e, n) != Slot(home, d, n);
  }

  lemma StoreKeeps(buckets: seq<nat>, homes: seq<nat>, dist: seq<nat>, home: nat, d: nat)
    requires Placed(buckets, homes, dist) && home < |buckets| && d < |buckets|
    requires buckets[Slot(home, d, |buckets|)] == 0
    requires forall e :: 0 <= e < d ==> buckets[Slot(home, e, |buckets|)] != 0
    ensures Placed(buckets[Slot(home, d, |buckets|) := |homes| + 1], homes + [home], dist + [d])
  {
    hide Slot, Sits;
    var at := Slot(home, d, |buckets|);
    SitsNow(buckets, |homes|, home, d);
    forall i | 0 <= i < |homes|
      ensures Sits(buckets[at := |homes| + 1], homes[i], dist[i], i)
    {
      SitsStill(buckets, homes[i], dist[i], i, at, |homes| + 1);
    }
    HomesFit(buckets, homes, dist);
  }

  lemma HomesFit(buckets: seq<nat>, homes: seq<nat>, dist: seq<nat>)
    requires Placed(buckets, homes, dist)
    ensures forall i :: 0 <= i < |homes| ==> homes[i] < |buckets| && dist[i] < |buckets|
  {
    assert forall i :: 0 <= i < |homes| ==> Sits(buckets, homes[i], dist[i], i);
  }

  /** The insertion every table shares: the first empty bucket takes the next entry. */
  method Store(buckets: array<nat>, home: nat, entry: nat, ghost homes: seq<nat>, ghost dist: seq<nat>)
    returns (ghost d: nat)
    requires Placed(buckets[..], homes, dist) && entry == |homes| < buckets.Length && home < buckets.Length
    modifies buckets
    ensures Placed(buckets[..], homes + [home], dist + [d])
  {
    ghost var before := buckets[..];
    var probe := home;
    d := 0;
    while buckets[probe] != 0
      invariant d < buckets.Length && probe == Slot(home, d, buckets.Length)
      invariant forall e :: 0 <= e < d ==> before[Slot(home, e, |before|)] != 0
      invariant buckets[..] == before
      decreases buckets.Length - d
    {
      ProbeEnds(before, homes, dist, home, d);
      NextSlotIs(home, d, buckets.Length);
      probe := NextSlot(probe, buckets.Length);
      d := d + 1;
    }
    StoreKeeps(before, homes, dist, home, d);
    buckets[probe] := entry + 1;
    assert buckets[..] == before[probe := entry + 1];
  }

  // ---------- what a walk sees ----------

  /** The entries in the d buckets from `home` on. */
  ghost function Seen(buckets: seq<nat>, home: nat, d: nat): (seen: seq<nat>)
    requires home < |buckets| && d <= |buckets|
    requires forall e :: 0 <= e < d ==> buckets[Slot(home, e, |buckets|)] != 0
    ensures |seen| == d
    ensures forall e :: 0 <= e < d ==> seen[e] == buckets[Slot(home, e, |buckets|)] - 1
  {
    seq(d, e requires 0 <= e < d => EntryAt(buckets, Slot(home, e, |buckets|)))
  }

  /** Those of a list of entries that are wanted. */
  ghost function Picked(want: seq<bool>, entries: seq<nat>): seq<nat> {
    if entries == [] then []
    else
      var last := entries[|entries| - 1];
      Picked(want, entries[..|entries| - 1]) + if last < |want| && want[last] then [last] else []
  }

  ghost function Upto(n: nat): (s: seq<nat>)
    ensures |s| == n && forall i :: 0 <= i < n ==> s[i] == i
  {
    seq(n, i => i)
  }

  ghost predicate Ascending(s: seq<nat>) {
    forall i, j :: 0 <= i < j < |s| ==> s[i] < s[j]
  }

  /** Wanted entries come up in ascending order. */
  ghost predicate WantedAscend(want: seq<bool>, entries: seq<nat>) {
    forall i, j :: 0 <= i < j < |entries| && entries[i] < |want| && entries[j] < |want| && want[entries[i]] && want[entries[j]] ==>
      entries[i] < entries[j]
  }

  lemma {:induction false} PickedIs(want: seq<bool>, entries: seq<nat>)
    requires WantedAscend(want, entries)
    ensures Ascending(Picked(want, entries))
    ensures forall x :: x in Picked(want, entries) <==> x in entries && x < |want| && want[x]
  {
    if entries != [] {
      var front, last := entries[..|entries| - 1], entries[|entries| - 1];
      assert entries == front + [last];
      PickedIs(want, front);
      var before := Picked(want, front);
      if last < |want| && want[last] {
        forall i | 0 <= i < |before| ensures before[i] < last {
          assert before[i] in front;
          var j :| 0 <= j < |front| && front[j] == before[i];
          assert entries[j] == front[j];
        }
      }
    }
  }

  lemma HeadsAgree(a: seq<nat>, b: seq<nat>)
    requires Ascending(a) && Ascending(b) && a != [] && b != [] && a[0] in b && b[0] in a
    ensures a[0] == b[0]
  {
    var i :| 0 <= i < |a| && a[i] == b[0];
    var j :| 0 <= j < |b| && b[j] == a[0];
    assert a[0] <= a[i] && b[0] <= b[j];
  }

  lemma TailHas(a: seq<nat>, x: nat)
    requires Ascending(a) && a != []
    ensures x in a[1..] <==> x in a && x != a[0]
  {
    assert a == [a[0]] + a[1..];
    assert forall k :: 0 <= k < |a[1..]| ==> a[0] < a[1..][k];
  }

  /** An ascending list is determined by its elements. */
  lemma {:induction false} AscendingUnique(a: seq<nat>, b: seq<nat>)
    requires Ascending(a) && Ascending(b) && forall x :: x in a <==> x in b
    ensures a == b
  {
    assert a != [] ==> a[0] in a;
    assert b != [] ==> b[0] in b;
    if a != [] {
      HeadsAgree(a, b);
      forall x: nat ensures x in a[1..] <==> x in b[1..] {
        TailHas(a, x);
        TailHas(b, x);
      }
      AscendingUnique(a[1..], b[1..]);
      assert a == [a[0]] + a[1..] && b == [b[0]] + b[1..];
    }
  }

  /** Entries with the same bucket of their own come up oldest first. */
  lemma SameHomeAscends(buckets: seq<nat>, homes: seq<nat>, dist: seq<nat>, i: nat, j: nat)
    requires Placed(buckets, homes, dist) && i < |homes| && j < |homes| && homes[i] == homes[j]
    ensures i < j ==> dist[i] < dist[j]
    ensures j < i ==> dist[j] < dist[i]
  {
    assert Sits(buckets, homes[i], dist[i], i);
    assert Sits(buckets, homes[j], dist[j], j);
  }

  /**
   Walking from a bucket to the first empty one passes every wanted entry, once each and in
   the order they were added, provided only entries that belong to that bucket are wanted.
   */
  lemma WalkPicks(buckets: seq<nat>, homes: seq<nat>, dist: seq<nat>, home: nat, d: nat, want: seq<bool>)
    requires Placed(buckets, homes, dist) && home < |buckets| && d < |buckets|
    requires buckets[Slot(home, d, |buckets|)] == 0
    requires forall e :: 0 <= e < d ==> buckets[Slot(home, e, |buckets|)] != 0
    requires |want| == |homes| && forall i :: 0 <= i < |want| && want[i] ==> homes[i] == home
    ensures Picked(want, Seen(buckets, home, d)) == Picked(want, Upto(|homes|))
  {
    hide Slot, Sits, Placed;
    var seen, all := Seen(buckets, home, d), Upto(|homes|);
    SeenAscends(buckets, homes, dist, home, d, want);
    PickedIs(want, seen);
    PickedIs(want, all);
    forall x: nat | x < |want| && want[x] ensures x in seen && x in all {
      SeenAll(buckets, homes, dist, home, d, x);
      assert all[x] == x;
    }
    AscendingUnique(Picked(want, seen), Picked(want, all));
  }

  lemma SeenAscends(buckets: seq<nat>, homes: seq<nat>, dist: seq<nat>, home: nat, d: nat, want: seq<bool>)
    requires Placed(buckets, homes, dist) && home < |buckets| && d < |buckets|
    requires forall e :: 0 <= e < d ==> buckets[Slot(home, e, |buckets|)] != 0
    requires |want| == |homes| && forall i :: 0 <= i < |want| && want[i] ==> homes[i] == home
    ensures WantedAscend(want, Seen(buckets, home, d))
  {
    hide Slot, Placed;
    var seen := Seen(buckets, home, d);
    forall a, b | 0 <= a < b < d && seen[a] < |want| && seen[b] < |want| && want[seen[a]] && want[seen[b]]
      ensures seen[a] < seen[b]
    {
      SeenAt(buckets, homes, dist, home, d, a);
      SeenAt(buckets, homes, dist, home, d, b);
      SameHomeAscends(buckets, homes, dist, seen[a], seen[b]);
    }
  }

  /** Every entry of this home comes before the first empty bucket. */
  lemma SeenAll(buckets: seq<nat>, homes: seq<nat>, dist: seq<nat>, home: nat, d: nat, x: nat)
    requires Placed(buckets, homes, dist) && home < |buckets| && d < |buckets|
    requires buckets[Slot(home, d, |buckets|)] == 0
    requires forall e :: 0 <= e < d ==> buckets[Slot(home, e, |buckets|)] != 0
    requires x < |homes| && homes[x] == home
    ensures x in Seen(buckets, home, d)
  {
    assert Sits(buckets, homes[x], dist[x], x);
    assert dist[x] < d;
    assert Seen(buckets, home, d)[dist[x]] == x;
  }

  /** An entry of this home that a walk sees, it sees at its own distance. */
  lemma SeenAt(buckets: seq<nat>, homes: seq<nat>, dist: seq<nat>, home: nat, d: nat, a: nat)
    requires Placed(buckets, homes, dist) && home < |buckets| && a < d <= |buckets|
    requires forall e :: 0 <= e < d ==> buckets[Slot(home, e, |buckets|)] != 0
    ensures var i := Seen(buckets, home, d)[a];
            i < |homes| && (homes[i] == home ==> dist[i] == a)
  {
    var p := Slot(home, a, |buckets|);
    assert buckets[p] != 0;
  }
}
