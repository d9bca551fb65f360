/**
  The open-addressed hash index (src/elfrc/container_build.c lines 51-143):
  linear probing from `hash % bucket_count`, wrapping around the end.
 */
module HashIndex {
  import opened Bytes
  import opened ErfFormat
  import opened Manifests
  import Fnv1a

  predicate IsEmpty(k: Bucket) { k.directoryIndex == HASH_EMPTY }

  const EMPTY_BUCKET := Bucket(0, HASH_EMPTY)

  function EmptyTable(b: nat): (t: seq<Bucket>)
    ensures |t| == b
  {
    seq(b, _ => EMPTY_BUCKET)
  }

  function Home(hash: u64, b: nat): (r: nat)
    requires b > 0
    ensures r < b
  {
    hash % b
  }

  /** The slot k steps after `home` in a table of b slots. */
  function Slot(home: nat, k: nat, b: nat): (r: nat)
    requires home < b && k <= b
    ensures r < b
  {
    if home + k < b then home + k else home + k - b
  }

  /** `(slot + 1) % bucket_count` over uint32_t. */
  function Advance(slot: u32, b: u32): (r: u32)
    requires b > 0
    ensures r < b
  {
    (slot + 1) % TWO32 % b
  }

  /** The program's step is the next slot: the 32-bit sum cannot wrap, even at the largest bucket count. */
  lemma NextSlot(home: nat, k: nat, b: nat)
    requires home < b < TWO32 && k < b
    ensures Slot(home, k, b) + 1 < TWO32
    ensures Advance(Slot(home, k, b), b) == Slot(home, k + 1, b)
  {
    var s := Slot(home, k, b) + 1;
    AdvanceIs(Slot(home, k, b), b);
  }

  lemma AdvanceIs(slot: nat, b: nat)
    requires slot < b < TWO32
    ensures Advance(slot, b) == if slot + 1 < b then slot + 1 else 0
  {
    ModBelow(slot + 1, TWO32);
    if slot + 1 < b {
      ModBelow(slot + 1, b);
    } else {
      ModSelf(b);
    }
  }

  lemma ModSelf(b: nat)
    requires b > 0
    ensures b % b == 0
  {
  }

  lemma ModBelow(x: nat, b: nat)
    requires x < b
    ensures x % b == x
  {
  }

  lemma SlotInjective(home: nat, j: nat, k: nat, b: nat)
    requires home < b && j < b && k < b && Slot(home, j, b) == Slot(home, k, b)
    ensures j == k
  {
  }

  /** How many slots after `home` the first free one is, from distance k on; b if there is none. */
  function FirstFree(t: seq<Bucket>, home: nat, k: nat): (r: nat)
    requires home < |t| && k <= |t|
    ensures k <= r <= |t|
    ensures r < |t| ==> IsEmpty(t[Slot(home, r, |t|)])
    ensures forall j :: k <= j < r ==> !IsEmpty(t[Slot(home, j, |t|)])
    decreases |t| - k
  {
    if k == |t| || IsEmpty(t[Slot(home, k, |t|)]) then k else FirstFree(t, home, k + 1)
  }

  /** The table after inserting entries 0, 1, ... with the given hashes. */
  function Filled(hs: seq<u64>, b: nat): (t: seq<Bucket>)
    requires 0 < b && |hs| < HASH_EMPTY
    ensures |t| == b
  {
    if hs == [] then EmptyTable(b)
    else
      var t := Filled(hs[..|hs| - 1], b);
      var last := hs[|hs| - 1];
      var d := FirstFree(t, Home(last, b), 0);
      t[Slot(Home(last, b), d, b) := Bucket(last, |hs| - 1)]
  }

  /** How far from its home each entry ended up. */
  function Distances(hs: seq<u64>, b: nat): (ds: seq<nat>)
    requires 0 < b && |hs| < HASH_EMPTY
    ensures |ds| == |hs|
  {
    if hs == [] then []
    else
      var front := hs[..|hs| - 1];
      Distances(front, b) + [FirstFree(Filled(front, b), Home(hs[|hs| - 1], b), 0)]
  }

  // ---------- the probe-run invariant ----------

  /** Entry j sits ds[j] slots after its home. */
  ghost predicate Seated(t: seq<Bucket>, hs: seq<u64>, ds: seq<nat>)
    requires |t| > 0
  {
    && |ds| == |hs| < HASH_EMPTY
    && forall j :: 0 <= j < |hs| ==>
         ds[j] < |t| && t[Slot(Home(hs[j], |t|), ds[j], |t|)] == Bucket(hs[j], j)
  }

  /** No gap between an entry's home and its slot. */
  ghost predicate RunsUnbroken(t: seq<Bucket>, hs: seq<u64>, ds: seq<nat>)
    requires |t| > 0
  {
    && |ds| == |hs|
    && forall j, k: nat :: 0 <= j < |hs| && k < ds[j] && k < |t| ==> !IsEmpty(t[Slot(Home(hs[j], |t|), k, |t|)])
  }

  /** Every used bucket is the seat of the entry it names, so each index occurs in one bucket. */
  ghost predicate NothingElse(t: seq<Bucket>, hs: seq<u64>, ds: seq<nat>)
    requires |t| > 0
  {
    && |ds| == |hs|
    && forall s :: 0 <= s < |t| && !IsEmpty(t[s]) ==>
         && t[s].directoryIndex < |hs|
         && t[s].hash == hs[t[s].directoryIndex]
         && ds[t[s].directoryIndex] < |t|
         && s == Slot(Home(hs[t[s].directoryIndex], |t|), ds[t[s].directoryIndex], |t|)
  }

  /** Entries of one home, so all entries of one hash, sit in insertion order. */
  ghost predicate InsertionOrder(t: seq<Bucket>, hs: seq<u64>, ds: seq<nat>)
    requires |t| > 0
  {
    && |ds| == |hs|
    && forall i, j :: 0 <= i < j < |hs| && Home(hs[i], |t|) == Home(hs[j], |t|) ==> ds[i] < ds[j]
  }

  ghost predicate Indexed(t: seq<Bucket>, hs: seq<u64>, ds: seq<nat>)
    requires |t| > 0
  {
    Seated(t, hs, ds) && RunsUnbroken(t, hs, ds) && NothingElse(t, hs, ds) && InsertionOrder(t, hs, ds)
  }

  function Used(t: seq<Bucket>): set<nat> {
    set s: nat | s < |t| && !IsEmpty(t[s])
  }

  function Below(n: nat): (r: set<nat>)
    ensures |r| == n
    ensures forall s: nat :: s in r <==> s < n
  {
    if n == 0 then {} else Below(n - 1) + {n - 1}
  }

  lemma ProbedAll(t: seq<Bucket>, home: nat)
    requires home < |t| && FirstFree(t, home, 0) == |t|
    ensures |Used(t)| == |t|
  {
    forall s: nat | s < |t|
      ensures !IsEmpty(t[s])
    {
      var k := if home <= s then s - home else s + |t| - home;
      assert Slot(home, k, |t|) == s;
    }
    assert Used(t) == Below(|t|);
  }

  /** While a slot is unused, every probe finds a free one. */
  lemma FreeSlotExists(t: seq<Bucket>, home: nat)
    requires home < |t| && |Used(t)| < |t|
    ensures FirstFree(t, home, 0) < |t|
  {
    if FirstFree(t, home, 0) == |t| {
      ProbedAll(t, home);
    }
  }

  lemma InsertKeepsSeats(t: seq<Bucket>, hs: seq<u64>, ds: seq<nat>, h: u64, d: nat)
    requires |t| > 0 && |hs| + 1 < HASH_EMPTY
    requires Indexed(t, hs, ds)
    requires d < |t| && d == FirstFree(t, Home(h, |t|), 0)
    ensures var t' := t[Slot(Home(h, |t|), d, |t|) := Bucket(h, |hs|)];
            Seated(t', hs + [h], ds + [d]) && NothingElse(t', hs + [h], ds + [d])
            && Used(t') == Used(t) + {Slot(Home(h, |t|), d, |t|)} && Slot(Home(h, |t|), d, |t|) !in Used(t)
  {
  }

  lemma InsertKeepsRuns(t: seq<Bucket>, hs: seq<u64>, ds: seq<nat>, h: u64, d: nat)
    requires |t| > 0 && |hs| + 1 < HASH_EMPTY
    requires Indexed(t, hs, ds)
    requires d < |t| && d == FirstFree(t, Home(h, |t|), 0)
    ensures var t' := t[Slot(Home(h, |t|), d, |t|) := Bucket(h, |hs|)];
            RunsUnbroken(t', hs + [h], ds + [d])
  {
  }

  lemma EarlierIsNearer(t: seq<Bucket>, hs: seq<u64>, ds: seq<nat>, h: u64, d: nat, i: nat)
    requires |t| > 0 && i < |hs|
    requires Seated(t, hs, ds) && RunsUnbroken(t, hs, ds)
    requires d < |t| && d == FirstFree(t, Home(h, |t|), 0)
    requires Home(hs[i], |t|) == Home(h, |t|)
    ensures ds[i] < d
  {
    hide FirstFree;
    var home := Home(h, |t|);
    assert IsEmpty(t[Slot(home, d, |t|)]);
    assert !IsEmpty(t[Slot(home, ds[i], |t|)]);
  }

  lemma InsertKeepsOrder(t: seq<Bucket>, hs: seq<u64>, ds: seq<nat>, h: u64, d: nat)
    requires |t| > 0
    requires Indexed(t, hs, ds)
    requires d < |t| && d == FirstFree(t, Home(h, |t|), 0)
    ensures InsertionOrder(t, hs + [h], ds + [d])
  {
    hide FirstFree, Seated, RunsUnbroken, NothingElse, Home;
    forall i | 0 <= i < |hs| && Home(hs[i], |t|) == Home(h, |t|)
      ensures ds[i] < d
    {
      EarlierIsNearer(t, hs, ds, h, d, i);
    }
  }

  /** After every insertion: entries seated, runs unbroken, nothing else, insertion order kept,
      and exactly as many buckets used as entries inserted. */
  lemma {:induction false} FilledIsIndexed(hs: seq<u64>, b: nat)
    requires |hs| < b < TWO32 && |hs| < HASH_EMPTY
    ensures Indexed(Filled(hs, b), hs, Distances(hs, b))
    ensures |Used(Filled(hs, b))| == |hs|
    decreases |hs|
  {
    hide Indexed, Used, FirstFree, Home, Slot;
    if hs == [] {
      EmptyIsIndexed(b);
    } else {
      var front, h := hs[..|hs| - 1], hs[|hs| - 1];
      FilledIsIndexed(front, b);
      var t, ds := Filled(front, b), Distances(front, b);
      FreeSlotExists(t, Home(h, b));
      InsertKeepsIndexed(t, front, ds, h, FirstFree(t, Home(h, b), 0));
      assert hs == front + [h];
    }
  }

  lemma EmptyIsIndexed(b: nat)
    requires b > 0
    ensures Indexed(EmptyTable(b), [], [])
    ensures Used(EmptyTable(b)) == {}
  {
  }

  lemma InsertKeepsIndexed(t: seq<Bucket>, hs: seq<u64>, ds: seq<nat>, h: u64, d: nat)
    requires |t| > 0 && |hs| + 1 < HASH_EMPTY
    requires Indexed(t, hs, ds)
    requires d < |t| && d == FirstFree(t, Home(h, |t|), 0)
    ensures var t' := t[Slot(Home(h, |t|), d, |t|) := Bucket(h, |hs|)];
            Indexed(t', hs + [h], ds + [d]) && |Used(t')| == |Used(t)| + 1
  {
    hide FirstFree, Home, Seated, NothingElse, RunsUnbroken, Used;
    InsertKeepsSeats(t, hs, ds, h, d);
    InsertKeepsRuns(t, hs, ds, h, d);
    InsertKeepsOrder(t, hs, ds, h, d);
  }

  // ---------- the table without the program's own arithmetic ----------

  /** Slot x lies on the way from `start` forward to s, around the end if need be. */
  predicate OnTheWay(start: nat, x: nat, s: nat) {
    if start <= s then start <= x <= s else start <= x || x <= s
  }

  function StepsBetween(start: nat, s: nat, b: nat): int {
    if start <= s then s - start else s + b - start
  }

  /** Used buckets carry an entry and its hash. */
  ghost predicate CarriesHashes(t: seq<Bucket>, hs: seq<u64>) {
    forall s :: 0 <= s < |t| && t[s].directoryIndex != 0xFFFF_FFFF ==>
      t[s].directoryIndex < |hs| && t[s].hash == hs[t[s].directoryIndex]
  }

  ghost predicate HasBucket(t: seq<Bucket>, hash: u64, i: nat) {
    exists s :: 0 <= s < |t| && t[s].hash == hash && t[s].directoryIndex == i
  }

  /** Every entry has a bucket. */
  ghost predicate HoldsAll(t: seq<Bucket>, hs: seq<u64>) {
    forall i :: 0 <= i < |hs| ==> HasBucket(t, hs[i], i)
  }

  /** No entry has two. */
  ghost predicate HoldsOnce(t: seq<Bucket>) {
    forall s, x :: (0 <= s < x < |t| && t[s].directoryIndex == t[x].directoryIndex) ==> t[s].directoryIndex == 0xFFFF_FFFF
  }

  /** From bucket `hash % |t|` to a used bucket all are in use. */
  ghost predicate ReachableFromHash(t: seq<Bucket>) {
    forall s, x :: (0 <= s < |t| && 0 <= x < |t| && t[s].directoryIndex != 0xFFFF_FFFF && OnTheWay(t[s].hash % |t|, x, s))
      ==> t[x].directoryIndex != 0xFFFF_FFFF
  }

  /** On that way, equal hashes come in entry order. */
  ghost predicate InEntryOrder(t: seq<Bucket>) {
    forall s, x :: (0 <= s < |t| && 0 <= x < |t| && t[s].hash == t[x].hash
                    && t[s].directoryIndex < t[x].directoryIndex != 0xFFFF_FFFF)
      ==> StepsBetween(t[s].hash % |t|, s, |t|) < StepsBetween(t[x].hash % |t|, x, |t|)
  }

  lemma SeatIsThere(t: seq<Bucket>, hs: seq<u64>, ds: seq<nat>, i: nat)
    requires |t| > 0 && Seated(t, hs, ds) && i < |hs|
    ensures HasBucket(t, hs[i], i)
  {
    hide Home, Slot;
    var s := Slot(Home(hs[i], |t|), ds[i], |t|);
    assert t[s].directoryIndex == i;
  }

  lemma IndexedHolds(t: seq<Bucket>, hs: seq<u64>, ds: seq<nat>)
    requires |t| > 0 && Indexed(t, hs, ds)
    ensures CarriesHashes(t, hs)
    ensures HoldsAll(t, hs)
    ensures HoldsOnce(t)
  {
    hide Home, Slot, RunsUnbroken, InsertionOrder;
    assert forall s :: 0 <= s < |t| && t[s].directoryIndex != 0xFFFF_FFFF ==> !IsEmpty(t[s]);
    forall i | 0 <= i < |hs|
      ensures HasBucket(t, hs[i], i)
    {
      SeatIsThere(t, hs, ds, i);
    }
  }

  lemma SlotSteps(home: nat, d: nat, b: nat)
    requires home < b && d < b
    ensures StepsBetween(home, Slot(home, d, b), b) == d
  {
  }

  lemma WayIsSlots(home: nat, d: nat, x: nat, b: nat)
    requires home < b && d < b && x < b && OnTheWay(home, x, Slot(home, d, b))
    ensures exists k: nat :: k <= d && Slot(home, k, b) == x
  {
    var k := StepsBetween(home, x, b);
    assert Slot(home, k, b) == x;
  }

  lemma WayIsUsed(t: seq<Bucket>, hs: seq<u64>, ds: seq<nat>, s: nat, x: nat)
    requires |t| > 0 && Indexed(t, hs, ds) && s < |t| && x < |t|
    requires t[s].directoryIndex != 0xFFFF_FFFF && OnTheWay(t[s].hash % |t|, x, s)
    ensures t[x].directoryIndex != 0xFFFF_FFFF
  {
    hide Slot, OnTheWay, InsertionOrder;
    var i := t[s].directoryIndex;
    var home := t[s].hash % |t|;
    assert !IsEmpty(t[s]);
    assert home == Home(hs[i], |t|) && s == Slot(home, ds[i], |t|);
    WayIsSlots(home, ds[i], x, |t|);
    var k: nat :| k <= ds[i] && Slot(home, k, |t|) == x;
    if k < ds[i] {
      assert !IsEmpty(t[Slot(Home(hs[i], |t|), k, |t|)]);
    }
  }

  lemma OrderIsSteps(t: seq<Bucket>, hs: seq<u64>, ds: seq<nat>, s: nat, x: nat)
    requires |t| > 0 && Indexed(t, hs, ds) && s < |t| && x < |t|
    requires t[s].directoryIndex < t[x].directoryIndex != 0xFFFF_FFFF && t[s].hash == t[x].hash
    ensures StepsBetween(t[s].hash % |t|, s, |t|) < StepsBetween(t[x].hash % |t|, x, |t|)
  {
    hide Slot, StepsBetween, RunsUnbroken;
    assert !IsEmpty(t[s]) && !IsEmpty(t[x]);
    var i, j, home := t[s].directoryIndex, t[x].directoryIndex, t[s].hash % |t|;
    assert home == Home(hs[i], |t|) == Home(hs[j], |t|);
    SlotSteps(home, ds[i], |t|);
    SlotSteps(home, ds[j], |t|);
  }

  /** What any reader of the filled table may rely on. */
  lemma FilledIsOpenAddressed(hs: seq<u64>, b: nat)
    requires |hs| < b < TWO32 && |hs| < HASH_EMPTY
    ensures var t := Filled(hs, b);
            CarriesHashes(t, hs) && HoldsAll(t, hs) && HoldsOnce(t) && ReachableFromHash(t) && InEntryOrder(t)
  {
    hide Filled, Distances, Indexed, CarriesHashes, HoldsAll, HoldsOnce, OnTheWay, StepsBetween;
    var t, ds := Filled(hs, b), Distances(hs, b);
    FilledIsIndexed(hs, b);
    IndexedHolds(t, hs, ds);
    forall s, x | 0 <= s < |t| && 0 <= x < |t| && t[s].directoryIndex != 0xFFFF_FFFF && OnTheWay(t[s].hash % |t|, x, s)
      ensures t[x].directoryIndex != 0xFFFF_FFFF
    {
      WayIsUsed(t, hs, ds, s, x);
    }
    forall s, x | 0 <= s < |t| && 0 <= x < |t| && t[s].hash == t[x].hash
                  && t[s].directoryIndex < t[x].directoryIndex != 0xFFFF_FFFF
      ensures StepsBetween(t[s].hash % |t|, s, |t|) < StepsBetween(t[x].hash % |t|, x, |t|)
    {
      OrderIsSteps(t, hs, ds, s, x);
    }
  }

  // ---------- looking a name up ----------

  function Hashes(names: seq<seq<byte>>): (r: seq<u64>)
    ensures |r| == |names|
  {
    seq(|names|, i requires 0 <= i < |names| => Fnv1a.HashNumber(names[i]))
  }

  /** The bucket names an entry of that hash and that name. */
  predicate Matches(k: Bucket, names: seq<seq<byte>>, name: seq<byte>) {
    k.hash == Fnv1a.HashNumber(name) && k.directoryIndex < |names| && names[k.directoryIndex] == name
  }

  /** Probe from distance k on: stop at an unused bucket or after the whole table. */
  function Probe(t: seq<Bucket>, names: seq<seq<byte>>, name: seq<byte>, k: nat): Option<nat>
    requires 0 < |t| && k <= |t|
    decreases |t| - k
  {
    if k == |t| then None
    else
      var bucket := t[Slot(Home(Fnv1a.HashNumber(name), |t|), k, |t|)];
      if IsEmpty(bucket) then None
      else if Matches(bucket, names, name) then Some(bucket.directoryIndex)
      else Probe(t, names, name, k + 1)
  }

  /** Before the seat of the first entry of a name there is no other match. */
  lemma NoEarlierMatch(t: seq<Bucket>, names: seq<seq<byte>>, ds: seq<nat>, name: seq<byte>, k: nat)
    requires |t| > 0 && Indexed(t, Hashes(names), ds)
    requires FirstIndex(names, name) < |names| && k < ds[FirstIndex(names, name)]
    ensures k < |t|
    ensures var bucket := t[Slot(Home(Fnv1a.HashNumber(name), |t|), k, |t|)];
            !IsEmpty(bucket) && !Matches(bucket, names, name)
  {
    hide FirstIndex, Home, Fnv1a.HashNumber;
    var hs, j, home := Hashes(names), FirstIndex(names, name), Home(Fnv1a.HashNumber(name), |t|);
    assert hs[j] == Fnv1a.HashNumber(name);
    var s := Slot(home, k, |t|);
    assert !IsEmpty(t[s]);
    if Matches(t[s], names, name) {
      var i := t[s].directoryIndex;
      assert hs[i] == Fnv1a.HashNumber(name);
      SlotInjective(home, k, ds[i], |t|);
    }
  }

  lemma {:induction false} ProbeReaches(t: seq<Bucket>, names: seq<seq<byte>>, ds: seq<nat>, name: seq<byte>, k: nat)
    requires |t| > 0 && Indexed(t, Hashes(names), ds)
    requires FirstIndex(names, name) < |names| && k <= ds[FirstIndex(names, name)] < |t|
    ensures Probe(t, names, name, k) == Some(FirstIndex(names, name))
    decreases |t| - k
  {
    hide FirstIndex, Home, Fnv1a.HashNumber, RunsUnbroken, NothingElse, InsertionOrder;
    var j := FirstIndex(names, name);
    if k < ds[j] {
      NoEarlierMatch(t, names, ds, name, k);
      ProbeReaches(t, names, ds, name, k + 1);
    } else {
      assert Hashes(names)[j] == Fnv1a.HashNumber(name);
    }
  }

  lemma {:induction false} ProbeMisses(t: seq<Bucket>, names: seq<seq<byte>>, name: seq<byte>, k: nat)
    requires 0 < |t| && k <= |t|
    requires name !in names
    ensures Probe(t, names, name, k) == None
    decreases |t| - k
  {
    if k == |t| {
    } else {
      ProbeMisses(t, names, name, k + 1);
    }
  }

  /** The scan that the index must agree with: the lowest index with that name. */
  function Scan(names: seq<seq<byte>>, name: seq<byte>): Option<nat> {
    if FirstIndex(names, name) < |names| then Some(FirstIndex(names, name)) else None
  }

  /** The index answers exactly like a linear scan, whatever hashes collide. */
  lemma ProbeIsScan(names: seq<seq<byte>>, b: nat, name: seq<byte>)
    requires |names| < b < TWO32 && |names| < HASH_EMPTY
    ensures Probe(Filled(Hashes(names), b), names, name, 0) == Scan(names, name)
  {
    hide Probe, Indexed, Filled, Distances;
    var t, ds := Filled(Hashes(names), b), Distances(Hashes(names), b);
    FilledIsIndexed(Hashes(names), b);
    if FirstIndex(names, name) < |names| {
      SeatedWithin(t, Hashes(names), ds, FirstIndex(names, name));
      ProbeReaches(t, names, ds, name, 0);
    } else {
      ProbeMisses(t, names, name, 0);
    }
  }

  lemma SeatedWithin(t: seq<Bucket>, hs: seq<u64>, ds: seq<nat>, j: nat)
    requires |t| > 0 && Indexed(t, hs, ds) && j < |hs|
    ensures |ds| == |hs| && ds[j] < |t|
  {
  }

  // ---------- the table's size ----------

  function DoubledTo(p: nat, v: nat): (r: nat)
    requires p > 0
    ensures r >= p && r >= v
    ensures r == p || r < 2 * v
    decreases v - p
  {
    if p >= v then p else DoubledTo(2 * p, v)
  }

  function NextPow2(v: nat): nat { DoubledTo(16, v) }

  function Pow2(k: nat): nat { if k == 0 then 1 else 2 * Pow2(k - 1) }

  lemma {:induction false} DoubledToIsPower(k: nat, v: nat)
    requires Pow2(k) > 0
    ensures exists j: nat :: DoubledTo(Pow2(k), v) == Pow2(j)
    decreases v - Pow2(k)
  {
    if Pow2(k) < v {
      assert Pow2(k + 1) == 2 * Pow2(k);
      DoubledToIsPower(k + 1, v);
    }
  }

  function BucketCount(n: nat): nat { NextPow2(2 * n) }

  /** A power of two, at least 16, at least twice the entries and less than four times them. */
  lemma BucketCountBounds(n: nat)
    requires n < 0x4000_0000
    ensures 2 * n <= BucketCount(n) < TWO32 && BucketCount(n) >= 16
    ensures BucketCount(n) == 16 || BucketCount(n) < 4 * n
    ensures exists j: nat :: BucketCount(n) == Pow2(j)
  {
    assert Pow2(1) == 2 && Pow2(2) == 4 && Pow2(3) == 8 && Pow2(4) == 16;
    DoubledToIsPower(4, 2 * n);
  }

  /** At least half of the buckets of a built table stay empty. */
  lemma HalfStaysEmpty(names: seq<seq<byte>>)
    requires |names| < 0x4000_0000
    ensures |Used(Filled(Hashes(names), BucketCount(|names|)))| == |names|
    ensures 2 * |names| <= BucketCount(|names|)
  {
    BucketCountBounds(|names|);
    FilledIsIndexed(Hashes(names), BucketCount(|names|));
  }

  // ---------- the program ----------

  /** `next_pow2` */
  method ComputeNextPow2(v: u32) returns (p: u32)
    requires v <= 0x8000_0000
    ensures p == NextPow2(v)
  {
    p := 16;
    while p < v
      invariant DoubledTo(p, v) == NextPow2(v) && p > 0
      decreases v - p
    {
      p := p * 2 % TWO32;
    }
  }

  /** The insertion loop's inner search, in 32-bit arithmetic. */
  method FindFreeSlot(t: array<Bucket>, h: u64) returns (slot: u32)
    requires 0 < t.Length < TWO32
    requires FirstFree(t[..], Home(h, t.Length), 0) < t.Length
    ensures slot < t.Length
    ensures slot == Slot(Home(h, t.Length), FirstFree(t[..], Home(h, t.Length), 0), t.Length)
  {
    hide Home, Advance;
    slot := Home(h, t.Length);
    ghost var k := 0;
    ghost var home := Home(h, t.Length);
    while t[slot].directoryIndex != HASH_EMPTY
      invariant k <= FirstFree(t[..], home, 0) < t.Length
      invariant FirstFree(t[..], home, k) == FirstFree(t[..], home, 0)
      invariant slot == Slot(home, k, t.Length)
      decreases t.Length - k
    {
      NextSlot(home, k, t.Length);
      slot := Advance(slot, t.Length);
      k := k + 1;
    }
  }

  lemma FilledSnoc(hs: seq<u64>, h: u64, b: nat)
    requires |hs| + 1 < b < TWO32 && |hs| + 1 < HASH_EMPTY
    ensures FirstFree(Filled(hs, b), Home(h, b), 0) < b
    ensures Filled(hs + [h], b)
         == Filled(hs, b)[Slot(Home(h, b), FirstFree(Filled(hs, b), Home(h, b), 0), b) := Bucket(h, |hs|)]
  {
    FilledIsIndexed(hs, b);
    FreeSlotExists(Filled(hs, b), Home(h, b));
    assert (hs + [h])[..|hs|] == hs;
  }

  /** `calloc` and the loop that marks every bucket unused. */
  method EmptyBuckets(bucketCount: u32) returns (buckets: array<Bucket>)
    ensures fresh(buckets) && buckets[..] == EmptyTable(bucketCount)
  {
    buckets := new Bucket[bucketCount](_ => Bucket(0, 0));
    for i := 0 to bucketCount
      invariant forall s :: 0 <= s < i ==> buckets[s] == EMPTY_BUCKET
      invariant forall s :: i <= s < bucketCount ==> buckets[s] == Bucket(0, 0)
    {
      buckets[i] := buckets[i].(directoryIndex := HASH_EMPTY);
    }
  }

  /** The insertion loop of `elfrc_container_build`. */
  method FillTable(names: seq<seq<byte>>, bucketCount: u32) returns (buckets: array<Bucket>, nameHashes: array<u64>)
    requires |names| + 1 < bucketCount && |names| < HASH_EMPTY
    ensures fresh(buckets) && fresh(nameHashes)
    ensures buckets[..] == Filled(Hashes(names), bucketCount)
    ensures nameHashes[..] == Hashes(names)
  {
    hide Filled, Fnv1a.AsNumber, FirstFree, Home;
    buckets := EmptyBuckets(bucketCount);
    nameHashes := new u64[|names|];
    ghost var hs: seq<u64> := [];
    NothingFilled(bucketCount);
    for i := 0 to |names|
      invariant |hs| == i && nameHashes[..i] == hs
      invariant hs == Hashes(names)[..i]
      invariant buckets[..] == Filled(hs, bucketCount)
    {
      var hash := Fnv1a.ComputeFnv1a64(names[i]);
      var h := Fnv1a.AsNumber(hash);
      nameHashes[i] := h;
      FilledSnoc(hs, h, bucketCount);
      var slot := FindFreeSlot(buckets, h);
      buckets[slot] := Bucket(h, i);
      assert h == Hashes(names)[i];
      hs := hs + [h];
    }
    assert Hashes(names)[..|names|] == Hashes(names);
  }

  lemma NothingFilled(b: nat)
    requires b > 0
    ensures Filled([], b) == EmptyTable(b)
  {
  }
}
