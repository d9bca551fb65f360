/**
  Identifier assignment and duplicate checks (`assign_and_validate_ids`,
  src/elfrc/manifest_yaml.c lines 376-426).
 */
module Ids {
  import opened Bytes
  import opened Manifests

  // ---------- sorting ----------

  /** `uint32_cmp` */
  function Compare(x: u32, y: u32): int {
    (if x > y then 1 else 0) - (if x < y then 1 else 0)
  }

  predicate Sorted(s: seq<u32>) {
    forall i, j :: 0 <= i < j < |s| ==> s[i] <= s[j]
  }

  function InsertSorted(s: seq<u32>, x: u32): seq<u32> {
    if s == [] || Compare(x, s[0]) <= 0 then [x] + s else [s[0]] + InsertSorted(s[1..], x)
  }

  /** What qsort leaves behind: the one ascending arrangement of the same numbers. */
  function Sort(s: seq<u32>): seq<u32> {
    if s == [] then [] else InsertSorted(Sort(s[1..]), s[0])
  }

  lemma {:induction false} InsertSortedElements(s: seq<u32>, x: u32)
    ensures multiset(InsertSorted(s, x)) == multiset(s) + multiset{x}
    ensures forall y :: y in InsertSorted(s, x) <==> y == x || y in s
  {
    if s != [] && Compare(x, s[0]) > 0 {
      InsertSortedElements(s[1..], x);
      assert s == [s[0]] + s[1..];
    }
  }

  lemma SortedCons(x: u32, s: seq<u32>)
    requires Sorted(s) && forall y :: y in s ==> x <= y
    ensures Sorted([x] + s)
  {
    assert forall i :: 0 <= i < |s| ==> s[i] in s;
  }

  lemma SortedRest(s: seq<u32>)
    requires Sorted(s) && s != []
    ensures Sorted(s[1..]) && forall y :: y in s ==> s[0] <= y
  {
  }

  lemma {:induction false} InsertSortedIsSorted(s: seq<u32>, x: u32)
    requires Sorted(s)
    ensures Sorted(InsertSorted(s, x))
  {
    hide Sorted;
    if s == [] {
      SortedCons(x, []) by { EmptySorted(); }
    } else {
      SortedRest(s);
      if Compare(x, s[0]) <= 0 {
        assert forall y :: y in s ==> x <= y;
        SortedCons(x, s);
      } else {
        InsertSortedIsSorted(s[1..], x);
        InsertSortedElements(s[1..], x);
        assert forall y :: y in s[1..] ==> y in s;
        SortedCons(s[0], InsertSorted(s[1..], x));
      }
    }
  }

  lemma EmptySorted()
    ensures Sorted([])
  {
  }

  lemma {:induction false} SortIsSorted(s: seq<u32>)
    ensures Sorted(Sort(s)) && multiset(Sort(s)) == multiset(s)
  {
    if s == [] {
    } else {
      SortIsSorted(s[1..]);
      InsertSortedIsSorted(Sort(s[1..]), s[0]);
      InsertSortedElements(Sort(s[1..]), s[0]);
      assert s == [s[0]] + s[1..];
    }
  }

  lemma SameFirst(s: seq<u32>, t: seq<u32>)
    requires Sorted(s) && Sorted(t) && multiset(s) == multiset(t) && s != [] && t != []
    ensures s[0] == t[0]
  {
    assert s[0] in multiset(s) && t[0] in multiset(t);
    assert s[0] in t && t[0] in s;
    SortedRest(s);
    SortedRest(t);
  }

  /** Any sorted arrangement of the same numbers is that one, so it does not matter how qsort works. */
  lemma {:induction false} SortIsUnique(s: seq<u32>, t: seq<u32>)
    requires Sorted(s) && Sorted(t) && multiset(s) == multiset(t)
    ensures s == t
    decreases |s|
  {
    assert |s| == |multiset(s)| == |multiset(t)| == |t|;
    if s == [] {
    } else {
      SameFirst(s, t);
      SortedRest(s);
      SortedRest(t);
      hide Sorted;
      assert s == [s[0]] + s[1..] && t == [t[0]] + t[1..];
      assert multiset(s) == multiset{s[0]} + multiset(s[1..]);
      assert multiset(t) == multiset{t[0]} + multiset(t[1..]);
      assert multiset(s[1..]) == multiset(s) - multiset{s[0]};
      assert multiset(t[1..]) == multiset(t) - multiset{t[0]};
      SortIsUnique(s[1..], t[1..]);
    }
  }

  // ---------- explicit identifiers ----------

  /** The explicit ids, in manifest order. */
  function Explicit(rs: seq<Resource>): seq<u32> {
    if rs == [] then []
    else Explicit(rs[..|rs| - 1]) + if rs[|rs| - 1].idExplicit then [rs[|rs| - 1].id] else []
  }

  predicate HasAdjacentPair(s: seq<u32>) {
    exists i :: 0 < i < |s| && s[i] == s[i - 1]
  }

  predicate HasRepeat(s: seq<u32>) {
    exists i, j :: 0 <= i < j < |s| && s[i] == s[j]
  }

  lemma AdjacentIsRepeat(s: seq<u32>)
    requires Sorted(s)
    ensures HasAdjacentPair(s) <==> HasRepeat(s)
  {
    if HasRepeat(s) {
      var i, j :| 0 <= i < j < |s| && s[i] == s[j];
      assert s[i] <= s[i + 1] <= s[j];
      assert s[i + 1] == s[i + 1 - 1];
    }
    if HasAdjacentPair(s) {
      var i :| 0 < i < |s| && s[i] == s[i - 1];
      assert s[i - 1] == s[i];
    }
  }

  lemma RepeatIsMultiplicity(s: seq<u32>)
    ensures HasRepeat(s) <==> exists x :: multiset(s)[x] > 1
  {
    if HasRepeat(s) {
      var i, j :| 0 <= i < j < |s| && s[i] == s[j];
      SplitAt(s, j);
      assert s[i] in s[..j];
      assert multiset(s)[s[j]] > 1;
    }
    if exists x :: multiset(s)[x] > 1 {
      var x :| multiset(s)[x] > 1;
      TwicePositions(s, x);
    }
  }

  lemma SplitAt(s: seq<u32>, j: nat)
    requires j < |s|
    ensures multiset(s) == multiset(s[..j]) + multiset{s[j]} + multiset(s[j + 1..])
  {
    assert s == s[..j] + [s[j]] + s[j + 1..];
  }

  lemma TwicePositions(s: seq<u32>, x: u32)
    requires multiset(s)[x] > 1
    ensures HasRepeat(s)
    ensures exists i, j :: 0 <= i < j < |s| && s[i] == s[j] == x
  {
    assert x in s;
    var i :| 0 <= i < |s| && s[i] == x;
    SplitAt(s, i);
    if x in s[..i] {
      var k :| 0 <= k < i && s[..i][k] == x;
      assert s[k] == s[i];
    } else {
      assert x in s[i + 1..];
      var k :| 0 <= k < |s| - (i + 1) && s[i + 1..][k] == x;
      assert s[i] == s[i + 1 + k];
    }
  }

  /** Sorting and comparing neighbours finds a repeat exactly when there is one. */
  lemma NeighboursDecideRepeats(s: seq<u32>)
    ensures HasAdjacentPair(Sort(s)) <==> HasRepeat(s)
  {
    SortIsSorted(s);
    AdjacentIsRepeat(Sort(s));
    RepeatIsMultiplicity(s);
    RepeatIsMultiplicity(Sort(s));
  }

  predicate HasDuplicateIds(rs: seq<Resource>) {
    exists i, j :: 0 <= i < j < |rs| && rs[i].idExplicit && rs[j].idExplicit && rs[i].id == rs[j].id
  }

  predicate HasDuplicateNames(rs: seq<Resource>) {
    exists i, j :: 0 <= i < j < |rs| && rs[i].name == rs[j].name && rs[i].language == rs[j].language
  }

  lemma {:induction false} ExplicitMembers(rs: seq<Resource>)
    ensures |Explicit(rs)| <= |rs|
    ensures forall x :: x in Explicit(rs) <==> exists i :: 0 <= i < |rs| && rs[i].idExplicit && rs[i].id == x
  {
    if rs == [] {
    } else {
      var front, last := rs[..|rs| - 1], rs[|rs| - 1];
      ExplicitMembers(front);
      forall x | exists i :: 0 <= i < |rs| && rs[i].idExplicit && rs[i].id == x
        ensures x in Explicit(rs)
      {
        var i :| 0 <= i < |rs| && rs[i].idExplicit && rs[i].id == x;
        assert i < |front| ==> front[i] == rs[i];
      }
      forall x | x in Explicit(rs)
        ensures exists i :: 0 <= i < |rs| && rs[i].idExplicit && rs[i].id == x
      {
        if x in Explicit(front) {
          var i :| 0 <= i < |front| && front[i].idExplicit && front[i].id == x;
          assert rs[i] == front[i];
        } else {
          assert last.idExplicit && last.id == x;
        }
      }
    }
  }

  lemma {:induction false} RepeatIsDuplicate(rs: seq<Resource>)
    ensures HasRepeat(Explicit(rs)) <==> HasDuplicateIds(rs)
  {
    if rs == [] {
    } else {
      var front, last := rs[..|rs| - 1], rs[|rs| - 1];
      RepeatIsDuplicate(front);
      ExplicitMembers(front);
      LastRepeat(Explicit(front), last.id);
      LastDuplicate(rs);
      assert !last.idExplicit ==> Explicit(rs) == Explicit(front);
    }
  }

  lemma LastRepeat(s: seq<u32>, x: u32)
    ensures HasRepeat(s + [x]) <==> HasRepeat(s) || x in s
  {
    var t := s + [x];
    if HasRepeat(t) {
      var i, j :| 0 <= i < j < |t| && t[i] == t[j];
      assert j < |s| ==> s[i] == s[j];
      assert j == |s| ==> s[i] == x;
    }
    if HasRepeat(s) {
      var i, j :| 0 <= i < j < |s| && s[i] == s[j];
      assert t[i] == t[j];
    }
    if x in s {
      var i :| 0 <= i < |s| && s[i] == x;
      assert t[i] == t[|s|];
    }
  }

  lemma LastDuplicate(rs: seq<Resource>)
    requires rs != []
    ensures var front, last := rs[..|rs| - 1], rs[|rs| - 1];
            HasDuplicateIds(rs) <==>
              HasDuplicateIds(front) || (last.idExplicit && exists i :: 0 <= i < |front| && front[i].idExplicit && front[i].id == last.id)
  {
    var front, last := rs[..|rs| - 1], rs[|rs| - 1];
    if HasDuplicateIds(rs) {
      var i, j :| 0 <= i < j < |rs| && rs[i].idExplicit && rs[j].idExplicit && rs[i].id == rs[j].id;
      assert front[i] == rs[i];
      assert j < |front| ==> front[j] == rs[j];
    }
    if HasDuplicateIds(front) {
      var i, j :| 0 <= i < j < |front| && front[i].idExplicit && front[j].idExplicit && front[i].id == front[j].id;
      assert rs[i] == front[i] && rs[j] == front[j];
    }
    if last.idExplicit && exists i :: 0 <= i < |front| && front[i].idExplicit && front[i].id == last.id {
      var i :| 0 <= i < |front| && front[i].idExplicit && front[i].id == last.id;
      assert rs[i] == front[i];
    }
  }

  // ---------- automatic identifiers ----------

  /** The explicit ids as a set. */
  function Taken(rs: seq<Resource>): set<nat> {
    Elements(Explicit(rs))
  }

  function Elements(s: seq<u32>): (r: set<nat>)
    ensures forall x :: x in r <==> x in s
    ensures |r| <= |s|
  {
    if s == [] then {} else
      var front := s[..|s| - 1];
      assert s == front + [s[|s| - 1]];
      Elements(front) + {s[|s| - 1]}
  }

  /** How many positive integers below n are not taken. */
  function FreeBelow(taken: set<nat>, n: nat): nat {
    if n <= 1 then 0 else FreeBelow(taken, n - 1) + if n - 1 in taken then 0 else 1
  }

  function TakenBelow(taken: set<nat>, n: nat): set<nat> {
    set x | x in taken && 1 <= x < n
  }

  lemma {:induction false} FreeAndTaken(taken: set<nat>, n: nat)
    requires n >= 1
    ensures FreeBelow(taken, n) + |TakenBelow(taken, n)| == n - 1
  {
    if n == 1 {
      assert TakenBelow(taken, 1) == {};
    } else {
      FreeAndTaken(taken, n - 1);
      if n - 1 in taken {
        assert TakenBelow(taken, n) == TakenBelow(taken, n - 1) + {n - 1};
      } else {
        assert TakenBelow(taken, n) == TakenBelow(taken, n - 1);
      }
    }
  }

  lemma {:induction false} FreeGrows(taken: set<nat>, m: nat, n: nat)
    requires m <= n
    ensures FreeBelow(taken, m) <= FreeBelow(taken, n)
  {
    if m == n {
    } else {
      FreeGrows(taken, m, n - 1);
    }
  }

  lemma {:induction false} SubsetSize(a: set<nat>, b: set<nat>)
    requires a <= b
    ensures |a| <= |b|
  {
    if a != {} {
      var x :| x in a;
      SubsetSize(a - {x}, b - {x});
    }
  }

  /** The cursor's walk: the first integer from n on that is not taken. */
  function NextFree(taken: set<nat>, n: nat): (r: nat)
    ensures r >= n && r !in taken
    ensures forall x :: n <= x < r ==> x in taken
    decreases |set x | x in taken && x >= n|
  {
    if n !in taken then n
    else
      var above, next := set x | x in taken && x >= n, set x | x in taken && x >= n + 1;
      assert above == next + {n};
      NextFree(taken, n + 1)
  }

  /** How many of the first i resources have no explicit id. */
  function Automatic(rs: seq<Resource>, i: nat): nat
    requires i <= |rs|
  {
    if i == 0 then 0 else Automatic(rs, i - 1) + if rs[i - 1].idExplicit then 0 else 1
  }

  /** The variable `next` before resource i is treated. */
  function Cursor(rs: seq<Resource>, i: nat): nat
    requires i <= |rs|
  {
    if i == 0 then 1
    else if rs[i - 1].idExplicit then Cursor(rs, i - 1)
    else NextFree(Taken(rs), Cursor(rs, i - 1)) + 1
  }

  function FinalId(rs: seq<Resource>, i: nat): nat
    requires i < |rs|
  {
    if rs[i].idExplicit then rs[i].id else NextFree(Taken(rs), Cursor(rs, i))
  }

  lemma {:induction false} NoFreeBetween(taken: set<nat>, n: nat, r: nat)
    requires 1 <= n <= r
    requires forall x :: n <= x < r ==> x in taken
    ensures FreeBelow(taken, r) == FreeBelow(taken, n)
    decreases r
  {
    if n == r {
    } else {
      NoFreeBetween(taken, n, r - 1);
    }
  }

  lemma {:induction false} CursorCounts(rs: seq<Resource>, i: nat)
    requires i <= |rs|
    ensures Cursor(rs, i) >= 1 && FreeBelow(Taken(rs), Cursor(rs, i)) == Automatic(rs, i)
  {
    hide NextFree, Taken;
    if i == 0 {
    } else {
      CursorCounts(rs, i - 1);
      if !rs[i - 1].idExplicit {
        var c := Cursor(rs, i - 1);
        var r := NextFree(Taken(rs), c);
        NoFreeBetween(Taken(rs), c, r);
        assert FreeBelow(Taken(rs), r + 1) == FreeBelow(Taken(rs), r) + 1;
      }
    }
  }

  /** The k-th resource without an explicit id gets the k-th smallest positive integer that is
      not explicit: it is not explicit itself, and exactly k smaller ones are not. */
  lemma AutomaticIsKthFree(rs: seq<Resource>, i: nat)
    requires i < |rs| && !rs[i].idExplicit
    ensures FinalId(rs, i) >= 1 && FinalId(rs, i) !in Taken(rs)
    ensures FreeBelow(Taken(rs), FinalId(rs, i)) == Automatic(rs, i)
  {
    CursorCounts(rs, i);
    NoFreeBetween(Taken(rs), Cursor(rs, i), FinalId(rs, i));
  }

  /** That description fixes the number. */
  lemma KthFreeIsUnique(taken: set<nat>, x: nat, y: nat)
    requires 1 <= x && 1 <= y && x !in taken && y !in taken
    requires FreeBelow(taken, x) == FreeBelow(taken, y)
    ensures x == y
  {
    if x < y {
      LaterFreeIsMore(taken, x, y);
    } else if y < x {
      LaterFreeIsMore(taken, y, x);
    }
  }

  lemma LaterFreeIsMore(taken: set<nat>, x: nat, y: nat)
    requires 1 <= x < y && x !in taken
    ensures FreeBelow(taken, x) < FreeBelow(taken, y)
  {
    FreeGrows(taken, x + 1, y);
  }

  lemma {:induction false} ExplicitAndAutomatic(rs: seq<Resource>)
    ensures |Explicit(rs)| + Automatic(rs, |rs|) == |rs|
  {
    if rs == [] {
    } else {
      var front := rs[..|rs| - 1];
      ExplicitAndAutomatic(front);
      AutomaticOfPrefix(rs, |rs| - 1);
    }
  }

  lemma {:induction false} AutomaticOfPrefix(rs: seq<Resource>, k: nat)
    requires k < |rs|
    ensures Automatic(rs[..|rs| - 1], k) == Automatic(rs, k)
  {
    if k == 0 {
    } else {
      AutomaticOfPrefix(rs, k - 1);
    }
  }

  lemma {:induction false} AutomaticGrows(rs: seq<Resource>, i: nat, j: nat)
    requires i <= j <= |rs|
    ensures Automatic(rs, i) <= Automatic(rs, j)
  {
    if i == j {
    } else {
      AutomaticGrows(rs, i, j - 1);
    }
  }

  /** Pigeonhole: automatic ids never exceed the number of resources, so the cursor cannot wrap. */
  lemma AutomaticIsSmall(rs: seq<Resource>, i: nat)
    requires i < |rs| && !rs[i].idExplicit
    ensures 1 <= FinalId(rs, i) <= |rs|
  {
    hide FinalId, Explicit;
    var n, taken := |rs|, Taken(rs);
    AutomaticIsKthFree(rs, i);
    AutomaticGrows(rs, i + 1, n);
    ExplicitAndAutomatic(rs);
    SubsetSize(TakenBelow(taken, n + 1), taken);
    FreeAndTaken(taken, n + 1);
    if FinalId(rs, i) > n {
      FreeGrows(taken, n + 1, FinalId(rs, i));
    }
  }

  lemma AutomaticIdsIncrease(rs: seq<Resource>, i: nat, j: nat)
    requires i < j < |rs| && !rs[i].idExplicit && !rs[j].idExplicit
    ensures FinalId(rs, i) < FinalId(rs, j)
  {
    hide Cursor, FinalId;
    CursorStep(rs, i);
    CursorStep(rs, j);
    CursorGrows(rs, i + 1, j);
  }

  lemma CursorStep(rs: seq<Resource>, i: nat)
    requires i < |rs|
    ensures Cursor(rs, i + 1) == if rs[i].idExplicit then Cursor(rs, i) else FinalId(rs, i) + 1
    ensures !rs[i].idExplicit ==> Cursor(rs, i) <= FinalId(rs, i)
  {
  }

  lemma {:induction false} CursorGrows(rs: seq<Resource>, i: nat, j: nat)
    requires i <= j <= |rs|
    ensures Cursor(rs, i) <= Cursor(rs, j)
  {
    hide Cursor, FinalId;
    if i == j {
    } else {
      CursorStep(rs, j - 1);
      CursorGrows(rs, i, j - 1);
    }
  }

  /** Without a repeated explicit id, all final ids are distinct. */
  lemma FinalIdsDistinct(rs: seq<Resource>, i: nat, j: nat)
    requires !HasDuplicateIds(rs) && i < j < |rs|
    ensures FinalId(rs, i) != FinalId(rs, j)
  {
    ExplicitMembers(rs);
    if rs[i].idExplicit && !rs[j].idExplicit {
      AutomaticIsKthFree(rs, j);
    } else if !rs[i].idExplicit && rs[j].idExplicit {
      AutomaticIsKthFree(rs, i);
    } else if !rs[i].idExplicit {
      AutomaticIdsIncrease(rs, i, j);
    }
  }

  lemma FinalIdFits(rs: seq<Resource>, i: nat)
    requires i < |rs| < TWO32
    ensures FinalId(rs, i) < TWO32
  {
    if !rs[i].idExplicit {
      AutomaticIsSmall(rs, i);
    }
  }

  function WithFinalId(rs: seq<Resource>, i: nat): Resource
    requires i < |rs| < TWO32
  {
    FinalIdFits(rs, i);
    rs[i].(finalId := FinalId(rs, i))
  }

  /** The resources with their final ids; nothing else about them changes. */
  function Assigned(rs: seq<Resource>): (r: seq<Resource>)
    requires |rs| < TWO32
    ensures |r| == |rs|
  {
    seq(|rs|, i requires 0 <= i < |rs| => WithFinalId(rs, i))
  }

  // ---------- the program ----------

  datatype IdError = DuplicateId(id: u32) | DuplicateResource(first: nat, second: nat)

  /** libc's qsort with `uint32_cmp` over the first `count` numbers. */
  method SortFirst(a: array<u32>, count: nat)
    requires count <= a.Length
    modifies a
    ensures a[..count] == Sort(old(a[..count]))
  {
    var sorted := Sort(a[..count]);
    SortIsSorted(a[..count]);
    assert |sorted| == |multiset(sorted)| == |multiset(a[..count])| == count;
    forall i | 0 <= i < count {
      a[i] := sorted[i];
    }
  }

  /** libc's bsearch over the first `count` numbers. */
  method Contains(key: u32, a: array<u32>, count: nat) returns (found: bool)
    requires count <= a.Length && Sorted(a[..count])
    ensures found <==> key in a[..count]
  {
    var low, high := 0, count;
    while low < high
      invariant 0 <= low <= high <= count
      invariant forall i :: 0 <= i < low ==> a[i] < key
      invariant forall i :: high <= i < count ==> a[i] > key
    {
      var mid := (low + high) / 2;
      assert a[..count][mid] == a[mid];
      var order := Compare(key, a[mid]);
      if order == 0 {
        return true;
      } else if order < 0 {
        assert forall i :: mid < i < count ==> a[..count][mid] <= a[..count][i] == a[i];
        high := mid;
      } else {
        assert forall i :: 0 <= i < mid ==> a[i] == a[..count][i] <= a[..count][mid];
        low := mid + 1;
      }
    }
    return false;
  }

  /** The loop that gathers the explicit ids. */
  method GatherExplicit(resources: array<Resource>) returns (ids: array<u32>, count: nat)
    ensures fresh(ids) && count <= ids.Length
    ensures ids[..count] == Explicit(resources[..])
  {
    ids := new u32[resources.Length];
    count := 0;
    for i := 0 to resources.Length
      invariant count <= i
      invariant ids[..count] == Explicit(resources[..i])
    {
      assert resources[..i + 1][..i] == resources[..i];
      if resources[i].idExplicit {
        ids[count] := resources[i].id;
        count := count + 1;
      }
    }
    assert resources[..resources.Length] == resources[..];
  }

  lemma StartOfCursor(rs: seq<Resource>)
    ensures Cursor(rs, 0) == 1
  {
  }

  /** An explicit id is the final id. */
  lemma ExplicitKept(rs: seq<Resource>, i: nat)
    requires i < |rs| && rs[i].idExplicit
    ensures FinalId(rs, i) == rs[i].id
  {
  }

  /** The cursor loop: each resource's final id, in 32-bit arithmetic. */
  method AssignFinalIds(resources: array<Resource>, ids: array<u32>, count: nat)
    requires resources.Length < TWO32 - 1
    requires count <= ids.Length && ids[..count] == Sort(Explicit(resources[..]))
    modifies resources
    ensures resources[..] == Assigned(old(resources[..]))
  {
    hide Cursor, FinalId, Sort, Explicit, Sorted;
    ghost var rs := resources[..];
    SortIsSorted(Explicit(rs));
    StartOfCursor(rs);
    var next: u32 := 1;
    for i := 0 to resources.Length
      invariant next == Cursor(rs, i) <= resources.Length + 1
      invariant forall k :: 0 <= k < i ==> resources[k] == WithFinalId(rs, k)
      invariant forall k :: i <= k < resources.Length ==> resources[k] == rs[k]
    {
      CursorStep(rs, i);
      var r := resources[i];
      if r.idExplicit {
        ExplicitKept(rs, i);
        assert WithFinalId(rs, i) == r.(finalId := r.id);
        resources[i] := r.(finalId := r.id);
      } else {
        AutomaticIsSmall(rs, i);
        next := Advance(rs, i, next, ids, count);
        resources[i] := r.(finalId := next);
        next := (next + 1) % TWO32;
      }
    }
  }

  lemma StartOfSearch(rs: seq<Resource>, i: nat)
    requires i < |rs| && !rs[i].idExplicit
    ensures FinalId(rs, i) == NextFree(Taken(rs), Cursor(rs, i))
  {
  }

  lemma FreeIsNotTaken(rs: seq<Resource>, n: u32)
    ensures n in Explicit(rs) ==> NextFree(Taken(rs), n) == NextFree(Taken(rs), n + 1) >= n + 1
    ensures n !in Explicit(rs) ==> NextFree(Taken(rs), n) == n
  {
  }

  /** `while (bsearch(&next, ...)) next++;` */
  method Advance(ghost rs: seq<Resource>, ghost i: nat, start: u32, ids: array<u32>, count: nat) returns (next: u32)
    requires i < |rs| < TWO32 - 1 && !rs[i].idExplicit && start == Cursor(rs, i)
    requires count <= ids.Length && Sorted(ids[..count]) && multiset(ids[..count]) == multiset(Explicit(rs))
    ensures next == FinalId(rs, i)
  {
    hide Cursor, Explicit, Sorted, Taken;
    AutomaticIsSmall(rs, i);
    StartOfSearch(rs, i);
    next := start;
    var found := Contains(next, ids, count);
    SameMembers(ids[..count], Explicit(rs), next);
    while found
      invariant start <= next <= FinalId(rs, i)
      invariant found <==> next in Explicit(rs)
      invariant NextFree(Taken(rs), next) == FinalId(rs, i)
      decreases FinalId(rs, i) - next
    {
      FreeIsNotTaken(rs, next);
      next := (next + 1) % TWO32;
      found := Contains(next, ids, count);
      SameMembers(ids[..count], Explicit(rs), next);
    }
    FreeIsNotTaken(rs, next);
  }

  lemma SameMembers(s: seq<u32>, t: seq<u32>, x: u32)
    requires multiset(s) == multiset(t)
    ensures x in s <==> x in t
  {
    assert x in s <==> x in multiset(s);
    assert x in t <==> x in multiset(t);
  }

  /** `x` is the smallest id that occurs more than once. */
  ghost predicate SmallestRepeat(s: seq<u32>, x: u32) {
    multiset(s)[x] > 1 && forall y :: multiset(s)[y] > 1 ==> x <= y
  }

  /** In a sorted sequence the first pair of equal neighbours is the smallest repeat. */
  lemma FirstAdjacentIsSmallest(s: seq<u32>, i: nat)
    requires Sorted(s) && 0 < i < |s| && s[i] == s[i - 1]
    requires forall k :: 0 < k < i ==> s[k] != s[k - 1]
    ensures SmallestRepeat(s, s[i])
  {
    SplitAt(s, i);
    assert s[..i][i - 1] == s[i];
    forall y | multiset(s)[y] > 1
      ensures s[i] <= y
    {
      TwicePositions(s, y);
      var a, b :| 0 <= a < b < |s| && s[a] == s[b] == y;
      assert s[a] <= s[a + 1] <= s[b];
      assert s[a + 1] == s[a + 1 - 1];
      assert a + 1 >= i;
    }
  }

  /** The adjacent comparison: the smallest repeated id, if any. */
  method FindAdjacent(ids: array<u32>, count: nat) returns (error: Option<IdError>)
    requires count <= ids.Length && Sorted(ids[..count])
    ensures error.None? <==> !HasAdjacentPair(ids[..count])
    ensures error.Some? ==> error.value.DuplicateId? && SmallestRepeat(ids[..count], error.value.id)
  {
    var i := 1;
    while i < count
      invariant 1 <= i
      invariant forall k :: 0 < k < i && k < count ==> ids[k] != ids[k - 1]
    {
      if ids[i] == ids[i - 1] {
        assert ids[..count][i] == ids[..count][i - 1];
        FirstAdjacentIsSmallest(ids[..count], i);
        return Some(DuplicateId(ids[i]));
      }
      i := i + 1;
    }
    return None;
  }

  /** Resources i and j share name and language. */
  predicate Clash(rs: seq<Resource>, i: nat, j: nat) {
    i < j < |rs| && rs[i].name == rs[j].name && rs[i].language == rs[j].language
  }

  /** Of all pairs that clash, (i, j) comes first in lexicographic order. */
  ghost predicate FirstClash(rs: seq<Resource>, i: nat, j: nat) {
    Clash(rs, i, j) && forall k: nat, m: nat :: Clash(rs, k, m) ==> i < k || (i == k && j <= m)
  }

  /** The pairwise name and language check: the first pair in lexicographic order. */
  method FindDuplicateName(resources: array<Resource>) returns (error: Option<IdError>)
    ensures error.None? <==> !HasDuplicateNames(resources[..])
    ensures error.Some? ==>
      error.value.DuplicateResource? && FirstClash(resources[..], error.value.first, error.value.second)
  {
    ghost var rs := resources[..];
    for i := 0 to resources.Length
      invariant forall k: nat, m: nat :: k < i ==> !Clash(rs, k, m)
    {
      for j := i + 1 to resources.Length
        invariant forall m: nat :: m < j ==> !Clash(rs, i, m)
      {
        if resources[i].name == resources[j].name && resources[i].language == resources[j].language {
          assert Clash(rs, i, j);
          return Some(DuplicateResource(i, j));
        }
      }
    }
    forall i: nat, j: nat | i < j < |rs|
      ensures !(rs[i].name == rs[j].name && rs[i].language == rs[j].language)
    {
      assert !Clash(rs, i, j);
    }
    return None;
  }

  lemma AssignedKeepsNames(rs: seq<Resource>)
    requires |rs| < TWO32
    ensures HasDuplicateNames(Assigned(rs)) <==> HasDuplicateNames(rs)
    ensures forall i: nat, j: nat :: Clash(Assigned(rs), i, j) <==> Clash(rs, i, j)
  {
    hide FinalId;
    assert forall i :: 0 <= i < |rs| ==> Assigned(rs)[i].name == rs[i].name && Assigned(rs)[i].language == rs[i].language;
  }

  /** `assign_and_validate_ids`: it reports an error exactly when two explicit ids are equal or two
      resources share name and language; unless two explicit ids are equal, every resource has its final id. */
  method AssignAndValidateIds(resources: array<Resource>) returns (error: Option<IdError>)
    requires resources.Length < TWO32 - 1
    modifies resources
    ensures error.None? <==> !HasDuplicateIds(old(resources[..])) && !HasDuplicateNames(old(resources[..]))
    ensures !HasDuplicateIds(old(resources[..])) ==> resources[..] == Assigned(old(resources[..]))
    ensures HasDuplicateIds(old(resources[..])) ==>
      && resources[..] == old(resources[..])
      && error.Some? && error.value.DuplicateId? && SmallestRepeat(Explicit(old(resources[..])), error.value.id)
    ensures !HasDuplicateIds(old(resources[..])) && error.Some? ==>
      error.value.DuplicateResource? && FirstClash(old(resources[..]), error.value.first, error.value.second)
  {
    ghost var rs := resources[..];
    if resources.Length == 0 {
      return None;
    }
    var ids, count := GatherExplicit(resources);
    SortFirst(ids, count);
    SortIsSorted(Explicit(rs));
    NeighboursDecideRepeats(Explicit(rs));
    RepeatIsDuplicate(rs);
    error := FindAdjacent(ids, count);
    if error.Some? {
      return;
    }
    AssignFinalIds(resources, ids, count);
    AssignedKeepsNames(rs);
    error := FindDuplicateName(resources);
  }
}
