/** Cluster chains as a linked heap in the FAT: what create_chain and remove_chain compute on the FAT map,
    and what they keep for every chain on the volume. */
module Chains {
  import opened Results

  type FatTable = seq<nat>

  /** get_fat on the map: 1 for a cluster number out of range. */
  function Get(fat: FatTable, c: nat): nat {
    if 2 <= c < |fat| then fat[c] else 1
  }

  // ---------------------------------------------------------------- chains

  /** `s` is a terminated chain. Acyclicity is not assumed: it follows (`ChainDistinct`). */
  ghost predicate IsChain(fat: FatTable, s: seq<nat>) {
    && |s| > 0
    && (forall i :: 0 <= i < |s| ==> 2 <= s[i] < |fat|)
    && (forall i :: 0 <= i < |s| - 1 ==> fat[s[i]] == s[i + 1])
    && fat[s[|s| - 1]] >= |fat|
  }

  /** The chain of a file or directory with start cluster `head`; start cluster 0 means no data. */
  ghost predicate Heads(fat: FatTable, head: nat, s: seq<nat>) {
    if head == 0 then s == [] else IsChain(fat, s) && s[0] == head
  }

  ghost predicate Disjoint(a: seq<nat>, b: seq<nat>) {
    forall x :: x in a ==> x !in b
  }

  /** Only the last cluster of a chain carries an end mark. */
  lemma EndIsLast(fat: FatTable, s: seq<nat>, i: nat)
    requires IsChain(fat, s) && i < |s|
    ensures fat[s[i]] >= |fat| <==> i == |s| - 1
  {
    if i < |s| - 1 {
      assert fat[s[i]] == s[i + 1];
    }
  }

  /** No entry holds the value 1, which get_fat reserves for errors. */
  ghost predicate Sound(fat: FatTable) {
    forall c :: 2 <= c < |fat| ==> fat[c] != 1
  }

  /** The end mark of a chain is not the number behind its last cluster. */
  ghost predicate EndApart(fat: FatTable, s: seq<nat>) {
    s == [] || (s[|s| - 1] < |fat| && fat[s[|s| - 1]] != s[|s| - 1] + 1)
  }

  /** Two chains that meet run together to their common end. */
  lemma {:induction false} ChainsMeet(fat: FatTable, a: seq<nat>, i: nat, b: seq<nat>, j: nat)
    requires IsChain(fat, a) && IsChain(fat, b) && i < |a| && j < |b| && a[i] == b[j]
    ensures |a| - i == |b| - j
    ensures a[i..] == b[j..]
    decreases |a| - i
  {
    if i == |a| - 1 || j == |b| - 1 {
      EndIsLast(fat, a, i);
      EndIsLast(fat, b, j);
    } else {
      assert fat[a[i]] == a[i + 1] && fat[b[j]] == b[j + 1];
      ChainsMeet(fat, a, i + 1, b, j + 1);
      assert a[i..] == [a[i]] + a[i + 1..];
      assert b[j..] == [b[j]] + b[j + 1..];
    }
  }

  /** A terminated chain is acyclic: it visits no cluster twice. */
  lemma ChainDistinct(fat: FatTable, s: seq<nat>)
    requires IsChain(fat, s)
    ensures forall i, j :: 0 <= i < j < |s| ==> s[i] != s[j]
  {
    forall i, j | 0 <= i < j < |s|
      ensures s[i] != s[j]
    {
      if s[i] == s[j] {
        ChainsMeet(fat, s, i, s, j);
      }
    }
  }

  lemma ChainAllocated(fat: FatTable, s: seq<nat>)
    requires IsChain(fat, s)
    ensures forall i :: 0 <= i < |s| ==> fat[s[i]] >= 2
  {
    forall i | 0 <= i < |s|
      ensures fat[s[i]] >= 2
    {
      if i < |s| - 1 {
        assert fat[s[i]] == s[i + 1];
      }
    }
  }

  lemma HeadEmpty(fat: FatTable, head: nat, s: seq<nat>)
    requires Heads(fat, head, s)
    ensures head == 0 <==> s == []
  {}

  /** The start cluster determines the chain. */
  lemma HeadDetermines(fat: FatTable, head: nat, a: seq<nat>, b: seq<nat>)
    requires Heads(fat, head, a) && Heads(fat, head, b)
    ensures a == b
  {
    if head != 0 {
      ChainsMeet(fat, a, 0, b, 0);
      assert a[0..] == a && b[0..] == b;
    }
  }

  // ---------------------------------------------------------------- allocation

  /** The `k`-th cluster create_chain tests after the start hint `scl`, wrapping from the last cluster to 2. */
  function Candidate(n: nat, scl: nat, k: nat): nat
    requires 1 <= scl < n && 3 <= n && k < n - 2
  {
    if scl + 1 + k < n then scl + 1 + k else 2 + (scl + 1 + k - n)
  }

  /** The first position at or after `k` whose candidate is free (0) or ill (1), or `n - 2`. */
  function FirstStop(fat: FatTable, scl: nat, k: nat): (r: nat)
    requires 1 <= scl < |fat| && 3 <= |fat| && k <= |fat| - 2
    ensures k <= r <= |fat| - 2
    decreases |fat| - k
  {
    if k == |fat| - 2 then k
    else if fat[Candidate(|fat|, scl, k)] < 2 then k
    else FirstStop(fat, scl, k + 1)
  }

  /** What the wrap-around search returns: 0 when no cluster is free, 1 on an ill entry, else the free cluster. */
  function Pick(fat: FatTable, scl: nat): (r: nat)
    requires 1 <= scl < |fat| && 3 <= |fat|
  {
    var k := FirstStop(fat, scl, 0);
    if k == |fat| - 2 then 0
    else if fat[Candidate(|fat|, scl, k)] == 1 then 1
    else Candidate(|fat|, scl, k)
  }

  /** Where the search for a new chain starts: the last allocation, or 1 when that is unknown. */
  function Hint(n: nat, last: nat): nat {
    if last == 0 || last >= n then 1 else last
  }

  /** `isNew` says that a cluster was allocated, rather than an existing link followed. */
  datatype Allocation = Allocation(fat: FatTable, cluster: nat, isNew: bool)

  /** create_chain on the FAT map; `end` is the stored end mark. */
  function Create(fat: FatTable, end: nat, clst: nat, last: nat): (r: Allocation)
    requires |fat| >= 3
    ensures |r.fat| == |fat|
  {
    if clst == 0 then
      var r := Pick(fat, Hint(|fat|, last));
      if r < 2 then Allocation(fat, r, false) else Allocation(fat[r := end], r, true)
    else if Get(fat, clst) < 2 then Allocation(fat, 1, false)
    else if fat[clst] < |fat| then Allocation(fat, fat[clst], false)
    else
      var r := Pick(fat, clst);
      if r < 2 then Allocation(fat, r, false) else Allocation(fat[r := end][clst := r], r, true)
  }

  lemma {:induction false} FirstStopSkips(fat: FatTable, scl: nat, k: nat)
    requires 1 <= scl < |fat| && 3 <= |fat| && k <= |fat| - 2
    ensures forall j :: k <= j < FirstStop(fat, scl, k) ==> fat[Candidate(|fat|, scl, j)] >= 2
    ensures FirstStop(fat, scl, k) < |fat| - 2 ==> fat[Candidate(|fat|, scl, FirstStop(fat, scl, k))] < 2
    decreases |fat| - k
  {
    if k == |fat| - 2 || fat[Candidate(|fat|, scl, k)] < 2 {
    } else {
      FirstStopSkips(fat, scl, k + 1);
    }
  }

  /** Position of cluster `c` in the search order. */
  function Position(n: nat, scl: nat, c: nat): (k: nat)
    requires 1 <= scl < n && 2 <= c < n
    ensures k < n - 2 && Candidate(n, scl, k) == c
  {
    if c > scl then c - scl - 1 else n - scl + c - 3
  }

  /** The search returns 0 exactly when no cluster is free, provided no entry holds the illegal value 1;
      otherwise it returns the first free cluster in cyclic order after the hint. */
  lemma PickIsFirstFree(fat: FatTable, scl: nat)
    requires 1 <= scl < |fat| && 3 <= |fat|
    requires Sound(fat)
    ensures Pick(fat, scl) == 0 <==> forall c :: 2 <= c < |fat| ==> fat[c] != 0
    ensures Pick(fat, scl) != 0 ==>
      var r := Pick(fat, scl);
      && 2 <= r < |fat| && fat[r] == 0
      && forall c :: 2 <= c < |fat| && Position(|fat|, scl, c) < Position(|fat|, scl, r) ==> fat[c] != 0
  {
    FirstStopSkips(fat, scl, 0);
    var k := FirstStop(fat, scl, 0);
    if k == |fat| - 2 {
      forall c | 2 <= c < |fat|
        ensures fat[c] != 0
      {
        assert fat[Candidate(|fat|, scl, Position(|fat|, scl, c))] >= 2;
      }
    } else {
      var r := Candidate(|fat|, scl, k);
      assert fat[r] == 0;
      assert Position(|fat|, scl, r) == k;
      forall c | 2 <= c < |fat| && Position(|fat|, scl, c) < k
        ensures fat[c] != 0
      {
        assert fat[Candidate(|fat|, scl, Position(|fat|, scl, c))] >= 2;
      }
    }
  }

  /** `c` is the free cluster next above `l`, or the lowest of all if none is free above; 0 if none is free at all. */
  ghost predicate NextFree(fat: FatTable, l: nat, c: nat) {
    if exists d: nat :: 2 <= d < |fat| && l < d && fat[d] == 0 then
      2 <= c < |fat| && l < c && fat[c] == 0 && forall d: nat :: 2 <= d < c && l < d ==> fat[d] != 0
    else if exists d: nat :: 2 <= d < |fat| && fat[d] == 0 then
      2 <= c < |fat| && fat[c] == 0 && forall d: nat :: 2 <= d < c ==> fat[d] != 0
    else c == 0
  }

  lemma PickIsNext(fat: FatTable, scl: nat)
    requires 1 <= scl < |fat| && 3 <= |fat| && Sound(fat)
    ensures NextFree(fat, scl, Pick(fat, scl))
  {
    hide Pick, Sound;
    PickIsFirstFree(fat, scl);
    var r := Pick(fat, scl);
    if r != 0 {
      forall d: nat | 2 <= d < |fat| && Position(|fat|, scl, d) < Position(|fat|, scl, r)
        ensures fat[d] != 0
      {}
    }
  }

  /** Where create_chain finds a cluster: next above the end of the chain it stretches, or for a new chain next above
      the last allocation, or if that is unknown the lowest. */
  lemma CreateIsNext(fat: FatTable, end: nat, clst: nat, last: nat)
    requires |fat| >= 3 && Sound(fat) && (clst == 0 || (2 <= clst < |fat| && fat[clst] >= |fat|))
    ensures
      NextFree(fat, if clst != 0 then clst else if 0 < last < |fat| then last else 1,
               Create(fat, end, clst, last).cluster)
  {
    hide Pick, Sound, NextFree;
    PickIsNext(fat, if clst == 0 then Hint(|fat|, last) else clst);
    PickIsFirstFree(fat, if clst == 0 then Hint(|fat|, last) else clst);
  }

  /** On any table a cluster the search returns was free. */
  lemma PickIsFree(fat: FatTable, scl: nat)
    requires 1 <= scl < |fat| && 3 <= |fat|
    ensures Pick(fat, scl) >= 2 ==> Pick(fat, scl) < |fat| && fat[Pick(fat, scl)] == 0
  {
    FirstStopSkips(fat, scl, 0);
  }

  // ---------------------------------------------------------------- release

  /** Number of clusters whose entry is not 0. */
  function InUse(fat: FatTable, i: nat): nat
    requires i <= |fat|
  {
    if i <= 2 then 0 else InUse(fat, i - 1) + (if fat[i - 1] != 0 then 1 else 0)
  }

  function FreeCount(fat: FatTable): nat {
    Free(fat, |fat|)
  }

  /** Number of free clusters below `i`. */
  function Free(fat: FatTable, i: nat): nat
    requires i <= |fat|
  {
    if i <= 2 then 0 else Free(fat, i - 1) + (if fat[i - 1] == 0 then 1 else 0)
  }

  lemma {:induction false} InUsePlusFree(fat: FatTable, i: nat)
    requires 2 <= i <= |fat|
    ensures InUse(fat, i) + Free(fat, i) == i - 2
  {
    if i <= 2 {
    } else {
      InUsePlusFree(fat, i - 1);
    }
  }

  lemma {:induction false} FreeSet(fat: FatTable, i: nat, c: nat, v: nat)
    requires i <= |fat| && 2 <= c < |fat|
    ensures Free(fat[c := v], i) ==
      Free(fat, i) + (if c < i && v == 0 then 1 else 0) - (if c < i && fat[c] == 0 then 1 else 0)
  {
    if i <= 2 {
    } else {
      FreeSet(fat, i - 1, c, v);
    }
  }

  lemma {:induction false} FreeAll(fat: FatTable, i: nat)
    requires 2 <= i <= |fat|
    ensures Free(fat, i) <= i - 2
    ensures Free(fat, i) == 0 <==> forall c :: 2 <= c < i ==> fat[c] != 0
  {
    if i <= 2 {
    } else {
      FreeAll(fat, i - 1);
    }
  }

  lemma {:induction false} AllFree(fat: FatTable, i: nat)
    requires 2 <= i <= |fat| && forall c :: 2 <= c < i ==> fat[c] == 0
    ensures Free(fat, i) == i - 2
  {
    if i <= 2 {
    } else {
      AllFree(fat, i - 1);
    }
  }

  /** Number of zero entries below `i`, the reserved entries 0 and 1 included. */
  function ZerosBelow(fat: FatTable, i: nat): nat
    requires i <= |fat|
  {
    if i == 0 then 0 else ZerosBelow(fat, i - 1) + (if fat[i - 1] == 0 then 1 else 0)
  }

  /** A scan from entry 0 counts the free clusters exactly when neither reserved entry is 0. */
  lemma {:induction false} ScanCountsReserved(fat: FatTable, i: nat)
    requires 2 <= i <= |fat|
    ensures ZerosBelow(fat, i) == Free(fat, i) + (if fat[0] == 0 then 1 else 0) + (if fat[1] == 0 then 1 else 0)
  {
    if i == 2 {
      assert ZerosBelow(fat, 1) == if fat[0] == 0 then 1 else 0;
    } else {
      ScanCountsReserved(fat, i - 1);
    }
  }

  // ---------------------------------------------------------------- f_getfree

  /** The first cluster from `c` on whose entry is the illegal value 1, or the table size. */
  function FirstIllegal(fat: FatTable, c: nat): (r: nat)
    requires c <= |fat|
    ensures c <= r <= |fat| && (r < |fat| ==> fat[r] == 1)
    ensures forall d :: c <= d < r ==> fat[d] != 1
    decreases |fat| - c
  {
    if c == |fat| || fat[c] == 1 then c else FirstIllegal(fat, c + 1)
  }

  /** The result of f_getfree; the count also becomes the cached one. */
  datatype FreeAnswer = FreeAnswer(status: Status, count: nat)

  /** f_getfree on the FAT map: a plausible cached count, or else a scan. */
  function GetFree(fat: FatTable, fat12: bool, cached: nat): FreeAnswer
    requires |fat| >= 3
  {
    if cached <= |fat| - 2 then FreeAnswer(Ok, cached)
    else if fat12 then
      var c := FirstIllegal(fat, 2);
      FreeAnswer(if c == |fat| then Ok else IntErr, Free(fat, c))
    else FreeAnswer(Ok, ZerosBelow(fat, |fat|))
  }

  lemma {:induction false} FreeBehind(fat: FatTable, c: nat, i: nat)
    requires 2 <= c <= i <= |fat|
    ensures Free(fat, c) <= Free(fat, i)
    ensures Free(fat, c) == Free(fat, i) <==> forall d :: c <= d < i ==> fat[d] != 0
  {
    if i == c {
    } else {
      FreeBehind(fat, c, i - 1);
    }
  }

  /** The count that a scan leaves in the cache is right exactly if, on FAT12, no cluster behind the first illegal entry
      is free and, on FAT16 and FAT32, neither reserved entry is 0. */
  lemma ScanIsRight(fat: FatTable, fat12: bool, cached: nat)
    requires |fat| >= 3 && cached > |fat| - 2
    ensures GetFree(fat, fat12, cached).count == FreeCount(fat) <==>
      if fat12 then forall d :: FirstIllegal(fat, 2) < d < |fat| ==> fat[d] != 0 else fat[0] != 0 && fat[1] != 0
    ensures GetFree(fat, fat12, cached).status == Ok <==> !fat12 || Sound(fat)
  {
    ScanCountsReserved(fat, |fat|);
    FreeBehind(fat, FirstIllegal(fat, 2), |fat|);
  }

  /** After the error on FAT12 the next call returns the partial count as if it were complete. */
  lemma ErrorIsForgotten(fat: FatTable, cached: nat)
    requires |fat| >= 3 && GetFree(fat, true, cached).status != Ok
    ensures GetFree(fat, true, GetFree(fat, true, cached).count) == FreeAnswer(Ok, GetFree(fat, true, cached).count)
  {
    FreeAll(fat, FirstIllegal(fat, 2));
  }

  /** A FAT12 table of three clusters, the second one ill and both others free: the first call fails, and the second one
      says that one cluster is free. */
  lemma PartialCount()
    ensures
      var fat := [0xFF8, 0xFFF, 0, 1, 0];
      && GetFree(fat, true, 0xFFFF_FFFF) == FreeAnswer(IntErr, 1)
      && GetFree(fat, true, 1) == FreeAnswer(Ok, 1)
      && FreeCount(fat) == 2
  {
    var fat := [0xFF8, 0xFFF, 0, 1, 0];
    assert FirstIllegal(fat, 2) == FirstIllegal(fat, 3) == 3;
    assert Free(fat, 2) == 0 && Free(fat, 3) == 1 && Free(fat, 4) == 1 && Free(fat, 5) == 2;
  }

  lemma ReleaseCounts(fat: FatTable, c: nat)
    requires 2 <= c < |fat| && fat[c] != 0
    ensures FreeCount(fat[c := 0]) == FreeCount(fat) + 1 <= |fat| - 2
    ensures InUse(fat[c := 0], |fat|) < InUse(fat, |fat|)
  {
    FreeSet(fat, |fat|, c, 0);
    InUsePlusFree(fat, |fat|);
    InUsePlusFree(fat[c := 0], |fat|);
  }

  lemma LinkCounts(fat: FatTable, end: nat, ncl: nat, clst: nat)
    requires 2 <= ncl < |fat| && fat[ncl] == 0 && end != 0
    requires clst == 0 || (2 <= clst < |fat| && fat[clst] != 0)
    ensures FreeCount(fat[ncl := end]) == FreeCount(fat) - 1
    ensures clst != 0 ==> FreeCount(fat[ncl := end][clst := ncl]) == FreeCount(fat) - 1
    ensures FreeCount(fat) <= |fat| - 2
  {
    FreeAll(fat, |fat|);
    FreeSet(fat, |fat|, ncl, end);
    if clst != 0 {
      FreeSet(fat[ncl := end], |fat|, clst, ncl);
    }
  }

  /** Stretching a chain is refused exactly when no cluster is free, and then changes nothing. */
  lemma CreateRefused(fat: FatTable, end: nat, s: seq<nat>, last: nat)
    requires |fat| >= 3 && Sound(fat) && (s == [] || IsChain(fat, s))
    ensures
      var a := Create(fat, end, if s == [] then 0 else s[|s| - 1], last);
      && a.cluster != 1 && (a.cluster == 0 <==> FreeCount(fat) == 0)
      && (a.cluster == 0 ==> a.fat == fat)
  {
    hide Pick, Free, Sound;
    FreeAll(fat, |fat|);
    if s == [] {
      PickIsFirstFree(fat, Hint(|fat|, last));
    } else {
      EndIsLast(fat, s, |s| - 1);
      PickIsFirstFree(fat, s[|s| - 1]);
    }
  }

  /** Relinking an allocated cluster leaves the free count alone. */
  lemma MarkCounts(fat: FatTable, c: nat, v: nat)
    requires 2 <= c < |fat| && fat[c] != 0 && v != 0
    ensures FreeCount(fat[c := v]) == FreeCount(fat)
  {
    FreeSet(fat, |fat|, c, v);
  }

  datatype Release = Release(fat: FatTable, status: Status)

  /** remove_chain on the FAT map, for every table whatsoever. */
  function Remove(fat: FatTable, c: nat): (r: Release)
    requires c >= 2
    ensures |r.fat| == |fat|
    decreases |fat| - Free(fat, |fat|), 0
  {
    if c >= |fat| then Release(fat, Ok)
    else if fat[c] == 0 then Release(fat, Ok)
    else if fat[c] == 1 then Release(fat, IntErr)
    else
      FreeSet(fat, |fat|, c, 0);
      FreeAll(fat[c := 0], |fat|);
      Remove(fat[c := 0], fat[c])
  }

  /** Sets every entry of `s` to free. */
  function Clear(fat: FatTable, s: seq<nat>): (r: FatTable)
    ensures |r| == |fat|
  {
    seq(|fat|, c requires 0 <= c < |fat| => if c in s then 0 else fat[c])
  }

  /** remove_chain on the head of a chain frees exactly that chain. */
  lemma {:induction false} RemoveChainClears(fat: FatTable, s: seq<nat>)
    requires IsChain(fat, s)
    ensures Remove(fat, s[0]) == Release(Clear(fat, s), Ok)
    decreases |s|
  {
    ChainDistinct(fat, s);
    var fat1 := fat[s[0] := 0];
    if |s| == 1 {
      assert fat1 == Clear(fat, s);
    } else {
      var t := s[1..];
      assert IsChain(fat1, t);
      RemoveChainClears(fat1, t);
      assert s == [s[0]] + t;
      assert Clear(fat1, t) == Clear(fat, s);
    }
  }

  // ---------------------------------------------------------------- every other chain

  /** Allocated clusters outside `s` keep their entry: what every step on the chain `s` leaves alone. */
  ghost predicate OthersKept(fat: FatTable, s: seq<nat>, fat': FatTable) {
    && |fat'| == |fat|
    && forall c :: 2 <= c < |fat| && fat[c] != 0 && c !in s ==> fat'[c] == fat[c]
  }

  lemma OtherChainKept(fat: FatTable, s: seq<nat>, fat': FatTable, o: seq<nat>)
    requires OthersKept(fat, s, fat')
    requires IsChain(fat, o) && Disjoint(o, s)
    ensures IsChain(fat', o)
  {
    ChainAllocated(fat, o);
  }

  /** Stretching from the tail appends exactly one formerly free cluster. */
  lemma CreateAppends(fat: FatTable, end: nat, s: seq<nat>, last: nat)
    requires |fat| >= 3 && end >= |fat| && IsChain(fat, s)
    requires Create(fat, end, s[|s| - 1], last).cluster >= 2
    ensures
      var a := Create(fat, end, s[|s| - 1], last);
      && a.cluster < |fat| && fat[a.cluster] == 0 && a.cluster !in s
      && a.isNew && a.fat == fat[a.cluster := end][s[|s| - 1] := a.cluster]
      && IsChain(a.fat, s + [a.cluster])
      && OthersKept(fat, s, a.fat)
      && FreeCount(a.fat) == FreeCount(fat) - 1
  {
    var tail := s[|s| - 1];
    var a := Create(fat, end, tail, last);
    PickIsFree(fat, tail);
    ChainDistinct(fat, s);
    var r := a.cluster;
    forall i | 0 <= i < |s|
      ensures s[i] != r
    {
      if i < |s| - 1 {
        assert fat[s[i]] == s[i + 1];
      }
    }
    FreeSet(fat, |fat|, r, end);
    FreeSet(fat[r := end], |fat|, tail, r);
  }

  /** A new chain is one formerly free cluster. */
  lemma CreateStarts(fat: FatTable, end: nat, last: nat)
    requires |fat| >= 3 && end >= |fat|
    requires Create(fat, end, 0, last).cluster >= 2
    ensures
      var a := Create(fat, end, 0, last);
      && a.cluster < |fat| && fat[a.cluster] == 0
      && a.isNew && a.fat == fat[a.cluster := end]
      && IsChain(a.fat, [a.cluster])
      && OthersKept(fat, [], a.fat)
      && FreeCount(a.fat) == FreeCount(fat) - 1
  {
    PickIsFree(fat, Hint(|fat|, last));
    var a := Create(fat, end, 0, last);
    FreeSet(fat, |fat|, a.cluster, end);
  }

  /** Cutting a chain after `k` clusters, as f_truncate does, keeps the front and frees exactly the rest. */
  lemma TruncateChain(fat: FatTable, end: nat, s: seq<nat>, k: nat)
    requires end >= |fat| && IsChain(fat, s) && 0 < k < |s|
    ensures
      var cut := fat[s[k - 1] := end];
      && Remove(cut, s[k]) == Release(Clear(cut, s[k..]), Ok)
      && IsChain(Clear(cut, s[k..]), s[..k])
      && OthersKept(fat, s, Clear(cut, s[k..]))
      && (forall c :: c in s[k..] ==> Clear(cut, s[k..])[c] == 0)
  {
    ChainDistinct(fat, s);
    var cut := fat[s[k - 1] := end];
    assert IsChain(cut, s[k..]);
    RemoveChainClears(cut, s[k..]);
    assert forall i :: 0 <= i < k ==> s[i] !in s[k..];
  }
}
