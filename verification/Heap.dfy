/** The whole volume as a heap of cluster chains: what every allocator step keeps, over any run. */
module Heap {
  import opened Results
  import opened Chains

  /** The clusters of every object on the volume; an object without data has the empty chain. */
  type Objects = seq<seq<nat>>

  /** Every object has an end-terminated chain, no two objects share a cluster, and no cluster is lost. */
  ghost predicate WellFormed(fat: FatTable, objs: Objects) {
    && |fat| >= 3
    && (forall i :: 0 <= i < |objs| ==> objs[i] == [] || IsChain(fat, objs[i]))
    && (forall i, j :: 0 <= i < j < |objs| ==> Disjoint(objs[i], objs[j]))
    && (forall c :: 2 <= c < |fat| && fat[c] != 0 ==> Owned(objs, c))
  }

  ghost predicate Owned(objs: Objects, c: nat) {
    exists i :: 0 <= i < |objs| && c in objs[i]
  }

  /** In a well-formed FAT every entry is 0, a data cluster or an end mark; 1 does not occur. */
  lemma EntriesAreLegal(fat: FatTable, objs: Objects)
    requires WellFormed(fat, objs)
    ensures Sound(fat)
    ensures forall c :: 2 <= c < |fat| ==> (fat[c] != 0 <==> Owned(objs, c))
  {
    forall i | 0 <= i < |objs| && objs[i] != []
      ensures forall k :: 0 <= k < |objs[i]| ==> fat[objs[i][k]] >= 2
    {
      ChainAllocated(fat, objs[i]);
    }
  }

  /** An object without data shares clusters with none; two objects with data share none either. */
  lemma ObjectsApart(fat: FatTable, objs: Objects, i: nat, j: nat)
    requires WellFormed(fat, objs) && i < |objs| && j < |objs| && i != j
    ensures Disjoint(objs[j], objs[i])
  {
    hide IsChain;
    assert if j < i then Disjoint(objs[j], objs[i]) else Disjoint(objs[i], objs[j]);
  }

  /** The step on object `i`: other objects' entries are kept, the new chain `s` takes old clusters or free ones, and
      exactly the clusters in use afterwards are allocated. */
  ghost predicate StepOn(fat: FatTable, objs: Objects, i: nat, fat': FatTable, s: seq<nat>)
    requires i < |objs|
  {
    && OthersKept(fat, objs[i], fat')
    && (s == [] || IsChain(fat', s))
    && (forall c :: c in s ==> c in objs[i] || (2 <= c < |fat| && fat[c] == 0))
    && (forall c :: 2 <= c < |fat| ==> (fat'[c] != 0 <==> (fat[c] != 0 && c !in objs[i]) || c in s))
  }

  lemma OtherObjectKept(fat: FatTable, objs: Objects, i: nat, fat': FatTable, s: seq<nat>, j: nat)
    requires WellFormed(fat, objs) && i < |objs| && j < |objs| && i != j && StepOn(fat, objs, i, fat', s)
    ensures Disjoint(objs[j], s) && Disjoint(s, objs[j])
    ensures objs[j] == [] || IsChain(fat', objs[j])
  {
    ObjectsApart(fat, objs, i, j);
    if objs[j] != [] {
      ObjectIsChain(fat, objs, j);
      hide WellFormed;
      ChainAllocated(fat, objs[j]);
      OtherChainKept(fat, objs[i], fat', objs[j]);
    }
  }

  lemma StillOwned(fat: FatTable, objs: Objects, i: nat, fat': FatTable, s: seq<nat>, c: nat)
    requires WellFormed(fat, objs) && i < |objs| && StepOn(fat, objs, i, fat', s)
    requires 2 <= c < |fat'| && fat'[c] != 0
    ensures Owned(objs[i := s], c)
  {
    hide IsChain;
    if c in s {
      assert c in objs[i := s][i];
    } else {
      var j :| 0 <= j < |objs| && c in objs[j];
      assert c in objs[i := s][j];
    }
  }

  /** One object's chain changes and everything else stays: the form every allocator step has. */
  lemma StepKeeps(fat: FatTable, objs: Objects, i: nat, fat': FatTable, s: seq<nat>)
    requires WellFormed(fat, objs) && i < |objs| && StepOn(fat, objs, i, fat', s)
    ensures WellFormed(fat', objs[i := s])
  {
    hide IsChain, Disjoint, Owned;
    var objs' := objs[i := s];
    forall j, k | 0 <= j < k < |objs|
      ensures Disjoint(objs'[j], objs'[k])
    {
      if j == i {
        OtherObjectKept(fat, objs, i, fat', s, k);
      } else if k == i {
        OtherObjectKept(fat, objs, i, fat', s, j);
      }
    }
    forall j | 0 <= j < |objs|
      ensures objs'[j] == [] || IsChain(fat', objs'[j])
    {
      if j != i {
        OtherObjectKept(fat, objs, i, fat', s, j);
      }
    }
    forall c | 2 <= c < |fat'| && fat'[c] != 0
      ensures Owned(objs', c)
    {
      StillOwned(fat, objs, i, fat', s, c);
    }
  }

  // ---------------------------------------------------------------- runs

  datatype Heap = Heap(fat: FatTable, last: nat, objs: Objects)

  /** Create adds an object without data; Stretch is create_chain on the tail of an object, as f_write, f_lseek and
      dir_next call it; Cut keeps the first `k` clusters, as f_truncate and remove_chain on a head do. */
  datatype Step = New | Stretch(i: nat) | Cut(i: nat, k: nat)

  function Tail(s: seq<nat>): nat {
    if s == [] then 0 else s[|s| - 1]
  }

  /** What the step leaves, computed by create_chain, put_fat and remove_chain. `end` is the stored end mark. */
  ghost function Apply(h: Heap, end: nat, step: Step): (r: Heap)
    requires WellFormed(h.fat, h.objs) && end >= |h.fat|
  {
    match step
    case New => h.(objs := h.objs + [[]])
    case Stretch(i) =>
      if i >= |h.objs| then h
      else
        var a := Create(h.fat, end, Tail(h.objs[i]), h.last);
        if a.cluster < 2 then h else Heap(a.fat, a.cluster, h.objs[i := h.objs[i] + [a.cluster]])
    case Cut(i, k) =>
      if i >= |h.objs| || k >= |h.objs[i]| then h
      else
        assert IsChain(h.fat, h.objs[i]);
        var s := h.objs[i];
        var cut := if k == 0 then h.fat else h.fat[s[k - 1] := end];
        Heap(Remove(cut, s[k]).fat, h.last, h.objs[i := s[..k]])
  }

  /** A successful create_chain on the tail of object `i` is a step on that object. */
  lemma StretchIsStep(h: Heap, end: nat, i: nat)
    requires WellFormed(h.fat, h.objs) && end >= |h.fat| && i < |h.objs|
    requires Create(h.fat, end, Tail(h.objs[i]), h.last).cluster >= 2
    ensures
      var a := Create(h.fat, end, Tail(h.objs[i]), h.last);
      && a.cluster < |h.fat| && h.fat[a.cluster] == 0 && |a.fat| == |h.fat|
      && StepOn(h.fat, h.objs, i, a.fat, h.objs[i] + [a.cluster])
      && FreeCount(a.fat) == FreeCount(h.fat) - 1
  {
    hide FreeCount, Create, Pick, Hint;
    var s := h.objs[i];
    if s == [] {
      CreateStarts(h.fat, end, h.last);
    } else {
      ObjectIsChain(h.fat, h.objs, i);
      hide WellFormed;
      CreateAppends(h.fat, end, s, h.last);
      ChainAllocated(h.fat, s);
    }
  }

  lemma StretchKeeps(h: Heap, end: nat, i: nat)
    requires WellFormed(h.fat, h.objs) && end >= |h.fat| && i < |h.objs|
    ensures
      var r := Apply(h, end, Stretch(i));
      && WellFormed(r.fat, r.objs) && |r.fat| == |h.fat|
      && (r == h <==> FreeCount(h.fat) == 0)
      && (r != h ==> |r.objs[i]| == |h.objs[i]| + 1 && r.objs[i][..|h.objs[i]|] == h.objs[i]
                     && h.fat[Tail(r.objs[i])] == 0 && FreeCount(r.fat) == FreeCount(h.fat) - 1)
  {
    hide FreeCount, WellFormed, StepOn, Create;
    FatLength(h);
    StretchRefused(h, end, i);
    var a := Create(h.fat, end, Tail(h.objs[i]), h.last);
    if a.cluster >= 2 {
      StretchIsStep(h, end, i);
      var s := h.objs[i] + [a.cluster];
      StepKeeps(h.fat, h.objs, i, a.fat, s);
      assert h.objs[i := s][i] == s;
    }
  }

  lemma FatLength(h: Heap)
    requires WellFormed(h.fat, h.objs)
    ensures |h.fat| >= 3
  {}

  /** Stretching is refused exactly when the volume is full. */
  lemma StretchRefused(h: Heap, end: nat, i: nat)
    requires WellFormed(h.fat, h.objs) && end >= |h.fat| && i < |h.objs|
    ensures Create(h.fat, end, Tail(h.objs[i]), h.last).cluster < 2 <==> FreeCount(h.fat) == 0
  {
    hide Create, FreeCount, IsChain;
    EntriesAreLegal(h.fat, h.objs);
    CreateRefused(h.fat, end, h.objs[i], h.last);
  }

  /** What cutting after `k` clusters leaves in the FAT. */
  lemma CutLeaves(fat: FatTable, end: nat, s: seq<nat>, k: nat)
    requires IsChain(fat, s) && Sound(fat) && end >= |fat| && k < |s|
    ensures
      var r := Remove(if k == 0 then fat else fat[s[k - 1] := end], s[k]);
      && r.status == Ok && OthersKept(fat, s, r.fat)
      && (k > 0 ==> IsChain(r.fat, s[..k]))
      && (forall c :: 2 <= c < |fat| ==> (r.fat[c] != 0 <==> (fat[c] != 0 && c !in s) || c in s[..k]))
      && (forall c :: c in s[k..] ==> 2 <= c < |fat| && r.fat[c] == 0)
  {
    hide Remove, Sound;
    if k == 0 {
      RemoveChainClears(fat, s);
      assert s[0..] == s && s[..0] == [];
    } else {
      hide OthersKept, IsChain, Clear;
      TruncateChain(fat, end, s, k);
      CutAllocation(fat, end, s, k);
    }
  }

  /** Which clusters are allocated after cutting: those of other chains and the kept front. */
  lemma CutAllocation(fat: FatTable, end: nat, s: seq<nat>, k: nat)
    requires IsChain(fat, s) && end >= |fat| && 0 < k < |s|
    ensures
      var fat' := Clear(fat[s[k - 1] := end], s[k..]);
      && (forall c :: 2 <= c < |fat| ==> (fat'[c] != 0 <==> (fat[c] != 0 && c !in s) || c in s[..k]))
      && (forall c :: c in s[k..] ==> 2 <= c < |fat| && fat'[c] == 0)
  {
    ChainDistinct(fat, s);
    ChainAllocated(fat, s);
    SplitAt(s, k);
    assert s[k - 1] == s[..k][k - 1];
    forall c | c in s[..k]
      ensures c !in s[k..] && c in s
    {}
  }

  lemma CutKeeps(h: Heap, end: nat, i: nat, k: nat)
    requires WellFormed(h.fat, h.objs) && end >= |h.fat| && i < |h.objs| && k < |h.objs[i]|
    ensures
      var r := Apply(h, end, Cut(i, k));
      && WellFormed(r.fat, r.objs) && |r.fat| == |h.fat|
      && r.objs == h.objs[i := h.objs[i][..k]]
      && (forall c :: c in h.objs[i][k..] ==> 2 <= c < |h.fat| && r.fat[c] == 0)
  {
    hide IsChain, OthersKept, Remove, Sound;
    var s := h.objs[i];
    ObjectIsChain(h.fat, h.objs, i);
    EntriesAreLegal(h.fat, h.objs);
    CutLeaves(h.fat, end, s, k);
    SplitAt(s, k);
    CutStep(h, end, i, k, Apply(h, end, Cut(i, k)).fat);
  }

  lemma ObjectIsChain(fat: FatTable, objs: Objects, i: nat)
    requires WellFormed(fat, objs) && i < |objs| && objs[i] != []
    ensures IsChain(fat, objs[i])
  {}

  lemma CutStep(h: Heap, end: nat, i: nat, k: nat, fat': FatTable)
    requires WellFormed(h.fat, h.objs) && i < |h.objs| && k < |h.objs[i]|
    requires OthersKept(h.fat, h.objs[i], fat')
    requires k > 0 ==> IsChain(fat', h.objs[i][..k])
    requires forall c :: 2 <= c < |h.fat| ==>
      (fat'[c] != 0 <==> (h.fat[c] != 0 && c !in h.objs[i]) || c in h.objs[i][..k])
    ensures WellFormed(fat', h.objs[i := h.objs[i][..k]])
  {
    hide IsChain, WellFormed;
    StepKeeps(h.fat, h.objs, i, fat', h.objs[i][..k]);
  }

  lemma SplitAt(s: seq<nat>, k: nat)
    requires k <= |s|
    ensures forall c :: c in s <==> c in s[..k] || c in s[k..]
  {
    assert s == s[..k] + s[k..];
  }

  /** The heap after any sequence of steps. */
  ghost function Run(h: Heap, end: nat, steps: seq<Step>): (r: Heap)
    requires WellFormed(h.fat, h.objs) && end >= |h.fat|
    ensures WellFormed(r.fat, r.objs) && |r.fat| == |h.fat|
    decreases steps
  {
    if steps == [] then h
    else
      StepsKeep(h, end, steps[0]);
      Run(Apply(h, end, steps[0]), end, steps[1..])
  }

  lemma StepsKeep(h: Heap, end: nat, step: Step)
    requires WellFormed(h.fat, h.objs) && end >= |h.fat|
    ensures WellFormed(Apply(h, end, step).fat, Apply(h, end, step).objs)
    ensures |Apply(h, end, step).fat| == |h.fat|
    ensures |h.objs| <= |Apply(h, end, step).objs|
  {
    hide FreeCount, IsChain, Create, Remove;
    match step
    case New =>
      forall c | Owned(h.objs, c)
        ensures Owned(h.objs + [[]], c)
      {
        var i :| 0 <= i < |h.objs| && c in h.objs[i];
        assert c in (h.objs + [[]])[i];
      }
    case Stretch(i) =>
      if i < |h.objs| {
        StretchKeeps(h, end, i);
      }
    case Cut(i, k) =>
      if i < |h.objs| && k < |h.objs[i]| {
        CutKeeps(h, end, i, k);
      }
  }

  lemma StepLeaves(h: Heap, end: nat, step: Step, j: nat)
    requires WellFormed(h.fat, h.objs) && end >= |h.fat| && j < |h.objs|
    requires step.New? || step.i != j
    ensures j < |Apply(h, end, step).objs| && Apply(h, end, step).objs[j] == h.objs[j]
  {
    hide WellFormed, Create, Remove;
  }

  /** Over any run, chains stay end-terminated, acyclic and pairwise disjoint, every cluster is owned or free, and an
      object no step names keeps its chain. */
  lemma {:induction false} RunIsSafe(h: Heap, end: nat, steps: seq<Step>, j: nat)
    requires WellFormed(h.fat, h.objs) && end >= |h.fat| && j < |h.objs|
    requires forall k :: 0 <= k < |steps| ==> steps[k].New? || steps[k].i != j
    ensures
      var r := Run(h, end, steps);
      && WellFormed(r.fat, r.objs) && j < |r.objs| && r.objs[j] == h.objs[j]
      && (forall a, b :: 0 <= a < b < |r.objs[j]| ==> r.objs[j][a] != r.objs[j][b])
      && FreeCount(r.fat) + OwnedCount(r.objs) == |h.fat| - 2
    decreases steps
  {
    hide FreeCount, OwnedCount, Apply;
    if steps == [] {
      if h.objs[j] != [] {
        ChainDistinct(h.fat, h.objs[j]);
      }
      Conservation(h.fat, h.objs);
    } else {
      StepsKeep(h, end, steps[0]);
      StepLeaves(h, end, steps[0], j);
      RunIsSafe(Apply(h, end, steps[0]), end, steps[1..], j);
    }
  }

  // ---------------------------------------------------------------- conservation

  /** Total number of clusters owned. */
  function OwnedCount(objs: Objects): nat {
    if objs == [] then 0 else OwnedCount(objs[..|objs| - 1]) + |objs[|objs| - 1]|
  }

  lemma {:induction false} ClearCounts(fat: FatTable, s: seq<nat>)
    requires IsChain(fat, s)
    ensures FreeCount(Clear(fat, s)) == FreeCount(fat) + |s|
    decreases |s|
  {
    hide FreeCount;
    ChainDistinct(fat, s);
    ChainAllocated(fat, s);
    var fat1 := fat[s[0] := 0];
    ReleaseCounts(fat, s[0]);
    if |s| == 1 {
      assert fat1 == Clear(fat, s);
    } else {
      var t := s[1..];
      assert IsChain(fat1, t);
      ClearCounts(fat1, t);
      assert s == [s[0]] + t;
      assert Clear(fat1, t) == Clear(fat, s);
    }
  }

  /** Dropping the last object frees exactly its clusters. */
  lemma DropLast(fat: FatTable, objs: Objects)
    requires WellFormed(fat, objs) && objs != []
    ensures
      var n := |objs| - 1;
      var fat' := if objs[n] == [] then fat else Clear(fat, objs[n]);
      && WellFormed(fat', objs[..n]) && |fat'| == |fat| && FreeCount(fat') == FreeCount(fat) + |objs[n]|
  {
    hide FreeCount, IsChain, OthersKept;
    var n := |objs| - 1;
    var s := objs[n];
    var fat' := if s == [] then fat else Clear(fat, s);
    if s != [] {
      ObjectIsChain(fat, objs, n);
      ClearCounts(fat, s);
      ClearLeaves(fat, s);
    } else {
      NothingLeaves(fat);
    }
    StepKeeps(fat, objs, n, fat', []);
    EmptyLast(fat', objs[n := []]);
    assert objs[n := []][..n] == objs[..n];
  }

  lemma ClearLeaves(fat: FatTable, s: seq<nat>)
    requires IsChain(fat, s)
    ensures OthersKept(fat, s, Clear(fat, s))
    ensures forall c :: 2 <= c < |fat| ==> (Clear(fat, s)[c] != 0 <==> fat[c] != 0 && c !in s)
  {}

  lemma NothingLeaves(fat: FatTable)
    ensures OthersKept(fat, [], fat)
  {}

  lemma EmptyLast(fat: FatTable, objs: Objects)
    requires WellFormed(fat, objs) && objs != [] && objs[|objs| - 1] == []
    ensures WellFormed(fat, objs[..|objs| - 1])
  {
    hide IsChain;
    var n := |objs| - 1;
    forall c | Owned(objs, c)
      ensures Owned(objs[..n], c)
    {
      var i :| 0 <= i < |objs| && c in objs[i];
      assert c in objs[..n][i];
    }
  }

  /** Conservation of clusters: free ones and owned ones together are all data clusters. */
  lemma {:induction false} Conservation(fat: FatTable, objs: Objects)
    requires WellFormed(fat, objs)
    ensures FreeCount(fat) + OwnedCount(objs) == |fat| - 2
    decreases |objs|
  {
    if objs == [] {
      forall c | 2 <= c < |fat|
        ensures fat[c] == 0
      {
        assert !Owned(objs, c);
      }
      AllFree(fat, |fat|);
    } else {
      hide FreeCount;
      DropLast(fat, objs);
      var n := |objs| - 1;
      Conservation(if objs[n] == [] then fat else Clear(fat, objs[n]), objs[..n]);
    }
  }

  /** Cutting an object to `k` clusters frees exactly as many as it had beyond them. */
  lemma CutReturns(h: Heap, end: nat, i: nat, k: nat)
    requires WellFormed(h.fat, h.objs) && end >= |h.fat| && i < |h.objs| && k < |h.objs[i]|
    ensures FreeCount(Apply(h, end, Cut(i, k)).fat) == FreeCount(h.fat) + |h.objs[i]| - k
  {
    hide FreeCount, Apply;
    CutKeeps(h, end, i, k);
    Conservation(h.fat, h.objs);
    var s := h.objs[i];
    Conservation(Apply(h, end, Cut(i, k)).fat, h.objs[i := s[..k]]);
    ClustersUpdate(h.objs, i, s[..k]);
  }

  lemma {:induction false} ClustersUpdate(objs: Objects, i: nat, s: seq<nat>)
    requires i < |objs|
    ensures OwnedCount(objs[i := s]) == OwnedCount(objs) - |objs[i]| + |s|
    decreases |objs|
  {
    var n := |objs| - 1;
    if i == n {
      assert objs[i := s][..n] == objs[..n];
    } else {
      ClustersUpdate(objs[..n], i, s);
      assert objs[i := s][..n] == objs[..n][i := s];
    }
  }
}
