/** Whole runs on one open file, against a byte array with a cursor. */
module FileRun {
  import opened Results
  import opened Arith
  import opened Bytes
  import opened Fat
  import opened Chains
  import opened FileData
  import opened FileState
  import opened FileGrowth
  import opened Durable
  import opened FileIO
  import opened Volume
  import opened Window
  import opened LinkMap
  import opened Heap

  datatype Op = Read(n: nat) | Write(data: seq<Byte>) | Seek(ofs: nat) | Truncate | Sync(time: nat)

  /** The file as its user sees it: its bytes and the cursor; the number of free clusters on the volume; whether it was
      written since f_sync; and whether the medium alone holds it. */
  datatype View = View(content: seq<Byte>, pos: nat, free: nat, written: bool, safe: bool)

  /** What an operation delivered: the bytes read, or the number of bytes written. */
  datatype Outcome = Data(bytes: seq<Byte>) | Count(n: nat) | Done | Refused

  function Least(a: nat, b: nat): nat {
    if a < b then a else b
  }

  /** The content is `c` and the cursor at `p`. */
  predicate Shows(v: View, c: seq<Byte>, p: nat) {
    v.content == c && v.pos == p
  }

  /** Nothing was written, and what the medium held it still holds. */
  predicate Unwritten(v: View, v': View) {
    v'.written == v.written && (v.safe ==> v'.safe)
  }

  /** The cursor is at the end of the last cluster and no cluster is free. */
  predicate Filled(b: nat, v: View) {
    v.free == 0 && v.pos == |v.content| == Times(Need(b, |v.content|), b)
  }

  /** Clusters neither appear nor vanish: those the file takes come from the free ones and go back there. */
  predicate Conserved(b: nat, v: View, v': View) {
    v'.free + Need(b, |v'.content|) == v.free + Need(b, |v.content|)
  }

  /** One operation on a byte array with a cursor, on a volume with clusters of `b` bytes. A write or a seek stops short
      only where the volume is full, and a write that would reach 4 GB writes nothing; the bytes a seek adds are
      unspecified. */
  ghost predicate Step(b: nat, read: bool, write: bool, v: View, op: Op, o: Outcome, v': View) {
    && b > 0 && v.pos <= |v.content| < DWORD_MOD && v'.pos <= |v'.content| < DWORD_MOD && Conserved(b, v, v')
    && match op
       case Read(n) =>
         var k := Least(n, |v.content| - v.pos);
         && o == (if read then Data(v.content[v.pos..v.pos + k]) else Refused)
         && Shows(v', v.content, if read then v.pos + k else v.pos) && Unwritten(v, v')
       case Write(d) =>
         if write then
           && o.Count? && o.n <= |d| && Shows(v', Patch(v.content, v.pos, d[..o.n]), v.pos + o.n) && v'.written
           && (v.pos + |d| >= DWORD_MOD ==> o.n == 0)
           && (v.pos + |d| < DWORD_MOD && o.n < |d| ==> Filled(b, v'))
         else o == Refused && Shows(v', v.content, v.pos) && Unwritten(v, v')
       case Seek(ofs) =>
         && o == Done && |v'.content| == Max(|v.content|, v'.pos) && v'.content[..|v.content|] == v.content
         && (if write then v'.pos == ofs || (v'.pos < ofs && Filled(b, v')) else v'.pos == Least(ofs, |v.content|))
         && (if |v'.content| == |v.content| then Unwritten(v, v') else v'.written)
       case Truncate =>
         && o == (if write then Done else Refused)
         && Shows(v', if write then v.content[..v.pos] else v.content, v.pos)
         && (if |v'.content| == |v.content| then Unwritten(v, v') else v'.written)
       case Sync(_) =>
         o == Done && Shows(v', v.content, v.pos) && !v'.written && (v.written || v.safe ==> v'.safe)
  }

  /** The clusters that `n` bytes of this file take can be had. */
  predicate Affords(b: nat, v: View, n: nat) {
    Need(b, n) <= v.free + Need(b, |v.content|)
  }

  /** `n` bytes written at the cursor leave the file below 4 GB and find their clusters. */
  predicate Fits(b: nat, v: View, n: nat) {
    v.pos + n < DWORD_MOD && Affords(b, v, Max(|v.content|, v.pos + n))
  }

  /** f_write writes everything exactly when it fits. */
  lemma WriteIsExact(b: nat, read: bool, v: View, d: seq<Byte>, o: Outcome, v': View)
    requires Step(b, read, true, v, Write(d), o, v')
    ensures o.n == |d| <==> Fits(b, v, |d|)
  {
    hide Quo, Times;
    if o.n < |d| && v.pos + |d| < DWORD_MOD {
      BeyondEnd(b, |v'.content|, Max(|v.content|, v.pos + |d|));
    }
  }

  /** Fewer bytes fit where more do. */
  lemma FitsLess(b: nat, v: View, n: nat, m: nat)
    requires n <= m && Fits(b, v, m)
    ensures Fits(b, v, n)
  {
    var k, l := Max(|v.content|, v.pos + n), Max(|v.content|, v.pos + m);
    if k > 0 && b > 0 {
      QuoMono(k - 1, l - 1, b);
    }
  }

  /** f_lseek in write mode arrives exactly when the clusters up to the target can be had. */
  lemma SeekIsExact(b: nat, read: bool, v: View, ofs: nat, o: Outcome, v': View)
    requires Step(b, read, true, v, Seek(ofs), o, v')
    ensures v'.pos == ofs <==> Affords(b, v, Max(|v.content|, ofs))
  {
    hide Quo, Times;
    if v'.pos < ofs {
      BeyondEnd(b, |v'.content|, Max(|v.content|, ofs));
    }
  }

  /** Whole clusters hold no more. */
  lemma BeyondEnd(b: nat, n: nat, m: nat)
    requires b > 0 && n == Times(Need(b, n), b) && n < m
    ensures Need(b, n) < Need(b, m)
  {
    hide Quo, Times;
    QuoBelow(m - 1, Need(b, n), b);
  }

  /** Reading back what was just written: a full write, a seek to where it began, and a read give the data. */
  lemma WriteSeekRead(
    b: nat, v0: View, d: seq<Byte>, o1: Outcome, v1: View, o2: Outcome, v2: View, n: nat, o3: Outcome, v3: View)
    requires Step(b, true, true, v0, Write(d), o1, v1)
    requires Step(b, true, true, v1, Seek(v0.pos), o2, v2)
    requires Step(b, true, true, v2, Read(n), o3, v3)
    ensures n == o1.n ==> o3 == Data(d[..o1.n])
    ensures v3.content == v1.content
  {
    assert v2.pos == v0.pos;
    assert v2.content == v1.content;
    assert v1.content[v0.pos..v0.pos + o1.n] == d[..o1.n];
  }

  /** A file that is durable or written to begin with is durable after every f_sync of a run, whatever came before. */
  lemma {:induction false} SyncIsDurable(
    b: nat, read: bool, write: bool, ops: seq<Op>, outs: seq<Outcome>, views: seq<View>, i: nat)
    requires |outs| == |ops| && |views| == |ops| + 1 && i <= |ops|
    requires forall k :: 0 <= k < |ops| ==> Step(b, read, write, views[k], ops[k], outs[k], views[k + 1])
    requires views[0].written || views[0].safe
    ensures views[i].written || views[i].safe
    ensures i > 0 && ops[i - 1].Sync? ==> views[i].safe
  {
    if i == 0 {
    } else {
      SyncIsDurable(b, read, write, ops, outs, views, i - 1);
      assert Step(b, read, write, views[i - 1], ops[i - 1], outs[i - 1], views[i]);
    }
  }

  /** The user's view of an open file. */
  ghost function ViewOf(f: File): View
    requires f.Valid()
    reads f, f.fs, f.fs.win, f.buf
  {
    View(f.Contents(), f.fptr, FreeCount(f.fs.Table()), f.written, Safe(f))
  }

  /** The medium alone holds the file, and nothing is waiting to be written. */
  ghost predicate Safe(f: File)
    requires f.Valid()
    reads f, f.fs, f.fs.win, f.buf
  {
    && !f.fs.wflag && !f.dirty
    && DiskHolds(f.fs.g, f.fs.disk, f.dirSect, f.dirOff, f.chain, f.Contents())
  }

  /** What is on the volume besides the bytes of this file. */
  datatype Rest = Rest(fat: FatTable, img: seq<Sector>, chain: seq<nat>)

  ghost function RestOf(f: File): Rest
    requires f.Valid()
    reads f, f.fs, f.fs.win, f.buf
  {
    Rest(f.fs.Table(), f.fs.img, f.chain)
  }

  /** The directory sector changes in the fields that f_sync stores in the file's own entry, and nowhere else. */
  ghost predicate EntryOnly(g: Geometry, dirSect: nat, dirOff: nat, img: seq<Sector>, img': seq<Sector>)
    requires ImageOk(g, img) && ImageOk(g, img')
  {
    dirSect < g.nSect
    && forall i :: 0 <= i < g.ss && i != dirOff + 11 && !(dirOff + 18 <= i < dirOff + 32) ==>
      img'[dirSect][i] == img[dirSect][i]
  }

  /** The rest of the volume after any number of steps on one file: entries of other objects' clusters, and all sectors
      outside the file except FSINFO and the file's own directory entry, are as before; a cluster is allocated exactly
      when another object owns it or the file does. */
  ghost predicate Confined(g: Geometry, dirSect: nat, dirOff: nat, a: Rest, b: Rest) {
    && g.Valid() && |a.fat| == g.nFatEnt && ImageOk(g, a.img) && ImageOk(g, b.img)
    && OthersKept(a.fat, a.chain, b.fat)
    && (forall c :: 2 <= c < |a.fat| ==> (b.fat[c] != 0 <==> (a.fat[c] != 0 && c !in a.chain) || c in b.chain))
    && (forall c :: c in b.chain ==> c in a.chain || (2 <= c < |a.fat| && a.fat[c] == 0))
    && (forall s :: 0 <= s < g.nSect && Foreign(g, a.fat, a.chain, s) && s != dirSect && s != g.volBase + 1 ==>
      b.img[s] == a.img[s])
    && EntryOnly(g, dirSect, dirOff, a.img, b.img)
  }

  lemma UntouchedIsConfined(g: Geometry, dirSect: nat, dirOff: nat, a: Rest, b: Rest)
    requires Untouched(g, a.fat, a.img, a.chain, b.fat, b.img, b.chain) && Elsewhere(g, a.fat, a.chain, dirSect)
    ensures Confined(g, dirSect, dirOff, a, b)
  {
    assert Foreign(g, a.fat, a.chain, dirSect);
  }

  lemma ConfinedTrans(g: Geometry, dirSect: nat, dirOff: nat, a: Rest, b: Rest, c: Rest)
    requires Confined(g, dirSect, dirOff, a, b) && Confined(g, dirSect, dirOff, b, c)
    ensures Confined(g, dirSect, dirOff, a, c)
  {
    forall s | 0 <= s < g.nSect && Foreign(g, a.fat, a.chain, s) && s != dirSect && s != g.volBase + 1
      ensures c.img[s] == a.img[s]
    {
      assert Foreign(g, b.fat, b.chain, s);
    }
  }

  /** Runs any sequence of operations without a link map. Every step is a step of the byte array with a cursor, the rest
      of the volume is untouched over the whole run, and no cluster leaks. */
  method Run(f: File, ops: seq<Op>) returns (outs: seq<Outcome>, ghost views: seq<View>)
    requires Ready(f)
    requires forall i :: 0 <= i < |ops| ==> Representable(ops[i])
    modifies f, f.buf, f.fs, f.fs.win
    ensures Ready(f)
    ensures |outs| == |ops| && |views| == |ops| + 1
    ensures views[0] == old(ViewOf(f)) && views[|ops|] == ViewOf(f)
    ensures forall i :: 0 <= i < |ops| ==> Step(ClusterBytes(f.fs.g), f.canRead, f.canWrite, views[i], ops[i],
      outs[i], views[i + 1])
    ensures Confined(f.fs.g, f.dirSect, f.dirOff, old(RestOf(f)), RestOf(f))
    ensures old(f.fs.CountOk()) ==> f.fs.CountOk()
  {
    hide Step, Confined, Untouched, FatMap, WindowOk, Base, Cursor, Content, Sized, Counted, FreeCount, DiskHolds;
    outs := [];
    views := [ViewOf(f)];
    f.SelfUntouched();
    EntryElsewhere(f);
    UntouchedIsConfined(f.fs.g, f.dirSect, f.dirOff, RestOf(f), RestOf(f));
    for i := 0 to |ops|
      invariant Ready(f)
      invariant |outs| == i && |views| == i + 1 && views[0] == old(ViewOf(f)) && views[i] == ViewOf(f)
      invariant forall j :: 0 <= j < i ==> Step(ClusterBytes(f.fs.g), f.canRead, f.canWrite, views[j], ops[j],
        outs[j], views[j + 1])
      invariant Confined(f.fs.g, f.dirSect, f.dirOff, old(RestOf(f)), RestOf(f))
      invariant old(f.fs.CountOk()) ==> f.fs.CountOk()
    {
      ghost var rest := RestOf(f);
      var o := Perform(f, ops[i]);
      ConfinedTrans(f.fs.g, f.dirSect, f.dirOff, old(RestOf(f)), rest, RestOf(f));
      outs := outs + [o];
      views := views + [ViewOf(f)];
    }
  }

  /** A run on object `i` of a well-formed volume leaves a well-formed volume: chains acyclic, disjoint, end-terminated,
      and free clusters plus the file's own clusters the same in number. */
  lemma ConfinedKeepsHeap(g: Geometry, dirSect: nat, dirOff: nat, a: Rest, b: Rest, objs: Objects, i: nat)
    requires Confined(g, dirSect, dirOff, a, b) && WellFormed(a.fat, objs) && i < |objs| && objs[i] == a.chain
    requires b.chain == [] || IsChain(b.fat, b.chain)
    ensures WellFormed(b.fat, objs[i := b.chain])
    ensures FreeCount(b.fat) + |b.chain| == FreeCount(a.fat) + |a.chain|
  {
    hide IsChain, FreeCount, WellFormed, OthersKept;
    if a.chain != [] {
      ObjectIsChain(a.fat, objs, i);
    }
    StepKeeps(a.fat, objs, i, b.fat, b.chain);
    ConfinedConserves(g, dirSect, dirOff, a, b);
    SameLength(a.fat, a.chain, b.fat);
  }

  /** What one file gains in clusters the free ones lose, whoever owns the rest. */
  lemma ConfinedConserves(g: Geometry, dirSect: nat, dirOff: nat, a: Rest, b: Rest)
    requires Confined(g, dirSect, dirOff, a, b)
    requires (a.chain == [] || IsChain(a.fat, a.chain)) && (b.chain == [] || IsChain(b.fat, b.chain))
    ensures FreeCount(b.fat) + |b.chain| == FreeCount(a.fat) + |a.chain|
  {
    OthersCount(a.fat, a.chain);
    OthersCount(b.fat, b.chain);
    hide IsChain, Foreign, ImageOk, Clear;
    SameLength(a.fat, a.chain, b.fat);
    forall c | 2 <= c < |a.fat|
      ensures Clear(a.fat, a.chain)[c] == 0 <==> Clear(b.fat, b.chain)[c] == 0
    {
      Cleared(a.fat, a.chain, c);
      Cleared(b.fat, b.chain, c);
    }
    SameFree(Clear(a.fat, a.chain), Clear(b.fat, b.chain), |a.fat|);
  }

  lemma Cleared(fat: FatTable, chain: seq<nat>, c: nat)
    requires c < |fat|
    ensures Clear(fat, chain)[c] == if c in chain then 0 else fat[c]
  {}

  /** Free clusters when one chain is left out. */
  lemma OthersCount(fat: FatTable, chain: seq<nat>)
    requires chain == [] || IsChain(fat, chain)
    ensures FreeCount(Clear(fat, chain)) == FreeCount(fat) + |chain|
  {
    if chain == [] {
      assert Clear(fat, []) == fat;
    } else {
      ClearCounts(fat, chain);
    }
  }

  lemma {:induction false} SameFree(a: FatTable, b: FatTable, i: nat)
    requires |a| == |b| && i <= |a| && forall c :: 2 <= c < i ==> (a[c] == 0 <==> b[c] == 0)
    ensures Free(a, i) == Free(b, i)
  {
    if i <= 2 {
    } else {
      SameFree(a, b, i - 1);
    }
  }

  lemma SameLength(fat: FatTable, s: seq<nat>, fat': FatTable)
    requires OthersKept(fat, s, fat')
    ensures |fat'| == |fat|
  {}

  /** Every other object keeps its chain and its bytes, the directory sector of the file's own entry apart. */
  lemma ConfinedKeepsObject(
    g: Geometry, dirSect: nat, dirOff: nat, a: Rest, b: Rest, objs: Objects, i: nat, j: nat, q: nat)
    requires Confined(g, dirSect, dirOff, a, b) && WellFormed(a.fat, objs)
    requires i < |objs| && objs[i] == a.chain && j < |objs| && j != i
    requires InRange(g, objs[j]) && q < Times(|objs[j]|, g.csize) && FileSec(g, objs[j], q) != dirSect
    ensures FileSec(g, objs[j], q) < g.nSect && b.img[FileSec(g, objs[j], q)] == a.img[FileSec(g, objs[j], q)]
    ensures IsChain(b.fat, objs[j])
  {
    hide WellFormed, IsChain, OthersKept, FileSec, ClusterOf, Times, Foreign;
    var s := FileSec(g, objs[j], q);
    FileSecInData(g, objs[j], q);
    DataBehindFsInfo(g);
    var k :| 0 <= k < |objs[j]| && objs[j][k] == ClusterOf(g, s);
    OtherObject(a.fat, objs, i, j, k);
    OtherChainKept(a.fat, a.chain, b.fat, objs[j]);
    DataIsForeign(g, a.fat, a.chain, s);
  }

  lemma DataBehindFsInfo(g: Geometry)
    requires g.Valid()
    ensures g.volBase + 1 < g.dataBase
  {}

  lemma DataIsForeign(g: Geometry, fat: FatTable, chain: seq<nat>, s: nat)
    requires g.Valid() && |fat| == g.nFatEnt && g.dataBase <= s
    requires ClusterOf(g, s) < |fat| && fat[ClusterOf(g, s)] != 0 && ClusterOf(g, s) !in chain
    ensures Foreign(g, fat, chain, s)
  {}

  lemma OtherObject(fat: FatTable, objs: Objects, i: nat, j: nat, k: nat)
    requires WellFormed(fat, objs) && i < |objs| && j < |objs| && i != j && k < |objs[j]|
    ensures IsChain(fat, objs[j]) && Disjoint(objs[j], objs[i])
    ensures 2 <= objs[j][k] < |fat| && fat[objs[j][k]] != 0 && objs[j][k] !in objs[i]
  {
    ObjectsApart(fat, objs, i, j);
    ObjectIsChain(fat, objs, j);
    ChainAllocated(fat, objs[j]);
  }

  /** A run on object `i` of a well-formed volume: the volume stays well formed, the cluster count is conserved, and the
      file owns exactly the clusters its size needs. */
  method RunOnVolume(f: File, ops: seq<Op>, ghost objs: Objects, ghost i: nat) returns (outs: seq<Outcome>)
    requires Ready(f) && WellFormed(f.fs.Table(), objs) && i < |objs| && objs[i] == f.chain
    requires forall k :: 0 <= k < |ops| ==> Representable(ops[k])
    modifies f, f.buf, f.fs, f.fs.win
    ensures Ready(f) && WellFormed(f.fs.Table(), objs[i := f.chain])
    ensures FreeCount(f.fs.Table()) + |f.chain| == old(FreeCount(f.fs.Table()) + |f.chain|)
    ensures Sized(f.fs.g, f.chain, f.fsize)
  {
    hide WellFormed, Confined, Step, FatMap, WindowOk, Cursor, Content, IsChain, FreeCount, Counted;
    ghost var rest := RestOf(f);
    ghost var views;
    outs, views := Run(f, ops);
    OwnChain(f);
    ConfinedKeepsHeap(f.fs.g, f.dirSect, f.dirOff, rest, RestOf(f), objs, i);
  }

  lemma OwnChain(f: File)
    requires f.Valid()
    ensures f.chain == [] || IsChain(f.fs.Table(), f.chain)
    ensures Sized(f.fs.g, f.chain, f.fsize)
  {
    hide WindowOk, FatMap, Cached, Buffered, Placed, Cursor, Sized, IsChain;
  }

  lemma EntryElsewhere(f: File)
    requires f.Valid()
    ensures Elsewhere(f.fs.g, f.fs.Table(), f.chain, f.dirSect)
  {
    hide WindowOk, FatMap, Shape, Cached, Buffered, Cursor, Sized, Elsewhere;
  }

  /** The clusters of a file and its size. */
  lemma OwnClusters(f: File)
    requires f.Valid()
    ensures ClusterBytes(f.fs.g) > 0 && |f.chain| == Need(ClusterBytes(f.fs.g), |f.Contents()|)
    ensures f.chain == [] || IsChain(f.fs.Table(), f.chain)
    ensures |f.Contents()| == f.fsize <= Times(|f.chain|, ClusterBytes(f.fs.g))
    ensures Elsewhere(f.fs.g, f.fs.Table(), f.chain, f.dirSect)
  {
    hide WindowOk, FatMap, Base, Cursor, Sized, IsChain, Need, Content;
    OwnChain(f);
    EntryElsewhere(f);
    BaseShape(f.fs.g, f.fs.Table(), f.fs.img, f.St(), f.fs.winsect, f.dirSect);
    ClusterBytesPositive(f.fs.g);
    SizedIsNeed(f.fs.g, f.chain, f.fsize);
    SizedAtEnd(f.fs.g, f.chain, f.fsize);
  }

  lemma SamePrefix(a: seq<nat>, b: seq<nat>)
    requires a <= b && |a| == |b|
    ensures a == b
  {}

  /** A full volume has no free cluster. */
  lemma FullMeans(fat: FatTable)
    requires |fat| >= 2
    ensures Full(fat) <==> FreeCount(fat) == 0
  {
    FreeAll(fat, |fat|);
  }

  /** A file on which no operation was aborted, without a link map. */
  ghost predicate Ready(f: File)
    reads f, f.fs, f.fs.win, f.buf
  {
    f.Valid() && f.err == Ok && f.cltbl == null
  }

  /** The arguments fit the code's 32-bit types. */
  predicate Representable(op: Op) {
    match op
    case Read(n) => n < DWORD_MOD
    case Write(data) => |data| < DWORD_MOD
    case Seek(ofs) => ofs < DWORD_MOD
    case _ => true
  }

  method Perform(f: File, op: Op) returns (o: Outcome)
    requires Ready(f) && Representable(op)
    modifies f, f.buf, f.fs, f.fs.win
    ensures Ready(f)
    ensures Step(ClusterBytes(f.fs.g), f.canRead, f.canWrite, old(ViewOf(f)), op, o, ViewOf(f))
    ensures Confined(f.fs.g, f.dirSect, f.dirOff, old(RestOf(f)), RestOf(f))
    ensures old(f.fs.CountOk()) ==> f.fs.CountOk()
    ensures f.fs.home == old(f.fs.home)
    ensures !op.Truncate? ==> f.loose == old(f.loose)
  {
    hide WindowOk, FatMap, Base, Cursor, Content, Sized, Confined, Step, Counted, FreeCount, DiskHolds;
    match op
    case Read(n) => o := PerformRead(f, n);
    case Write(data) => o := PerformWrite(f, data);
    case Seek(ofs) => o := PerformSeek(f, ofs);
    case Truncate => o := PerformTruncate(f);
    case Sync(tm) => o := PerformSync(f, tm);
  }

  method PerformRead(f: File, n: nat) returns (o: Outcome)
    requires Ready(f)
    modifies f, f.buf, f.fs, f.fs.win
    ensures Ready(f)
    ensures Step(ClusterBytes(f.fs.g), f.canRead, f.canWrite, old(ViewOf(f)), Read(n), o, ViewOf(f))
    ensures Confined(f.fs.g, f.dirSect, f.dirOff, old(RestOf(f)), RestOf(f))
    ensures old(f.fs.CountOk()) ==> f.fs.CountOk()
    ensures f.fs.home == old(f.fs.home)
    ensures f.loose == old(f.loose)
  {
    hide WindowOk, FatMap, Base, Cursor, Content, Sized, Untouched, Confined, Counted, FreeCount, DiskHolds;
    hide IsChain, Need;
    ghost var rest := RestOf(f);
    OwnClusters(f);
    var res, bytes := ReadOut(f, n);
    UntouchedIsConfined(f.fs.g, f.dirSect, f.dirOff, rest, RestOf(f));
    OwnClusters(f);
    o := if res == Ok then Data(bytes) else Refused;
  }

  /** A file on which no operation was aborted, without a link map or with one that lists its whole chain. */
  ghost predicate Readable(f: File)
    reads f, f.fs, f.fs.win, f.buf, f.cltbl
  {
    f.Valid() && f.err == Ok && WholeMap(f)
  }

  ghost predicate WholeMap(f: File)
    reads f, f.cltbl
  {
    f.cltbl != null ==> TableOk(f.cltbl[..], 1) && LinkMap.Clusters(f.cltbl[..], 1) == f.chain
  }

  /** A map of the whole chain serves every read. */
  lemma WholeMapCovers(f: File)
    requires f.Valid() && WholeMap(f) && f.fptr < f.fsize
    ensures f.MapCovers(f.fptr)
  {
    OwnClusters(f);
    QuoBelow(f.fptr, |f.chain|, ClusterBytes(f.fs.g));
  }

  /** f_read into a fresh buffer. */
  method ReadOut(f: File, n: nat) returns (res: Status, bytes: seq<Byte>)
    requires Readable(f)
    modifies f, f.buf, f.fs, f.fs.win
    ensures Readable(f) && f.cltbl == old(f.cltbl) && f.Contents() == old(f.Contents())
      && f.fs.Table() == old(f.fs.Table())
    ensures unchanged(f`chain, f`written, f`loose, f.fs`home, f.fs`freeClust)
    ensures f.fptr == old(f.fptr) + |bytes| && |bytes| == (if f.canRead then Least(n, f.fsize - old(f.fptr)) else 0)
    ensures res == (if f.canRead then Ok else Denied) && bytes == f.Contents()[old(f.fptr)..f.fptr]
    ensures Untouched(f.fs.g, f.fs.Table(), old(f.fs.img), f.chain, f.fs.Table(), f.fs.img, f.chain)
    ensures f.Calm(old(f.fs.disk), old(f.fs.wflag || f.dirty))
  {
    hide WindowOk, FatMap, Base, Cursor, Content, Sized, Untouched, Patch;
    var rbuff := new Byte[n];
    ghost var before := rbuff[..];
    var br;
    res, br := f.FRead(rbuff, n);
    if res == IntErr {
      WholeMapCovers(f);
    }
    PatchedFront(before, f.Contents()[old(f.fptr)..f.fptr]);
    bytes := rbuff[..br];
  }

  lemma PatchedFront(s: seq<Byte>, d: seq<Byte>)
    requires |d| <= |s|
    ensures |Patch(s, 0, d)| == |s| && Patch(s, 0, d)[..|d|] == d
  {}

  method PerformWrite(f: File, data: seq<Byte>) returns (o: Outcome)
    requires Ready(f) && |data| < DWORD_MOD
    modifies f, f.buf, f.fs, f.fs.win
    ensures Ready(f)
    ensures Step(ClusterBytes(f.fs.g), f.canRead, f.canWrite, old(ViewOf(f)), Write(data), o, ViewOf(f))
    ensures Confined(f.fs.g, f.dirSect, f.dirOff, old(RestOf(f)), RestOf(f))
    ensures old(f.fs.CountOk()) ==> f.fs.CountOk()
    ensures f.fs.home == old(f.fs.home)
    ensures f.loose == old(f.loose)
  {
    hide WindowOk, FatMap, Base, Cursor, Content, Sized, Untouched, Confined, Counted, FreeCount, DiskHolds;
    hide IsChain, Need, Patch, Full, TableOk;
    hide LinkMap.Clusters;
    ghost var rest := RestOf(f);
    OwnClusters(f);
    f.WriteNothing();
    var res, bw := f.FWrite(data);
    UntouchedIsConfined(f.fs.g, f.dirSect, f.dirOff, rest, RestOf(f));
    OwnClusters(f);
    ConfinedConserves(f.fs.g, f.dirSect, f.dirOff, rest, RestOf(f));
    FullMeans(f.fs.Table());
    assert data[..0] == [];
    o := if res == Ok then Count(bw) else Refused;
  }

  method PerformSeek(f: File, ofs: nat) returns (o: Outcome)
    requires Ready(f) && ofs < DWORD_MOD
    modifies f, f.buf, f.fs, f.fs.win
    ensures Ready(f)
    ensures Step(ClusterBytes(f.fs.g), f.canRead, f.canWrite, old(ViewOf(f)), Seek(ofs), o, ViewOf(f))
    ensures Confined(f.fs.g, f.dirSect, f.dirOff, old(RestOf(f)), RestOf(f))
    ensures old(f.fs.CountOk()) ==> f.fs.CountOk()
    ensures f.fs.home == old(f.fs.home)
    ensures f.loose == old(f.loose)
  {
    hide WindowOk, FatMap, Base, Cursor, Content, Sized, Untouched, Confined, Counted, FreeCount, DiskHolds;
    hide IsChain, Need, Full;
    ghost var rest := RestOf(f);
    OwnClusters(f);
    var res := f.SeekNormal(ofs);
    UntouchedIsConfined(f.fs.g, f.dirSect, f.dirOff, rest, RestOf(f));
    OwnClusters(f);
    ConfinedConserves(f.fs.g, f.dirSect, f.dirOff, rest, RestOf(f));
    FullMeans(f.fs.Table());
    if |f.Contents()| == |old(f.Contents())| {
      SamePrefix(old(f.chain), f.chain);
      assert f.Contents()[..old(f.fsize)] == f.Contents();
    }
    o := Done;
  }

  method PerformTruncate(f: File) returns (o: Outcome)
    requires Ready(f)
    modifies f, f.buf, f.fs, f.fs.win
    ensures Ready(f)
    ensures Step(ClusterBytes(f.fs.g), f.canRead, f.canWrite, old(ViewOf(f)), Truncate, o, ViewOf(f))
    ensures Confined(f.fs.g, f.dirSect, f.dirOff, old(RestOf(f)), RestOf(f))
    ensures old(f.fs.CountOk()) ==> f.fs.CountOk()
    ensures f.fs.home == old(f.fs.home)
  {
    hide WindowOk, FatMap, Base, Cursor, Content, Sized, Untouched, Confined, Counted, FreeCount, DiskHolds;
    hide IsChain, Need;
    ghost var rest := RestOf(f);
    OwnClusters(f);
    assert f.Contents()[..f.fsize] == f.Contents();
    var res := f.FTruncate();
    UntouchedIsConfined(f.fs.g, f.dirSect, f.dirOff, rest, RestOf(f));
    OwnClusters(f);
    ConfinedConserves(f.fs.g, f.dirSect, f.dirOff, rest, RestOf(f));
    o := if res == Ok then Done else Refused;
  }

  method PerformSync(f: File, tm: nat) returns (o: Outcome)
    requires Ready(f)
    modifies f, f.buf, f.fs, f.fs.win
    ensures Ready(f)
    ensures Step(ClusterBytes(f.fs.g), f.canRead, f.canWrite, old(ViewOf(f)), Sync(tm), o, ViewOf(f))
    ensures Confined(f.fs.g, f.dirSect, f.dirOff, old(RestOf(f)), RestOf(f))
    ensures old(f.fs.CountOk()) ==> f.fs.CountOk()
    ensures f.fs.home == old(f.fs.home)
    ensures f.loose == old(f.loose)
  {
    hide WindowOk, FatMap, Base, Cursor, Content, Sized, Untouched, Confined, Counted, FreeCount, DiskHolds;
    hide IsChain, Need, SyncedEntry;
    ghost var rest := RestOf(f);
    OwnClusters(f);
    DirtyIsOwn(f);
    f.SelfUntouched();
    ghost var dirty := f.dirty;
    f.FSync(tm);
    SyncConfined(f.fs.g, f.dirSect, f.dirOff, rest, f.fs.img, f.dsect, dirty, f.fsize, f.sclust, tm);
    OwnClusters(f);
    ConfinedConserves(f.fs.g, f.dirSect, f.dirOff, rest, RestOf(f));
    o := Done;
  }

  lemma DirtyIsOwn(f: File)
    requires f.Valid()
    ensures f.dirty ==> f.fs.g.dataBase <= f.dsect && ClusterOf(f.fs.g, f.dsect) in f.chain
  {
    if f.dirty {
      OwnSector(f.fs.g, f.fs.Table(), f.St(), f.bufAt);
    }
  }

  lemma SyncConfined(
    g: Geometry, dirSect: nat, dirOff: nat, a: Rest, img: seq<Sector>, dsect: nat, dirty: bool, size: nat, cl: nat,
    tm: nat)
    requires Untouched(g, a.fat, a.img, a.chain, a.fat, a.img, a.chain) && ImageOk(g, img)
    requires dirty ==> g.dataBase <= dsect && ClusterOf(g, dsect) in a.chain
    requires dirSect < g.nSect && dirOff + 32 <= g.ss
    requires img[dirSect] == a.img[dirSect] || img[dirSect] == SyncedEntry(a.img[dirSect], dirOff, size, cl, tm)
    requires forall x ::
      0 <= x < g.nSect && x != dirSect && x != g.volBase + 1 && !(dirty && x == dsect) ==> img[x] == a.img[x]
    ensures Confined(g, dirSect, dirOff, a, a.(img := img))
  {
    hide SyncedEntry;
    SyncedEntryFrame(a.img[dirSect], dirOff, size, cl, tm);
  }
}
