/** Whole runs with a link map (fast seek): they differ from runs without one only in that the file cannot grow beyond
    its last cluster. */
module FastRun {
  import opened Results
  import opened Arith
  import opened Bytes
  import opened Fat
  import opened Window
  import opened Chains
  import opened LinkMap
  import opened FileData
  import opened FileState
  import FileGrowth
  import opened Durable
  import opened Volume
  import opened FileIO
  import opened FileRun

  const CREATE_LINKMAP: nat := 0xFFFF_FFFF

  /** A file that owns a cluster, with the link map that f_lseek(CREATE_LINKMAP) made of it. */
  ghost predicate Mapped(f: File)
    reads f, f.fs, f.fs.win, f.buf, f.cltbl
  {
    Readable(f) && f.cltbl != null && f.chain != []
  }

  /** Operations that leave the map right, and whose arguments fit the code's types. */
  predicate Mappable(op: Op) {
    Representable(op) && !op.Truncate? && (op.Seek? ==> op.ofs != CREATE_LINKMAP)
  }

  /** Bytes in the clusters of the file. */
  function Capacity(b: nat, v: View): nat {
    Times(Need(b, |v.content|), b)
  }

  /** One operation with a link map: a write stops at the end of the last cluster, and a seek at the end of the file. */
  ghost predicate MappedStep(b: nat, read: bool, write: bool, v: View, op: Op, o: Outcome, v': View) {
    && b > 0 && v.pos <= |v.content| < DWORD_MOD && v'.pos <= |v'.content| < DWORD_MOD
    && |v.content| <= Capacity(b, v) == Capacity(b, v') && v'.free == v.free
    && match op
       case Seek(ofs) =>
         o == Done && Shows(v', v.content, Least(ofs, |v.content|)) && Unwritten(v, v')
       case Write(d) =>
         if write then
           var k := if v.pos + |d| >= DWORD_MOD then 0 else Least(|d|, Capacity(b, v) - v.pos);
           o == Count(k) && Shows(v', Patch(v.content, v.pos, d[..k]), v.pos + k) && v'.written
         else o == Refused && Shows(v', v.content, v.pos) && Unwritten(v, v')
       case _ => Step(b, read, write, v, op, o, v')
  }

  /** Where no cluster has to be added, the fast operation is the normal one. */
  lemma FastIsNormal(b: nat, read: bool, write: bool, v: View, op: Op, o: Outcome, v': View)
    requires MappedStep(b, read, write, v, op, o, v')
    requires op.Seek? && write ==> op.ofs <= |v.content|
    requires op.Write? && write ==> v.pos + |op.data| <= Capacity(b, v)
    ensures Step(b, read, write, v, op, o, v')
  {
    hide Quo, Times, Need;
    SameCapacity(b, |v.content|, |v'.content|);
  }

  lemma SameCapacity(b: nat, n: nat, m: nat)
    requires b > 0 && Times(Need(b, n), b) == Times(Need(b, m), b)
    ensures Need(b, n) == Need(b, m)
  {
    hide Need;
    QuoUnique(Need(b, n), 0, b);
    QuoUnique(Need(b, m), 0, b);
  }

  /** Any sequence of reads, writes, seeks and syncs on a mapped file: none of them fails, every step is a step of the
      byte array with a cursor in the clusters the file has, the map stays right, and the rest of the volume is
      untouched. */
  method RunMapped(f: File, ops: seq<Op>) returns (outs: seq<Outcome>, ghost views: seq<View>)
    requires Mapped(f)
    requires forall i :: 0 <= i < |ops| ==> Mappable(ops[i])
    modifies f, f.buf, f.fs, f.fs.win
    ensures Mapped(f) && f.chain == old(f.chain)
    ensures |outs| == |ops| && |views| == |ops| + 1
    ensures views[0] == old(ViewOf(f)) && views[|ops|] == ViewOf(f)
    ensures forall i :: 0 <= i < |ops| ==>
      MappedStep(ClusterBytes(f.fs.g), f.canRead, f.canWrite, views[i], ops[i], outs[i], views[i + 1])
    ensures Confined(f.fs.g, f.dirSect, f.dirOff, old(RestOf(f)), RestOf(f))
    ensures old(f.fs.CountOk()) ==> f.fs.CountOk()
  {
    hide MappedStep, Confined, Untouched, FatMap, WindowOk, Base, Cursor, Content, Sized, Counted, FreeCount, DiskHolds;
    hide TableOk, LinkMap.Clusters;
    outs := [];
    views := [ViewOf(f)];
    f.SelfUntouched();
    EntryElsewhere(f);
    UntouchedIsConfined(f.fs.g, f.dirSect, f.dirOff, RestOf(f), RestOf(f));
    for i := 0 to |ops|
      invariant Mapped(f) && f.chain == old(f.chain)
      invariant |outs| == i && |views| == i + 1 && views[0] == old(ViewOf(f)) && views[i] == ViewOf(f)
      invariant forall j :: 0 <= j < i ==>
        MappedStep(ClusterBytes(f.fs.g), f.canRead, f.canWrite, views[j], ops[j], outs[j], views[j + 1])
      invariant Confined(f.fs.g, f.dirSect, f.dirOff, old(RestOf(f)), RestOf(f))
      invariant old(f.fs.CountOk()) ==> f.fs.CountOk()
    {
      ghost var rest := RestOf(f);
      var o := PerformMapped(f, ops[i]);
      ConfinedTrans(f.fs.g, f.dirSect, f.dirOff, old(RestOf(f)), rest, RestOf(f));
      outs := outs + [o];
      views := views + [ViewOf(f)];
    }
  }

  method PerformMapped(f: File, op: Op) returns (o: Outcome)
    requires Mapped(f) && Mappable(op)
    modifies f, f.buf, f.fs, f.fs.win
    ensures Mapped(f) && f.chain == old(f.chain)
    ensures MappedStep(ClusterBytes(f.fs.g), f.canRead, f.canWrite, old(ViewOf(f)), op, o, ViewOf(f))
    ensures Confined(f.fs.g, f.dirSect, f.dirOff, old(RestOf(f)), RestOf(f))
    ensures old(f.fs.CountOk()) ==> f.fs.CountOk()
  {
    hide WindowOk, FatMap, Base, Cursor, Content, Sized, Confined, MappedStep, Counted, FreeCount, DiskHolds;
    match op
    case Read(n) => o := MappedRead(f, n);
    case Write(data) => o := MappedWrite(f, data);
    case Seek(ofs) => o := MappedSeek(f, ofs);
    case Sync(tm) => o := MappedSync(f, tm);
  }

  method MappedRead(f: File, n: nat) returns (o: Outcome)
    requires Mapped(f)
    modifies f, f.buf, f.fs, f.fs.win
    ensures Mapped(f) && f.chain == old(f.chain)
    ensures MappedStep(ClusterBytes(f.fs.g), f.canRead, f.canWrite, old(ViewOf(f)), Read(n), o, ViewOf(f))
    ensures Confined(f.fs.g, f.dirSect, f.dirOff, old(RestOf(f)), RestOf(f))
    ensures old(f.fs.CountOk()) ==> f.fs.CountOk()
  {
    hide WindowOk, FatMap, Base, Cursor, Content, Sized, Untouched, Confined, Counted, FreeCount, DiskHolds;
    hide IsChain, Need;
    hide TableOk, LinkMap.Clusters;
    ghost var rest := RestOf(f);
    OwnClusters(f);
    var res, bytes := ReadOut(f, n);
    UntouchedIsConfined(f.fs.g, f.dirSect, f.dirOff, rest, RestOf(f));
    OwnClusters(f);
    o := if res == Ok then Data(bytes) else Refused;
  }

  method MappedWrite(f: File, data: seq<Byte>) returns (o: Outcome)
    requires Mapped(f) && |data| < DWORD_MOD
    modifies f, f.buf, f.fs, f.fs.win
    ensures Mapped(f) && f.chain == old(f.chain)
    ensures MappedStep(ClusterBytes(f.fs.g), f.canRead, f.canWrite, old(ViewOf(f)), Write(data), o, ViewOf(f))
    ensures Confined(f.fs.g, f.dirSect, f.dirOff, old(RestOf(f)), RestOf(f))
    ensures old(f.fs.CountOk()) ==> f.fs.CountOk()
  {
    hide WindowOk, FatMap, Base, Cursor, Content, Sized, Untouched, Confined, Counted, FreeCount, DiskHolds;
    hide IsChain, Need;
    hide TableOk, LinkMap.Clusters, Patch, FileGrowth.Full, Times, Quo;
    ghost var rest := RestOf(f);
    OwnClusters(f);
    f.WriteNothing();
    var res, bw := f.FWrite(data);
    UntouchedIsConfined(f.fs.g, f.dirSect, f.dirOff, rest, RestOf(f));
    OwnClusters(f);
    ConfinedConserves(f.fs.g, f.dirSect, f.dirOff, rest, RestOf(f));
    if res == Ok && bw < |data| && f.NoRoom(f.fptr) {
      EndOfClusters(f);
    }
    assert data[..0] == [];
    o := if res == Ok then Count(bw) else Refused;
  }

  /** Where the map has ended, so has the last cluster. */
  lemma EndOfClusters(f: File)
    requires Mapped(f) && f.NoRoom(f.fptr)
    ensures f.fptr == Times(|f.chain|, ClusterBytes(f.fs.g))
  {
    OwnClusters(f);
    QuoBelow(f.fptr, |f.chain|, ClusterBytes(f.fs.g));
  }

  method MappedSeek(f: File, ofs: nat) returns (o: Outcome)
    requires Mapped(f) && ofs < CREATE_LINKMAP
    modifies f, f.buf, f.fs, f.fs.win
    ensures Mapped(f) && f.chain == old(f.chain)
    ensures MappedStep(ClusterBytes(f.fs.g), f.canRead, f.canWrite, old(ViewOf(f)), Seek(ofs), o, ViewOf(f))
    ensures Confined(f.fs.g, f.dirSect, f.dirOff, old(RestOf(f)), RestOf(f))
    ensures old(f.fs.CountOk()) ==> f.fs.CountOk()
  {
    hide WindowOk, FatMap, Base, Cursor, Content, Sized, Untouched, Confined, Counted, FreeCount, DiskHolds;
    hide IsChain, Need;
    hide TableOk, LinkMap.Clusters;
    ghost var rest := RestOf(f);
    OwnClusters(f);
    WholeMapReaches(f, if ofs > f.fsize then f.fsize else ofs);
    var res := f.SeekFast(ofs);
    UntouchedIsConfined(f.fs.g, f.dirSect, f.dirOff, rest, RestOf(f));
    OwnClusters(f);
    o := Done;
  }

  lemma WholeMapReaches(f: File, p: nat)
    requires Mapped(f) && p <= f.fsize
    ensures p == 0 || (ClusterBytes(f.fs.g) > 0 && Quo(p - 1, ClusterBytes(f.fs.g)) < |f.chain|)
  {
    OwnClusters(f);
    if p > 0 {
      QuoBelow(p - 1, |f.chain|, ClusterBytes(f.fs.g));
    }
  }

  method MappedSync(f: File, tm: nat) returns (o: Outcome)
    requires Mapped(f)
    modifies f, f.buf, f.fs, f.fs.win
    ensures Mapped(f) && f.chain == old(f.chain)
    ensures MappedStep(ClusterBytes(f.fs.g), f.canRead, f.canWrite, old(ViewOf(f)), Sync(tm), o, ViewOf(f))
    ensures Confined(f.fs.g, f.dirSect, f.dirOff, old(RestOf(f)), RestOf(f))
    ensures old(f.fs.CountOk()) ==> f.fs.CountOk()
  {
    hide WindowOk, FatMap, Base, Cursor, Content, Sized, Untouched, Confined, Counted, FreeCount, DiskHolds;
    hide IsChain, Need;
    hide TableOk, LinkMap.Clusters, SyncedEntry;
    ghost var rest, dirty := RestOf(f), f.dirty;
    OwnClusters(f);
    DirtyIsOwn(f);
    f.SelfUntouched();
    f.FSync(tm);
    SyncConfined(f.fs.g, f.dirSect, f.dirOff, rest, f.fs.img, f.dsect, dirty, f.fsize, f.sclust, tm);
    OwnClusters(f);
    o := Done;
  }
}
