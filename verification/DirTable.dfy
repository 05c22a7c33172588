/** Directory tables on the medium: where slot `idx` lies (dir_sdi), and that stepping (dir_next) agrees with it. */
module DirTable {
  import opened Arith
  import opened Bytes
  import opened Fat
  import opened Chains
  import opened FileData

  const SZ_DIR: nat := 32
  const INDEX_LIMIT: nat := 0x1_0000

  /** Cluster (0: static table), sector and byte offset of a slot. */
  datatype Place = Place(clust: nat, sect: nat, off: nat)

  function PerSector(g: Geometry): nat {
    g.ss / SZ_DIR
  }

  function PerCluster(g: Geometry): nat {
    Times(g.csize, PerSector(g))
  }

  lemma PerClusterPositive(g: Geometry)
    requires g.Valid()
    ensures PerSector(g) >= 16 && SZ_DIR * PerSector(g) == g.ss && PerCluster(g) >= PerSector(g)
  {
    TimesMono(1, g.csize, PerSector(g));
  }

  /** The static root directory fills whole sectors between the FATs and the data area. */
  ghost predicate RootOk(g: Geometry) {
    && g.Valid()
    && Rem(g.nRootDir, PerSector(g)) == 0
    && (g.fatType != Fat32 ==> g.FatEnd() <= g.dirBase && g.dirBase + Quo(g.nRootDir, PerSector(g)) <= g.dataBase)
  }

  /** Start cluster of a table; 0 stands for the root directory. */
  function Start(g: Geometry, sclust: nat): nat {
    if sclust == 0 && g.fatType == Fat32 then g.dirBase else sclust
  }

  /** The cluster that holds slot `idx` of a table starting at cluster `clst`. */
  function WalkTo(g: Geometry, fat: FatTable, clst: nat, idx: nat): Option<nat>
    requires PerCluster(g) > 0
    decreases idx
  {
    if idx < PerCluster(g) then Some(clst)
    else
      var nxt := Get(fat, clst);
      if nxt < 2 || nxt >= |fat| then None else WalkTo(g, fat, nxt, idx - PerCluster(g))
  }

  /** dir_sdi; None is its error return. */
  function Sdi(g: Geometry, fat: FatTable, sclust: nat, idx: nat): Option<Place>
    requires PerCluster(g) > 0 && PerSector(g) > 0
  {
    if sclust == 1 || sclust >= g.nFatEnt then None
    else if Start(g, sclust) == 0 then
      if idx >= g.nRootDir || g.dirBase == 0 then None
      else Some(Place(0, g.dirBase + Quo(idx, PerSector(g)), SZ_DIR * Rem(idx, PerSector(g))))
    else
      match WalkTo(g, fat, Start(g, sclust), idx)
      case None => None
      case Some(c) =>
        if Clust2Sect(g, c) == 0 then None
        else
          var r := Rem(idx, PerCluster(g));
          Some(Place(c, Clust2Sect(g, c) + Quo(r, PerSector(g)), SZ_DIR * Rem(r, PerSector(g))))
  }

  datatype Move = At(place: Place) | EndOfTable | Broken

  /** dir_next without stretching, from a slot at index `index`. */
  function Next(g: Geometry, fat: FatTable, p: Place, index: nat): Move
    requires PerSector(g) > 0 && g.csize > 0
  {
    var i := index + 1;
    if i % INDEX_LIMIT == 0 || p.sect == 0 then EndOfTable
    else if Rem(i, PerSector(g)) != 0 then At(Place(p.clust, p.sect, SZ_DIR * Rem(i, PerSector(g))))
    else if p.clust == 0 then
      if i >= g.nRootDir then EndOfTable else At(Place(0, p.sect + 1, 0))
    else if Rem(Quo(i, PerSector(g)), g.csize) != 0 then At(Place(p.clust, p.sect + 1, 0))
    else
      var clst := Get(fat, p.clust);
      if clst <= 1 then Broken
      else if clst >= g.nFatEnt then EndOfTable
      else At(Place(clst, Clust2Sect(g, clst), 0))
  }

  // ---------------------------------------------------------------- arithmetic of one step

  /** Successor of an offset, by sector. */
  lemma NextRem(r: nat, d: nat)
    requires d > 1
    ensures if Rem(r + 1, d) == 0 then Quo(r + 1, d) == Quo(r, d) + 1
            else Quo(r + 1, d) == Quo(r, d) && Rem(r + 1, d) == Rem(r, d) + 1
  {
    QuoRem(r, d);
    if Rem(r, d) + 1 < d {
      QuoUnique(Quo(r, d), Rem(r, d) + 1, d);
    } else {
      QuoUnique(Quo(r, d) + 1, 0, d);
    }
  }

  /** Remainders by a sector do not change when whole clusters are taken off. */
  lemma SectorOfRem(i: nat, n: nat, d: nat)
    requires n > 0 && d > 0 && Times(n, d) > 0
    ensures Rem(i, d) == Rem(Rem(i, Times(n, d)), d)
    ensures Rem(Quo(i, d), n) == Quo(Rem(i, Times(n, d)), d)
    ensures Quo(Quo(i, d), n) == Quo(i, Times(n, d))
  {
    hide Times, Quo, Rem;
    var k, r := Quo(i, Times(n, d)), Rem(i, Times(n, d));
    QuoRem(i, Times(n, d));
    TimesAssoc(k, n, d);
    QuoRem(r, d);
    var a, b := Quo(r, d), Rem(r, d);
    TimesAdd(Times(k, n), a, d);
    QuoUnique(Times(k, n) + a, b, d);
    QuoBelow(r, n, d);
    QuoUnique(k, a, n);
  }

  /** The walk to the next slot goes to the next cluster exactly behind the last slot of a cluster. */
  lemma {:induction false} WalkStep(g: Geometry, fat: FatTable, clst: nat, idx: nat)
    requires PerCluster(g) > 1 && WalkTo(g, fat, clst, idx).Some?
    ensures
      var c := WalkTo(g, fat, clst, idx).value;
      var r := Rem(idx, PerCluster(g));
      if r + 1 < PerCluster(g) then WalkTo(g, fat, clst, idx + 1) == Some(c) && Rem(idx + 1, PerCluster(g)) == r + 1
      else
        && Rem(idx + 1, PerCluster(g)) == 0
        && WalkTo(g, fat, clst, idx + 1) == if 2 <= Get(fat, c) < |fat| then Some(Get(fat, c)) else None
    decreases idx
  {
    hide Times;
    if idx < PerCluster(g) {
    } else {
      WalkStep(g, fat, Get(fat, clst), idx - PerCluster(g));
    }
  }

  /** Stepping from slot `idx` arrives where a direct access to slot `idx + 1` does, on any FAT contents, for static and
      for cluster-chained tables. */
  lemma StepIsAccess(g: Geometry, fat: FatTable, sclust: nat, idx: nat)
    requires RootOk(g) && |fat| == g.nFatEnt && PerCluster(g) > 0
    requires Sdi(g, fat, sclust, idx).Some? && idx + 1 < INDEX_LIMIT
    ensures
      var m := Next(g, fat, Sdi(g, fat, sclust, idx).value, idx);
      var p := Sdi(g, fat, sclust, idx + 1);
      if p.Some? then m == At(p.value) else !m.At?
  {
    hide Times, Quo, Rem;
    PerClusterPositive(g);
    var d := PerSector(g);
    if Start(g, sclust) == 0 {
      NextRem(idx, d);
      RootEnd(g, idx);
    } else {
      var r := Rem(idx, PerCluster(g));
      NextRem(r, d);
      WalkStep(g, fat, Start(g, sclust), idx);
      SectorOfRem(idx + 1, g.csize, d);
      QuoRem(idx, PerCluster(g));
      LastInCluster(g, r);
      ClusterInRange(g, fat, Start(g, sclust), idx);
    }
  }

  /** Data clusters have a sector number other than 0. */
  lemma ClusterInRange(g: Geometry, fat: FatTable, clst: nat, idx: nat)
    requires g.Valid() && PerCluster(g) > 0
    ensures forall c :: 2 <= c < g.nFatEnt ==> Clust2Sect(g, c) > 0
  {}

  lemma RootEnd(g: Geometry, idx: nat)
    requires RootOk(g) && idx < g.nRootDir
    ensures PerSector(g) > 0
    ensures Rem(idx + 1, PerSector(g)) != 0 ==> idx + 1 < g.nRootDir
  {
    PerClusterPositive(g);
  }

  /** The slot behind offset `r` is in the same cluster unless it begins sector `csize`. */
  lemma LastInCluster(g: Geometry, r: nat)
    requires g.Valid() && PerCluster(g) > 0 && PerSector(g) > 0
    requires r < PerCluster(g)
    ensures r + 1 == PerCluster(g) ==> Rem(r + 1, PerSector(g)) == 0 && Quo(r + 1, PerSector(g)) == g.csize
    ensures r + 1 < PerCluster(g) ==> Quo(r + 1, PerSector(g)) < g.csize
    ensures Rem(r + 1, PerSector(g)) == 0 ==> Quo(r + 1, PerSector(g)) > 0
    ensures Rem(0, PerSector(g)) == 0 && Quo(0, PerSector(g)) == 0
  {
    QuoBelow(r + 1, g.csize, PerSector(g));
    QuoUnique(g.csize, 0, PerSector(g));
    QuoRem(r + 1, PerSector(g));
    assert Quo(r + 1, PerSector(g)) == 0 ==> Times(0, PerSector(g)) == 0;
  }

  /** dir_sdi(0) followed by `k` calls of dir_next; None if one of them fails. */
  function Steps(g: Geometry, fat: FatTable, sclust: nat, k: nat): Option<Place>
    requires PerCluster(g) > 0 && PerSector(g) > 0 && g.csize > 0
  {
    if k == 0 then Sdi(g, fat, sclust, 0)
    else
      match Steps(g, fat, sclust, k - 1)
      case None => None
      case Some(p) => (match Next(g, fat, p, k - 1) case At(p') => Some(p') case _ => None)
  }

  lemma {:induction false} AccessBelow(g: Geometry, fat: FatTable, sclust: nat, idx: nat)
    requires RootOk(g) && |fat| == g.nFatEnt && PerCluster(g) > 1 && PerSector(g) > 0
    ensures Sdi(g, fat, sclust, idx + 1).Some? ==> Sdi(g, fat, sclust, idx).Some?
  {
    hide Times, Quo, Rem;
    if Start(g, sclust) == 0 {
    } else {
      WalkBelow(g, fat, Start(g, sclust), idx);
    }
  }

  lemma {:induction false} WalkBelow(g: Geometry, fat: FatTable, clst: nat, idx: nat)
    requires g.Valid() && |fat| == g.nFatEnt && PerCluster(g) > 1
    ensures WalkTo(g, fat, clst, idx + 1).Some? ==> WalkTo(g, fat, clst, idx).Some?
    ensures WalkTo(g, fat, clst, idx + 1).Some? && Clust2Sect(g, WalkTo(g, fat, clst, idx + 1).value) != 0 ==>
      Clust2Sect(g, WalkTo(g, fat, clst, idx).value) != 0
    decreases idx
  {
    hide Times;
    if idx < PerCluster(g) {
    } else {
      WalkBelow(g, fat, Get(fat, clst), idx - PerCluster(g));
    }
  }

  /** Sequential and random access agree for every index. */
  lemma {:induction false} SequentialIsRandom(g: Geometry, fat: FatTable, sclust: nat, k: nat)
    requires RootOk(g) && |fat| == g.nFatEnt && PerCluster(g) > 1 && PerSector(g) > 0 && k < INDEX_LIMIT
    ensures Steps(g, fat, sclust, k) == Sdi(g, fat, sclust, k)
  {
    hide Times, Quo, Rem, Sdi, Next;
    if k == 0 {
    } else {
      SequentialIsRandom(g, fat, sclust, k - 1);
      AccessBelow(g, fat, sclust, k - 1);
      if Sdi(g, fat, sclust, k - 1).Some? {
        StepIsAccess(g, fat, sclust, k - 1);
      }
    }
  }
}
