/** The directory object (DIR): walking, searching, registering and removing on a mounted volume. */
module DirWalk {
  import opened Results
  import opened Arith
  import opened Bytes
  import opened Fat
  import opened Window
  import opened Chains
  import opened Volume
  import opened FileData
  import opened Lfn
  import opened Directory
  import opened Registry
  import opened Removal
  import opened DirTable
  import opened DirImage
  import opened NumName

  /** A window that agrees with the disk may be replaced by any dirty data sector. */
  lemma OverlayAt(g: Geometry, disk: seq<Sector>, w: Sector, ws: nat, img: seq<Sector>, s: nat, data: Sector)
    requires WindowOk(g, disk, w, ws, false, img) && g.dataBase <= s < g.nSect && |data| == g.ss
    ensures WindowOk(g, disk, data, s, true, img[s := data])
  {
    var i := img[s := data];
    forall t | 0 <= t < g.nSect && t != s && !g.InMirror(t)
      ensures disk[t] == i[t]
    {}
  }

  /** The image with `n` sectors from `s` on cleared. */
  ghost predicate ClearedTo(g: Geometry, was: seq<Sector>, img: seq<Sector>, s: nat, n: nat) {
    && ImageOk(g, was) && ImageOk(g, img)
    && forall t :: 0 <= t < g.nSect ==> img[t] == if s <= t < s + n then Zeros(g.ss) else was[t]
  }

  lemma ClearOne(g: Geometry, was: seq<Sector>, img: seq<Sector>, s: nat, n: nat)
    requires ClearedTo(g, was, img, s, n) && s + n < g.nSect
    ensures ClearedTo(g, was, img[s + n := Zeros(g.ss)], s, n + 1)
  {}

  // ---------------------------------------------------------------- one step

  /** On a proper table a step reaches the next slot or reports the end of the table. */
  lemma NextIsPlace(g: Geometry, fat: FatTable, sclust: nat, chain: seq<nat>, i: nat)
    requires TableOn(g, fat, sclust, chain) && PerSector(g) > 0 && PerCluster(g) > 1 && i < Len(g, chain)
    ensures Placed(g, chain)
    ensures Next(g, fat, PlaceOf(g, chain, i), i) ==
      if i + 1 < Len(g, chain) then Move.At(PlaceOf(g, chain, i + 1)) else EndOfTable
    ensures i + 1 < INDEX_LIMIT && i + 1 == Capacity(g, chain) && chain != [] ==>
      PlaceOf(g, chain, i).clust == chain[|chain| - 1]
  {
    AccessIsPlace(g, fat, sclust, chain, i);
    AccessIsPlace(g, fat, sclust, chain, i + 1);
    if i + 1 < INDEX_LIMIT {
      StepIsAccess(g, fat, sclust, i);
      if i + 1 == Capacity(g, chain) {
        EndOfChain(g, fat, chain, i);
      }
    }
  }

  /** The last of `n` blocks of `d` holds offset `n * d - 1`. */
  lemma LastSector(q: nat, n: nat, i: nat, d: nat)
    requires d > 0 && q == Quo(i, d) && i + 1 == Times(n, d)
    ensures q + 1 == n
  {
    if n > 0 {
      QuoUnique(n - 1, d - 1, d);
    }
  }

  /** The last slot of a chained table lies in the last cluster, whose link is an end mark. */
  lemma EndOfChain(g: Geometry, fat: FatTable, chain: seq<nat>, i: nat)
    requires RootOk(g) && PerSector(g) > 0 && |fat| == g.nFatEnt && Placed(g, chain) && i + 1 == Capacity(g, chain)
    requires chain != [] ==> IsChain(fat, chain)
    ensures chain != [] ==>
      PlaceOf(g, chain, i).clust == chain[|chain| - 1] && Get(fat, chain[|chain| - 1]) >= |fat|
  {
    hide Rem;
    if chain != [] {
      QuoBelow(i, SectorCount(g, chain), PerSector(g));
      QuoBelow(Quo(i, PerSector(g)), |chain|, g.csize);
      var k := Quo(Quo(i, PerSector(g)), g.csize);
      LastSector(Quo(i, PerSector(g)), SectorCount(g, chain), i, PerSector(g));
      LastSector(k, |chain|, Quo(i, PerSector(g)), g.csize);
    }
  }

  /** create_chain on the last cluster followed by clearing the new one is a step on the directory that adds zero
      slots. */
  lemma StretchIsStep(
    g: Geometry, fat: FatTable, img: seq<Sector>, sclust: nat, chain: seq<nat>, last: nat, mid: seq<Sector>,
    img': seq<Sector>)
    requires TableOn(g, fat, sclust, chain) && chain != [] && PerSector(g) > 0
    requires ImageOk(g, img) && SameOutsideFat(g, img, mid)
    requires |fat| >= 3
    requires Create(fat, g.EndMark(), chain[|chain| - 1], last).cluster >= 2
    requires ClearedTo(g, mid, img', Clust2Sect(g, Create(fat, g.EndMark(), chain[|chain| - 1], last).cluster), g.csize)
    ensures
      var a := Create(fat, g.EndMark(), chain[|chain| - 1], last);
      && a.cluster < |fat| && TableOn(g, a.fat, sclust, chain + [a.cluster])
      && Exists(g, fat, chain) && Exists(g, a.fat, chain + [a.cluster])
      && DirStep(g, fat, img, chain, a.fat, img', chain + [a.cluster])
      && GrowsByZeros(TableOf(g, fat, img, chain), TableOf(g, a.fat, img', chain + [a.cluster]))
      && Capacity(g, chain + [a.cluster]) >= Capacity(g, chain) + PerSector(g)
  {
    var a := Create(fat, g.EndMark(), chain[|chain| - 1], last);
    var c := a.cluster;
    CreateAppends(fat, g.EndMark(), chain, last);
    StillOn(g, fat, sclust, chain, c, a.fat);
    TableExists(g, fat, sclust, chain);
    TableExists(g, a.fat, sclust, chain + [c]);
    hide Create, Times, Quo, Rem, TableOn, FreeCount;
    StretchKeeps(g, fat, img, chain, c, mid, img');
    GrowTable(g, fat, img, chain, c, a.fat, img');
    StretchTouches(g, fat, img, chain, c, a.fat, mid, img');
  }

  lemma StillOn(g: Geometry, fat: FatTable, sclust: nat, chain: seq<nat>, c: nat, fat': FatTable)
    requires TableOn(g, fat, sclust, chain) && chain != [] && 2 <= c < |fat| && |fat'| == |fat|
    requires IsChain(fat', chain + [c]) && fat' == fat[c := g.EndMark()][chain[|chain| - 1] := c]
    ensures TableOn(g, fat', sclust, chain + [c])
  {}

  /** Clearing the new cluster leaves the old sectors of the table. */
  lemma StretchKeeps(
    g: Geometry, fat: FatTable, img: seq<Sector>, chain: seq<nat>, c: nat, mid: seq<Sector>, img': seq<Sector>)
    requires Exists(g, fat, chain) && chain != [] && Placed(g, chain + [c]) && 2 <= c < g.nFatEnt && c !in chain
    requires ImageOk(g, img) && SameOutsideFat(g, img, mid) && ClearedTo(g, mid, img', Clust2Sect(g, c), g.csize)
    ensures Stretched(g, chain, c, img, img')
  {
    hide Times, Quo, Rem, IsChain;
    forall q: nat | q < Times(|chain|, g.csize)
      ensures FileSec(g, chain, q) < g.nSect && img'[FileSec(g, chain, q)] == img[FileSec(g, chain, q)]
    {
      FileSecInData(g, chain, q);
      NotInCluster(g, FileSec(g, chain, q), c);
    }
    forall j: nat | j < g.csize
      ensures Sec(g, c, j) < g.nSect && img'[Sec(g, c, j)] == Zeros(g.ss)
    {
      SecInData(g, c, j);
    }
  }

  /** A sector of another cluster is not among the sectors of cluster `c`. */
  lemma NotInCluster(g: Geometry, s: nat, c: nat)
    requires g.Valid() && 2 <= c < g.nFatEnt && g.dataBase <= s
    ensures Clust2Sect(g, c) <= s < Clust2Sect(g, c) + g.csize ==> ClusterOf(g, s) == c
  {
    if Clust2Sect(g, c) <= s < Clust2Sect(g, c) + g.csize {
      SecInData(g, c, s - Clust2Sect(g, c));
    }
  }

  lemma StretchTouches(
    g: Geometry, fat: FatTable, img: seq<Sector>, chain: seq<nat>, c: nat, fat': FatTable, mid: seq<Sector>,
    img': seq<Sector>)
    requires Exists(g, fat, chain) && chain != [] && Exists(g, fat', chain + [c]) && PerSector(g) > 0
    requires 2 <= c < |fat| && fat[c] == 0 && OthersKept(fat, chain, fat')
    requires fat' == fat[c := g.EndMark()][chain[|chain| - 1] := c]
    requires ImageOk(g, img) && SameOutsideFat(g, img, mid) && ClearedTo(g, mid, img', Clust2Sect(g, c), g.csize)
    ensures DirStep(g, fat, img, chain, fat', img', chain + [c])
  {
    ChainAllocated(fat, chain);
    ChainAllocated(fat', chain + [c]);
    hide Times, Quo, Rem, IsChain, Clust2Sect, ClusterOf, OthersKept, SectorCount;
    forall s | 0 <= s < g.nSect && Apart(g, fat, chain, s)
      ensures img'[s] == img[s]
    {
      ClusterSectors(g, c);
      if g.dataBase <= s {
        NotInCluster(g, s, c);
      }
    }
  }

  lemma ClusterSectors(g: Geometry, c: nat)
    requires g.Valid() && 2 <= c < g.nFatEnt
    ensures g.dataBase <= Clust2Sect(g, c) && Clust2Sect(g, c) + g.csize <= g.nSect
  {
    SecInData(g, c, g.csize - 1);
    SecInData(g, c, 0);
  }

  lemma ClearedOk(g: Geometry, was: seq<Sector>, img: seq<Sector>, s: nat, n: nat)
    requires ClearedTo(g, was, img, s, n) && s + n < g.nSect
    ensures ImageOk(g, img) && ImageOk(g, img[s + n := Zeros(g.ss)])
  {}

  lemma ClearedNone(g: Geometry, img: seq<Sector>, s: nat)
    requires ImageOk(g, img)
    ensures ClearedTo(g, img, img, s, 0)
  {}

  /** The window may be moved back to the first cleared sector without loading it. */
  lemma RewindKeepsWindow(
    g: Geometry, disk: seq<Sector>, w: Sector, ws: nat, was: seq<Sector>, img: seq<Sector>, s: nat, n: nat)
    requires WindowOk(g, disk, w, ws, false, img) && ClearedTo(g, was, img, s, n) && n > 0
    requires g.dataBase <= s < g.nSect
    ensures ImageOk(g, img) && img[s] == Zeros(g.ss) && WindowOk(g, disk, Zeros(g.ss), s, false, img)
    ensures FatMap(g, img) == FatMap(g, was)
  {
    hide FatMap;
    LoadKeepsWindow(g, disk, w, ws, img, s);
    FatMapFrame(g, was, img);
  }

  class Dir {
    const fs: FatFs
    var sclust: nat
    var index: nat
    var clust: nat
    var sect: nat
    var off: nat           // dp->dir - fs->win
    var fn: Sector         // short name, 11 bytes
    var loss: bool         // NS_LOSS
    var long: bool         // NS_LFN
    var ntres: Byte        // NS_BODY and NS_EXT
    var lfn: Option<seq<Unit>>
    var lfnIdx: nat
    ghost var name: Name   // the name in the long-name buffer
    ghost var chain: seq<nat>

    constructor (fs: FatFs)
      ensures this.fs == fs
    {
      this.fs := fs;
      lfn := None;
    }

    /** The table exists on a valid volume, and the name in hand is well formed. */
    ghost predicate Valid()
      reads this, fs, fs.win
    {
      && fs.Valid() && TableOn(fs.g, fs.Table(), sclust, chain) && QueryOk(Q())
    }

    ghost function Q(): Query
      reads `lfn, `name, `fn, `loss
    {
      Query(lfn, name, fn, loss)
    }

    lemma Usable()
      requires Valid()
      ensures PerSector(fs.g) > 0 && PerCluster(fs.g) > 1 && Exists(fs.g, fs.Table(), chain) && ImageOk(fs.g, fs.img)
      ensures Placed(fs.g, chain)
    {
      TableExists(fs.g, fs.Table(), sclust, chain);
      PerClusterPositive(fs.g);
    }

    /** The slots of the directory. */
    ghost function T(): Table
      requires Valid()
      reads this, fs, fs.win
    {
      Usable();
      TableOf(fs.g, fs.Table(), fs.img, chain)
    }

    /** The cursor stands at slot `i`. */
    ghost predicate At(i: nat)
      requires Valid()
      reads this, fs, fs.win
    {
      Usable();
      && index == i && i < Len(fs.g, chain)
      && Place(clust, sect, off) == PlaceOf(fs.g, chain, i)
    }

    method DirSdi(idx0: nat) returns (res: Status)
      requires Valid() && idx0 < INDEX_LIMIT
      modifies `index, `clust, `sect, `off, fs`disk, fs`wflag, fs`winsect, fs.win
      ensures Valid()
      ensures res == (if idx0 < |T()| then Ok else IntErr)
      ensures res == Ok ==> At(idx0)
    {
      hide WindowOk, FatMap, TableOn, Times, Quo, Rem, QueryOk, TableOf, Exists, PlaceOf;
      Usable();
      AccessIsPlace(fs.g, fs.Table(), sclust, chain, idx0);
      var idx: nat := idx0;
      index := idx;
      var clst: nat := sclust;
      ghost var fat := fs.Table();
      if clst == 1 || clst >= fs.g.nFatEnt {
        return IntErr;
      }
      if clst == 0 && fs.g.fatType == Fat32 {
        clst := fs.g.dirBase;
      }
      var sec: nat;
      if clst == 0 {
        if idx >= fs.g.nRootDir {
          return IntErr;
        }
        sec := fs.g.dirBase;
      } else {
        var ic := Times(fs.g.csize, fs.g.ss / SZ_DIR);
        while idx >= ic
          invariant fs.Valid() && fs.Table() == fat && Valid() && index == idx0
          invariant WalkTo(fs.g, fat, clst, idx) == WalkTo(fs.g, fat, Start(fs.g, sclust), idx0)
          invariant Rem(idx, ic) == Rem(idx0, ic)
        {
          RemBelow(idx, ic);
          clst := fs.GetFat(clst);
          if clst < 2 || clst >= fs.g.nFatEnt {
            return IntErr;
          }
          idx := idx - ic;
        }
        RemSmall(idx, ic);
        sec := Clust2Sect(fs.g, clst);
      }
      clust := clst;
      if sec == 0 {
        return IntErr;
      }
      sect := sec + Quo(idx, fs.g.ss / SZ_DIR);
      off := Rem(idx, fs.g.ss / SZ_DIR) * SZ_DIR;
      res := Ok;
    }

    /** dir_next's loop over a new cluster: every sector goes through the window as zeros. */
    method ClearCluster(clst: nat)
      requires fs.Valid() && 2 <= clst < fs.g.nFatEnt
      modifies fs`disk, fs`wflag, fs`winsect, fs`img, fs.win
      ensures fs.Valid() && fs.Table() == old(fs.Table())
      ensures ClearedTo(fs.g, old(fs.img), fs.img, Clust2Sect(fs.g, clst), fs.g.csize)
    {
      hide FatMap, Clust2Sect, WindowOk, ClearedTo, Zeros;
      ClusterSectors(fs.g, clst);
      ClearedNone(fs.g, fs.img, Clust2Sect(fs.g, clst));
      fs.SyncWindow();
      ghost var w, ws := fs.win[..], fs.winsect;
      forall i | 0 <= i < fs.win.Length {
        fs.win[i] := 0;
      }
      assert fs.win[..] == Zeros(fs.g.ss);
      fs.winsect := Clust2Sect(fs.g, clst);
      var c: nat := 0;
      while c < fs.g.csize
        invariant c <= fs.g.csize && !fs.wflag && fs.winsect == Clust2Sect(fs.g, clst) + c
        invariant fs.win.Length == fs.g.ss && fs.win[..] == Zeros(fs.g.ss)
        invariant WindowOk(fs.g, fs.disk, w, ws, false, fs.img)
        invariant ClearedTo(fs.g, old(fs.img), fs.img, Clust2Sect(fs.g, clst), c)
      {
        fs.wflag := true;
        OverlayAt(fs.g, fs.disk, w, ws, fs.img, fs.winsect, Zeros(fs.g.ss));
        ClearOne(fs.g, old(fs.img), fs.img, Clust2Sect(fs.g, clst), c);
        ClearedOk(fs.g, old(fs.img), fs.img, Clust2Sect(fs.g, clst), c);
        fs.img := fs.img[fs.winsect := Zeros(fs.g.ss)];
        fs.SyncWindow();
        w, ws := fs.win[..], fs.winsect;
        fs.winsect := fs.winsect + 1;
        c := c + 1;
      }
      fs.winsect := fs.winsect - c;
      RewindKeepsWindow(fs.g, fs.disk, w, ws, old(fs.img), fs.img, fs.winsect, c);
    }

    /** The stretching part of dir_next, at the last slot of a chained table. */
    method Stretch() returns (res: Status, clst: nat)
      requires Valid() && chain != [] && clust == chain[|chain| - 1]
      modifies `chain, fs`disk, fs`wflag, fs`winsect, fs`img, fs`lastClust, fs`freeClust, fs`fsiDirty, fs.win
      ensures Valid()
      ensures GrowsByZeros(old(T()), T())
      ensures DirStep(fs.g, old(fs.Table()), old(fs.img), old(chain), fs.Table(), fs.img, chain)
      ensures res == (if old(FreeCount(fs.Table())) == 0 then Denied else Ok)
      ensures res == Ok ==> chain == old(chain) + [clst]
      ensures res == Ok ==> PerSector(fs.g) > 0 && Capacity(fs.g, chain) >= old(Capacity(fs.g, chain)) + PerSector(fs.g)
      ensures res != Ok ==> chain == old(chain) && T() == old(T()) && fs.Table() == old(fs.Table())
    {
      hide WindowOk, FatMap, TableOn, QueryOk, TableOf, Exists, DirStep, GrowsByZeros, ClearedTo, Create, FreeCount;
      Usable();
      OnChain();
      ghost var was, fat := fs.img, fs.Table();
      CreateRefused(fat, fs.g.EndMark(), chain, fs.lastClust);
      DirStepSelf(fs.g, fat, was, chain);
      GrowsSelf(T());
      clst := fs.CreateChain(clust);
      if clst == 0 {
        DirStepFat(fs.g, fat, was, fs.img, chain);
        return Denied, clst;
      }
      if clst == 1 {
        return IntErr, clst;
      }
      ghost var a := Create(fat, fs.g.EndMark(), chain[|chain| - 1], old(fs.lastClust));
      CreateInRange(fat, fs.g.EndMark(), chain[|chain| - 1], old(fs.lastClust));
      ghost var mid := fs.img;
      ClearCluster(clst);
      StretchIsStep(fs.g, fat, was, sclust, chain, old(fs.lastClust), mid, fs.img);
      chain := chain + [clst];
      res := Ok;
    }

    lemma OnChain()
      requires Valid() && chain != []
      ensures fs.g.nFatEnt >= 3 && IsChain(fs.Table(), chain) && Sound(fs.Table())
    {}

    /** No slot can be added: the table is static, has 65536 slots, or the volume is full. */
    ghost predicate Stuck()
      requires Valid()
      reads this, fs, fs.win
    {
      chain == [] || |T()| == 65536 || FreeCount(fs.Table()) == 0
    }

    /** dir_next: to the next slot; at the end of the table, stretches it or reports the end. */
    method DirNext(stretch: bool) returns (res: Status)
      requires Valid() && At(index)
      modifies `index, `clust, `sect, `off, `chain
      modifies fs`disk, fs`wflag, fs`winsect, fs`img, fs`lastClust, fs`freeClust, fs`fsiDirty, fs.win
      ensures Valid()
      ensures GrowsByZeros(old(T()), T())
      ensures DirStep(fs.g, old(fs.Table()), old(fs.img), old(chain), fs.Table(), fs.img, chain)
      ensures res == Ok ==> index == old(index) + 1 && At(index)
      ensures old(index) + 1 < old(|T()|) ==> res == Ok
      ensures old(index) + 1 < old(|T()|) || !stretch ==>
        Same(old(fs.img), old(chain), old(fs.lastClust), old(fs.freeClust), old(fs.fsiDirty))
      ensures old(index) + 1 == old(|T()|) && !stretch ==> res == NoFile
      ensures res != Ok ==> (res == NoFile || res == Denied) && T() == old(T()) && (stretch ==> Stuck())
    {
      hide WindowOk, FatMap, TableOn, QueryOk, TableOf, Exists, DirStep, GrowsByZeros, FreeCount, PlaceOf;
      hide Times, Quo, Rem;
      Usable();
      StepSelf();
      NextIsPlace(fs.g, fs.Table(), sclust, chain, index);
      PlaceKind(fs.g, fs.Table(), chain, index);
      var i := index + 1;
      if i % INDEX_LIMIT == 0 || sect == 0 {
        return NoFile;
      }
      if Rem(i, fs.g.ss / SZ_DIR) == 0 {
        if clust == 0 {
          sect := sect + 1;
          if i >= fs.g.nRootDir {
            return NoFile;
          }
        } else if Rem(Quo(i, fs.g.ss / SZ_DIR), fs.g.csize) != 0 {
          sect := sect + 1;
        } else {
          var clst;
          res, clst := NextCluster(stretch);
          sect := sect + 1;
          if res != Ok {
            return;
          }
          clust := clst;
          sect := Clust2Sect(fs.g, clst);
        }
      }
      index := i;
      off := Rem(i, fs.g.ss / SZ_DIR) * SZ_DIR;
      res := Ok;
    }

    /** dir_next behind the last slot of a cluster: the next cluster, or a new one. */
    method NextCluster(stretch: bool) returns (res: Status, clst: nat)
      requires Valid() && At(index) && clust != 0 && index + 1 < INDEX_LIMIT && PerSector(fs.g) > 0 && fs.g.csize > 0
      requires Rem(index + 1, PerSector(fs.g)) == 0 && Rem(Quo(index + 1, PerSector(fs.g)), fs.g.csize) == 0
      modifies `chain, fs`disk, fs`wflag, fs`winsect, fs`img, fs`lastClust, fs`freeClust, fs`fsiDirty, fs.win
      ensures Valid() && GrowsByZeros(old(T()), T())
      ensures DirStep(fs.g, old(fs.Table()), old(fs.img), old(chain), fs.Table(), fs.img, chain)
      ensures res == Ok ==>
        Placed(fs.g, chain) && index + 1 < Len(fs.g, chain)
        && PlaceOf(fs.g, chain, index + 1) == Place(clst, Clust2Sect(fs.g, clst), 0)
      ensures index + 1 < old(|T()|) ==> res == Ok
      ensures index + 1 < old(|T()|) || !stretch ==>
        Same(old(fs.img), old(chain), old(fs.lastClust), old(fs.freeClust), old(fs.fsiDirty))
      ensures index + 1 == old(|T()|) && !stretch ==> res == NoFile
      ensures res != Ok ==> (res == NoFile || res == Denied) && T() == old(T()) && (stretch ==> Stuck())
    {
      hide WindowOk, FatMap, TableOn, QueryOk, TableOf, Exists, DirStep, GrowsByZeros, FreeCount, PlaceOf;
      hide Times, Quo, Rem;
      Usable();
      StepSelf();
      NextIsPlace(fs.g, fs.Table(), sclust, chain, index);
      PlaceKind(fs.g, fs.Table(), chain, index);
      res := Ok;
      clst := fs.GetFat(clust);
      if clst <= 1 {
        return IntErr, clst;
      }
      if clst >= fs.g.nFatEnt {
        if !stretch {
          return NoFile, clst;
        }
        res, clst := Stretch();
        if res == Ok {
          Usable();
          NewPlace(fs.g, old(chain), clst);
        }
      }
    }

    lemma StepSelf()
      requires Valid()
      ensures GrowsByZeros(T(), T())
      ensures DirStep(fs.g, fs.Table(), fs.img, chain, fs.Table(), fs.img, chain)
    {
      hide TableOn, FatMap, WindowOk;
      Usable();
      GrowsSelf(T());
      DirStepSelf(fs.g, fs.Table(), fs.img, chain);
    }

    /** Only the cursor and the window moved. */
    ghost predicate Same(img: seq<Sector>, ch: seq<nat>, last: nat, free: nat, fsi: bool)
      reads this, fs
    {
      fs.img == img && chain == ch && fs.lastClust == last && fs.freeClust == free && fs.fsiDirty == fsi
    }

    /** move_window to the sector of the current slot. */
    method LoadSlot() returns (e: Slot)
      requires Valid() && At(index)
      modifies fs`disk, fs`wflag, fs`winsect, fs.win
      ensures Valid() && At(index) && fs.winsect == sect
      ensures e == T()[index]
    {
      SlotInVolume();
      hide WindowOk, FatMap, TableOn, QueryOk, PlaceOf, Exists;
      fs.MoveWindow(sect);
      e := SlotIn(fs.win[..], off);
    }

    lemma SlotInVolume()
      requires Valid() && At(index)
      ensures fs.g.FatEnd() <= sect < fs.g.nSect && !fs.g.InMirror(sect) && off + SZ_DIR <= fs.g.ss
      ensures |fs.img[sect]| == fs.g.ss && T()[index] == SlotIn(fs.img[sect], off)
    {
      hide WindowOk, FatMap;
      Usable();
      PlaceIsSec(fs.g, chain, index);
      SlotFits(fs.g, chain, index);
      DirSecInVolume(fs.g, chain, Quo(index, PerSector(fs.g)));
    }

    /** Stores a slot through the window. */
    method StoreSlot(e: Slot)
      requires Valid() && At(index)
      modifies fs`disk, fs`wflag, fs`winsect, fs`img, fs.win
      ensures Valid() && At(index) && fs.Table() == old(fs.Table())
      ensures T() == old(T())[index := e]
      ensures DirStep(fs.g, old(fs.Table()), old(fs.img), old(chain), fs.Table(), fs.img, chain)
    {
      SlotInVolume();
      Usable();
      WriteSlot(fs.g, fs.Table(), fs.img, chain, index, e);
      PlaceIsSec(fs.g, chain, index);
      hide WindowOk, FatMap, TableOn, QueryOk, PlaceOf, Exists, PutSlot, DirStep, TableOf;
      fs.MoveWindow(sect);
      ghost var w := PutSlot(fs.img[sect], off, e);
      DirStepWrite(fs.g, fs.Table(), fs.img, chain, Quo(index, PerSector(fs.g)), w);
      FatMapFrame(fs.g, fs.img, fs.img[sect := w]);
      fs.EditWindow(PutSlot(fs.win[..], off, e));
    }

    /** dir_find: the first object that answers to the name in hand. */
    method DirFind(up: Folding) returns (res: Status)
      requires Valid()
      modifies `index, `clust, `sect, `off, `chain, `lfnIdx
      modifies fs`disk, fs`wflag, fs`winsect, fs`img, fs`lastClust, fs`freeClust, fs`fsiDirty, fs.win
      ensures Valid() && Same(old(fs.img), old(chain), old(fs.lastClust), old(fs.freeClust), old(fs.fsiDirty))
      ensures res == Ok ==> At(index) && Find(up, T(), Q()) == Some(Hit(index, lfnIdx))
      ensures res != Ok ==> Find(up, T(), Q()) == None && res == if T() == [] then IntErr else NoFile
    {
      hide WindowOk, FatMap, TableOn, TableOf, Exists, DirStep, GrowsByZeros, FreeCount, PlaceOf, Cmp, SumOf;
      hide LongStep, Holds;
      hide FindFrom, Find, QueryOk;
      BufferFits();
      ghost var t, q := T(), Q();
      FindBegins(up, t, q, lfnIdx);
      res := DirSdi(0);
      if res == Ok {
        res := FindLoop(up);
      }
    }

    /** The loop of dir_find, from slot 0. */
    method FindLoop(up: Folding) returns (res: Status)
      requires Valid() && At(0)
      modifies `index, `clust, `sect, `off, `chain, `lfnIdx
      modifies fs`disk, fs`wflag, fs`winsect, fs`img, fs`lastClust, fs`freeClust, fs`fsiDirty, fs.win
      ensures Valid() && T() == old(T()) && Q() == old(Q())
      ensures Same(old(fs.img), old(chain), old(fs.lastClust), old(fs.freeClust), old(fs.fsiDirty))
      ensures res == Ok || res == NoFile
      ensures res == Ok ==> At(index)
      ensures FindFrom(up, T(), Q(), 0, Scan(0xFF, 0xFF, old(lfnIdx))) ==
        if res == Ok then Some(Hit(index, lfnIdx)) else None
    {
      hide WindowOk, FatMap, TableOn, TableOf, Exists, PlaceOf, FindFrom, QueryOk;
      BufferFits();
      ghost var t, q := T(), Q();
      var ord: Byte := 0xFF;
      var sum: Byte := 0xFF;
      while true
        invariant Valid() && At(index) && T() == t && Q() == q
        invariant Same(old(fs.img), old(chain), old(fs.lastClust), old(fs.freeClust), old(fs.fsiDirty))
        invariant FindFrom(up, t, q, index, Scan(ord, sum, lfnIdx)) ==
          FindFrom(up, t, q, 0, Scan(0xFF, 0xFF, old(lfnIdx)))
        decreases |t| - index
      {
        var stop;
        stop, res, ord, sum := FindAdvance(up, ord, sum);
        if stop {
          return;
        }
      }
    }

    /** One round of dir_find: the tests, then the next slot. */
    method FindAdvance(up: Folding, ord0: Byte, sum0: Byte) returns (stop: bool, res: Status, ord: Byte, sum: Byte)
      requires Valid() && At(index)
      modifies `index, `clust, `sect, `off, `chain, `lfnIdx
      modifies fs`disk, fs`wflag, fs`winsect, fs`img, fs`lastClust, fs`freeClust, fs`fsiDirty, fs.win
      ensures Valid() && T() == old(T()) && Q() == old(Q())
      ensures Same(old(fs.img), old(chain), old(fs.lastClust), old(fs.freeClust), old(fs.fsiDirty))
      ensures stop ==> old(FindFrom(up, T(), Q(), index, Scan(ord0, sum0, lfnIdx))) ==
                         if res == Ok then Some(Hit(index, lfnIdx)) else None
      ensures stop ==> (res == Ok && At(index)) || res == NoFile
      ensures !stop ==> index == old(index) + 1 && At(index)
      ensures !stop ==> old(FindFrom(up, T(), Q(), index, Scan(ord0, sum0, lfnIdx))) ==
                          FindFrom(up, T(), Q(), index, Scan(ord, sum, lfnIdx))
    {
      hide WindowOk, FatMap, TableOn, TableOf, Exists, PlaceOf, FindFrom, QueryOk;
      BufferFits();
      ghost var t, q := T(), Q();
      stop, res, ord, sum := FindHere(up, ord0, sum0);
      if !stop {
        res := NextSlot();
        if res != Ok {
          FindAtEnd(up, t, q, Scan(ord, sum, lfnIdx));
          stop := true;
        }
      }
    }

    /** The tests of dir_find at the current slot. */
    method FindHere(up: Folding, ord0: Byte, sum0: Byte) returns (stop: bool, res: Status, ord: Byte, sum: Byte)
      requires Valid() && At(index)
      modifies `lfnIdx, fs`disk, fs`wflag, fs`winsect, fs.win
      ensures Valid() && At(index) && T() == old(T()) && Q() == old(Q())
      ensures stop ==> FindFrom(up, T(), Q(), index, Scan(ord0, sum0, old(lfnIdx))) ==
                         if res == Ok then Some(Hit(index, lfnIdx)) else None
      ensures stop ==> res == Ok || res == NoFile
      ensures !stop ==> FindFrom(up, T(), Q(), index, Scan(ord0, sum0, old(lfnIdx))) ==
                          FindFrom(up, T(), Q(), index + 1, Scan(ord, sum, lfnIdx))
    {
      hide WindowOk, FatMap, TableOn, TableOf, Exists, PlaceOf, Cmp, SumOf, LongStep, Holds, FindFrom, IsLabel, IsLong;
      BufferFits();
      ord, sum, stop, res := ord0, sum0, false, Ok;
      var e := LoadSlot();
      FindStep(up, T(), Q(), index, Scan(ord, sum, lfnIdx));
      if e[0] == 0 {
        stop, res := true, NoFile;
      } else if e[0] == DDE || IsLabel(e) {
        ord := 0xFF;
      } else if IsLong(e) {
        ord, sum := LongEntry(up, e, ord, sum);
      } else {
        stop := ShortEntry(e, ord, sum);
        ord := 0xFF;
      }
    }

    /** dir_next without stretching. */
    method NextSlot() returns (res: Status)
      requires Valid() && At(index)
      modifies `index, `clust, `sect, `off, `chain
      modifies fs`disk, fs`wflag, fs`winsect, fs`img, fs`lastClust, fs`freeClust, fs`fsiDirty, fs.win
      ensures Valid() && T() == old(T())
      ensures Same(old(fs.img), old(chain), old(fs.lastClust), old(fs.freeClust), old(fs.fsiDirty))
      ensures res == if old(index) + 1 < |T()| then Ok else NoFile
      ensures res == Ok ==> index == old(index) + 1 && At(index)
    {
      hide WindowOk, FatMap, TableOn, TableOf, Exists, PlaceOf, QueryOk, DirStep, GrowsByZeros, FreeCount;
      Usable();
      res := DirNext(false);
    }

    /** dir_find on a short-name slot. */
    method ShortEntry(e: Slot, ord: Byte, sum: Byte) returns (found: bool)
      modifies `lfnIdx
      ensures found <==> (ord == 0 && sum == SumOf(e, 11)) || (!loss && e[..11] == fn)
      ensures lfnIdx == if ord == 0 && sum == SumOf(e, 11) then old(lfnIdx) else NO_LFN
    {
      var chk := SumSfn(e);
      if ord == 0 && sum == chk {
        return true;
      }
      lfnIdx := NO_LFN;
      found := !loss && e[..11] == fn;
    }

    lemma BufferFits()
      requires Valid()
      ensures lfn.Some? ==> |lfn.value| == MAX_LFN + 1
    {}

    /** dir_find on a long-name slot. */
    method LongEntry(up: Folding, e: Slot, ord0: Byte, sum0: Byte) returns (ord: Byte, sum: Byte)
      requires lfn.Some? ==> |lfn.value| == MAX_LFN + 1
      modifies `lfnIdx
      ensures Scan(ord, sum, lfnIdx) == LongStep(up, Q(), e, index, Scan(ord0, sum0, old(lfnIdx)))
    {
      hide Cmp;
      ord, sum := ord0, sum0;
      if lfn.Some? {
        var c := e[0];
        if c / LLE % 2 == 1 {
          sum := e[13];
          c := c - LLE;
          ord := c;
          lfnIdx := index;
        }
        var ok := c == ord && sum == e[13];
        if ok {
          ok := CmpLfn(up, lfn.value, e);
        }
        ord := if ok then (ord + 0xFF) % 0x100 else 0xFF;
      }
    }

    /** dir_alloc: the last slot of the first run of `nent` blank slots, stretching the table if need be. */
    method DirAlloc(nent: nat) returns (res: Status)
      requires Valid() && nent > 0
      modifies `index, `clust, `sect, `off, `chain
      modifies fs`disk, fs`wflag, fs`winsect, fs`img, fs`lastClust, fs`freeClust, fs`fsiDirty, fs.win
      ensures Valid() && GrowsByZeros(old(T()), T())
      ensures DirStep(fs.g, old(fs.Table()), old(fs.img), old(chain), fs.Table(), fs.img, chain)
      ensures res == Ok ==> At(index) && AllocFrom(T(), nent, 0, 0) == Some(index)
      ensures res != Ok ==> AllocFrom(T(), nent, 0, 0) == None && (T() == [] || (res == Denied && Stuck()))
      ensures T() == [] ==> res == IntErr
    {
      hide WindowOk, FatMap, TableOn, TableOf, Exists, DirStep, GrowsByZeros, FreeCount, PlaceOf, QueryOk;
      hide RunLen, NoRunYet, AllocFrom;
      StepSelf();
      NoRunAtStart(T(), nent);
      res := DirSdi(0);
      if res == Ok {
        var n := 0;
        while true
          invariant res == Ok && Valid() && At(index) && GrowsByZeros(old(T()), T())
          invariant DirStep(fs.g, old(fs.Table()), old(fs.img), old(chain), fs.Table(), fs.img, chain)
          invariant n == RunLen(T(), index) && NoRunYet(T(), nent, index)
          decreases INDEX_LIMIT - index
        {
          ghost var t, fat, img, ch := T(), fs.Table(), fs.img, chain;
          var found;
          found, n := RoomHere(nent, n);
          if found {
            break;
          }
          res := NextRoom(nent);
          GrowsTrans(old(T()), t, T());
          DirStepTrans(fs.g, old(fs.Table()), old(fs.img), old(chain), fat, img, ch, fs.Table(), fs.img, chain);
          if res != Ok {
            break;
          }
        }
      }
      if res == NoFile {
        res := Denied;
      }
    }

    /** The test of dir_alloc at the current slot, `n0` blank slots into a run. */
    method RoomHere(nent: nat, n0: nat) returns (found: bool, n: nat)
      requires Valid() && At(index) && NoRunYet(T(), nent, index) && n0 == RunLen(T(), index)
      modifies fs`disk, fs`wflag, fs`winsect, fs.win
      ensures Valid() && At(index) && T() == old(T())
      ensures n == RunLen(T(), index + 1)
      ensures found <==> n == nent
      ensures found ==> AllocFrom(T(), nent, 0, 0) == Some(index)
      ensures !found ==> n < nent
    {
      hide WindowOk, FatMap, TableOn, TableOf, Exists, PlaceOf, QueryOk, RunLen, NoRunYet, AllocFrom;
      NextInRun(T(), nent, index);
      var e := LoadSlot();
      n := if e[0] == DDE || e[0] == 0 then n0 + 1 else 0;
      found := n == nent;
    }

    /** dir_next with stretching, in the search for room. */
    method NextRoom(nent: nat) returns (res: Status)
      requires Valid() && At(index) && NoRunYet(T(), nent, index) && RunLen(T(), index + 1) < nent
      modifies `index, `clust, `sect, `off, `chain
      modifies fs`disk, fs`wflag, fs`winsect, fs`img, fs`lastClust, fs`freeClust, fs`fsiDirty, fs.win
      ensures Valid() && GrowsByZeros(old(T()), T())
      ensures DirStep(fs.g, old(fs.Table()), old(fs.img), old(chain), fs.Table(), fs.img, chain)
      ensures res == Ok ==> index == old(index) + 1 && At(index)
      ensures res == Ok ==> NoRunYet(T(), nent, index) && RunLen(T(), index) == old(RunLen(T(), index + 1))
      ensures res != Ok ==> (res == NoFile || res == Denied) && Stuck() && AllocFrom(T(), nent, 0, 0) == None
    {
      hide WindowOk, FatMap, TableOn, TableOf, Exists, PlaceOf, QueryOk, RunLen, NoRunYet, AllocFrom, DirStep;
      hide GrowsByZeros, FreeCount;
      ghost var t, i := T(), index;
      NoRunNext(t, nent, i);
      res := DirNext(true);
      if res == Ok {
        GrownFront(t, T(), i + 1);
        RunPrefix(t, T(), i + 1);
        NoRunPrefix(t, T(), nent, i + 1);
      }
    }

    /** One round of storing a long name: part `ord` at the current slot. */
    method StorePart(ord: Byte, sum: Byte)
      requires Valid() && At(index) && lfn.Some? && Plain(name) && 1 <= ord <= SlotCount(name)
      requires index + 1 < |T()|
      modifies `index, `clust, `sect, `off, `chain
      modifies fs`disk, fs`wflag, fs`winsect, fs`img, fs`lastClust, fs`freeClust, fs`fsiDirty, fs.win
      ensures Valid() && At(index) && index == old(index) + 1 && chain == old(chain)
      ensures T() == old(T())[old(index) := MakeSlot(name, ord, sum)]
      ensures DirStep(fs.g, old(fs.Table()), old(fs.img), old(chain), fs.Table(), fs.img, chain)
    {
      hide WindowOk, FatMap, TableOn, TableOf, Exists, PlaceOf, MakeSlot, DirStep, GrowsByZeros, Plain;
      HeldBuffer();
      var dir := new Byte[32];
      FitLfn(lfn.value, dir, ord, sum, name);
      StoreSlot(dir[..]);
      var res := NextSlot();
    }

    lemma HeldBuffer()
      requires Valid() && lfn.Some?
      ensures Holds(lfn.value, name)
    {}

    /** Stores the parts `ord`, ..., 1 of the long name from the current slot on. */
    method StoreLong(nent0: nat, sum: Byte)
      requires Valid() && At(index) && lfn.Some? && Plain(name) && 1 <= nent0 == SlotCount(name)
      requires index + nent0 < |T()|
      modifies `index, `clust, `sect, `off, `chain
      modifies fs`disk, fs`wflag, fs`winsect, fs`img, fs`lastClust, fs`freeClust, fs`fsiDirty, fs.win
      ensures Valid() && At(index) && index == old(index) + nent0 && chain == old(chain)
      ensures |name| <= MAX_LFN && T() == Replaced(old(T()), old(index), LongSlots(name, sum))
      ensures DirStep(fs.g, old(fs.Table()), old(fs.img), old(chain), fs.Table(), fs.img, chain)
    {
      hide WindowOk, FatMap, TableOn, TableOf, Exists, PlaceOf, MakeSlot, DirStep, GrowsByZeros, Plain;
      hide Replaced, LongSlots, QueryOk;
      HeldBuffer();
      StepSelf();
      ghost var t, k, parts := T(), index, LongSlots(name, sum);
      var nent := nent0;
      ReplaceNone(t, k, parts);
      while nent > 0
        invariant 0 <= nent <= nent0
        invariant Valid() && At(index) && index == k + nent0 - nent && chain == old(chain)
        invariant T() == Replaced(t, k, parts[..nent0 - nent])
        invariant DirStep(fs.g, old(fs.Table()), old(fs.img), old(chain), fs.Table(), fs.img, chain)
      {
        ghost var fat, img := fs.Table(), fs.img;
        PartAt(name, sum, nent0 - nent);
        ReplaceNext(t, k, parts, nent0 - nent);
        StorePart(nent, sum);
        DirStepTrans(fs.g, old(fs.Table()), old(fs.img), old(chain), fat, img, old(chain), fs.Table(), fs.img, chain);
        nent := nent - 1;
      }
      assert parts[..nent0] == parts;
    }

    /** No `n` slots in a row are blank, and none can be added. */
    ghost predicate NoSpace(n: nat)
      requires Valid()
      reads this, fs, fs.win
    {
      T() == [] || (Stuck() && forall k: nat :: !Room(T(), k, n))
    }

    /** What create_name leaves: a short name that cannot be mistaken for a blank slot, and for long entries a name. */
    ghost predicate Named()
      reads this
    {
      && QueryOk(Q()) && lfn.Some? && fn[0] != 0 && fn[0] != DDE
      && (loss ==> long) && (long ==> name != [] && Plain(name))
    }

    /** The object dir_register stores. */
    ghost function Entry(): Item
      reads `fn, `ntres, `long, `name
      requires |fn| == 11
    {
      Object(if long then name else [], SfnSlot(fn, ntres))
    }

    /** The search for a numbered short name that no object has. */
    method PickAlias(up: Folding) returns (res: Status)
      requires Valid() && Named() && loss
      modifies `index, `clust, `sect, `off, `chain, `lfnIdx, `fn, `loss, `lfn
      modifies fs`disk, fs`wflag, fs`winsect, fs`img, fs`lastClust, fs`freeClust, fs`fsiDirty, fs.win
      ensures Valid() && Same(old(fs.img), old(chain), old(fs.lastClust), old(fs.freeClust), old(fs.fsiDirty))
      ensures T() == old(T())
      ensures res == NoFile || (res == Denied && AliasesTaken(up, T(), old(fn), name)) || (res == IntErr && T() == [])
      ensures res == NoFile ==> Named() && loss && lfn == old(lfn)
      ensures res == NoFile ==> exists n :: 1 <= n < 100 && fn == Numbered(old(fn), name, n)
      ensures res == NoFile ==> Find(up, T(), Query(None, name, fn, false)) == None
    {
      hide WindowOk, FatMap, TableOn, TableOf, Exists, PlaceOf, Find, Numbered, Holds, Plain;
      var sn, saved := fn, lfn;
      loss := false;
      lfn := None;
      var n;
      n, res := AliasLoop(up, sn, saved.value);
      if n == 100 {
        return Denied;
      }
      if res != NoFile {
        return;
      }
      NumberedStart(sn, name, n);
      loss := true;
      lfn := saved;
    }

    /** Tries the numbers 1 to 99; stops at the first that is not taken. */
    method AliasLoop(up: Folding, sn: Sector, buf: seq<Unit>) returns (n: nat, res: Status)
      requires Valid() && lfn == None && !loss && |sn| == 11 && Holds(buf, name)
      modifies `index, `clust, `sect, `off, `chain, `lfnIdx, `fn
      modifies fs`disk, fs`wflag, fs`winsect, fs`img, fs`lastClust, fs`freeClust, fs`fsiDirty, fs.win
      ensures Valid() && Same(old(fs.img), old(chain), old(fs.lastClust), old(fs.freeClust), old(fs.fsiDirty))
      ensures T() == old(T()) && 1 <= n <= 100
      ensures n < 100 ==> fn == Numbered(sn, name, n) && (res == NoFile || (res == IntErr && T() == []))
      ensures n < 100 ==> Find(up, T(), Query(None, name, fn, false)) == None
      ensures n == 100 ==> AliasesTaken(up, T(), sn, name)
    {
      hide WindowOk, FatMap, TableOn, TableOf, Exists, PlaceOf, Find, Numbered, Holds, QueryOk;
      n := 1;
      res := Ok;
      while n < 100
        invariant 1 <= n <= 100 && Valid() && T() == old(T()) && res == Ok
        invariant forall m: nat {:trigger Numbered(sn, name, m)} ::
          1 <= m < n ==> Find(up, T(), Query(None, name, Numbered(sn, name, m), false)).Some?
        invariant Same(old(fs.img), old(chain), old(fs.lastClust), old(fs.freeClust), old(fs.fsiDirty))
      {
        res := TryAlias(up, sn, buf, n);
        if res != Ok {
          break;
        }
        n := n + 1;
      }
    }

    /** Tries the alias with number `n`. */
    method TryAlias(up: Folding, sn: Sector, buf: seq<Unit>, n: nat) returns (res: Status)
      requires Valid() && lfn == None && !loss && |sn| == 11 && n < 100 && Holds(buf, name)
      modifies `index, `clust, `sect, `off, `chain, `lfnIdx, `fn
      modifies fs`disk, fs`wflag, fs`winsect, fs`img, fs`lastClust, fs`freeClust, fs`fsiDirty, fs.win
      ensures Valid() && Same(old(fs.img), old(chain), old(fs.lastClust), old(fs.freeClust), old(fs.fsiDirty))
      ensures T() == old(T()) && fn == Numbered(sn, name, n)
      ensures res == Ok || res == NoFile || (res == IntErr && T() == [])
      ensures Find(up, T(), Query(None, name, fn, false)).Some? <==> res == Ok
    {
      hide WindowOk, FatMap, TableOn, TableOf, Exists, PlaceOf, Find, Numbered, Holds;
      fn := GenNumname(sn, buf, name, n);
      res := DirFind(up);
    }

    /** Counts the units of the long name. */
    method NameLength() returns (n: nat)
      requires lfn.Some? && Holds(lfn.value, name)
      ensures n == |name|
    {
      n := 0;
      while lfn.value[n] != 0
        invariant n <= |name| && forall p :: 0 <= p < n ==> lfn.value[p] != 0
        decreases |name| - n
      {
        n := n + 1;
      }
      HeldLength(lfn.value, name, n);
    }

    lemma EntryOk()
      requires Named()
      ensures ItemOk(Entry()) && !IsBlank(SfnSlot(fn, ntres))
      ensures Width(Entry()) == if long then (|name| + 25) / 13 else 1
      ensures long ==> SlotCount(name) >= 1 && Plain(name)
    {}

    /** Stores the long-name slots, if any, in front of the current slot and returns to it. */
    method StoreHead(nent: nat)
      requires Valid() && At(index) && lfn.Some? && |fn| == 11 && nent <= index
      requires nent > 0 ==> Plain(name) && nent == SlotCount(name)
      modifies `index, `clust, `sect, `off, `chain
      modifies fs`disk, fs`wflag, fs`winsect, fs`img, fs`lastClust, fs`freeClust, fs`fsiDirty, fs.win
      ensures Valid() && At(index) && index == old(index) && chain == old(chain)
      ensures nent == 0 ==> T() == old(T())
      ensures nent > 0 ==> |name| <= MAX_LFN && T() == Replaced(old(T()), index - nent, LongSlots(name, SumOf(fn, 11)))
      ensures DirStep(fs.g, old(fs.Table()), old(fs.img), old(chain), fs.Table(), fs.img, chain)
    {
      hide WindowOk, FatMap, TableOn, TableOf, Exists, PlaceOf, DirStep, LongSlots, MakeSlot, Plain, SumOf;
      hide QueryOk, Replaced;
      StepSelf();
      if nent > 0 {
        var res := DirSdi(index - nent);
        var sum := SumSfn(fn);
        StoreLong(nent, sum);
      }
    }

    /** Stores the slots of the new object; the cursor is at the last of them. */
    method StoreEntry(nent: nat)
      requires Valid() && Named() && At(index) && nent == Width(Entry()) && nent <= index + 1
      modifies `index, `clust, `sect, `off, `chain
      modifies fs`disk, fs`wflag, fs`winsect, fs`img, fs`lastClust, fs`freeClust, fs`fsiDirty, fs.win
      ensures Valid() && At(index) && index == old(index) && chain == old(chain)
      ensures ItemOk(Entry()) && index < |T()| == old(|T()|)
      ensures T() == Stored(old(T()), index + 1 - nent, Entry())
      ensures DirStep(fs.g, old(fs.Table()), old(fs.img), old(chain), fs.Table(), fs.img, chain)
    {
      hide WindowOk, FatMap, TableOn, TableOf, Exists, PlaceOf, DirStep, LongSlots, MakeSlot, Plain, SumOf, SfnSlot;
      hide Stored, Replaced, ItemOk, IsBlank, QueryOk, Placed, SlotCount, Directory.Width, Entry, Named;
      ghost var t := T();
      PartsFit(nent);
      ghost var t1 := StoreParts(nent - 1);
      PartsAreStored(t, index + 1 - nent, t1);
    }

    /** The slots of the entry: those of its long name, and one. */
    lemma PartsFit(nent: nat)
      requires Named() && nent == Width(Entry())
      ensures nent > 0 && |fn| == 11 && lfn.Some? && ItemOk(Entry())
      ensures nent > 1 ==> Plain(name) && nent - 1 == SlotCount(name)
    {
      EntryOk();
      NameParts();
    }

    lemma PartsAreStored(t: Table, k: nat, t1: Table)
      requires Named() && k + Width(Entry()) <= |t| == |t1|
      requires Width(Entry()) == 1 ==> t1 == t
      requires Width(Entry()) > 1 ==> |name| <= MAX_LFN && t1 == Replaced(t, k, LongSlots(name, SumOf(fn, 11)))
      ensures t1[k + Width(Entry()) - 1 := SfnSlot(fn, ntres)] == Stored(t, k, Entry())
    {
      EntryOk();
      NameParts();
      hide Stored, Replaced, LongSlots, SumOf, ItemOk, Directory.Width, SlotCount, Plain;
      var x := Entry();
      WidthIs(x);
      StoredInParts(t, k, x.name, x.sfn, fn, t1, t1[k + Width(x) - 1 := x.sfn]);
    }

    /** The long-name slots, then the short-name slot; `t1` is the table in between. */
    method StoreParts(nent: nat) returns (ghost t1: Table)
      requires Valid() && At(index) && lfn.Some? && |fn| == 11 && nent <= index
      requires nent > 0 ==> Plain(name) && nent == SlotCount(name)
      modifies `index, `clust, `sect, `off, `chain
      modifies fs`disk, fs`wflag, fs`winsect, fs`img, fs`lastClust, fs`freeClust, fs`fsiDirty, fs.win
      ensures Valid() && At(index) && index == old(index) && chain == old(chain)
      ensures nent == 0 ==> t1 == old(T())
      ensures nent > 0 ==> |name| <= MAX_LFN && t1 == Replaced(old(T()), index - nent, LongSlots(name, SumOf(fn, 11)))
      ensures index < |t1| == old(|T()|) && T() == t1[index := SfnSlot(fn, ntres)]
      ensures DirStep(fs.g, old(fs.Table()), old(fs.img), old(chain), fs.Table(), fs.img, chain)
    {
      hide WindowOk, FatMap, TableOn, TableOf, Exists, PlaceOf, DirStep, LongSlots, MakeSlot, Plain, SumOf;
      hide SfnSlot, Replaced, QueryOk;
      StoreHead(nent);
      t1 := T();
      ghost var fat, img := fs.Table(), fs.img;
      StoreSlot(SfnSlot(fn, ntres));
      DirStepTrans(fs.g, old(fs.Table()), old(fs.img), old(chain), fat, img, old(chain), fs.Table(), fs.img, chain);
    }

    lemma NameParts()
      requires Named()
      ensures Width(Entry()) == SlotCount(Entry().name) + 1 && |fn| == 11 && lfn.Some?
      ensures SlotCount(Entry().name) > 0 <==> Entry().name != []
      ensures Entry().name != [] ==> Entry().name == name && Plain(name)
      ensures Entry().sfn == SfnSlot(fn, ntres)
    {}

    /** dir_register: stores the name in hand in the first room that is large enough. `room` is the table with the zero
        slots that were added to make room, `k` the first slot taken. */
    method DirRegister(up: Folding) returns (res: Status, ghost room: Table, ghost k: nat)
      requires Valid() && Named()
      modifies `index, `clust, `sect, `off, `chain, `lfnIdx, `fn, `loss, `lfn
      modifies fs`disk, fs`wflag, fs`winsect, fs`img, fs`lastClust, fs`freeClust, fs`fsiDirty, fs.win
      ensures Valid() && GrowsByZeros(old(T()), room)
      ensures DirStep(fs.g, old(fs.Table()), old(fs.img), old(chain), fs.Table(), fs.img, chain)
      ensures res != Ok ==> T() == room
      ensures res == Ok ==> Named() && lfn == old(lfn) && loss == old(loss) && ItemOk(Entry())
      ensures res == Ok ==> Room(room, k, Width(Entry())) && RunStart(room, k) && T() == Stored(room, k, Entry())
      ensures res == Ok ==> At(k + Width(Entry()) - 1)
      ensures res == Ok && !loss ==> fn == old(fn)
      ensures res == Ok && loss ==> Find(up, old(T()), Query(None, name, fn, false)) == None
      ensures res == Ok || res == Denied || (res == IntErr && T() == [])
      ensures res != Ok ==> NoSpace(EntryWidth()) || (old(loss) && AliasesTaken(up, T(), old(fn), name))
    {
      hide WindowOk, FatMap, TableOn, TableOf, Exists, PlaceOf, DirStep, GrowsByZeros, Find, Stored, Room, RunStart;
      hide FreeCount, ItemOk, Numbered, SfnSlot, IsBlank, Plain, SlotCount, Directory.Width;
      k := 0;
      room := T();
      StepSelf();
      if loss {
        res := PickAlias(up);
        if res != NoFile {
          return;
        }
      }
      res, room, k := RegisterEntry();
    }

    /** Stores the object in the room that dir_alloc found. */
    method StoreInRoom(nent: nat) returns (ghost k: nat)
      requires Valid() && Named() && At(index) && nent == Width(Entry()) && AllocFrom(T(), nent, 0, 0) == Some(index)
      modifies `index, `clust, `sect, `off, `chain
      modifies fs`disk, fs`wflag, fs`winsect, fs`img, fs`lastClust, fs`freeClust, fs`fsiDirty, fs.win
      ensures Valid() && ItemOk(Entry()) && Room(old(T()), k, Width(Entry())) && RunStart(old(T()), k)
      ensures T() == Stored(old(T()), k, Entry()) && At(k + Width(Entry()) - 1)
      ensures DirStep(fs.g, old(fs.Table()), old(fs.img), old(chain), fs.Table(), fs.img, chain)
    {
      hide WindowOk, FatMap, TableOn, TableOf, Exists, PlaceOf, DirStep, Stored, Room, RunStart, AllocFrom;
      hide ItemOk, QueryOk, Directory.Width, IsBlank, Plain, SfnSlot, SlotCount;
      AllocRoom(T(), nent);
      k := index + 1 - nent;
      StoreEntry(nent);
    }

    /** dir_register once the short name is settled. */
    method RegisterEntry() returns (res: Status, ghost room: Table, ghost k: nat)
      requires Valid() && Named()
      modifies `index, `clust, `sect, `off, `chain
      modifies fs`disk, fs`wflag, fs`winsect, fs`img, fs`lastClust, fs`freeClust, fs`fsiDirty, fs.win
      ensures Valid() && GrowsByZeros(old(T()), room)
      ensures DirStep(fs.g, old(fs.Table()), old(fs.img), old(chain), fs.Table(), fs.img, chain)
      ensures res != Ok ==> T() == room
      ensures res == Ok ==> ItemOk(Entry()) && Room(room, k, Width(Entry())) && RunStart(room, k)
      ensures res == Ok ==> T() == Stored(room, k, Entry()) && At(k + Width(Entry()) - 1)
      ensures res != Ok ==> NoSpace(EntryWidth()) && res == if T() == [] then IntErr else Denied
    {
      hide WindowOk, FatMap, TableOn, TableOf, Exists, PlaceOf, DirStep, GrowsByZeros, Stored, Room, RunStart;
      hide AllocFrom;
      hide ItemOk, QueryOk, Directory.Width, IsBlank, Plain, SfnSlot, SlotCount, FreeCount;
      k := 0;
      var nent := EntrySize();
      res := DirAlloc(nent);
      room := T();
      if res != Ok {
        AllocIsFirstRoom(room, nent);
      } else {
        ghost var fat, img, ch := fs.Table(), fs.img, chain;
        k := StoreInRoom(nent);
        DirStepTrans(fs.g, old(fs.Table()), old(fs.img), old(chain), fat, img, ch, fs.Table(), fs.img, chain);
      }
    }

    /** The number of slots the new object takes. */
    ghost function EntryWidth(): nat
      reads `long, `name
    {
      SlotCount(if long then name else []) + 1
    }

    method EntrySize() returns (nent: nat)
      requires Named()
      ensures nent == Width(Entry()) == EntryWidth() > 0
    {
      EntryOk();
      nent := 1;
      if long {
        var n := NameLength();
        nent := (n + 25) / 13;
      }
    }

    /** dir_remove: deletes the object that dir_find left the cursor at. */
    method DirRemove() returns (res: Status)
      requires Valid() && At(index) && (lfnIdx == NO_LFN || lfnIdx <= index)
      modifies `index, `clust, `sect, `off, `chain
      modifies fs`disk, fs`wflag, fs`winsect, fs`img, fs`lastClust, fs`freeClust, fs`fsiDirty, fs.win
      ensures Valid() && res == Ok && chain == old(chain)
      ensures |T()| == old(|T()|) && T() == Removed(old(T()), Hit(old(index), lfnIdx))
      ensures DirStep(fs.g, old(fs.Table()), old(fs.img), old(chain), fs.Table(), fs.img, chain)
    {
      hide WindowOk, FatMap, TableOn, TableOf, Exists, PlaceOf, DirStep, GrowsByZeros, Erased, QueryOk;
      StepSelf();
      ghost var t := T();
      var i := index;
      var top := if lfnIdx == NO_LFN then i else lfnIdx;
      res := DirSdi(top);
      EraseNone(t, top);
      while true
        invariant Valid() && At(index) && top <= index <= i && res == Ok && chain == old(chain)
        invariant |T()| == |t| && T() == Erased(t, top, index)
        invariant DirStep(fs.g, old(fs.Table()), old(fs.img), old(chain), fs.Table(), fs.img, chain)
        decreases i - index
      {
        ghost var fat, img := fs.Table(), fs.img;
        EraseNext(t, top, index);
        StoreSlot(Deleted());
        DirStepTrans(fs.g, old(fs.Table()), old(fs.img), old(chain), fat, img, old(chain), fs.Table(), fs.img, chain);
        if index >= i {
          break;
        }
        res := NextSlot();
      }
      if res == NoFile {
        res := IntErr;
      }
    }
  }

  lemma AllocRoom(t: Table, nent: nat)
    requires nent > 0 && AllocFrom(t, nent, 0, 0).Some?
    ensures
      var r := AllocFrom(t, nent, 0, 0).value;
      r + 1 >= nent && Room(t, r + 1 - nent, nent) && RunStart(t, r + 1 - nent)
  {
    AllocIsFirstRoom(t, nent);
  }

  lemma EraseNone(t: Table, lo: nat)
    requires lo <= |t|
    ensures Erased(t, lo, lo) == t
  {}

  lemma EraseNext(t: Table, lo: nat, i: nat)
    requires lo <= i < |t|
    ensures Erased(t, lo, i)[i := Deleted()] == Erased(t, lo, i + 1)
  {
    DeletedAt(i - lo);
    DeletedAt(i + 1 - lo);
  }

  lemma {:induction false} DeletedAt(n: nat)
    ensures forall j :: 0 <= j < n ==> DeletedSlots(n)[j] == Deleted()
  {
    if n == 0 {
    } else {
      DeletedAt(n - 1);
    }
  }

  /** The long-name slots followed by the short-name slot are the slots of the object. */
  lemma WidthIs(x: Item)
    requires x.Object?
    ensures Width(x) == SlotCount(x.name) + 1 && x == Object(x.name, x.sfn)
  {}

  lemma StoredInParts(t: Table, k: nat, name: Name, sfn: Slot, fn: Sector, t1: Table, t2: Table)
    requires |fn| == 11 && sfn[..11] == fn
    requires ItemOk(Object(name, sfn)) && k + Width(Object(name, sfn)) <= |t|
    requires name == [] ==> t1 == t
    requires name != [] ==> t1 == Replaced(t, k, LongSlots(name, SumOf(fn, 11)))
    requires |t1| == |t| && t2 == t1[k + SlotCount(name) := sfn]
    ensures t2 == Stored(t, k, Object(name, sfn))
  {
    hide MakeSlot, SumOf, Replaced, LongSlots;
    SumLocal(fn, sfn, 11);
    assert fn[..11] == fn;
    var parts := LongSlots(name, SumOf(sfn, 11));
    if name == [] {
      assert parts == [];
      ReplaceNone(t, k, parts);
      assert parts[..0] == parts;
    }
    ReplaceOneMore(t, k, parts, sfn);
  }

  lemma ReplaceOneMore(t: Table, k: nat, s: Table, e: Slot)
    requires k + |s| < |t|
    ensures Replaced(t, k, s)[k + |s| := e] == t[..k] + (s + [e]) + t[k + |s| + 1..]
  {
    var r := Replaced(t, k, s)[k + |s| := e];
    forall i | 0 <= i < |t|
      ensures r[i] == (t[..k] + (s + [e]) + t[k + |s| + 1..])[i]
    {}
  }

  /** The short-name entry as registered: name and case flags, everything else zero. */
  function SfnSlot(fn: Sector, ntres: Byte): (e: Slot)
    requires |fn| == 11
    ensures e[..11] == fn && e[12] == ntres && forall i :: 11 <= i < 32 && i != 12 ==> e[i] == 0
  {
    fn + [0, ntres] + Zeros(19)
  }

  /** The table with the slots `s` in place from `k` on. */
  function Replaced(t: Table, k: nat, s: Table): (r: Table)
    requires k + |s| <= |t|
    ensures |r| == |t|
  {
    t[..k] + s + t[k + |s|..]
  }

  lemma ReplaceNone(t: Table, k: nat, s: Table)
    requires k <= |t|
    ensures Replaced(t, k, s[..0]) == t
  {}

  lemma ReplaceNext(t: Table, k: nat, s: Table, j: nat)
    requires j < |s| && k + |s| <= |t|
    ensures Replaced(t, k, s[..j])[k + j := s[j]] == Replaced(t, k, s[..j + 1])
  {}

  lemma PartAt(name: Name, sum: Byte, j: nat)
    requires |name| <= MAX_LFN && j < SlotCount(name)
    ensures LongSlots(name, sum)[j] == MakeSlot(name, SlotCount(name) - j, sum)
  {
    hide MakeSlot;
  }

  /** The search begins at slot 0, whatever index was remembered before. */
  lemma FindBegins(up: Folding, t: Table, q: Query, l: nat)
    requires q.lfn.Some? ==> |q.lfn.value| == MAX_LFN + 1
    ensures FindFrom(up, t, q, 0, Scan(0xFF, 0xFF, l)) == Find(up, t, q)
    ensures t == [] ==> Find(up, t, q) == None
  {
    IndexForgotten(up, t, q, 0, Scan(0xFF, 0xFF, 0), l);
  }

  /** The search automaton at slot `i`. */
  lemma FindStep(up: Folding, t: Table, q: Query, i: nat, s: Scan)
    requires (q.lfn.Some? ==> |q.lfn.value| == MAX_LFN + 1) && i < |t|
    ensures
      var r := FindFrom(up, t, q, i, s);
      var e := t[i];
      if e[0] == 0 then r == None
      else if e[0] == DDE || IsLabel(e) then r == FindFrom(up, t, q, i + 1, s.(ord := 0xFF))
      else if IsLong(e) then r == FindFrom(up, t, q, i + 1, LongStep(up, q, e, i, s))
      else if s.ord == 0 && s.sum == SumOf(e, 11) then r == Some(Hit(i, s.lfnIdx))
      else if !q.loss && e[..11] == q.fn then r == Some(Hit(i, NO_LFN))
      else r == FindFrom(up, t, q, i + 1, Scan(0xFF, s.sum, NO_LFN))
  {
    hide Cmp, SumOf, LongStep;
  }

  lemma FindAtEnd(up: Folding, t: Table, q: Query, s: Scan)
    requires q.lfn.Some? ==> |q.lfn.value| == MAX_LFN + 1
    ensures FindFrom(up, t, q, |t|, s) == None
  {}

  lemma NoRunAtStart(t: Table, nent: nat)
    requires nent > 0
    ensures RunLen(t, 0) == 0 && NoRunYet(t, nent, 0)
    ensures t == [] ==> AllocFrom(t, nent, 0, 0) == None
  {}

  /** The search at slot `i`. */
  lemma NextInRun(t: Table, nent: nat, i: nat)
    requires i < |t| && NoRunYet(t, nent, i)
    ensures RunLen(t, i + 1) == if IsBlank(t[i]) then RunLen(t, i) + 1 else 0
    ensures RunLen(t, i + 1) == nent > 0 ==> AllocFrom(t, nent, 0, 0) == Some(i)
    ensures RunLen(t, i) < nent
  {
    RunReached(t, nent, i);
  }

  /** The invariant of the search for room, one slot on. */
  lemma NoRunNext(t: Table, nent: nat, i: nat)
    requires i < |t| && NoRunYet(t, nent, i) && RunLen(t, i + 1) < nent
    ensures NoRunYet(t, nent, i + 1)
    ensures i + 1 == |t| ==> AllocFrom(t, nent, 0, 0) == None
  {
    RunReached(t, nent, i + 1);
  }

  lemma GrownFront(t: Table, t': Table, i: nat)
    requires GrowsByZeros(t, t') && i <= |t|
    ensures i <= |t'| && t'[..i] == t[..i]
  {
    assert t'[..i] == t'[..|t|][..i];
  }

  /** Slots of chained tables name their cluster, those of the static root name 0. */
  lemma PlaceKind(g: Geometry, fat: FatTable, chain: seq<nat>, i: nat)
    requires Exists(g, fat, chain) && PerSector(g) > 0 && i < Capacity(g, chain)
    ensures PlaceOf(g, chain, i).clust == 0 <==> chain == []
    ensures PlaceOf(g, chain, i).sect > 0
  {
    PlaceIsSec(g, chain, i);
    DirSecInVolume(g, chain, Quo(i, PerSector(g)));
    QuoBelow(i, SectorCount(g, chain), PerSector(g));
    QuoBelow(Quo(i, PerSector(g)), |chain|, g.csize);
    hide Quo, Rem, Times;
  }

  /** Where the first slot of an added cluster lies. */
  lemma NewPlace(g: Geometry, chain: seq<nat>, c: nat)
    requires Placed(g, chain + [c]) && PerSector(g) > 0 && chain != []
    ensures Capacity(g, chain) < Capacity(g, chain + [c])
    ensures PlaceOf(g, chain + [c], Capacity(g, chain)) == Place(c, Clust2Sect(g, c), 0)
    ensures Rem(Capacity(g, chain), PerSector(g)) == 0
  {
    CapacityGrows(g, chain, c);
    QuoUnique(SectorCount(g, chain), 0, PerSector(g));
    QuoUnique(|chain|, 0, g.csize);
    TimesAdd(|chain|, 1, g.csize);
    assert (chain + [c])[|chain|] == c;
    SecInData(g, c, 0);
  }

  lemma CreateInRange(fat: FatTable, end: nat, clst: nat, last: nat)
    requires |fat| >= 3 && end >= |fat|
    ensures Create(fat, end, clst, last).cluster < |fat|
  {
    if clst == 0 {
      PickIsFree(fat, Hint(|fat|, last));
    } else if Get(fat, clst) >= |fat| {
      PickIsFree(fat, clst);
    }
  }

  /** A step that changes the FAT sectors only. */
  lemma DirStepFat(g: Geometry, fat: FatTable, img: seq<Sector>, img': seq<Sector>, chain: seq<nat>)
    requires PerSector(g) > 0 && Exists(g, fat, chain) && ImageOk(g, img) && ImageOk(g, img')
      && SameOutsideFat(g, img, img')
    ensures DirStep(g, fat, img, chain, fat, img', chain)
    ensures TableOf(g, fat, img', chain) == TableOf(g, fat, img, chain)
  {
    DirStepSelf(g, fat, img, chain);
    hide IsChain, OthersKept, DirSec, SectorCount, SlotIn;
    forall i | 0 <= i < Len(g, chain)
      ensures SlotAt(g, fat, img', chain, i) == SlotAt(g, fat, img, chain, i)
    {
      SlotFits(g, chain, i);
      DirSecInVolume(g, chain, Quo(i, PerSector(g)));
    }
  }

  lemma RemBelow(x: nat, d: nat)
    requires x >= d > 0
    ensures Rem(x, d) == Rem(x - d, d)
  {}

  lemma RemSmall(x: nat, d: nat)
    requires x < d
    ensures Rem(x, d) == x
  {}
}
