/** The slots of a directory table as stored in the image, and how writing and growing act on them. */
module DirImage {
  import opened Arith
  import opened Bytes
  import opened Fat
  import opened Chains
  import opened FileData
  import opened Lfn
  import opened Directory
  import opened DirTable

  /** The clusters of a table; a static root directory has none. */
  ghost predicate TableOn(g: Geometry, fat: FatTable, sclust: nat, chain: seq<nat>) {
    && RootOk(g) && |fat| == g.nFatEnt && Sound(fat) && (g.fatType == Fat32 ==> g.dirBase >= 2)
    && (if Start(g, sclust) == 0 then chain == [] else IsChain(fat, chain) && chain[0] == Start(g, sclust))
  }

  /** Table clusters are data clusters. */
  ghost predicate Placed(g: Geometry, chain: seq<nat>) {
    RootOk(g) && InRange(g, chain)
  }

  lemma TableIsPlaced(g: Geometry, fat: FatTable, sclust: nat, chain: seq<nat>)
    requires TableOn(g, fat, sclust, chain)
    ensures Placed(g, chain)
  {}

  function SectorCount(g: Geometry, chain: seq<nat>): nat
    requires PerSector(g) > 0
  {
    if chain == [] then Quo(g.nRootDir, PerSector(g)) else Times(|chain|, g.csize)
  }

  function Capacity(g: Geometry, chain: seq<nat>): nat
    requires PerSector(g) > 0
  {
    Times(SectorCount(g, chain), PerSector(g))
  }

  function Len(g: Geometry, chain: seq<nat>): (n: nat)
    requires PerSector(g) > 0
    ensures n <= INDEX_LIMIT && n <= Capacity(g, chain)
  {
    if Capacity(g, chain) < INDEX_LIMIT then Capacity(g, chain) else INDEX_LIMIT
  }

  /** Sector `q` of the table. */
  ghost function DirSec(g: Geometry, chain: seq<nat>, q: nat): nat
    requires Placed(g, chain) && PerSector(g) > 0 && q < SectorCount(g, chain)
  {
    if chain == [] then g.dirBase + q else FileSec(g, chain, q)
  }

  /** Where slot `i` lies. */
  ghost function PlaceOf(g: Geometry, chain: seq<nat>, i: nat): Place
    requires Placed(g, chain) && PerSector(g) > 0 && i < Capacity(g, chain)
  {
    QuoBelow(i, SectorCount(g, chain), PerSector(g));
    var q := Quo(i, PerSector(g));
    if chain == [] then Place(0, g.dirBase + q, SZ_DIR * Rem(i, PerSector(g)))
    else
      QuoBelow(q, |chain|, g.csize);
      Place(chain[Quo(q, g.csize)], FileSec(g, chain, q), SZ_DIR * Rem(i, PerSector(g)))
  }

  /** Direct access finds exactly the slots of the table. */
  lemma AccessIsPlace(g: Geometry, fat: FatTable, sclust: nat, chain: seq<nat>, i: nat)
    requires TableOn(g, fat, sclust, chain) && PerCluster(g) > 0 && PerSector(g) > 0
    ensures Placed(g, chain)
    ensures Sdi(g, fat, sclust, i) == if i < Capacity(g, chain) then Some(PlaceOf(g, chain, i)) else None
  {
    TableIsPlaced(g, fat, sclust, chain);
    PerClusterPositive(g);
    var d := PerSector(g);
    if chain == [] {
      RootCapacity(g);
      if i < g.nRootDir {
        QuoBelow(i, SectorCount(g, chain), d);
      }
    } else {
      WalkOnChain(g, fat, chain, 0, i);
      assert chain[0..] == chain;
      hide Times, Quo, Rem, WalkTo, IsChain;
      ClusterCapacity(g, chain, i);
      if i < Capacity(g, chain) {
        QuoBelow(Quo(i, d), |chain|, g.csize);
        QuoBelow(i, SectorCount(g, chain), d);
        SectorOfRem(i, g.csize, d);
        QuoRem(Quo(i, d), g.csize);
        QuoRem(i, d);
        SecInData(g, chain[Quo(Quo(i, d), g.csize)], Rem(Quo(i, d), g.csize));
      }
    }
  }

  lemma RootCapacity(g: Geometry)
    requires RootOk(g) && PerSector(g) > 0
    ensures Capacity(g, []) == g.nRootDir
    ensures g.fatType != Fat32 ==> g.dirBase > 0
  {
    QuoRem(g.nRootDir, PerSector(g));
  }

  lemma ClusterCapacity(g: Geometry, chain: seq<nat>, i: nat)
    requires RootOk(g) && PerSector(g) > 0 && PerCluster(g) > 0 && chain != []
    ensures i < Capacity(g, chain) <==> Quo(i, PerCluster(g)) < |chain|
  {
    hide Times, Quo, Rem;
    TimesAssoc(|chain|, g.csize, PerSector(g));
    QuoBelow(i, |chain|, PerCluster(g));
  }

  lemma {:induction false} WalkOnChain(g: Geometry, fat: FatTable, chain: seq<nat>, j: nat, i: nat)
    requires g.Valid() && IsChain(fat, chain) && |fat| == g.nFatEnt && j < |chain| && PerCluster(g) > 0
    ensures WalkTo(g, fat, chain[j], i) ==
      if j + Quo(i, PerCluster(g)) < |chain| then Some(chain[j + Quo(i, PerCluster(g))]) else None
    decreases i
  {
    hide Times;
    if i < PerCluster(g) {
    } else {
      EndIsLast(fat, chain, j);
      if j + 1 < |chain| {
        WalkOnChain(g, fat, chain, j + 1, i - PerCluster(g));
      }
    }
  }

  // ---------------------------------------------------------------- the table

  /** Table sectors lie on the medium, behind the FATs. */
  lemma DirSecInVolume(g: Geometry, chain: seq<nat>, q: nat)
    requires Placed(g, chain) && PerSector(g) > 0 && q < SectorCount(g, chain)
    requires chain == [] ==> g.fatType != Fat32
    ensures g.FatEnd() <= DirSec(g, chain, q) < g.nSect
    ensures !g.InMirror(DirSec(g, chain, q))
    ensures chain != [] ==> g.dataBase <= DirSec(g, chain, q) && ClusterOf(g, DirSec(g, chain, q)) in chain
    ensures chain == [] ==> DirSec(g, chain, q) < g.dataBase
  {
    if chain != [] {
      FileSecInData(g, chain, q);
    }
  }

  /** Tables that exist: cluster chains, and the static root of FAT12 and FAT16. */
  ghost predicate Exists(g: Geometry, fat: FatTable, chain: seq<nat>) {
    && Placed(g, chain) && |fat| == g.nFatEnt
    && (if chain == [] then g.fatType != Fat32 else IsChain(fat, chain))
  }

  lemma TableExists(g: Geometry, fat: FatTable, sclust: nat, chain: seq<nat>)
    requires TableOn(g, fat, sclust, chain)
    ensures Exists(g, fat, chain)
  {}

  lemma DirSecInjective(g: Geometry, fat: FatTable, chain: seq<nat>, q: nat, p: nat)
    requires Exists(g, fat, chain) && PerSector(g) > 0 && q < SectorCount(g, chain) && p < SectorCount(g, chain)
    requires DirSec(g, chain, q) == DirSec(g, chain, p)
    ensures q == p
  {
    if chain != [] {
      FileSecInjective(g, fat, chain, q, p);
    }
  }

  function SlotIn(w: Sector, off: nat): Slot
    requires off + SZ_DIR <= |w|
  {
    w[off..off + SZ_DIR]
  }

  function PutSlot(w: Sector, off: nat, e: Slot): (r: Sector)
    requires off + SZ_DIR <= |w|
    ensures |r| == |w| && SlotIn(r, off) == e
  {
    w[..off] + e + w[off + SZ_DIR..]
  }

  lemma PutSlotElsewhere(w: Sector, off: nat, e: Slot, o: nat)
    requires off + SZ_DIR <= |w| && o + SZ_DIR <= |w| && (o + SZ_DIR <= off || off + SZ_DIR <= o)
    ensures SlotIn(PutSlot(w, off, e), o) == SlotIn(w, o)
  {}

  /** The byte offset of a slot within its sector. */
  lemma SlotFits(g: Geometry, chain: seq<nat>, i: nat)
    requires g.Valid() && PerSector(g) > 0 && i < Capacity(g, chain)
    ensures SZ_DIR * Rem(i, PerSector(g)) + SZ_DIR <= g.ss
    ensures Quo(i, PerSector(g)) < SectorCount(g, chain)
  {
    QuoRem(i, PerSector(g));
    QuoBelow(i, SectorCount(g, chain), PerSector(g));
  }

  ghost function SlotAt(g: Geometry, fat: FatTable, img: seq<Sector>, chain: seq<nat>, i: nat): Slot
    requires Exists(g, fat, chain) && ImageOk(g, img) && PerSector(g) > 0 && i < Capacity(g, chain)
  {
    SlotFits(g, chain, i);
    DirSecInVolume(g, chain, Quo(i, PerSector(g)));
    SlotIn(img[DirSec(g, chain, Quo(i, PerSector(g)))], SZ_DIR * Rem(i, PerSector(g)))
  }

  /** The slots of the directory. */
  ghost function TableOf(g: Geometry, fat: FatTable, img: seq<Sector>, chain: seq<nat>): (t: Table)
    requires Exists(g, fat, chain) && ImageOk(g, img) && PerSector(g) > 0
    ensures |t| == Len(g, chain)
  {
    seq(Len(g, chain), i requires 0 <= i < Len(g, chain) => SlotAt(g, fat, img, chain, i))
  }

  /** Writing slot `i` in its sector updates the table at `i` and nowhere else. */
  lemma WriteSlot(g: Geometry, fat: FatTable, img: seq<Sector>, chain: seq<nat>, i: nat, e: Slot)
    requires Exists(g, fat, chain) && ImageOk(g, img) && PerSector(g) > 0 && i < Len(g, chain)
    ensures
      var s, o := PlaceOf(g, chain, i).sect, PlaceOf(g, chain, i).off;
      && g.FatEnd() <= s < g.nSect && o + SZ_DIR <= g.ss
      && var img' := img[s := PutSlot(img[s], o, e)];
         ImageOk(g, img') && TableOf(g, fat, img', chain) == TableOf(g, fat, img, chain)[i := e]
  {
    PlaceIsSec(g, chain, i);
    SlotFits(g, chain, i);
    DirSecInVolume(g, chain, Quo(i, PerSector(g)));
    var s, o := PlaceOf(g, chain, i).sect, PlaceOf(g, chain, i).off;
    hide PlaceOf, DirSec, SlotIn, PutSlot, SectorCount;
    var img' := img[s := PutSlot(img[s], o, e)];
    forall j | 0 <= j < Len(g, chain)
      ensures SlotAt(g, fat, img', chain, j) == if j == i then e else SlotAt(g, fat, img, chain, j)
    {
      OtherSlot(g, fat, img, chain, i, e, j);
    }
  }

  lemma PlaceIsSec(g: Geometry, chain: seq<nat>, i: nat)
    requires Placed(g, chain) && PerSector(g) > 0 && i < Capacity(g, chain)
    ensures Quo(i, PerSector(g)) < SectorCount(g, chain)
    ensures PlaceOf(g, chain, i).sect == DirSec(g, chain, Quo(i, PerSector(g)))
    ensures PlaceOf(g, chain, i).off == SZ_DIR * Rem(i, PerSector(g))
  {
    QuoBelow(i, SectorCount(g, chain), PerSector(g));
  }

  lemma OtherSlot(g: Geometry, fat: FatTable, img: seq<Sector>, chain: seq<nat>, i: nat, e: Slot, j: nat)
    requires Exists(g, fat, chain) && ImageOk(g, img) && PerSector(g) > 0 && i < Capacity(g, chain)
      && j < Capacity(g, chain)
    ensures
      var s, o := PlaceOf(g, chain, i).sect, PlaceOf(g, chain, i).off;
      && s < g.nSect && o + SZ_DIR <= g.ss
      && var img' := img[s := PutSlot(img[s], o, e)];
         ImageOk(g, img') && SlotAt(g, fat, img', chain, j) == if j == i then e else SlotAt(g, fat, img, chain, j)
  {
    PlaceIsSec(g, chain, i);
    SlotFits(g, chain, i);
    SlotFits(g, chain, j);
    var q, p := Quo(i, PerSector(g)), Quo(j, PerSector(g));
    DirSecInVolume(g, chain, q);
    DirSecInVolume(g, chain, p);
    hide PlaceOf, SlotIn, PutSlot, SectorCount, Quo, Rem;
    if i != j && DirSec(g, chain, q) == DirSec(g, chain, p) {
      DirSecInjective(g, fat, chain, q, p);
      QuoRemDistinct(i, j, PerSector(g));
      PutSlotElsewhere(img[DirSec(g, chain, q)], SZ_DIR * Rem(i, PerSector(g)), e, SZ_DIR * Rem(j, PerSector(g)));
    }
  }

  // ---------------------------------------------------------------- growing

  predicate AllZero(t: Table) {
    forall i :: 0 <= i < |t| ==> t[i] == Zeros(32)
  }

  /** `t'` is `t` with zero slots behind it. */
  ghost predicate GrowsByZeros(t: Table, t': Table) {
    |t| <= |t'| && t'[..|t|] == t && AllZero(t'[|t|..])
  }

  lemma GrowsSelf(t: Table)
    ensures GrowsByZeros(t, t)
  {}

  lemma GrowsTrans(a: Table, b: Table, c: Table)
    requires GrowsByZeros(a, b) && GrowsByZeros(b, c)
    ensures GrowsByZeros(a, c)
  {
    assert a == c[..|b|][..|a|] == c[..|a|];
    forall i | 0 <= i < |c| - |a|
      ensures c[|a|..][i] == Zeros(32)
    {
      if |a| + i < |b| {
        assert c[|a| + i] == c[..|b|][|a| + i] == b[|a|..][i];
      } else {
        assert c[|a| + i] == c[|b|..][|a| + i - |b|];
      }
    }
  }

  /** The image after dir_next stretched the table by cluster `c` and cleared it. */
  ghost predicate Stretched(g: Geometry, chain: seq<nat>, c: nat, img: seq<Sector>, img': seq<Sector>)
    requires Placed(g, chain + [c]) && ImageOk(g, img) && ImageOk(g, img')
  {
    && InRange(g, chain) && 2 <= c < g.nFatEnt
    && (forall q: nat :: q < Times(|chain|, g.csize) ==>
          FileSec(g, chain, q) < g.nSect && img'[FileSec(g, chain, q)] == img[FileSec(g, chain, q)])
    && (forall j: nat :: j < g.csize ==> Sec(g, c, j) < g.nSect && img'[Sec(g, c, j)] == Zeros(g.ss))
  }

  lemma OldSector(g: Geometry, chain: seq<nat>, c: nat, q: nat)
    requires Placed(g, chain + [c]) && PerSector(g) > 0 && chain != [] && q < SectorCount(g, chain)
    ensures Placed(g, chain) && q < SectorCount(g, chain + [c])
    ensures DirSec(g, chain + [c], q) == DirSec(g, chain, q) == FileSec(g, chain, q)
  {
    FileSecPrefix(g, chain, chain + [c], q);
  }

  lemma NewSector(g: Geometry, chain: seq<nat>, c: nat, q: nat)
    requires Placed(g, chain + [c]) && PerSector(g) > 0 && chain != []
    requires SectorCount(g, chain) <= q < SectorCount(g, chain + [c])
    ensures (chain + [c])[|chain|] == c && 2 <= c < g.nFatEnt
    ensures exists j: nat :: j < g.csize && DirSec(g, chain + [c], q) == Sec(g, c, j)
  {
    QuoBelow(q, |chain|, g.csize);
    QuoBelow(q, |chain + [c]|, g.csize);
    QuoRem(q, g.csize);
    var j := Rem(q, g.csize);
    assert (chain + [c])[|chain|] == c;
    assert j < g.csize && DirSec(g, chain + [c], q) == Sec(g, c, j);
  }

  lemma GrownSlot(
    g: Geometry, fat: FatTable, img: seq<Sector>, chain: seq<nat>, c: nat, fat': FatTable, img': seq<Sector>, i: nat)
    requires Exists(g, fat, chain) && chain != [] && Exists(g, fat', chain + [c]) && PerSector(g) > 0
    requires ImageOk(g, img) && ImageOk(g, img') && Stretched(g, chain, c, img, img')
    requires i < Capacity(g, chain + [c])
    ensures i < Capacity(g, chain) ==> SlotAt(g, fat', img', chain + [c], i) == SlotAt(g, fat, img, chain, i)
    ensures i >= Capacity(g, chain) ==> SlotAt(g, fat', img', chain + [c], i) == Zeros(32)
  {
    hide Quo, Rem, Times, SectorCount, IsChain;
    SlotFits(g, chain + [c], i);
    var q := Quo(i, PerSector(g));
    QuoBelow(i, SectorCount(g, chain), PerSector(g));
    DirSecInVolume(g, chain + [c], q);
    if i < Capacity(g, chain) {
      CountOfChain(g, chain);
      OldSector(g, chain, c, q);
    } else {
      NewSector(g, chain, c, q);
    }
  }

  lemma CountOfChain(g: Geometry, chain: seq<nat>)
    requires PerSector(g) > 0 && chain != []
    ensures SectorCount(g, chain) == Times(|chain|, g.csize)
  {}

  lemma GrowTable(
    g: Geometry, fat: FatTable, img: seq<Sector>, chain: seq<nat>, c: nat, fat': FatTable, img': seq<Sector>)
    requires Exists(g, fat, chain) && chain != [] && Exists(g, fat', chain + [c]) && PerSector(g) > 0
    requires ImageOk(g, img) && ImageOk(g, img') && Stretched(g, chain, c, img, img')
    ensures GrowsByZeros(TableOf(g, fat, img, chain), TableOf(g, fat', img', chain + [c]))
    ensures Capacity(g, chain + [c]) >= Capacity(g, chain) + PerSector(g)
  {
    hide IsChain, SlotAt;
    CapacityGrows(g, chain, c);
    var t, t' := TableOf(g, fat, img, chain), TableOf(g, fat', img', chain + [c]);
    forall i | 0 <= i < |t'|
      ensures t'[i] == if i < |t| then t[i] else Zeros(32)
    {
      GrownSlot(g, fat, img, chain, c, fat', img', i);
    }
  }

  lemma CapacityGrows(g: Geometry, chain: seq<nat>, c: nat)
    requires g.Valid() && PerSector(g) > 0 && chain != []
    ensures Capacity(g, chain + [c]) >= Capacity(g, chain) + PerSector(g)
  {
    TimesAdd(|chain|, 1, g.csize);
    TimesMono(SectorCount(g, chain) + 1, SectorCount(g, chain + [c]), PerSector(g));
    TimesAdd(SectorCount(g, chain), 1, PerSector(g));
  }

  // ---------------------------------------------------------------- what directory operations leave alone

  /** Sectors that belong neither to the FATs nor to the table nor to free clusters. */
  ghost predicate Apart(g: Geometry, fat: FatTable, chain: seq<nat>, s: nat)
    requires Exists(g, fat, chain) && PerSector(g) > 0
  {
    && !(g.fatBase <= s < g.FatEnd())
    && (chain == [] ==> !(g.dirBase <= s < g.dirBase + SectorCount(g, chain)))
    && (g.dataBase <= s ==> var c := ClusterOf(g, s); c < g.nFatEnt && fat[c] != 0 && c !in chain)
  }

  /** A step on one directory: its chain only grows, by free clusters; other objects' FAT entries and sectors stay. */
  ghost predicate DirStep(
    g: Geometry, fat: FatTable, img: seq<Sector>, chain: seq<nat>, fat': FatTable, img': seq<Sector>,
    chain': seq<nat>) {
    && PerSector(g) > 0 && Exists(g, fat, chain) && Exists(g, fat', chain') && ImageOk(g, img) && ImageOk(g, img')
    && chain <= chain' && (chain == [] ==> chain' == [])
    && OthersKept(fat, chain, fat')
    && (forall c :: 2 <= c < |fat| ==> (fat'[c] != 0 <==> (fat[c] != 0 && c !in chain) || c in chain'))
    && (forall c :: c in chain' ==> c in chain || (2 <= c < |fat| && fat[c] == 0))
    && (forall s :: 0 <= s < g.nSect && Apart(g, fat, chain, s) ==> img'[s] == img[s])
  }

  lemma DirStepTrans(
    g: Geometry, fat: FatTable, img: seq<Sector>, chain: seq<nat>, fat': FatTable, img': seq<Sector>, chain': seq<nat>,
    fat'': FatTable, img'': seq<Sector>, chain'': seq<nat>)
    requires DirStep(g, fat, img, chain, fat', img', chain') && DirStep(g, fat', img', chain', fat'', img'', chain'')
    ensures DirStep(g, fat, img, chain, fat'', img'', chain'')
  {
    hide Exists, IsChain, SectorCount;
    forall s | 0 <= s < g.nSect && Apart(g, fat, chain, s)
      ensures img''[s] == img[s]
    {
      ApartStays(g, fat, img, chain, fat', img', chain', s);
    }
  }

  lemma ApartStays(
    g: Geometry, fat: FatTable, img: seq<Sector>, chain: seq<nat>, fat': FatTable, img': seq<Sector>,
    chain': seq<nat>, s: nat)
    requires DirStep(g, fat, img, chain, fat', img', chain') && s < g.nSect && Apart(g, fat, chain, s)
    ensures Apart(g, fat', chain', s)
  {
    hide SectorCount, IsChain;
  }

  lemma DirStepSelf(g: Geometry, fat: FatTable, img: seq<Sector>, chain: seq<nat>)
    requires PerSector(g) > 0 && Exists(g, fat, chain) && ImageOk(g, img)
    ensures DirStep(g, fat, img, chain, fat, img, chain)
  {
    if chain != [] {
      ChainAllocated(fat, chain);
    }
  }

  /** Writing a sector of the table is a step on the directory. */
  lemma DirStepWrite(g: Geometry, fat: FatTable, img: seq<Sector>, chain: seq<nat>, q: nat, w: Sector)
    requires PerSector(g) > 0 && Exists(g, fat, chain) && ImageOk(g, img) && q < SectorCount(g, chain) && |w| == g.ss
    ensures DirSec(g, chain, q) < g.nSect
    ensures DirStep(g, fat, img, chain, fat, img[DirSec(g, chain, q) := w], chain)
  {
    DirStepSelf(g, fat, img, chain);
    DirSecInVolume(g, chain, q);
    hide IsChain, OthersKept;
  }
}
