/** The root directory of a volume that f_mkfs has made. */
module NewRoot {
  import opened Arith
  import opened Bytes
  import opened Fat
  import opened Chains
  import opened FileData
  import opened Lfn
  import opened Directory
  import opened DirTable
  import opened DirImage
  import opened Mkfs
  import opened Format
  import opened FormatRun

  /** A static table on FAT12 and FAT16, cluster 2 on FAT32. */
  function RootChain(fmt: FatType): seq<nat> {
    if fmt == Fat32 then [2] else []
  }

  /** The root directory of the plan has as many sectors as the boot sector says. */
  predicate RootFits(ss: nat, p: Plan)
    requires SectorSizeOk(ss)
  {
    p.nDir == if p.fmt == Fat32 then 0 else Quo(ROOT_BYTES, ss)
  }

  /** Every sector of it was cleared. */
  lemma RootSectorIsZero(disk: seq<Sector>, ss: nat, p: Plan, sfd: bool, time: nat, q: nat)
    requires Formatted(disk, ss, p, sfd, time) && Mountable(disk, ss, p) && RootFits(ss, p)
    requires
      var g := GeometryOf(MountedPlan(p), ss, |disk|);
      RootOk(g) && PerSector(g) > 0 && Placed(g, RootChain(p.fmt)) && q < SectorCount(g, RootChain(p.fmt))
    ensures
      var s := DirSec(GeometryOf(MountedPlan(p), ss, |disk|), RootChain(p.fmt), q);
      s < |disk| && disk[s] == Zeros(ss)
  {
    hide Quo, Rem, Times, Mountable, FileSec;
    var g := GeometryOf(MountedPlan(p), ss, |disk|);
    if p.fmt == Fat32 {
      TimesIsProduct(1, g.csize);
      FileSecIs(g, [2], 0, q);
    } else {
      RootSectors(ss);
    }
  }

  lemma SlotOfZeros(w: Sector, off: nat)
    requires off + 32 <= |w| && w == Zeros(|w|)
    ensures SlotIn(w, off) == Zeros(32)
  {}

  lemma RootSlotIsZero(disk: seq<Sector>, ss: nat, p: Plan, sfd: bool, time: nat, fat: FatTable, i: nat)
    requires Formatted(disk, ss, p, sfd, time) && Mountable(disk, ss, p) && RootFits(ss, p)
    requires
      var g := GeometryOf(MountedPlan(p), ss, |disk|);
      && RootOk(g) && PerSector(g) > 0 && ImageOk(g, disk) && Exists(g, fat, RootChain(p.fmt))
      && i < Capacity(g, RootChain(p.fmt))
    ensures SlotAt(GeometryOf(MountedPlan(p), ss, |disk|), fat, disk, RootChain(p.fmt), i) == Zeros(32)
  {
    var g := GeometryOf(MountedPlan(p), ss, |disk|);
    SlotFits(g, RootChain(p.fmt), i);
    DirSecInVolume(g, RootChain(p.fmt), Quo(i, PerSector(g)));
    hide Quo, Rem, Times, Mountable, Formatted, DirSec, SlotIn, RootFits, RootOk, SectorCount;
    RootSectorIsZero(disk, ss, p, sfd, time, Quo(i, PerSector(g)));
    SlotOfZeros(disk[DirSec(g, RootChain(p.fmt), Quo(i, PerSector(g)))], SZ_DIR * Rem(i, PerSector(g)));
  }

  /** Only free entries and, on FAT32, the end mark of the root directory. */
  lemma NewFatIsSound(disk: seq<Sector>, ss: nat, p: Plan, sfd: bool, time: nat)
    requires Formatted(disk, ss, p, sfd, time) && Mountable(disk, ss, p)
    ensures
      var g := GeometryOf(MountedPlan(p), ss, |disk|);
      g.Valid() && ImageOk(g, disk) && Sound(FatMap(g, disk))
  {
    hide Formatted, Mountable, Entry;
    NewVolumeIsEmpty(disk, ss, p, sfd, time);
    var g := GeometryOf(MountedPlan(p), ss, |disk|);
    forall c | 2 <= c < g.nFatEnt
      ensures FatMap(g, disk)[c] != 1
    {
      FreshEntry(disk, ss, p, sfd, time, c);
    }
  }

  lemma NewRootTable(disk: seq<Sector>, ss: nat, p: Plan, sfd: bool, time: nat)
    requires Formatted(disk, ss, p, sfd, time) && Mountable(disk, ss, p) && RootFits(ss, p)
    requires RootOk(GeometryOf(MountedPlan(p), ss, |disk|))
    ensures
      var g := GeometryOf(MountedPlan(p), ss, |disk|);
      var fat, chain := FatMap(g, disk), RootChain(p.fmt);
      && ImageOk(g, disk) && TableOn(g, fat, 0, chain) && PerSector(g) > 0 && Exists(g, fat, chain)
      && AllZero(TableOf(g, fat, disk, chain))
  {
    var g := GeometryOf(MountedPlan(p), ss, |disk|);
    NewVolumeIsEmpty(disk, ss, p, sfd, time);
    NewFatIsSound(disk, ss, p, sfd, time);
    hide Formatted, Mountable, Entry, SlotAt, SectorCount, RootFits, Sound;
    PerClusterPositive(g);
    var fat, chain := FatMap(g, disk), RootChain(p.fmt);
    assert TableOn(g, fat, 0, chain);
    TableExists(g, fat, 0, chain);
    forall i | 0 <= i < Len(g, chain)
      ensures SlotAt(g, fat, disk, chain, i) == Zeros(32)
    {
      RootSlotIsZero(disk, ss, p, sfd, time, fat, i);
    }
  }

  lemma ZerosAreEmpty(t: Table)
    requires AllZero(t)
    ensures Represents(t, [])
  {
    assert t[..0] == [] && t[0..] == t;
  }

  /** The new volume's root directory is an empty table of 512 slots, or on FAT32 of one cluster: no name is found. */
  lemma NewRootIsEmpty(disk: seq<Sector>, ss: nat, sfd: bool, nVol: nat, au: nat, blk: nat, time: nat)
    requires SectorSizeOk(ss) && PowerOfTwo(au) && au <= 128 && NoOverflow(VolumeStart(sfd), nVol, au)
    requires Layout(ss, VolumeStart(sfd), nVol, au, blk).Some? && |disk| == VolumeStart(sfd) + nVol
    requires Formatted(disk, ss, Layout(ss, VolumeStart(sfd), nVol, au, blk).value, sfd, time)
    requires Overhead(Layout(ss, VolumeStart(sfd), nVol, au, blk).value) + au <= nVol && Quo(nVol, au) + 2 < 0x1000_0000
    ensures Format.Find(disk, ss).Some?
    ensures
      var g := GeometryOf(Format.Find(disk, ss).value.0, ss, |disk|);
      var chain: seq<nat> := if g.fatType == Fat32 then [2] else [];
      && g.Valid() && ImageOk(g, disk)
      && var fat := FatMap(g, disk);
         && TableOn(g, fat, 0, chain) && PerSector(g) > 0 && Exists(g, fat, chain)
         && var t := TableOf(g, fat, disk, chain);
            && |t| == (if g.fatType == Fat32 then au * ss / 32 else 512) && Represents(t, [])
            && forall up, q :: Folds(up) && QueryOk(q) ==> Directory.Find(up, t, q) == None
  {
    hide Layout, Formatted, Mountable, Quo, Rem, Times, Format.Find, PowerOfTwo, FirstFatSize, FatMap, FreeCount;
    hide RootOk, TableOf, TableOn, Exists, Directory.Find, Represents, RootFits, AllZero;
    PositivePower(au);
    var p := Layout(ss, VolumeStart(sfd), nVol, au, blk).value;
    FormatThenMount(disk, ss, sfd, nVol, au, blk, time);
    PlanIsMountable(disk, ss, VolumeStart(sfd), nVol, au, blk);
    NewVolumeIsEmpty(disk, ss, p, sfd, time);
    FoundHere(disk, ss, p);
    PlanRoot(ss, VolumeStart(sfd), nVol, au, blk);
    NewRootTable(disk, ss, p, sfd, time);
    var g := GeometryOf(MountedPlan(p), ss, |disk|);
    var t := TableOf(g, FatMap(g, disk), disk, RootChain(p.fmt));
    RootLength(g, ss, p);
    ZerosAreEmpty(t);
    forall up, q | Folds(up) && QueryOk(q)
      ensures Directory.Find(up, t, q) == None
    {
      FindIsLookup(up, t, [], q);
    }
  }

  lemma FoundHere(disk: seq<Sector>, ss: nat, p: Plan)
    requires SectorSizeOk(ss) && Uniform(disk, ss) && Format.Find(disk, ss).Some?
    requires Format.Find(disk, ss).value.0 == MountedPlan(p) && GeometryOf(MountedPlan(p), ss, |disk|).Valid()
    ensures RootOk(GeometryOf(MountedPlan(p), ss, |disk|))
  {
    hide Format.Find, RootOk;
    FoundRoot(disk, ss);
  }

  lemma PlanRoot(ss: nat, bVol: nat, nVol: nat, au: nat, blk: nat)
    requires SectorSizeOk(ss) && 0 < au <= 128 && NoOverflow(bVol, nVol, au) && Layout(ss, bVol, nVol, au, blk).Some?
    ensures RootFits(ss, Layout(ss, bVol, nVol, au, blk).value) && Layout(ss, bVol, nVol, au, blk).value.au == au
  {
    hide Layout, Quo;
    PlanFacts(ss, bVol, nVol, au, blk);
  }

  lemma RootLength(g: Geometry, ss: nat, p: Plan)
    requires SectorSizeOk(ss) && RootOk(g) && PerSector(g) > 0
    requires g.ss == ss && g.fatType == p.fmt && g.csize == p.au <= 128
    requires g.nRootDir == if p.fmt == Fat32 then 0 else 512
    ensures Len(g, RootChain(p.fmt)) == if p.fmt == Fat32 then p.au * ss / 32 else 512
  {
    hide RootOk, Quo, Rem, Times;
    if p.fmt == Fat32 {
      TimesIsProduct(1, g.csize);
      TimesIsProduct(g.csize, PerSector(g));
      SlotsOfSectors(p.au, ss);
    } else {
      RootCapacity(g);
    }
  }

  lemma SlotsOfSectors(n: nat, ss: nat)
    requires SectorSizeOk(ss) && n <= 128
    ensures n * (ss / 32) == n * ss / 32 < INDEX_LIMIT
  {
    if ss == 512 {
    } else if ss == 1024 {
    } else if ss == 2048 {
    }
  }
}
