/** The code of f_mkfs and find_volume. */
module FormatRun {
  import opened Arith
  import opened Bytes
  import opened Fat
  import opened Window
  import opened Mkfs
  import opened DirTable
  import opened Format
  import opened Volume
  import Chains

  // ---------------------------------------------------------------- building sectors

  method PutWord(tbl: array<Byte>, o: nat, v: nat)
    requires o + 2 <= tbl.Length
    modifies tbl
    ensures tbl[o] == ByteOf(v, 0) && tbl[o + 1] == ByteOf(v, 1)
    ensures forall i :: 0 <= i < tbl.Length && !(o <= i < o + 2) ==> tbl[i] == old(tbl[i])
  {
    tbl[o], tbl[o + 1] := v % 0x100, v / 0x100 % 0x100;
  }

  method PutDword(tbl: array<Byte>, o: nat, v: nat)
    requires o + 4 <= tbl.Length
    modifies tbl
    ensures tbl[o] == ByteOf(v, 0) && tbl[o + 1] == ByteOf(v, 1) && tbl[o + 2] == ByteOf(v, 2)
      && tbl[o + 3] == ByteOf(v, 3)
    ensures forall i :: 0 <= i < tbl.Length && !(o <= i < o + 4) ==> tbl[i] == old(tbl[i])
  {
    tbl[o], tbl[o + 1] := v % 0x100, v / 0x100 % 0x100;
    tbl[o + 2], tbl[o + 3] := v / 0x1_0000 % 0x100, v / 0x100_0000 % 0x100;
  }

  method PutBytes(tbl: array<Byte>, o: nat, s: seq<Byte>)
    requires o + |s| <= tbl.Length
    modifies tbl
    ensures forall i :: o <= i < o + |s| ==> tbl[i] == s[i - o]
    ensures forall i :: 0 <= i < tbl.Length && !(o <= i < o + |s|) ==> tbl[i] == old(tbl[i])
  {
    for k := 0 to |s|
      invariant forall i :: o <= i < o + k ==> tbl[i] == s[i - o]
      invariant forall i :: 0 <= i < tbl.Length && !(o <= i < o + k) ==> tbl[i] == old(tbl[i])
    {
      tbl[o + k] := s[k];
    }
  }

  /** The fields common to all sub-types. */
  method BootCommon(tbl: array<Byte>, ss: nat, p: Plan, md: Byte)
    requires SectorSizeOk(ss) && tbl.Length == ss && p.au <= 128 && forall i :: 0 <= i < ss ==> tbl[i] == 0
    modifies tbl
    ensures forall i :: 0 <= i < 36 ==> tbl[i] == BootByte(ss, p, md, 0, i)
    ensures forall i :: 36 <= i < ss ==> tbl[i] == 0
  {
    BootHead(tbl, ss, p, md);
    BootSizes(tbl, ss, p, md);
  }

  method BootHead(tbl: array<Byte>, ss: nat, p: Plan, md: Byte)
    requires SectorSizeOk(ss) && tbl.Length == ss && p.au <= 128
    modifies tbl
    ensures forall i :: 0 <= i < 19 ==> tbl[i] == BootByte(ss, p, md, 0, i)
    ensures forall i :: 19 <= i < ss ==> tbl[i] == old(tbl[i])
  {
    hide ByteOf;
    PutBytes(tbl, 0, JUMP);
    PutWord(tbl, 11, ss);
    tbl[13] := p.au;
    PutWord(tbl, 14, p.nRsv);
    tbl[16] := 1;
    PutWord(tbl, 17, if p.fmt == Fat32 then 0 else N_ROOTDIR);
  }

  method BootSizes(tbl: array<Byte>, ss: nat, p: Plan, md: Byte)
    requires SectorSizeOk(ss) && tbl.Length == ss && p.au <= 128 && forall i :: 19 <= i < ss ==> tbl[i] == 0
    modifies tbl
    ensures forall i :: 0 <= i < 19 || 36 <= i < ss ==> tbl[i] == old(tbl[i])
    ensures forall i :: 19 <= i < 36 ==> tbl[i] == BootByte(ss, p, md, 0, i)
  {
    hide ByteOf;
    ByteOfZero();
    if p.nVol < 0x1_0000 {
      PutWord(tbl, 19, p.nVol);
    } else {
      PutDword(tbl, 32, p.nVol);
    }
    tbl[21] := md;
    if p.fmt != Fat32 {
      PutWord(tbl, 22, p.nFat);
    }
    PutWord(tbl, 24, 63);
    PutWord(tbl, 26, 255);
    PutDword(tbl, 28, p.bVol);
  }

  lemma ByteOfZero()
    ensures forall k :: 0 <= k < 4 ==> ByteOf(0, k) == 0
  {}

  method BootExtension(tbl: array<Byte>, ss: nat, p: Plan, md: Byte, time: nat)
    requires SectorSizeOk(ss) && tbl.Length == ss && p.au <= 128
    requires forall i :: 36 <= i < ss ==> tbl[i] == 0
    modifies tbl
    ensures forall i :: 0 <= i < 36 ==> tbl[i] == old(tbl[i])
    ensures forall i :: 36 <= i < ss ==> tbl[i] == BootByte(ss, p, md, time, i)
  {
    hide ByteOf;
    if p.fmt == Fat32 {
      PutDword(tbl, 67, time);
      PutDword(tbl, 36, p.nFat);
      PutDword(tbl, 44, 2);
      PutWord(tbl, 48, 1);
      PutWord(tbl, 50, 6);
      tbl[64] := 0x80;
      tbl[66] := 0x29;
      PutBytes(tbl, 71, LABEL + TYPE32);
    } else {
      PutDword(tbl, 39, time);
      tbl[36] := 0x80;
      tbl[38] := 0x29;
      PutBytes(tbl, 43, LABEL + TYPE16);
    }
    tbl[510], tbl[511] := 0x55, 0xAA;
  }

  /** The boot sector, field by field. */
  method MakeBoot(ss: nat, p: Plan, md: Byte, time: nat) returns (w: Sector)
    requires SectorSizeOk(ss) && p.au <= 128
    ensures w == BootSector(ss, p, md, time)
  {
    var tbl := new Byte[ss](i => 0);
    BootCommon(tbl, ss, p, md);
    BootExtension(tbl, ss, p, md, time);
    hide ByteOf;
    assert forall i :: 0 <= i < 36 ==> BootByte(ss, p, md, 0, i) == BootByte(ss, p, md, time, i);
    w := tbl[..];
  }

  method MakeMbr(ss: nat, p: Plan) returns (w: Sector)
    requires SectorSizeOk(ss)
    ensures w == Mbr(ss, p)
  {
    hide ByteOf, Quo, SysId, EndSector;
    var tbl := new Byte[ss](i => 0);
    var n := Quo(Quo(p.bVol + p.nVol, 63), 255);
    tbl[447] := 1;
    tbl[448] := 1;
    tbl[450] := SysId(p);
    tbl[451] := 254;
    tbl[452] := EndSector(n);
    tbl[453] := ByteOf(n, 0);
    PartitionExtent(tbl, p.nVol);
    w := tbl[..];
  }

  method PartitionExtent(tbl: array<Byte>, nVol: nat)
    requires tbl.Length >= 512
    modifies tbl
    ensures forall i :: 454 <= i < 458 ==> tbl[i] == ByteOf(63, i - 454)
    ensures forall i :: 458 <= i < 462 ==> tbl[i] == ByteOf(nVol, i - 458)
    ensures tbl[510] == 0x55 && tbl[511] == 0xAA
    ensures forall i :: 0 <= i < 454 || 462 <= i < 510 || 512 <= i < tbl.Length ==> tbl[i] == old(tbl[i])
  {
    hide ByteOf;
    PutDword(tbl, 454, 63);
    PutDword(tbl, 458, nVol);
    tbl[510], tbl[511] := 0x55, 0xAA;
  }

  // ---------------------------------------------------------------- the allocation unit

  lemma UnitPowers()
    ensures PowerOfTwo(1) && PowerOfTwo(128) && PowerOfTwo(512) && PowerOfTwo(1024) && PowerOfTwo(2048)
      && PowerOfTwo(4096)
    ensures PowerOfTwo(8192) && PowerOfTwo(16384) && PowerOfTwo(32768)
  {
    assert PowerOfTwo(8);
    assert PowerOfTwo(64);
    assert PowerOfTwo(512);
    assert PowerOfTwo(4096);
    assert PowerOfTwo(32768);
  }

  const VOLUME_SIZES: seq<nat> := [1024, 512, 256, 128, 64, 32, 16, 8, 4, 2, 0]
  const UNIT_SIZES: seq<nat> := [32768, 16384, 8192, 4096, 2048, 16384, 8192, 4096, 2048, 1024, 512]

  /** Volume size in the unit of the table. */
  function SizeClass(ss: nat, nVol: nat): nat {
    Quo(nVol, if ss == 512 then 2000 else if ss == 1024 then 1000 else if ss == 2048 then 500 else 250)
  }

  /** Between 1 and 128 sectors. */
  function Clamped(n: nat): nat {
    if n == 0 then 1 else if n > 128 then 128 else n
  }

  /** The volume size falls into row `i` of the table. */
  predicate InRow(vs: nat, i: nat) {
    i < 11 && VOLUME_SIZES[i] <= vs && (i == 0 || vs < VOLUME_SIZES[i - 1])
  }

  /** Volumes of less than 65,536,000 bytes get fewer than 4000 clusters and so are FAT12, larger ones of less than
      1,048,576,000 bytes get fewer than 64000 and are FAT16, and beyond that clusters have 32 KB. No cluster is larger
      than it has to be for that: unless it is a single sector, its half would make twice as many. */
  predicate RightUnit(b: nat, ss: nat, au: nat, clusters: nat) {
    && (b < 65_536_000 ==> clusters < 4000 && (au == 1 || clusters >= 2000))
    && (65_536_000 <= b < 1_048_576_000 ==> clusters < 64000 && (au == 1 || clusters >= 32000))
    && (b >= 1_048_576_000 ==> au * ss == 32768)
  }

  /** What the table is for. */
  lemma ChosenUnit(ss: nat, nVol: nat, i: nat)
    requires SectorSizeOk(ss) && InRow(SizeClass(ss, nVol), i)
    ensures
      var au := Clamped(Quo(UNIT_SIZES[i], ss));
      RightUnit(nVol * ss, ss, au, Quo(nVol, au))
  {
    var c := if ss == 512 then 2000 else if ss == 1024 then 1000 else if ss == 2048 then 500 else 250;
    QuoRemAreDivMod(nVol, c);
    QuoRemAreDivMod(UNIT_SIZES[i], ss);
    QuoRemAreDivMod(nVol, Clamped(Quo(UNIT_SIZES[i], ss)));
    hide Quo;
    if ss == 512 {
      ChosenUnit512(nVol, i);
    } else if ss == 1024 {
      ChosenUnit1024(nVol, i);
    } else if ss == 2048 {
      ChosenUnit2048(nVol, i);
    } else {
      ChosenUnit4096(nVol, i);
    }
  }

  lemma ChosenUnit512(nVol: nat, i: nat)
    requires InRow(nVol / 2000, i)
    ensures RightUnit(nVol * 512, 512, Clamped(UNIT_SIZES[i] / 512), nVol / Clamped(UNIT_SIZES[i] / 512))
  {}

  lemma ChosenUnit1024(nVol: nat, i: nat)
    requires InRow(nVol / 1000, i)
    ensures RightUnit(nVol * 1024, 1024, Clamped(UNIT_SIZES[i] / 1024), nVol / Clamped(UNIT_SIZES[i] / 1024))
  {}

  lemma ChosenUnit2048(nVol: nat, i: nat)
    requires InRow(nVol / 500, i)
    ensures RightUnit(nVol * 2048, 2048, Clamped(UNIT_SIZES[i] / 2048), nVol / Clamped(UNIT_SIZES[i] / 2048))
  {}

  lemma ChosenUnit4096(nVol: nat, i: nat)
    requires InRow(nVol / 250, i)
    ensures RightUnit(nVol * 4096, 4096, Clamped(UNIT_SIZES[i] / 4096), nVol / Clamped(UNIT_SIZES[i] / 4096))
  {}

  /** Sectors per cluster from the requested unit in bytes; 0 asks for a choice by volume size. */
  method ClusterSize(ss: nat, nVol: nat, au0: nat) returns (au: nat)
    requires SectorSizeOk(ss) && (au0 == 0 || PowerOfTwo(au0))
    ensures PowerOfTwo(au) && 1 <= au <= 128
    ensures au0 != 0 ==> au == Clamped(Quo(au0, ss))
    ensures au0 == 0 ==> exists i: nat :: InRow(SizeClass(ss, nVol), i) && au == Clamped(Quo(UNIT_SIZES[i], ss))
  {
    UnitPowers();
    hide PowerOfTwo, Quo;
    au := au0;
    if au == 0 {
      var vs := SizeClass(ss, nVol);
      var i: nat := 0;
      while vs < VOLUME_SIZES[i]
        invariant 0 <= i < 11 && (i == 0 || vs < VOLUME_SIZES[i - 1])
        decreases 11 - i
      {
        i := i + 1;
      }
      assert InRow(vs, i);
      au := UNIT_SIZES[i];
    }
    PowerQuotient(au, ss);
    au := Quo(au, ss);
    if au == 0 {
      au := 1;
    }
    if au > 128 {
      au := 128;
    }
  }

  // ---------------------------------------------------------------- f_mkfs

  /** Where the writing of the FAT and the root directory ends; the first FAT sector is always written. */
  function TablesEnd(p: Plan): nat {
    p.BFat() + (if p.nFat > 0 then p.nFat else 1) + RootCleared(p)
  }

  /** Writes the FAT and clears the root directory, sector by sector. */
  method WriteTables(d: Drive, ss: nat, p: Plan, md: Byte) returns (failed: bool)
    requires SectorSizeOk(ss) && Uniform(d.sectors, ss) && RootCleared(p) > 0
    modifies d
    ensures |d.sectors| == old(|d.sectors|) && Uniform(d.sectors, ss)
    ensures failed <==> TablesEnd(p) > |d.sectors|
    ensures !failed && p.nFat > 0 ==> forall s :: p.BFat() <= s < p.BDir() ==>
      d.sectors[s] == if s == p.BFat() then FatHead(ss, p.fmt, md) else Zeros(ss)
    ensures !failed && p.nFat > 0 ==> forall s :: p.BDir() <= s < p.BDir() + RootCleared(p) ==>
      d.sectors[s] == Zeros(ss)
    ensures forall s :: 0 <= s < |d.sectors| && !(p.BFat() <= s < TablesEnd(p)) ==> d.sectors[s] == old(d.sectors[s])
  {
    hide FatHead, SectorSizeOk;
    var wsect := p.BFat();
    failed := d.Write(FatHead(ss, p.fmt, md), wsect);
    if failed {
      return;
    }
    wsect := wsect + 1;
    var rest := if p.nFat > 1 then p.nFat - 1 else 0;
    failed := ClearSectors(d, ss, wsect, rest);
    if failed {
      return;
    }
    wsect := wsect + rest;
    failed := ClearSectors(d, ss, wsect, RootCleared(p));
  }

  /** Writes `n` sectors of zeros. */
  method ClearSectors(d: Drive, ss: nat, start: nat, n: nat) returns (failed: bool)
    requires Uniform(d.sectors, ss)
    modifies d
    ensures |d.sectors| == old(|d.sectors|) && Uniform(d.sectors, ss)
    ensures failed <==> n > 0 && start + n > |d.sectors|
    ensures !failed ==> forall s :: start <= s < start + n ==> d.sectors[s] == Zeros(ss)
    ensures forall s :: 0 <= s < |d.sectors| && !(start <= s < start + n) ==> d.sectors[s] == old(d.sectors[s])
  {
    failed := false;
    var i := 0;
    while i < n
      invariant 0 <= i <= n && |d.sectors| == old(|d.sectors|) && Uniform(d.sectors, ss)
      invariant i > 0 ==> start + i <= |d.sectors|
      invariant forall s :: start <= s < start + i ==> d.sectors[s] == Zeros(ss)
      invariant forall s :: 0 <= s < |d.sectors| && !(start <= s < start + i) ==> d.sectors[s] == old(d.sectors[s])
    {
      failed := d.Write(Zeros(ss), start + i);
      if failed {
        return;
      }
      i := i + 1;
    }
  }

  /** Writes what precedes the FAT: the partition table, the boot sector, and on FAT32 its backup. */
  method WriteBoot(d: Drive, ss: nat, p: Plan, sfd: bool, time: nat) returns (failed: bool)
    requires SectorSizeOk(ss) && Uniform(d.sectors, ss) && p.au <= 128 && p.bVol == if sfd then 0 else 63
    modifies d
    ensures |d.sectors| == old(|d.sectors|) && Uniform(d.sectors, ss)
    ensures failed <==> p.bVol >= |d.sectors|
    ensures !failed ==> d.sectors[p.bVol] == BootSector(ss, p, Media(sfd), time)
    ensures !failed && p.fmt == Fat32 && p.bVol + 6 < |d.sectors| ==>
      d.sectors[p.bVol + 6] == BootSector(ss, p, Media(sfd), time)
    ensures forall s ::
      0 <= s < |d.sectors| && (sfd || s != 0) && s != p.bVol && (p.fmt != Fat32 || s != p.bVol + 6) ==>
        d.sectors[s] == old(d.sectors[s])
    ensures !failed && !sfd ==> d.sectors[0] == Mbr(ss, p)
  {
    hide BootSector, Mbr, SectorSizeOk;
    if !sfd {
      var mbr := MakeMbr(ss, p);
      failed := d.Write(mbr, 0);
      if failed {
        return;
      }
    }
    var boot := MakeBoot(ss, p, Media(sfd), time);
    failed := d.Write(boot, p.bVol);
    if failed {
      return;
    }
    if p.fmt == Fat32 {
      var ignored := d.Write(boot, p.bVol + 6);
    }
  }

  /** Writes FSINFO and its backup. */
  method WriteInfo(d: Drive, ss: nat, p: Plan)
    requires SectorSizeOk(ss) && Uniform(d.sectors, ss) && p.nClst > 0
    modifies d
    ensures |d.sectors| == old(|d.sectors|) && Uniform(d.sectors, ss)
    ensures forall s :: 0 <= s < |d.sectors| && s != p.bVol + 1 && s != p.bVol + 7 ==> d.sectors[s] == old(d.sectors[s])
    ensures p.bVol + 1 < |d.sectors| ==> d.sectors[p.bVol + 1] == FsInfo(ss, p.nClst - 1, 2)
    ensures p.bVol + 7 < |d.sectors| ==> d.sectors[p.bVol + 7] == FsInfo(ss, p.nClst - 1, 2)
  {
    hide FsInfo;
    var info := FsInfo(ss, p.nClst - 1, 2);
    var ignored := d.Write(info, p.bVol + 1);
    ignored := d.Write(info, p.bVol + 7);
  }

  /** The sectors f_mkfs writes: the partition table, the boot sector and FSINFO with their copies on FAT32, the FAT and
      the root directory. */
  predicate IsWritten(p: Plan, sfd: bool, s: nat) {
    || (!sfd && s == 0) || s == p.bVol || p.BFat() <= s < TablesEnd(p)
    || (p.fmt == Fat32 && s in {p.bVol + 1, p.bVol + 6, p.bVol + 7})
  }

  /** The writing part of f_mkfs. */
  method WritePlan(d: Drive, ss: nat, p: Plan, sfd: bool, time: nat) returns (res: Outcome)
    requires SectorSizeOk(ss) && Uniform(d.sectors, ss) && p.au <= 128 && p.bVol == (if sfd then 0 else 63)
    requires RootCleared(p) > 0 && (p.fmt == Fat32 ==> p.nClst > 0)
    modifies d
    ensures |d.sectors| == old(|d.sectors|) && Uniform(d.sectors, ss)
    ensures res == Done || res == DiskError
    ensures res == DiskError <==> TablesEnd(p) > |d.sectors|
    ensures forall s: nat :: s < |d.sectors| && !IsWritten(p, sfd, s) ==> d.sectors[s] == old(d.sectors[s])
    ensures res == Done && p.nFat > 0 && p.nRsv > 0 && (p.fmt == Fat32 ==> p.nRsv >= 32) ==>
      Formatted(d.sectors, ss, p, sfd, time)
  {
    hide BootSector, Mbr, FatHead, FsInfo, SectorSizeOk;
    var failed := WriteBoot(d, ss, p, sfd, time);
    if failed {
      return DiskError;
    }
    failed := WriteTables(d, ss, p, Media(sfd));
    if failed {
      return DiskError;
    }
    if p.fmt == Fat32 {
      WriteInfo(d, ss, p);
    }
    res := Done;
  }

  /** First sector of the volume: the whole drive, or a partition behind the master boot record. */
  function VolumeStart(sfd: bool): nat {
    if sfd then 0 else 63
  }

  /** What a successful f_mkfs means for the next mount: it is refused exactly when the alignment left a FAT12 volume
      without a cluster. */
  lemma DoneThenMount(disk: seq<Sector>, ss: nat, sfd: bool, nVol: nat, au: nat, blk: nat, time: nat)
    requires SectorSizeOk(ss) && PowerOfTwo(au) && au <= 128 && NoOverflow(VolumeStart(sfd), nVol, au)
    requires Layout(ss, VolumeStart(sfd), nVol, au, blk).Some? && |disk| == VolumeStart(sfd) + nVol
    requires Formatted(disk, ss, Layout(ss, VolumeStart(sfd), nVol, au, blk).value, sfd, time)
    ensures
      var p := Layout(ss, VolumeStart(sfd), nVol, au, blk).value;
      && Overhead(p) <= nVol
      && (Format.Find(disk, ss) == None <==> p.fmt == Fat12 && nVol - Overhead(p) < au)
      && (Format.Find(disk, ss).Some? ==> Format.Find(disk, ss).value.0 == MountedPlan(p))
  {
    hide Layout, Quo, Format.Find, PowerOfTwo, FirstFatSize;
    PositivePower(au);
    PlanFacts(ss, VolumeStart(sfd), nVol, au, blk);
    FormatThenMount(disk, ss, sfd, nVol, au, blk, time);
    var p := Layout(ss, VolumeStart(sfd), nVol, au, blk).value;
    PlanEnds(disk, ss, p, sfd, time);
    ClusterBound(nVol - Overhead(p), au);
  }

  lemma PlanEnds(disk: seq<Sector>, ss: nat, p: Plan, sfd: bool, time: nat)
    requires Formatted(disk, ss, p, sfd, time)
    ensures p.BDir() + RootCleared(p) <= |disk|
  {}

  /** The cluster size settled from the request: the unit asked for, or the one the table has for the volume. */
  ghost predicate UnitSettled(ss: nat, nVol: nat, au0: nat, au: nat)
    requires SectorSizeOk(ss)
  {
    && PowerOfTwo(au) && 1 <= au <= 128
    && (au0 != 0 ==> au == Clamped(Quo(au0, ss)))
    && (au0 == 0 ==> exists i: nat :: InRow(SizeClass(ss, nVol), i) && au == Clamped(Quo(UNIT_SIZES[i], ss)))
  }

  /** `au0` is the requested cluster size in bytes, `blk` what the driver reports as erase block. */
  method FMkfs(d: Drive, ss: nat, sfd: bool, au0: nat, blk: nat, time: nat)
    returns (res: Outcome, ghost au: nat, ghost plan: Option<Plan>)
    requires SectorSizeOk(ss) && Uniform(d.sectors, ss)
    requires |d.sectors| < DWORD_MOD
    modifies d
    ensures |d.sectors| == old(|d.sectors|) && Uniform(d.sectors, ss)
    ensures res == InvalidParameter <==> !(au0 == 0 || PowerOfTwo(au0))
    ensures res != InvalidParameter && |d.sectors| < 128 ==> res == DiskError && d.sectors == old(d.sectors)
    ensures res != InvalidParameter && |d.sectors| >= 128 ==>
      var nVol := |d.sectors| - VolumeStart(sfd);
      && UnitSettled(ss, nVol, au0, au) && plan == Layout(ss, VolumeStart(sfd), nVol, au, blk)
      && (res == Aborted <==> plan == None)
      && (res == DiskError <==> plan.Some? && TablesEnd(plan.value) > |d.sectors|)
    ensures forall s: nat :: s < |d.sectors| && (plan == None || !IsWritten(plan.value, sfd, s)) ==>
      d.sectors[s] == old(d.sectors[s])
    ensures res == Aborted || res == InvalidParameter ==> d.sectors == old(d.sectors)
    ensures res == Done && NoOverflow(VolumeStart(sfd), |d.sectors| - VolumeStart(sfd), au) ==>
      Formatted(d.sectors, ss, plan.value, sfd, time)
  {
    hide Layout, BootSector, Mbr, FatHead, FsInfo, PowerOfTwo, SectorSizeOk, FirstFatSize;
    au, plan := 1, None;
    if !(au0 == 0 || PowerOfTwo(au0)) {
      return InvalidParameter, au, plan;
    }
    if |d.sectors| < 128 {
      return DiskError, au, plan;
    }
    var bVol := VolumeStart(sfd);
    var nVol := |d.sectors| - bVol;
    var unit := ClusterSize(ss, nVol, au0);
    au := unit;
    var lay := Layout(ss, bVol, nVol, unit, blk);
    plan := lay;
    if lay == None {
      return Aborted, au, plan;
    }
    LayoutShape(ss, bVol, nVol, unit, blk);
    res := WritePlan(d, ss, lay.value, sfd, time);
    if res == Done && NoOverflow(bVol, nVol, au) {
      PlanFacts(ss, bVol, nVol, au, blk);
    }
  }

  /** The writing of f_mkfs runs over the end of the drive exactly if the alignment left less than nothing, so that the
      cluster count, an unsigned difference, wrapped. */
  lemma DiskErrorIsUnderflow(ss: nat, sfd: bool, nVol: nat, au: nat, blk: nat)
    requires SectorSizeOk(ss) && 0 < au <= 128 && NoOverflow(VolumeStart(sfd), nVol, au)
    requires Layout(ss, VolumeStart(sfd), nVol, au, blk).Some?
    ensures
      var p := Layout(ss, VolumeStart(sfd), nVol, au, blk).value;
      && TablesEnd(p) == p.BDir() + RootCleared(p)
      && (TablesEnd(p) > VolumeStart(sfd) + nVol <==> Overhead(p) > nVol)
  {
    hide Layout, FirstFatSize, Quo, PowerOfTwo;
    PlanFacts(ss, VolumeStart(sfd), nVol, au, blk);
    var p := Layout(ss, VolumeStart(sfd), nVol, au, blk).value;
    if p.fmt == Fat32 && Overhead(p) <= nVol {
      ClusterBound(nVol - Overhead(p), au);
    }
  }

  /** Such a drive: 135 sectors and an erase block of 32768, which FAT12 does not notice. */
  lemma AlignedBeyondDrive()
    ensures
      var l := Layout(512, 0, 135, 8, 32768);
      l.Some? && l.value.fmt == Fat12 && Overhead(l.value) == 32768 && TablesEnd(l.value) > 135
  {
    hide FirstPlan, Gap, Quo;
    SmallPlan();
    LargeGap();
  }

  lemma LargeGap()
    ensures Gap(34, 32768) == 32734
  {
    hide Quo, Rem, And, PowerOfTwo;
    UnitPowers();
    MaskIsRem(32801, 32768);
    QuoRemAreDivMod(32801, 32768);
  }

  lemma LayoutShape(ss: nat, bVol: nat, nVol: nat, au: nat, blk: nat)
    requires SectorSizeOk(ss) && au > 0 && Layout(ss, bVol, nVol, au, blk).Some?
    ensures
      var p := Layout(ss, bVol, nVol, au, blk).value;
      && p.au == au && p.bVol == bVol && p.nVol == nVol && RootCleared(p) > 0 && (p.fmt == Fat32 ==> p.nClst > 0)
  {
    hide FirstFatSize, Gap;
    QuoMono(4096, ROOT_BYTES, ss);
    QuoMono(ss, 4096, ss);
  }

  /** The alignment can leave no room for a cluster: f_mkfs lays out this FAT12 volume of 135 sectors with 8 sectors per
      cluster and an erase block of 128, and 7 sectors remain. */
  lemma NoClusterLeft()
    ensures
      var l := Layout(512, 0, 135, 8, 128);
      l.Some? && l.value.fmt == Fat12 && Overhead(l.value) == 128 && l.value.nClst == 0
  {
    hide FirstPlan, Gap, Aligned;
    SmallPlan();
    SmallGap();
  }

  /** The next mount refuses every drive that f_mkfs has left like this. */
  lemma NoClusterThenRefused(disk: seq<Sector>, time: nat)
    requires Layout(512, 0, 135, 8, 128).Some? && |disk| == 135
    requires Formatted(disk, 512, Layout(512, 0, 135, 8, 128).value, true, time)
    ensures Format.Find(disk, 512) == None
  {
    hide Layout, Formatted, Format.Find, Overhead, PowerOfTwo, Quo;
    NoClusterLeft();
    UnitPowers();
    assert PowerOfTwo(8) by {
      EightIsPower();
    }
    QuoRemAreDivMod(135, 8);
    DoneThenMount(disk, 512, true, 135, 8, 128, time);
  }

  lemma EightIsPower()
    ensures PowerOfTwo(8)
  {
    assert PowerOfTwo(2);
  }

  lemma SmallPlan()
    ensures FirstPlan(512, 0, 135, 8) == Plan(Fat12, 8, 0, 135, 1, 1, 32, 16)
    ensures Aligned(Plan(Fat12, 8, 0, 135, 1, 1, 32, 16), 94) == Plan(Fat12, 8, 0, 135, 1, 95, 32, 0)
  {
    hide Quo;
    QuoRemAreDivMod(135, 8);
    QuoRemAreDivMod(538, 512);
    QuoRemAreDivMod(ROOT_BYTES, 512);
    QuoRemAreDivMod(7, 8);
  }

  lemma SmallGap()
    ensures Gap(34, 128) == 94
  {
    hide Quo, Rem, And, PowerOfTwo;
    UnitPowers();
    MaskIsRem(161, 128);
    QuoRemAreDivMod(161, 128);
  }

  // ---------------------------------------------------------------- find_volume

  /** Looks for a FAT volume on the drive and works out its geometry. An unreadable drive is reported as such only if
      the last place looked at is. */
  method FindVolume(d: Drive, ss: nat) returns (v: Verdict, r: Option<(Mounted, Counts)>)
    requires SectorSizeOk(ss) && Uniform(d.sectors, ss)
    ensures r == Format.Find(d.sectors, ss)
    ensures v == Mounts <==> r.Some?
    ensures v == Unreadable <==> LastCheck(d.sectors, ss) == 3
  {
    hide LoadBpb, Accept, LoadCounts, CheckFs, Partition;
    var bsect: nat := 0;
    var fmt := CheckFs(d.sectors, ss, bsect);
    if fmt == 1 {
      CheckedExists(d.sectors, ss, 0);
      var w := d.sectors[0];
      var i := 0;
      while true
        invariant 0 <= i < 4
        invariant FirstFatPartition(d.sectors, ss, w, i) == FirstFatPartition(d.sectors, ss, w, 0)
        decreases 4 - i
      {
        bsect := Partition(w, i);
        fmt := if bsect != 0 then CheckFs(d.sectors, ss, bsect) else 2;
        if fmt == 0 {
          break;
        }
        i := i + 1;
        if i >= 4 {
          break;
        }
      }
    }
    assert fmt == LastCheck(d.sectors, ss);
    if fmt == 3 {
      return Unreadable, None;
    }
    if fmt != 0 {
      return NoFileSystem, None;
    }
    CheckedExists(d.sectors, ss, bsect);
    var m := Accept(LoadBpb(d.sectors[bsect]), bsect, ss);
    if m == None {
      return NoFileSystem, None;
    }
    v, r := Mounts, Some((m.value, LoadCounts(d.sectors, ss, bsect, m.value)));
  }

  lemma CheckedExists(disk: seq<Sector>, ss: nat, s: nat)
    requires SectorSizeOk(ss) && Uniform(disk, ss) && CheckFs(disk, ss, s) < 2
    ensures s < |disk|
  {}

  /** What mounting needs beyond the tests of find_volume: see `MountedIsValid`; and both FAT copies must be equal. */
  ghost predicate Regular(disk: seq<Sector>, ss: nat, m: Mounted)
    requires SectorSizeOk(ss)
  {
    var g := GeometryOf(m, ss, |disk|);
    g.Valid() && ImageOk(g, disk) && Mirrored(g, disk, m.volBase, false)
  }

  /** f_mount on the drive: the volume object starts in a valid state that shows the medium. */
  method MountVolume(d: Drive, ss: nat) returns (r: Option<FatFs>)
    requires SectorSizeOk(ss) && Uniform(d.sectors, ss)
    requires Format.Find(d.sectors, ss).Some? ==> Regular(d.sectors, ss, Format.Find(d.sectors, ss).value.0)
    ensures r.Some? <==> Format.Find(d.sectors, ss).Some?
    ensures r.Some? ==>
      var (m, c) := Format.Find(d.sectors, ss).value;
      && fresh(r.value) && r.value.Valid() && r.value.g == GeometryOf(m, ss, |d.sectors|)
      && RootOk(r.value.g) && r.value.disk == r.value.img == d.sectors && !r.value.wflag
      && Counts(r.value.freeClust, r.value.lastClust, r.value.fsiDisabled) == c
  {
    hide Format.Find, WindowOk, FatMap, Mirrored;
    var verdict, found := FindVolume(d, ss);
    if found == None {
      return None;
    }
    var (m, c) := found.value;
    FoundRoot(d.sectors, ss);
    CountsNeedFat32(d.sectors, ss, m, c);
    var sect := if c.disabled then m.volBase else m.volBase + 1;
    MirrorIgnoresWindow(GeometryOf(m, ss, |d.sectors|), d.sectors, m.volBase, sect);
    var fs := new FatFs.Mount(GeometryOf(m, ss, |d.sectors|), d.sectors, sect, c.free, c.last, c.disabled);
    r := Some(fs);
  }

  lemma MirrorIgnoresWindow(g: Geometry, disk: seq<Sector>, a: nat, b: nat)
    requires g.Valid() && ImageOk(g, disk) && Mirrored(g, disk, a, false)
    ensures Mirrored(g, disk, b, false)
  {}

  lemma CountsNeedFat32(disk: seq<Sector>, ss: nat, m: Mounted, c: Counts)
    requires SectorSizeOk(ss) && Uniform(disk, ss) && Format.Find(disk, ss) == Some((m, c))
    ensures !c.disabled ==> m.fatType == Fat32
  {
    hide LoadBpb, Accept, BootAt, FsInfoSigned, LdWord, LdDword;
  }

  /** On a freshly formatted volume the count that mounting loads is right. */
  lemma NewVolumeIsCounted(disk: seq<Sector>, ss: nat, p: Plan, sfd: bool, time: nat)
    requires Formatted(disk, ss, p, sfd, time) && Mountable(disk, ss, p)
    ensures
      var g := GeometryOf(MountedPlan(p), ss, |disk|);
      && g.Valid() && ImageOk(g, disk)
      && Counted((if p.fmt == Fat32 then Counts(p.nClst - 1, 2, false) else NO_COUNTS).free, FatMap(g, disk))
  {
    hide Formatted, FatMap, Chains.FreeCount;
    NewVolumeIsEmpty(disk, ss, p, sfd, time);
  }

  /** What f_mkfs makes can be mounted: unless no cluster is left, or FAT32 has too many of them, find_volume finds a
      volume that `MountVolume` takes, its free count is right, and no cluster is in use but the root's on FAT32. */
  lemma NewVolumeMounts(disk: seq<Sector>, ss: nat, sfd: bool, nVol: nat, au: nat, blk: nat, time: nat)
    requires SectorSizeOk(ss) && PowerOfTwo(au) && au <= 128 && NoOverflow(VolumeStart(sfd), nVol, au)
    requires Layout(ss, VolumeStart(sfd), nVol, au, blk).Some? && |disk| == VolumeStart(sfd) + nVol
    requires Formatted(disk, ss, Layout(ss, VolumeStart(sfd), nVol, au, blk).value, sfd, time)
    requires Overhead(Layout(ss, VolumeStart(sfd), nVol, au, blk).value) + au <= nVol && Quo(nVol, au) + 2 < 0x1000_0000
    ensures Format.Find(disk, ss).Some?
    ensures
      var p := Layout(ss, VolumeStart(sfd), nVol, au, blk).value;
      var (m, c) := Format.Find(disk, ss).value;
      && Regular(disk, ss, m) && Counted(c.free, FatMap(GeometryOf(m, ss, |disk|), disk))
      && Chains.FreeCount(FatMap(GeometryOf(m, ss, |disk|), disk)) == (if p.fmt == Fat32 then p.nClst - 1 else p.nClst)
  {
    hide Layout, Formatted, Mountable, Quo, Format.Find, PowerOfTwo, FirstFatSize, FatMap, Chains.FreeCount, Counted;
    PositivePower(au);
    FormatThenMount(disk, ss, sfd, nVol, au, blk, time);
    var p := Layout(ss, VolumeStart(sfd), nVol, au, blk).value;
    PlanIsMountable(disk, ss, VolumeStart(sfd), nVol, au, blk);
    NewVolumeIsEmpty(disk, ss, p, sfd, time);
    NewVolumeIsCounted(disk, ss, p, sfd, time);
  }
}
