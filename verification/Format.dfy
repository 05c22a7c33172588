/** f_mkfs and find_volume on a whole drive. */
module Format {
  import opened Arith
  import opened Bytes
  import opened Fat
  import opened Window
  import opened Chains
  import opened DirTable
  import opened Mkfs

  /** The outcome of f_mkfs. */
  datatype Outcome = Done | Aborted | DiskError | InvalidParameter

  /** A drive; writing outside the medium fails. */
  class Drive {
    var sectors: seq<Sector>

    constructor (sectors: seq<Sector>)
      ensures this.sectors == sectors
    {
      this.sectors := sectors;
    }

    method Write(data: Sector, s: nat) returns (failed: bool)
      modifies this
      ensures failed <==> s >= old(|sectors|)
      ensures sectors == if failed then old(sectors) else old(sectors)[s := data]
    {
      if s >= |sectors| {
        return true;
      }
      sectors := sectors[s := data];
      failed := false;
    }
  }

  /** All sectors have the same size. */
  predicate Uniform(disk: seq<Sector>, ss: nat) {
    forall s :: 0 <= s < |disk| ==> |disk[s]| == ss
  }

  // ---------------------------------------------------------------- sector contents

  /** System ID in the partition table. */
  function SysId(p: Plan): Byte {
    if p.fmt == Fat32 then 0x0C
    else if p.fmt == Fat12 && p.nVol < 0x1_0000 then 0x01
    else if p.nVol < 0x1_0000 then 0x04
    else 0x06
  }

  /** `(BYTE)(n >> 2 | 63)` */
  function EndSector(n: nat): Byte {
    n / 4 % 0x100 / 0x40 * 0x40 + 63
  }

  /** Byte `i` of the master boot record with one partition. */
  function MbrByte(p: Plan, i: nat): Byte {
    var n := Quo(Quo(p.bVol + p.nVol, 63), 255);
    if i == 447 || i == 448 then 1
    else if i == 450 then SysId(p)
    else if i == 451 then 254
    else if i == 452 then EndSector(n)
    else if i == 453 then ByteOf(n, 0)
    else if 454 <= i < 458 then ByteOf(63, i - 454)
    else if 458 <= i < 462 then ByteOf(p.nVol, i - 458)
    else if i == 510 then 0x55
    else if i == 511 then 0xAA
    else 0
  }

  function Mbr(ss: nat, p: Plan): (s: Sector)
    ensures |s| == ss
  {
    seq(ss, i requires 0 <= i < ss => MbrByte(p, i))
  }

  /** The first bytes of a FAT: reserved entries, and on FAT32 the root directory's. */
  function HeadByte(fmt: FatType, md: Byte, i: nat): Byte {
    match fmt
    case Fat12 => if i == 0 then md else if i < 3 then 0xFF else 0
    case Fat16 => if i == 0 then md else if i < 4 then 0xFF else 0
    case Fat32 => if i == 0 then md else if i < 11 then 0xFF else if i == 11 then 0x0F else 0
  }

  function FatHead(ss: nat, fmt: FatType, md: Byte): (s: Sector)
    ensures |s| == ss
  {
    seq(ss, i requires 0 <= i < ss => HeadByte(fmt, md, i))
  }

  function Media(sfd: bool): Byte {
    if sfd then 0xF0 else 0xF8
  }

  /** Sectors of the root directory that f_mkfs clears. */
  function RootCleared(p: Plan): nat {
    if p.fmt == Fat32 then p.au else p.nDir
  }

  /** The drive after f_mkfs. */
  ghost predicate Formatted(disk: seq<Sector>, ss: nat, p: Plan, sfd: bool, time: nat) {
    && SectorSizeOk(ss) && p.au <= 128 && Uniform(disk, ss) && p.bVol == (if sfd then 0 else 63)
    && p.nRsv > 0 && (p.fmt == Fat32 ==> p.nRsv >= 32) && p.BDir() + RootCleared(p) <= |disk|
    && disk[p.bVol] == BootSector(ss, p, Media(sfd), time)
    && (!sfd ==> disk[0] == Mbr(ss, p))
    && (forall s :: p.BFat() <= s < p.BDir() ==>
          disk[s] == if s == p.BFat() then FatHead(ss, p.fmt, Media(sfd)) else Zeros(ss))
    && (forall s :: p.BDir() <= s < p.BDir() + RootCleared(p) ==> disk[s] == Zeros(ss))
    && (p.fmt == Fat32 ==> disk[p.bVol + 6] == BootSector(ss, p, Media(sfd), time))
    && (p.fmt == Fat32 && p.nClst > 0 ==>
          disk[p.bVol + 1] == FsInfo(ss, p.nClst - 1, 2) && disk[p.bVol + 7] == FsInfo(ss, p.nClst - 1, 2))
  }

  // ---------------------------------------------------------------- find_volume

  /** check_fs: 0 FAT boot sector, 1 other boot sector, 2 no boot sector, 3 disk error. */
  function CheckFs(disk: seq<Sector>, ss: nat, s: nat): nat
    requires SectorSizeOk(ss) && Uniform(disk, ss)
  {
    if s >= |disk| then 3
    else
      var w := disk[s];
      if LdWord(w, 510) != 0xAA55 then 2
      else if LdDword(w, 54) % 0x100_0000 == FAT_TAG || LdDword(w, 82) % 0x100_0000 == FAT_TAG then 0
      else 1
  }

  /** Start sector of partition `i`, 0 for an unused entry. */
  function Partition(w: Sector, i: nat): nat
    requires |w| >= 512 && i < 4
  {
    if w[446 + 16 * i + 4] != 0 then LdDword(w, 446 + 16 * i + 8) else 0
  }

  /** The four entries of the partition table. */
  lemma PartitionTable(w: Sector)
    requires |w| >= 512
    ensures Partition(w, 0) == if w[450] == 0 then 0 else LdDword(w, 454)
    ensures Partition(w, 1) == if w[466] == 0 then 0 else LdDword(w, 470)
    ensures Partition(w, 2) == if w[482] == 0 then 0 else LdDword(w, 486)
    ensures Partition(w, 3) == if w[498] == 0 then 0 else LdDword(w, 502)
  {
    hide LdDword;
  }

  /** What check_fs looks for: the signature, and "FAT" where either kind of boot sector has its type. */
  lemma CheckMeans(disk: seq<Sector>, ss: nat, s: nat)
    requires SectorSizeOk(ss) && Uniform(disk, ss)
    ensures CheckFs(disk, ss, s) == 3 <==> s >= |disk|
    ensures CheckFs(disk, ss, s) < 2 <==> s < |disk| && disk[s][510] == 0x55 && disk[s][511] == 0xAA
    ensures CheckFs(disk, ss, s) == 0 <==>
      && s < |disk| && disk[s][510] == 0x55 && disk[s][511] == 0xAA
      && (TextAt(disk[s], 54, "FAT") || TextAt(disk[s], 82, "FAT"))
  {
    if s < |disk| {
      ThreeLetters(disk[s], 54);
      ThreeLetters(disk[s], 82);
      hide TextAt;
    }
  }

  lemma ThreeLetters(w: Sector, o: nat)
    requires o + 4 <= |w|
    ensures LdDword(w, o) % 0x100_0000 == 0x544146 <==> TextAt(w, o, "FAT")
  {
    assert LdDword(w, o) % 0x100_0000 == w[o] as nat + 0x100 * w[o + 1] as nat + 0x1_0000 * w[o + 2] as nat;
    assert "FAT"[0] as int == 0x46 && "FAT"[1] as int == 0x41 && "FAT"[2] as int == 0x54;
  }

  /** The first FAT volume in the order of the table, and none if no entry leads to one. */
  lemma {:induction false} FirstPartitionMeans(disk: seq<Sector>, ss: nat, w: Sector, i: nat)
    requires SectorSizeOk(ss) && Uniform(disk, ss) && |w| >= 512 && i <= 4
    ensures FirstFatPartition(disk, ss, w, i) == None <==>
      forall j: nat :: i <= j < 4 ==> Partition(w, j) == 0 || CheckFs(disk, ss, Partition(w, j)) != 0
    ensures FirstFatPartition(disk, ss, w, i).Some? ==>
      exists j: nat ::
        && i <= j < 4 && FirstFatPartition(disk, ss, w, i) == Some(Partition(w, j)) && Partition(w, j) != 0
        && CheckFs(disk, ss, Partition(w, j)) == 0
        && forall k: nat :: i <= k < j ==> Partition(w, k) == 0 || CheckFs(disk, ss, Partition(w, k)) != 0
    decreases 4 - i
  {
    hide CheckFs, Partition;
    if i == 4 {
    } else {
      FirstPartitionMeans(disk, ss, w, i + 1);
    }
  }

  /** The first partition from `i` on that is a FAT volume. */
  function FirstFatPartition(disk: seq<Sector>, ss: nat, w: Sector, i: nat): Option<nat>
    requires SectorSizeOk(ss) && Uniform(disk, ss) && |w| >= 512 && i <= 4
    decreases 4 - i
  {
    if i == 4 then None
    else if Partition(w, i) != 0 && CheckFs(disk, ss, Partition(w, i)) == 0 then Some(Partition(w, i))
    else FirstFatPartition(disk, ss, w, i + 1)
  }

  /** Where find_volume finds the boot sector. */
  function BootAt(disk: seq<Sector>, ss: nat): Option<nat>
    requires SectorSizeOk(ss) && Uniform(disk, ss)
  {
    var fmt := CheckFs(disk, ss, 0);
    if fmt == 0 then Some(0) else if fmt == 1 then FirstFatPartition(disk, ss, disk[0], 0) else None
  }

  /** What find_volume reports. */
  datatype Verdict = Mounts | NoFileSystem | Unreadable

  /** The last check_fs result of the search: that of the FAT volume found, or of sector 0 or partition 3. */
  function LastCheck(disk: seq<Sector>, ss: nat): nat
    requires SectorSizeOk(ss) && Uniform(disk, ss)
  {
    if CheckFs(disk, ss, 0) != 1 then CheckFs(disk, ss, 0)
    else if FirstFatPartition(disk, ss, disk[0], 0).Some? then 0
    else if Partition(disk[0], 3) != 0 then CheckFs(disk, ss, Partition(disk[0], 3))
    else 2
  }

  /** The counts find_volume takes over from the FSINFO sector. */
  datatype Counts = Counts(free: nat, last: nat, disabled: bool)

  const NO_COUNTS: Counts := Counts(0xFFFF_FFFF, 0xFFFF_FFFF, true)

  function LoadCounts(disk: seq<Sector>, ss: nat, bsect: nat, m: Mounted): Counts
    requires SectorSizeOk(ss) && Uniform(disk, ss) && bsect < |disk|
  {
    if m.fatType == Fat32 && LdWord(disk[bsect], 48) == 1 && bsect + 1 < |disk| then
      var w := disk[bsect + 1];
      if FsInfoSigned(w) then Counts(LdDword(w, 488), LdDword(w, 492), false) else NO_COUNTS.(disabled := false)
    else NO_COUNTS
  }

  /** The signatures of an FSINFO sector. */
  lemma SignedMeans(w: Sector)
    requires |w| >= 512
    ensures FsInfoSigned(w) <==>
      TextAt(w, 0, "RRaA") && TextAt(w, 484, "rrAa") && w[510] == 0x55 && w[511] == 0xAA
  {
    FourLetters(w, 0);
    FourLetters(w, 484);
    hide TextAt, LdDword;
  }

  lemma FourLetters(w: Sector, o: nat)
    requires o + 4 <= |w|
    ensures TextAt(w, o, "RRaA") <==> LdDword(w, o) == 0x41615252
    ensures TextAt(w, o, "rrAa") <==> LdDword(w, o) == 0x61417272
  {
    assert TextAt(w, o, "RRaA") <==> w[o] == 0x52 && w[o + 1] == 0x52 && w[o + 2] == 0x61 && w[o + 3] == 0x41 by {
      assert "RRaA"[0] as int == 0x52 && "RRaA"[1] as int == 0x52;
      assert "RRaA"[2] as int == 0x61 && "RRaA"[3] as int == 0x41;
    }
    assert TextAt(w, o, "rrAa") <==> w[o] == 0x72 && w[o + 1] == 0x72 && w[o + 2] == 0x41 && w[o + 3] == 0x61 by {
      assert "rrAa"[0] as int == 0x72 && "rrAa"[1] as int == 0x72;
      assert "rrAa"[2] as int == 0x41 && "rrAa"[3] as int == 0x61;
    }
    hide TextAt;
  }

  /** The counts are taken over exactly on FAT32 with an FSINFO sector at its usual place, and then exactly if that is
      signed. */
  lemma CountsMean(disk: seq<Sector>, ss: nat, b: nat, m: Mounted)
    requires SectorSizeOk(ss) && Uniform(disk, ss) && b < |disk|
    ensures
      var c := LoadCounts(disk, ss, b, m);
      && (c.disabled <==> !(m.fatType == Fat32 && LdWord(disk[b], 48) == 1 && b + 1 < |disk|))
      && (c.disabled || !FsInfoSigned(disk[b + 1]) ==> c.free == 0xFFFF_FFFF && c.last == 0xFFFF_FFFF)
      && (!c.disabled && FsInfoSigned(disk[b + 1]) ==>
            c.free == LdDword(disk[b + 1], 488) && c.last == LdDword(disk[b + 1], 492))
  {
    hide LdWord, LdDword, FsInfoSigned;
  }

  /** find_volume; None is FR_NO_FILESYSTEM. */
  function Find(disk: seq<Sector>, ss: nat): (r: Option<(Mounted, Counts)>)
    requires SectorSizeOk(ss) && Uniform(disk, ss)
  {
    match BootAt(disk, ss)
    case None => None
    case Some(b) =>
      if b >= |disk| then None
      else
        match Accept(LoadBpb(disk[b]), b, ss)
        case None => None
        case Some(m) => Some((m, LoadCounts(disk, ss, b, m)))
  }

  /** A volume that is found starts with a FAT boot sector that is accepted: sector 0, or if that is another boot sector
      the first partition with one. */
  lemma FoundWhere(disk: seq<Sector>, ss: nat)
    requires SectorSizeOk(ss) && Uniform(disk, ss)
    ensures Find(disk, ss).Some? ==>
      var m := Find(disk, ss).value.0;
      && m.volBase < |disk| && CheckFs(disk, ss, m.volBase) == 0
      && Accept(LoadBpb(disk[m.volBase]), m.volBase, ss) == Some(m)
      && (CheckFs(disk, ss, 0) == 0 ==> m.volBase == 0)
      && (CheckFs(disk, ss, 0) != 0 ==>
            && CheckFs(disk, ss, 0) == 1
            && exists j: nat ::
              && j < 4 && m.volBase == Partition(disk[0], j) != 0
              && forall k: nat :: k < j ==> Partition(disk[0], k) == 0 || CheckFs(disk, ss, Partition(disk[0], k)) != 0)
    ensures Find(disk, ss).None? && CheckFs(disk, ss, 0) == 0 ==> Accept(LoadBpb(disk[0]), 0, ss) == None
  {
    hide LoadBpb, LoadCounts, LdDword, LdWord, SubType, NeededBytes;
    if CheckFs(disk, ss, 0) == 1 {
      FirstPartitionMeans(disk, ss, disk[0], 0);
    }
  }

  // ---------------------------------------------------------------- formatting, then mounting

  /** The boot sector of the new volume is the one find_volume finds. */
  lemma FindsNewVolume(disk: seq<Sector>, ss: nat, p: Plan, sfd: bool, time: nat)
    requires Formatted(disk, ss, p, sfd, time)
    ensures p.bVol < |disk| && BootAt(disk, ss) == Some(p.bVol)
  {
    BootSigned(ss, p, Media(sfd), time);
    if !sfd {
      MbrReads(ss, p);
    }
    hide BootSector, Mbr, FatHead, FsInfo, LdWord, LdDword, Zeros;
  }

  /** The master boot record: one partition entry, the type by sub-type and size, the end by cylinder, and zeros. */
  lemma MbrFields(ss: nat, p: Plan)
    requires SectorSizeOk(ss) && p.nVol < DWORD_MOD
    ensures
      var w := Mbr(ss, p);
      && w[446] == 0 && w[447] == 1 && w[448] == 1 && w[449] == 0 && w[451] == 254
      && w[450] == (match p.fmt
                    case Fat32 => 0x0C
                    case Fat16 => (if p.nVol < 0x1_0000 then 4 else 6)
                    case Fat12 => (if p.nVol < 0x1_0000 then 1 else 6))
      && LdDword(w, 454) == 63 && LdDword(w, 458) == p.nVol && LdWord(w, 510) == 0xAA55
  {
    DwordOfBytes(63);
    DwordOfBytes(p.nVol);
    hide Quo, ByteOf, EndSector;
  }

  /** The last cylinder, ten bits of it, and nothing elsewhere. */
  lemma MbrEnd(ss: nat, p: Plan)
    requires SectorSizeOk(ss)
    ensures
      var w := Mbr(ss, p);
      var cyl := (p.bVol + p.nVol) / 63 / 255;
      && w[452] % 64 == 63 && w[452] / 64 == cyl / 256 % 4 && w[453] == cyl % 256
      && forall i :: 0 <= i < 446 || 462 <= i < 510 || 512 <= i < ss ==> w[i] == 0
  {
    QuoRemAreDivMod(p.bVol + p.nVol, 63);
    QuoRemAreDivMod((p.bVol + p.nVol) / 63, 255);
    EndBits((p.bVol + p.nVol) / 63 / 255);
    hide Quo, EndSector, SysId;
  }

  /** The two high bits of the end sector are bits 8 and 9 of the cylinder. */
  lemma EndBits(n: nat)
    ensures EndSector(n) % 64 == 63 && EndSector(n) / 64 == n / 256 % 4
  {
    var a, r := n / 256, n % 256;
    var q, k := a / 4, a % 4;
    assert n == 1024 * q + 256 * k + r;
    assert n / 4 == 256 * q + (64 * k + r / 4);
    assert n / 4 % 0x100 == 64 * k + r / 4;
  }

  lemma MbrReads(ss: nat, p: Plan)
    requires SectorSizeOk(ss)
    ensures
      var w := Mbr(ss, p);
      && LdWord(w, 510) == 0xAA55 && LdDword(w, 54) == 0 && LdDword(w, 82) == 0 && Partition(w, 0) == 63
  {}

  /** After f_mkfs, find_volume accepts the volume exactly when the aligned data area holds a cluster; it then finds the
      plan's sub-type, cluster count and data start, and on FAT32 the FSINFO counts. */
  lemma FormatThenMount(disk: seq<Sector>, ss: nat, sfd: bool, nVol: nat, au: nat, blk: nat, time: nat)
    requires SectorSizeOk(ss) && PowerOfTwo(au) && au <= 128 && NoOverflow(if sfd then 0 else 63, nVol, au)
    requires Layout(ss, if sfd then 0 else 63, nVol, au, blk).Some?
    requires Formatted(disk, ss, Layout(ss, if sfd then 0 else 63, nVol, au, blk).value, sfd, time)
    ensures
      var p := Layout(ss, if sfd then 0 else 63, nVol, au, blk).value;
      Find(disk, ss) ==
        if Overhead(p) + au > nVol then None
        else Some((MountedPlan(p), if p.fmt == Fat32 then Counts(p.nClst - 1, 2, false) else NO_COUNTS))
  {
    var bVol := if sfd then 0 else 63;
    hide Layout, BootSector, Mbr, FatHead, FsInfo, LdWord, LdDword, LoadBpb, Accept, FsInfoSigned, PowerOfTwo;
    hide FirstFatSize, Quo, Rem;
    PositivePower(au);
    PlanFacts(ss, bVol, nVol, au, blk);
    var p := Layout(ss, bVol, nVol, au, blk).value;
    FindsNewVolume(disk, ss, p, sfd, time);
    MountAgrees(ss, bVol, nVol, au, blk, Media(sfd), time);
    if p.fmt == Fat32 && Overhead(p) + au <= nVol {
      FsInfoBit(ss, p, Media(sfd), time);
      ClusterBound(nVol - Overhead(p), au);
      FsInfoReadsBack(ss, p.nClst - 1, 2);
    }
  }

  lemma FsInfoBit(ss: nat, p: Plan, md: Byte, time: nat)
    requires SectorSizeOk(ss) && p.au <= 128 && p.fmt == Fat32
    ensures LdWord(BootSector(ss, p, md, time), 48) == 1
  {}

  // ---------------------------------------------------------------- the new volume is empty

  function GeometryOf(m: Mounted, ss: nat, nSect: nat): Geometry {
    Geometry(m.fatType, ss, m.csize, m.nFats, m.nRootDir, m.nFatEnt, m.fsize, m.volBase, m.fatBase, m.dirBase,
      m.dataBase, nSect)
  }

  /** The fields of a parameter block have the widths in which the boot sector stores them. */
  predicate InWidth(b: Bpb) {
    && b.csize < 0x100 && b.nrsv < 0x1_0000 && b.nFats < 0x100 && b.nRootDir < 0x1_0000
    && b.tsect < DWORD_MOD && b.fsize < DWORD_MOD && b.rootClus < DWORD_MOD
  }

  lemma LoadedInWidth(w: Sector)
    requires |w| >= 512
    ensures InWidth(LoadBpb(w))
  {}

  /** Sectors of all FAT copies. */
  function FatSectors(b: Bpb): nat {
    if b.nFats == 2 then 2 * b.fsize else b.fsize
  }

  /** The sum of the sectors in front of the data area does not wrap. */
  predicate Unwrapped(b: Bpb, ss: nat)
    requires SectorSizeOk(ss)
  {
    b.nrsv + FatSectors(b) + Quo(b.nRootDir, ss / 32) < DWORD_MOD
  }

  /** Where an accepted volume has its areas: the reserved sectors, all copies of the FAT, the root directory unless it
      is FAT32, and then as many whole clusters as the volume has room for. */
  lemma MountedAreas(b: Bpb, bsect: nat, ss: nat)
    requires SectorSizeOk(ss) && InWidth(b) && Accept(b, bsect, ss).Some? && Unwrapped(b, ss)
    ensures
      var m := Accept(b, bsect, ss).value;
      && m.volBase == bsect && m.fatBase == bsect + b.nrsv && m.csize == b.csize && m.nRootDir == b.nRootDir
      && (m.fatType == Fat32 ==> m.dirBase == b.rootClus)
      && (m.fatType != Fat32 ==>
            m.dirBase == m.fatBase + FatSectors(b) && m.dirBase + Quo(b.nRootDir, ss / 32) == m.dataBase)
      && m.dataBase == m.fatBase + FatSectors(b) + Quo(b.nRootDir, ss / 32)
    ensures
      var m := Accept(b, bsect, ss).value;
      m.nFatEnt >= 3 ==>
        m.dataBase + Times(m.nFatEnt - 2, b.csize) <= bsect + b.tsect < m.dataBase + Times(m.nFatEnt - 1, b.csize)
  {
    hide PowerOfTwo, Quo, Rem, Times, Accept, NeededBytes, SubType;
    AcceptedFacts(b, bsect, ss);
    var left := b.tsect - (b.nrsv + FatSectors(b) + Quo(b.nRootDir, ss / 32));
    ClusterBound(left, b.csize);
    QuoRem(left, b.csize);
    TimesAdd(Quo(left, b.csize), 1, b.csize);
    TimesIsProduct(1, b.csize);
  }

  /** What a valid mounted volume takes over from its boot sector. Its static root directory lies between the FATs and
      the data area, where every directory function looks for it. */
  lemma MountedRoot(b: Bpb, bsect: nat, ss: nat, nSect: nat)
    requires SectorSizeOk(ss) && InWidth(b) && Accept(b, bsect, ss).Some?
    requires GeometryOf(Accept(b, bsect, ss).value, ss, nSect).Valid()
    ensures Unwrapped(b, ss) && RootOk(GeometryOf(Accept(b, bsect, ss).value, ss, nSect))
    ensures
      var g := GeometryOf(Accept(b, bsect, ss).value, ss, nSect);
      && g.ss == ss && g.nSect == nSect && g.csize == b.csize && g.nFats == b.nFats && g.fatSize == b.fsize
      && g.nRootDir == b.nRootDir && g.volBase == bsect && g.fatBase == bsect + b.nrsv
      && g.FatEnd() == bsect + b.nrsv + FatSectors(b)
      && g.dirBase == (if g.fatType == Fat32 then b.rootClus else g.FatEnd())
      && g.dataBase == g.FatEnd() + Quo(b.nRootDir, ss / 32)
  {
    hide PowerOfTwo, Quo, Rem, Times, Accept, NeededBytes, SubType;
    AcceptedFacts(b, bsect, ss);
    ValidIsUnwrapped(b, bsect, ss, nSect);
    MountedAreas(b, bsect, ss);
    AcceptedRoot(b, bsect, ss);
  }

  lemma ValidIsUnwrapped(b: Bpb, bsect: nat, ss: nat, nSect: nat)
    requires SectorSizeOk(ss) && InWidth(b) && Accept(b, bsect, ss).Some?
    requires GeometryOf(Accept(b, bsect, ss).value, ss, nSect).Valid()
    ensures Unwrapped(b, ss)
  {
    hide PowerOfTwo, Quo, Rem, Times, Accept, NeededBytes, SubType;
    AcceptedFacts(b, bsect, ss);
  }

  /** The same of the volume that find_volume finds on a drive. */
  lemma FoundRoot(disk: seq<Sector>, ss: nat)
    requires SectorSizeOk(ss) && Uniform(disk, ss) && Find(disk, ss).Some?
    requires GeometryOf(Find(disk, ss).value.0, ss, |disk|).Valid()
    ensures RootOk(GeometryOf(Find(disk, ss).value.0, ss, |disk|))
  {
    hide BootAt, LoadBpb, Accept, LoadCounts, RootOk, Unwrapped;
    var s := BootAt(disk, ss).value;
    LoadedInWidth(disk[s]);
    MountedRoot(LoadBpb(disk[s]), s, ss, |disk|);
  }

  lemma AcceptedRoot(b: Bpb, bsect: nat, ss: nat)
    requires SectorSizeOk(ss) && Accept(b, bsect, ss).Some?
    ensures Rem(b.nRootDir, ss / 32) == 0
  {
    hide Quo, Rem, PowerOfTwo, NeededBytes, SubType;
  }

  /** A volume that find_volume accepts and that lies within the medium has a valid geometry exactly when the FAT size
      does not wrap and, on FAT32, there is room for FSINFO in front of the FAT and 28 bits can name every cluster. */
  lemma MountedIsValid(b: Bpb, bsect: nat, ss: nat, nSect: nat)
    requires SectorSizeOk(ss) && InWidth(b) && Accept(b, bsect, ss).Some? && bsect + b.tsect <= nSect <= DWORD_MOD
    ensures
      var m := Accept(b, bsect, ss).value;
      GeometryOf(m, ss, nSect).Valid() <==>
        Unwrapped(b, ss) && (m.fatType == Fat32 ==> b.nrsv >= 2 && m.nFatEnt <= 0x0FFF_FFFF)
    ensures
      var g := GeometryOf(Accept(b, bsect, ss).value, ss, nSect);
      g.Valid() ==> RootOk(g)
  {
    hide PowerOfTwo, Quo, Rem, Times, Accept, NeededBytes, SubType, RootOk;
    AcceptedFacts(b, bsect, ss);
    var m := Accept(b, bsect, ss).value;
    if Unwrapped(b, ss) && (m.fatType == Fat32 ==> b.nrsv >= 2 && m.nFatEnt <= 0x0FFF_FFFF) {
      EnoughForValid(b, bsect, ss, nSect);
      MountedRoot(b, bsect, ss, nSect);
    }
  }

  /** The same of what find_volume finds on a drive. */
  lemma FoundIsValid(disk: seq<Sector>, ss: nat)
    requires SectorSizeOk(ss) && Uniform(disk, ss) && Find(disk, ss).Some? && |disk| <= DWORD_MOD
    requires
      var b := BootAt(disk, ss).value;
      b + LoadBpb(disk[b]).tsect <= |disk|
    ensures
      var b := LoadBpb(disk[BootAt(disk, ss).value]);
      var m := Find(disk, ss).value.0;
      GeometryOf(m, ss, |disk|).Valid() <==>
        Unwrapped(b, ss) && (m.fatType == Fat32 ==> b.nrsv >= 2 && m.nFatEnt <= 0x0FFF_FFFF)
    ensures
      var g := GeometryOf(Find(disk, ss).value.0, ss, |disk|);
      g.Valid() ==> RootOk(g)
  {
    hide BootAt, LoadBpb, Accept, LoadCounts, Unwrapped, RootOk;
    var s := BootAt(disk, ss).value;
    LoadedInWidth(disk[s]);
    MountedIsValid(LoadBpb(disk[s]), s, ss, |disk|);
  }

  lemma EnoughForValid(b: Bpb, bsect: nat, ss: nat, nSect: nat)
    requires SectorSizeOk(ss) && InWidth(b) && Accept(b, bsect, ss).Some? && bsect + b.tsect <= nSect <= DWORD_MOD
    requires
      var m := Accept(b, bsect, ss).value;
      Unwrapped(b, ss) && (m.fatType == Fat32 ==> b.nrsv >= 2 && m.nFatEnt <= 0x0FFF_FFFF)
    ensures GeometryOf(Accept(b, bsect, ss).value, ss, nSect).Valid()
  {
    hide PowerOfTwo, Quo, Rem, Times, Accept, SubType, NeededBytes;
    AcceptedFacts(b, bsect, ss);
    var m := Accept(b, bsect, ss).value;
    var left := b.tsect - (b.nrsv + FatSectors(b) + Quo(b.nRootDir, ss / 32));
    QuoRem(left, b.csize);
    ClusterBound(left, b.csize);
    EntriesInRange(m.fatType, Quo(left, b.csize), m.nFatEnt);
    NeededFits(m.fatType, m.nFatEnt, ss, b.fsize);
  }

  /** Outside FAT32 the cluster count decides the FAT type so that every number fits an entry. */
  lemma EntriesInRange(fmt: FatType, nClst: nat, nFatEnt: nat)
    requires fmt == SubType(nClst) && 0 < nClst && nFatEnt == (nClst + 2) % DWORD_MOD
    requires fmt == Fat32 ==> nClst < DWORD_MOD - 2 && nFatEnt <= 0x0FFF_FFFF
    ensures nFatEnt == nClst + 2
    ensures nFatEnt < (match fmt case Fat12 => 0x1000 case Fat16 => 0x1_0000 case Fat32 => 0x1000_0000)
  {}

  /** What the tests of find_volume leave. */
  lemma AcceptedFacts(b: Bpb, bsect: nat, ss: nat)
    requires SectorSizeOk(ss) && InWidth(b) && Accept(b, bsect, ss).Some?
    ensures
      var m := Accept(b, bsect, ss).value;
      var root := Quo(b.nRootDir, ss / 32);
      var sysect := (b.nrsv + FatSectors(b) % DWORD_MOD + root) % DWORD_MOD;
      && 1 <= b.csize <= 128 && (b.nFats == 1 || b.nFats == 2) && b.nrsv > 0 && root < 0x1_0000
      && sysect <= b.tsect
      && m == Mounted(SubType(Quo(b.tsect - sysect, b.csize)), b.csize, b.nFats, b.fsize, b.nRootDir,
                      (Quo(b.tsect - sysect, b.csize) + 2) % DWORD_MOD, bsect, bsect + b.nrsv,
                      if m.fatType == Fat32 then b.rootClus else bsect + b.nrsv + FatSectors(b) % DWORD_MOD,
                      bsect + sysect)
      && Quo(b.tsect - sysect, b.csize) > 0
      && b.fsize >= Quo((NeededBytes(m.fatType, m.nFatEnt) + (ss - 1)) % DWORD_MOD, ss)
  {
    assert PowerOfTwo(128);
    PositivePower(b.csize);
    PowerBelow(b.csize, 128);
    ClusterBound(b.nRootDir, ss / 32);
  }

  lemma NeededFits(fmt: FatType, nFatEnt: nat, ss: nat, fsize: nat)
    requires SectorSizeOk(ss) && nFatEnt <= 0x0FFF_FFFF
    requires fsize >= Quo((NeededBytes(fmt, nFatEnt) + (ss - 1)) % DWORD_MOD, ss)
    ensures (match fmt case Fat12 => nFatEnt * 3 / 2 + nFatEnt % 2 case Fat16 => nFatEnt * 2 case Fat32 => nFatEnt * 4)
         <= Times(fsize, ss)
  {
    hide Quo, Times;
    var n := NeededBytes(fmt, nFatEnt);
    assert n <= 0x3FFF_FFFC;
    assert (n + (ss - 1)) % DWORD_MOD == n + (ss - 1);
    RoundedUp(n, ss, fsize);
  }

  /** A FAT32 volume with one reserved sector is accepted, and sync_fs writes FSINFO where its FAT begins. */
  lemma FsInfoOverFat()
    ensures
      var a := Accept(Bpb(512, 1, 1, 1, 0, 66201, 600, 2), 0, 512);
      && a.Some? && a.value.fatType == Fat32 && a.value.volBase + 1 == a.value.fatBase
      && !GeometryOf(a.value, 512, 70000).Valid()
  {
    hide Quo, Rem;
    QuoRemAreDivMod(0, 16);
    QuoRemAreDivMod(65600, 1);
    QuoRemAreDivMod(262919, 512);
  }

  /** A volume with two FATs of 0x80000001 sectors is accepted: their sum wraps to 2. */
  lemma FatSizeWraps()
    ensures
      var a := Accept(Bpb(512, 1, 1, 2, 16, 14, 0x8000_0001, 0), 0, 512);
      && a.Some? && a.value.fatType == Fat12 && a.value.dataBase == 4
      && !GeometryOf(a.value, 512, 14).Valid()
  {
    hide Quo, Rem;
    QuoRemAreDivMod(16, 16);
    QuoRemAreDivMod(10, 1);
    QuoRemAreDivMod(529, 512);
  }

  /** A FAT32 volume with 0x10000000 entries is accepted, although an entry cannot name its last cluster. */
  lemma TooManyEntries()
    ensures
      var a := Accept(Bpb(512, 1, 32, 1, 0, 0x1020_001E, 0x20_0000, 2), 0, 512);
      && a.Some? && a.value.fatType == Fat32 && a.value.nFatEnt == 0x1000_0000
      && !GeometryOf(a.value, 512, 0x1020_001E).Valid()
  {
    hide Quo, Rem;
    QuoRemAreDivMod(0, 16);
    QuoRemAreDivMod(0x0FFF_FFFE, 1);
    QuoRemAreDivMod(0x4000_01FF, 512);
  }

  /** What the plan must satisfy for the mounted volume to be valid: the data area fits and entries can name all
      clusters. */
  ghost predicate Mountable(disk: seq<Sector>, ss: nat, p: Plan) {
    && SectorSizeOk(ss) && 1 <= p.au <= 128 && p.nRsv > 0 && (p.fmt == Fat32 ==> p.nRsv >= 2) && p.nClst > 0
    && Overhead(p) + Times(p.nClst, p.au) <= p.nVol && p.bVol + p.nVol <= |disk| <= DWORD_MOD
    && NeededBytes(p.fmt, p.nClst + 2) <= Times(p.nFat, ss)
    && p.nClst + 2 < (match p.fmt case Fat12 => 0x1000 case Fat16 => 0x1_0000 case Fat32 => 0x1000_0000)
  }

  lemma PlanIsMountable(disk: seq<Sector>, ss: nat, bVol: nat, nVol: nat, au: nat, blk: nat)
    requires SectorSizeOk(ss) && 0 < au <= 128 && NoOverflow(bVol, nVol, au) && Layout(ss, bVol, nVol, au, blk).Some?
    requires bVol + nVol <= |disk| <= DWORD_MOD && Quo(nVol, au) + 2 < 0x1000_0000
    requires
      var p := Layout(ss, bVol, nVol, au, blk).value;
      Overhead(p) + au <= nVol
    ensures Mountable(disk, ss, Layout(ss, bVol, nVol, au, blk).value)
  {
    hide Layout, FirstFatSize, Quo, Rem, Times, NeededBytes;
    PlanFacts(ss, bVol, nVol, au, blk);
    var p := Layout(ss, bVol, nVol, au, blk).value;
    ClusterBound(nVol - Overhead(p), au);
    QuoRem(nVol - Overhead(p), au);
    QuoMono(nVol - Overhead(p), nVol, au);
    FatLargeEnough(ss, p.fmt, Quo(nVol, au), p.nClst);
    RoundedUp(NeededBytes(p.fmt, p.nClst + 2), ss, p.nFat);
  }

  lemma RoundedUp(n: nat, d: nat, k: nat)
    requires d > 0 && Quo(n + (d - 1), d) <= k
    ensures n <= Times(k, d)
  {
    QuoRem(n + (d - 1), d);
    TimesMono(Quo(n + (d - 1), d), k, d);
  }

  /** The two reserved entries of a new FAT: the media byte under set bits, and all bits set. So a scan that counts zero
      entries does not count them. */
  lemma ReservedEntries(disk: seq<Sector>, ss: nat, p: Plan, sfd: bool, time: nat)
    requires Formatted(disk, ss, p, sfd, time) && Mountable(disk, ss, p)
    ensures
      var g := GeometryOf(MountedPlan(p), ss, |disk|);
      && g.Valid() && ImageOk(g, disk)
      && Entry(g, disk, 1) == (match p.fmt case Fat12 => 0xFFF case Fat16 => 0xFFFF case Fat32 => 0x0FFF_FFFF)
      && Entry(g, disk, 0) == Entry(g, disk, 1) - 0xFF + if sfd then 0xF0 else 0xF8
  {
    hide Formatted, Mountable, FatByte, Times, Uniform, ImageOk;
    var g := GeometryOf(MountedPlan(p), ss, |disk|);
    FormattedUniform(disk, ss, p, sfd, time);
    GeometryValid(disk, ss, p);
    EntryInFat(g, 0);
    EntryInFat(g, 1);
    forall i: nat | i < Times(g.fatSize, ss)
      ensures FatByte(g, disk, i) == HeadByte(p.fmt, Media(sfd), i)
    {
      FreshByte(disk, ss, p, sfd, time, i);
    }
  }

  /** The mounted geometry is valid, no cluster is in use but the root directory's on FAT32, and the free count in
      FSINFO is the number of zero entries. */
  lemma NewVolumeIsEmpty(disk: seq<Sector>, ss: nat, p: Plan, sfd: bool, time: nat)
    requires Formatted(disk, ss, p, sfd, time) && Mountable(disk, ss, p)
    ensures
      var g := GeometryOf(MountedPlan(p), ss, |disk|);
      && g.Valid() && ImageOk(g, disk)
      && FreeCount(FatMap(g, disk)) == (if p.fmt == Fat32 then p.nClst - 1 else p.nClst)
      && (p.fmt == Fat32 ==> IsChain(FatMap(g, disk), [2]))
  {
    hide Formatted, Mountable, Entry, Uniform, ImageOk;
    var g := GeometryOf(MountedPlan(p), ss, |disk|);
    FormattedUniform(disk, ss, p, sfd, time);
    GeometryValid(disk, ss, p);
    forall c | 2 <= c < g.nFatEnt
      ensures Entry(g, disk, c) == if p.fmt == Fat32 && c == 2 then 0x0FFF_FFFF else 0
    {
      FreshEntry(disk, ss, p, sfd, time, c);
    }
    var fat := FatMap(g, disk);
    if p.fmt == Fat32 {
      FreeButOne(fat, g.nFatEnt);
    } else {
      AllFree(fat, g.nFatEnt);
    }
  }

  lemma GeometryValid(disk: seq<Sector>, ss: nat, p: Plan)
    requires Mountable(disk, ss, p) && Uniform(disk, ss) && p.bVol < 64
    ensures GeometryOf(MountedPlan(p), ss, |disk|).Valid() && ImageOk(GeometryOf(MountedPlan(p), ss, |disk|), disk)
  {}

  lemma FreshEntry(disk: seq<Sector>, ss: nat, p: Plan, sfd: bool, time: nat, c: nat)
    requires Formatted(disk, ss, p, sfd, time) && Mountable(disk, ss, p) && 2 <= c < p.nClst + 2
    ensures
      var g := GeometryOf(MountedPlan(p), ss, |disk|);
      && g.Valid() && ImageOk(g, disk)
      && Entry(g, disk, c) == if p.fmt == Fat32 && c == 2 then 0x0FFF_FFFF else 0
  {
    hide Formatted, Mountable, FatByte, Times, Uniform, ImageOk;
    var g := GeometryOf(MountedPlan(p), ss, |disk|);
    FormattedUniform(disk, ss, p, sfd, time);
    GeometryValid(disk, ss, p);
    EntryInFat(g, c);
    forall i: nat | i < Times(g.fatSize, ss)
      ensures FatByte(g, disk, i) == HeadByte(p.fmt, Media(sfd), i)
    {
      FreshByte(disk, ss, p, sfd, time, i);
    }
  }

  lemma FormattedUniform(disk: seq<Sector>, ss: nat, p: Plan, sfd: bool, time: nat)
    requires Formatted(disk, ss, p, sfd, time)
    ensures Uniform(disk, ss) && p.bVol < 64
  {}

  lemma FreshByte(disk: seq<Sector>, ss: nat, p: Plan, sfd: bool, time: nat, i: nat)
    requires Formatted(disk, ss, p, sfd, time) && Mountable(disk, ss, p) && i < Times(p.nFat, ss)
    ensures
      var g := GeometryOf(MountedPlan(p), ss, |disk|);
      && g.Valid() && ImageOk(g, disk)
      && FatByte(g, disk, i) == HeadByte(p.fmt, Media(sfd), i)
  {
    GeometryValid(disk, ss, p);
    QuoBelow(i, p.nFat, ss);
    QuoRem(i, ss);
    if i < ss {
      assert Quo(i, ss) == 0 && Rem(i, ss) == i;
    } else {
      assert Quo(i, ss) == Quo(i - ss, ss) + 1;
    }
  }

  lemma {:induction false} FreeButOne(fat: FatTable, i: nat)
    requires 3 <= i <= |fat| && fat[2] != 0 && forall c :: 3 <= c < i ==> fat[c] == 0
    ensures Free(fat, i) == i - 3
  {
    if i == 3 {
      assert Free(fat, 2) == 0;
    } else {
      FreeButOne(fat, i - 1);
    }
  }
}
