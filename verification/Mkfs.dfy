/** Formatting (f_mkfs) and mounting (find_volume): the geometry both compute, and that they agree. */
module Mkfs {
  import opened Arith
  import opened Bytes
  import opened Fat

  const MIN_FAT16: nat := 4086
  const MIN_FAT32: nat := 65526
  const N_ROOTDIR: nat := 512
  const ROOT_BYTES: nat := 16384  // N_ROOTDIR * SZ_DIR
  const FAT_TAG: nat := 0x544146  // "FAT"

  predicate SectorSizeOk(ss: nat) {
    ss == 512 || ss == 1024 || ss == 2048 || ss == 4096
  }

  /** FAT sub-type by the number of clusters. */
  function SubType(nClst: nat): FatType {
    if nClst >= MIN_FAT32 then Fat32 else if nClst >= MIN_FAT16 then Fat16 else Fat12
  }

  /** The narrowest type whose cluster numbers all lie below its bad-cluster mark, 0xFF7 or 0xFFF7: the last of `nClst`
      clusters has the number `nClst + 1`. */
  lemma SubTypeMeans(nClst: nat)
    ensures SubType(nClst) == Fat12 <==> nClst + 1 < 0xFF7
    ensures SubType(nClst) == Fat16 <==> 0xFF7 <= nClst + 1 < 0xFFF7
  {}

  /** What f_mkfs settles before it writes. Sizes are in sectors. */
  datatype Plan = Plan(fmt: FatType, au: nat, bVol: nat, nVol: nat, nRsv: nat, nFat: nat, nDir: nat, nClst: nat) {
    function BFat(): nat { bVol + nRsv }

    function BDir(): nat { BFat() + nFat }

    function BData(): nat { BDir() + nDir }
  }

  /** FAT size before alignment, from the provisional number of clusters. */
  function FirstFatSize(ss: nat, fmt: FatType, nClst: nat): nat
    requires ss > 0
  {
    match fmt
    case Fat12 => Quo((nClst * 3 + 1) / 2 + 3 + ss - 1, ss)
    case Fat16 => Quo(nClst * 2 + 4 + ss - 1, ss)
    case Fat32 => Quo((nClst * 4 + 8 + ss - 1) % DWORD_MOD, ss)
  }

  /** `(b + n - 1) & ~(n - 1)`: clears the bits of the mask. */
  function AlignUp(b: nat, n: nat): (r: nat)
    requires n > 0
  {
    var x := (b + n - 1) % DWORD_MOD;
    x - And(x, n - 1)
  }

  /** Distance from the data start to the next erase block boundary; `blk` as the driver reports the erase block. */
  function Gap(bData: nat, blk: nat): nat {
    var n := if blk == 0 || blk > 32768 then 1 else blk;
    (AlignUp(bData, n) - bData) % DWORD_MOD
  }

  /** The plan before alignment, with the provisional number of clusters. */
  function FirstPlan(ss: nat, bVol: nat, nVol: nat, au: nat): Plan
    requires SectorSizeOk(ss) && au > 0
  {
    var nClst0 := Quo(nVol, au);
    var fmt := SubType(nClst0);
    Plan(fmt, au, bVol, nVol, if fmt == Fat32 then 32 else 1, FirstFatSize(ss, fmt, nClst0),
         if fmt == Fat32 then 0 else Quo(ROOT_BYTES, ss), nClst0)
  }

  /** Aligns the data start: FAT32 moves the FAT, FAT12 and FAT16 expand it. */
  function Aligned(p: Plan, gap: nat): Plan
    requires p.au > 0
  {
    var nRsv := if p.fmt == Fat32 then p.nRsv + gap else p.nRsv;
    var nFat := if p.fmt == Fat32 then p.nFat else p.nFat + gap;
    p.(nRsv := nRsv, nFat := nFat, nClst := Quo((p.nVol - nRsv - nFat - p.nDir) % DWORD_MOD, p.au))
  }

  /** The arithmetic of f_mkfs on unsigned 32-bit words; `au` in sectors. None is FR_MKFS_ABORTED. */
  function Layout(ss: nat, bVol: nat, nVol: nat, au: nat, blk: nat): Option<Plan>
    requires SectorSizeOk(ss) && au > 0
  {
    var p := FirstPlan(ss, bVol, nVol, au);
    if nVol < p.BData() + au - bVol then None
    else
      var q := Aligned(p, Gap(p.BData(), blk));
      if (q.fmt == Fat16 && q.nClst < MIN_FAT16) || (q.fmt == Fat32 && q.nClst < MIN_FAT32) then None else Some(q)
  }

  /** The 32-bit sums of f_mkfs do not wrap. */
  predicate NoOverflow(bVol: nat, nVol: nat, au: nat)
    requires au > 0
  {
    nVol < DWORD_MOD - 0x1_0000 && bVol < 64 && 4 * Quo(nVol, au) + 0x1_0000 < DWORD_MOD
  }

  // ---------------------------------------------------------------- the boot sector

  /** Byte `k` of a value. */
  function ByteOf(v: nat, k: nat): Byte
    requires k < 4
  {
    match k
    case 0 => v % 0x100
    case 1 => v / 0x100 % 0x100
    case 2 => v / 0x1_0000 % 0x100
    case 3 => v / 0x100_0000 % 0x100
  }

  const JUMP: seq<Byte> := [0xEB, 0xFE, 0x90, 0x4D, 0x53, 0x44, 0x4F, 0x53, 0x35, 0x2E, 0x30]
  const LABEL: seq<Byte> := [0x4E, 0x4F, 0x20, 0x4E, 0x41, 0x4D, 0x45, 0x20, 0x20, 0x20, 0x20]
  const TYPE32: seq<Byte> := [0x46, 0x41, 0x54, 0x33, 0x32, 0x20, 0x20, 0x20]
  const TYPE16: seq<Byte> := [0x46, 0x41, 0x54, 0x20, 0x20, 0x20, 0x20, 0x20]

  /** Byte `i` of the boot sector f_mkfs writes. */
  function BootByte(ss: nat, p: Plan, md: Byte, time: nat, i: nat): Byte
    requires p.au <= 128
  {
    if i < 11 then JUMP[i]
    else if i < 13 then ByteOf(ss, i - 11)
    else if i == 13 then p.au
    else if i < 16 then ByteOf(p.nRsv, i - 14)
    else if i == 16 then 1
    else if i < 19 then ByteOf(if p.fmt == Fat32 then 0 else N_ROOTDIR, i - 17)
    else if i < 21 then ByteOf(if p.nVol < 0x1_0000 then p.nVol else 0, i - 19)
    else if i == 21 then md
    else if i < 24 then ByteOf(if p.fmt == Fat32 then 0 else p.nFat, i - 22)
    else if i < 26 then ByteOf(63, i - 24)
    else if i < 28 then ByteOf(255, i - 26)
    else if i < 32 then ByteOf(p.bVol, i - 28)
    else if i < 36 then ByteOf(if p.nVol < 0x1_0000 then 0 else p.nVol, i - 32)
    else if i == 510 then 0x55
    else if i == 511 then 0xAA
    else if p.fmt == Fat32 then
      if i < 40 then ByteOf(p.nFat, i - 36)
      else if 44 <= i < 48 then ByteOf(2, i - 44)
      else if 48 <= i < 50 then ByteOf(1, i - 48)
      else if 50 <= i < 52 then ByteOf(6, i - 50)
      else if i == 64 then 0x80
      else if i == 66 then 0x29
      else if 67 <= i < 71 then ByteOf(time, i - 67)
      else if 71 <= i < 82 then LABEL[i - 71]
      else if 82 <= i < 90 then TYPE32[i - 82]
      else 0
    else if i == 36 then 0x80
    else if i == 38 then 0x29
    else if 39 <= i < 43 then ByteOf(time, i - 39)
    else if 43 <= i < 54 then LABEL[i - 43]
    else if 54 <= i < 62 then TYPE16[i - 54]
    else 0
  }

  function BootSector(ss: nat, p: Plan, md: Byte, time: nat): (s: Sector)
    requires p.au <= 128
    ensures |s| == ss
  {
    seq(ss, i requires 0 <= i < ss => BootByte(ss, p, md, time, i))
  }

  /** The text `s` stands at offset `o`. */
  predicate TextAt(w: Sector, o: nat, s: string) {
    o + |s| <= |w| && forall i :: 0 <= i < |s| ==> w[o + i] == s[i] as int
  }

  /** The fields of the boot sector where FAT file systems have them. */
  lemma BootFields(ss: nat, p: Plan, md: Byte, time: nat)
    requires SectorSizeOk(ss) && Fits(p) && p.bVol < DWORD_MOD && time < DWORD_MOD
    ensures
      var w := BootSector(ss, p, md, time);
      && w[0] == 0xEB && w[1] == 0xFE && w[2] == 0x90 && TextAt(w, 3, "MSDOS5.0")
      && LdWord(w, 11) == ss && w[13] == p.au && LdWord(w, 14) == p.nRsv && w[16] == 1 && w[21] == md
      && LdWord(w, 24) == 63 && LdWord(w, 26) == 255 && LdDword(w, 28) == p.bVol && LdWord(w, 510) == 0xAA55
      && LdWord(w, 17) == (if p.fmt == Fat32 then 0 else 512)
      && LdWord(w, 19) == (if p.nVol < 0x1_0000 then p.nVol else 0)
      && LdWord(w, 22) == (if p.fmt == Fat32 then 0 else p.nFat)
      && LdDword(w, 32) == (if p.nVol < 0x1_0000 then 0 else p.nVol)
  {
    hide BootSector, LdWord, LdDword, TextAt;
    BootReadsCommon(ss, p, md, time);
    BootReadsSizes(ss, p, md, time);
    BootStart(ss, p, md, time);
  }

  lemma BootStart(ss: nat, p: Plan, md: Byte, time: nat)
    requires SectorSizeOk(ss) && Fits(p) && p.bVol < DWORD_MOD
    ensures
      var w := BootSector(ss, p, md, time);
      && w[0] == 0xEB && w[1] == 0xFE && w[2] == 0x90 && TextAt(w, 3, "MSDOS5.0") && w[21] == md
      && LdWord(w, 24) == 63 && LdWord(w, 26) == 255 && LdDword(w, 28) == p.bVol && LdWord(w, 510) == 0xAA55
  {
    WordOfBytes(63);
    WordOfBytes(255);
    DwordOfBytes(p.bVol);
    hide ByteOf;
  }

  /** The fields behind them on FAT32, and zeros. */
  lemma BootTail32(ss: nat, p: Plan, md: Byte, time: nat)
    requires SectorSizeOk(ss) && Fits(p) && time < DWORD_MOD && p.fmt == Fat32
    ensures
      var w := BootSector(ss, p, md, time);
      && LdDword(w, 36) == p.nFat && LdDword(w, 44) == 2 && LdWord(w, 48) == 1 && LdWord(w, 50) == 6
      && w[64] == 0x80 && w[66] == 0x29 && LdDword(w, 67) == time && TextAt(w, 71, "NO NAME    FAT32   ")
      && forall i :: 40 <= i < 44 || 52 <= i < 64 || i == 65 || 90 <= i < 510 || 512 <= i < ss ==> w[i] == 0
  {
    hide LdWord, LdDword, TextAt, BootSector;
    BootText32(ss, p, md, time);
    BootNumbers32(ss, p, md, time);
    BootZeros(ss, p, md, time);
  }

  lemma BootText32(ss: nat, p: Plan, md: Byte, time: nat)
    requires SectorSizeOk(ss) && Fits(p) && p.fmt == Fat32
    ensures TextAt(BootSector(ss, p, md, time), 71, "NO NAME    FAT32   ")
  {
    hide ByteOf;
  }

  lemma BootNumbers32(ss: nat, p: Plan, md: Byte, time: nat)
    requires SectorSizeOk(ss) && Fits(p) && time < DWORD_MOD && p.fmt == Fat32
    ensures
      var w := BootSector(ss, p, md, time);
      && LdDword(w, 36) == p.nFat && LdDword(w, 44) == 2 && LdWord(w, 48) == 1 && LdWord(w, 50) == 6
      && w[64] == 0x80 && w[66] == 0x29 && LdDword(w, 67) == time
  {
    hide BootSector, LdWord, LdDword;
    BootReadsCommon(ss, p, md, time);
    BootReadsSizes(ss, p, md, time);
    BootSmall32(ss, p, md, time);
  }

  lemma BootSmall32(ss: nat, p: Plan, md: Byte, time: nat)
    requires SectorSizeOk(ss) && Fits(p) && time < DWORD_MOD && p.fmt == Fat32
    ensures
      var w := BootSector(ss, p, md, time);
      LdWord(w, 48) == 1 && LdWord(w, 50) == 6 && w[64] == 0x80 && w[66] == 0x29 && LdDword(w, 67) == time
  {
    WordOfBytes(1);
    WordOfBytes(6);
    DwordOfBytes(time);
    hide ByteOf;
  }

  lemma BootZeros(ss: nat, p: Plan, md: Byte, time: nat)
    requires SectorSizeOk(ss) && Fits(p)
    ensures
      var w := BootSector(ss, p, md, time);
      forall i ::
        (if p.fmt == Fat32 then 40 <= i < 44 || 52 <= i < 64 || i == 65 || 90 <= i < 510 else i == 37 || 62 <= i < 510)
        || 512 <= i < ss ==>
          w[i] == 0
  {
    hide ByteOf;
  }

  /** The same on FAT12 and FAT16. */
  lemma BootTail16(ss: nat, p: Plan, md: Byte, time: nat)
    requires SectorSizeOk(ss) && Fits(p) && time < DWORD_MOD && p.fmt != Fat32
    ensures
      var w := BootSector(ss, p, md, time);
      && w[36] == 0x80 && w[38] == 0x29 && LdDword(w, 39) == time && TextAt(w, 43, "NO NAME    FAT     ")
      && forall i :: i == 37 || 62 <= i < 510 || 512 <= i < ss ==> w[i] == 0
  {
    hide LdWord, LdDword, TextAt, BootSector;
    BootText16(ss, p, md, time);
    BootNumbers16(ss, p, md, time);
    BootZeros(ss, p, md, time);
  }

  lemma BootText16(ss: nat, p: Plan, md: Byte, time: nat)
    requires SectorSizeOk(ss) && Fits(p) && p.fmt != Fat32
    ensures TextAt(BootSector(ss, p, md, time), 43, "NO NAME    FAT     ")
  {
    hide ByteOf;
  }

  lemma BootNumbers16(ss: nat, p: Plan, md: Byte, time: nat)
    requires SectorSizeOk(ss) && Fits(p) && time < DWORD_MOD && p.fmt != Fat32
    ensures
      var w := BootSector(ss, p, md, time);
      w[36] == 0x80 && w[38] == 0x29 && LdDword(w, 39) == time
  {
    DwordOfBytes(time);
    hide ByteOf;
  }

  // ---------------------------------------------------------------- mounting

  /** What find_volume leaves in the FATFS object. */
  datatype Mounted = Mounted(
    fatType: FatType, csize: nat, nFats: nat, fsize: nat, nRootDir: nat, nFatEnt: nat, volBase: nat, fatBase: nat,
    dirBase: nat, dataBase: nat)

  /** Bytes of FAT that `nFatEnt` entries need. */
  function NeededBytes(fmt: FatType, nFatEnt: nat): nat {
    match fmt
    case Fat12 => nFatEnt * 3 / 2 + nFatEnt % 2
    case Fat16 => nFatEnt * 2
    case Fat32 => nFatEnt * 4 % DWORD_MOD
  }

  /** The BIOS parameter block as find_volume loads it. */
  datatype Bpb = Bpb(bytsPerSec: nat, csize: nat, nrsv: nat, nFats: nat, nRootDir: nat, tsect: nat, fsize: nat,
    rootClus: nat)

  function LoadBpb(w: Sector): Bpb
    requires |w| >= 512
  {
    Bpb(LdWord(w, 11), w[13], LdWord(w, 14), w[16], LdWord(w, 17),
        if LdWord(w, 19) != 0 then LdWord(w, 19) else LdDword(w, 32),
        if LdWord(w, 22) != 0 then LdWord(w, 22) else LdDword(w, 36), LdDword(w, 44))
  }

  /** The fields of the parameter block where FAT file systems have them. */
  lemma BpbFields(w: Sector)
    requires |w| >= 512
    ensures
      var b := LoadBpb(w);
      var sects, fsize := LdWord(w, 19), LdWord(w, 22);
      && b.bytsPerSec == LdWord(w, 11) && b.csize == w[13] && b.nrsv == LdWord(w, 14) && b.nFats == w[16]
      && b.nRootDir == LdWord(w, 17) && b.rootClus == LdDword(w, 44)
      && b.tsect == (if sects != 0 then sects else LdDword(w, 32))
      && b.fsize == (if fsize != 0 then fsize else LdDword(w, 36))
  {
    hide LdWord, LdDword;
  }

  /** The geometry find_volume derives from a parameter block found at sector `bsect`; None is FR_NO_FILESYSTEM. */
  function Accept(b: Bpb, bsect: nat, ss: nat): Option<Mounted>
    requires SectorSizeOk(ss)
  {
    if b.bytsPerSec != ss || (b.nFats != 1 && b.nFats != 2) || !PowerOfTwo(b.csize) then None
    else if Rem(b.nRootDir, ss / 32) != 0 || b.nrsv == 0 then None
    else
      var fasize := (if b.nFats == 2 then 2 * b.fsize else b.fsize) % DWORD_MOD;
      var sysect := (b.nrsv + fasize + Quo(b.nRootDir, ss / 32)) % DWORD_MOD;
      if b.tsect < sysect then None
      else
        var nclst := Quo(b.tsect - sysect, b.csize);
        if nclst == 0 then None
        else
          var fmt := SubType(nclst);
          var nFatEnt := (nclst + 2) % DWORD_MOD;
          if (fmt == Fat32) != (b.nRootDir == 0) then None
          else if b.fsize < Quo((NeededBytes(fmt, nFatEnt) + (ss - 1)) % DWORD_MOD, ss) then None
          else
            Some(Mounted(fmt, b.csize, b.nFats, b.fsize, b.nRootDir, nFatEnt, bsect, bsect + b.nrsv,
                         if fmt == Fat32 then b.rootClus else bsect + b.nrsv + fasize, bsect + sysect))
  }

  /** Bytes of the FAT that `n` entries take, in halves of a byte. */
  function Nibbles(fmt: FatType, n: nat): nat {
    match fmt
    case Fat12 => 3 * n
    case Fat16 => 4 * n
    case Fat32 => 8 * n
  }

  lemma NeededNibbles(fmt: FatType, n: nat, bytes: nat)
    requires 4 * n + 0x1000 < DWORD_MOD
    ensures NeededBytes(fmt, n) <= bytes <==> Nibbles(fmt, n) <= 2 * bytes
    ensures NeededBytes(fmt, n) + 0x1000 < DWORD_MOD
  {
    if fmt == Fat12 {
      assert n * 3 / 2 + n % 2 == (3 * n + 1) / 2;
    }
  }

  /** A volume is accepted exactly if its parameters are plausible, it has a cluster, only FAT32 is without a static
      root directory, and its FAT has an entry for each of the `n` clusters and the two reserved ones. */
  lemma AcceptExact(b: Bpb, bsect: nat, ss: nat, sys: nat, n: nat)
    requires SectorSizeOk(ss) && b.csize > 0
    requires sys == b.nrsv + (if b.nFats == 2 then 2 * b.fsize else b.fsize) + Quo(b.nRootDir, ss / 32) < DWORD_MOD
    requires sys <= b.tsect && n == Quo(b.tsect - sys, b.csize) < 0x3FFF_0000
    ensures Accept(b, bsect, ss).Some? <==>
      && b.bytsPerSec == ss && b.nFats in {1, 2} && And(b.csize, b.csize - 1) == 0 && b.nrsv != 0
      && Rem(b.nRootDir, ss / 32) == 0 && n > 0 && (b.nRootDir == 0 <==> 0xFFF7 <= n + 1)
      && Nibbles(SubType(n), n + 2) <= 2 * Times(b.fsize, ss)
  {
    hide Quo, Rem, Times, PowerOfTwo, And, NeededBytes, Nibbles;
    PowerTest(b.csize);
    NeededNibbles(SubType(n), n + 2, Times(b.fsize, ss));
    LeastSectors(NeededBytes(SubType(n), n + 2), ss, b.fsize);
  }

  lemma AcceptNeedsRoom(b: Bpb, bsect: nat, ss: nat)
    requires SectorSizeOk(ss)
    requires b.nrsv + (if b.nFats == 2 then 2 * b.fsize else b.fsize) + Quo(b.nRootDir, ss / 32) < DWORD_MOD
    requires b.tsect < b.nrsv + (if b.nFats == 2 then 2 * b.fsize else b.fsize) + Quo(b.nRootDir, ss / 32)
    ensures Accept(b, bsect, ss) == None
  {}

  /** Rounding up gives the least number of sectors that hold `n` bytes. */
  lemma LeastSectors(n: nat, d: nat, k: nat)
    requires d > 0
    ensures Quo(n + (d - 1), d) <= k <==> n <= Times(k, d)
  {
    QuoBelow(n + (d - 1), k + 1, d);
    TimesAdd(k, 1, d);
    TimesIsProduct(1, d);
  }

  // ---------------------------------------------------------------- agreement

  /** The root directory takes whole sectors. */
  lemma RootSectors(ss: nat)
    requires SectorSizeOk(ss)
    ensures Rem(N_ROOTDIR, ss / 32) == 0 && Quo(N_ROOTDIR, ss / 32) == Quo(ROOT_BYTES, ss) <= 32
  {
    if ss == 512 {
      QuoUnique(32, 0, 16);
      QuoUnique(32, 0, 512);
      TimesIsProduct(32, 16);
      TimesIsProduct(32, 512);
    } else if ss == 1024 {
      QuoUnique(16, 0, 32);
      QuoUnique(16, 0, 1024);
      TimesIsProduct(16, 32);
      TimesIsProduct(16, 1024);
    } else if ss == 2048 {
      QuoUnique(8, 0, 64);
      QuoUnique(8, 0, 2048);
      TimesIsProduct(8, 64);
      TimesIsProduct(8, 2048);
    } else {
      QuoUnique(4, 0, 128);
      QuoUnique(4, 0, 4096);
      TimesIsProduct(4, 128);
      TimesIsProduct(4, 4096);
    }
  }

  /** The FAT that the provisional cluster count asks for is large enough for any smaller count. */
  lemma FatLargeEnough(ss: nat, fmt: FatType, nClst0: nat, nClst: nat)
    requires ss > 0 && nClst <= nClst0 && 4 * nClst0 + 8 + ss < DWORD_MOD
    ensures Quo((NeededBytes(fmt, nClst + 2) + (ss - 1)) % DWORD_MOD, ss) <= FirstFatSize(ss, fmt, nClst0)
    ensures NeededBytes(fmt, nClst + 2) + (ss - 1) < DWORD_MOD
  {
    hide Quo;
    NeededFewer(fmt, nClst0, nClst);
    match fmt
    case Fat12 => QuoMono(NeededBytes(fmt, nClst + 2) + (ss - 1), (nClst0 * 3 + 1) / 2 + 3 + ss - 1, ss);
    case Fat16 => QuoMono(NeededBytes(fmt, nClst + 2) + (ss - 1), nClst0 * 2 + 4 + ss - 1, ss);
    case Fat32 => QuoMono(NeededBytes(fmt, nClst + 2) + (ss - 1), nClst0 * 4 + 8 + ss - 1, ss);
  }

  lemma NeededFewer(fmt: FatType, nClst0: nat, nClst: nat)
    requires nClst <= nClst0 && 4 * nClst0 + 8 < DWORD_MOD
    ensures NeededBytes(fmt, nClst + 2) <=
      match fmt case Fat12 => (nClst0 * 3 + 1) / 2 + 3 case Fat16 => nClst0 * 2 + 4 case Fat32 => nClst0 * 4 + 8
  {
    if fmt == Fat12 {
      HalfBytes(nClst);
    }
  }

  /** Three bytes for every two entries, rounded up. */
  lemma HalfBytes(n: nat)
    ensures (n + 2) * 3 / 2 + (n + 2) % 2 == (n * 3 + 1) / 2 + 3
  {
    if n % 2 == 0 {
      EvenBytes(n, n / 2);
    } else {
      OddBytes(n, n / 2);
    }
  }

  lemma EvenBytes(n: nat, k: nat)
    requires n == 2 * k
    ensures (n + 2) * 3 / 2 == 3 * k + 3 && (n + 2) % 2 == 0 && (n * 3 + 1) / 2 == 3 * k
  {}

  lemma OddBytes(n: nat, k: nat)
    requires n == 2 * k + 1
    ensures (n + 2) * 3 / 2 == 3 * k + 4 && (n + 2) % 2 == 1 && (n * 3 + 1) / 2 == 3 * k + 2
  {}

  lemma QuoBound(a: nat, d: nat, k: nat)
    requires d > 0 && a < k * 512 && d >= 512
    ensures Quo(a, d) < k
  {
    TimesIsProduct(k, d);
    MoreThan(k, d);
    QuoBelow(a, k, d);
  }

  lemma MoreThan(k: nat, d: nat)
    requires d >= 512
    ensures k * d >= k * 512
  {}

  lemma WordOfBytes(v: nat)
    requires v < 0x1_0000
    ensures ByteOf(v, 0) as nat + 0x100 * ByteOf(v, 1) as nat == v
  {}

  lemma DwordOfBytes(v: nat)
    requires v < DWORD_MOD
    ensures ByteOf(v, 0) as nat + 0x100 * ByteOf(v, 1) as nat + 0x1_0000 * ByteOf(v, 2) as nat
            + 0x100_0000 * ByteOf(v, 3) as nat == v
  {
    FourBytes(v);
  }

  /** The fields of the plan fit where the boot sector stores them. */
  predicate Fits(p: Plan) {
    && p.au <= 128 && p.nRsv < 0x1_0000 && p.nFat < DWORD_MOD && p.nVol < DWORD_MOD
    && (p.fmt != Fat32 ==> p.nFat < 0x1_0000)
  }

  /** What find_volume loads from the boot sector that f_mkfs wrote. */
  lemma BootReads(ss: nat, p: Plan, md: Byte, time: nat)
    requires SectorSizeOk(ss) && Fits(p) && p.nVol > 0 && p.nFat > 0
    ensures
      var b := LoadBpb(BootSector(ss, p, md, time));
      && b == Bpb(ss, p.au, p.nRsv, 1, if p.fmt == Fat32 then 0 else N_ROOTDIR, p.nVol, p.nFat, b.rootClus)
      && (p.fmt == Fat32 ==> b.rootClus == 2)
  {
    hide ByteOf, BootSector;
    BootReadsCommon(ss, p, md, time);
    BootReadsSizes(ss, p, md, time);
  }

  lemma BootReadsCommon(ss: nat, p: Plan, md: Byte, time: nat)
    requires SectorSizeOk(ss) && Fits(p)
    ensures
      var w := BootSector(ss, p, md, time);
      && LdWord(w, 11) == ss && w[13] == p.au && LdWord(w, 14) == p.nRsv && w[16] == 1
      && LdWord(w, 17) == (if p.fmt == Fat32 then 0 else N_ROOTDIR)
      && (p.fmt == Fat32 ==> LdDword(w, 44) == 2)
  {
    WordOfBytes(ss);
    WordOfBytes(p.nRsv);
    WordOfBytes(if p.fmt == Fat32 then 0 else N_ROOTDIR);
    DwordOfBytes(2);
    hide ByteOf;
  }

  lemma BootReadsSizes(ss: nat, p: Plan, md: Byte, time: nat)
    requires SectorSizeOk(ss) && Fits(p)
    ensures
      var w := BootSector(ss, p, md, time);
      && LdWord(w, 19) == (if p.nVol < 0x1_0000 then p.nVol else 0)
      && LdWord(w, 22) == (if p.fmt == Fat32 then 0 else p.nFat)
      && LdDword(w, 32) == (if p.nVol < 0x1_0000 then 0 else p.nVol)
      && (p.fmt == Fat32 ==> LdDword(w, 36) == p.nFat)
  {
    WordOfBytes(if p.nVol < 0x1_0000 then p.nVol else 0);
    DwordOfBytes(if p.nVol < 0x1_0000 then 0 else p.nVol);
    WordOfBytes(if p.fmt == Fat32 then 0 else p.nFat);
    DwordOfBytes(p.nFat);
    hide ByteOf;
  }

  /** The signature and the sub-type string that check_fs looks for. */
  lemma BootSigned(ss: nat, p: Plan, md: Byte, time: nat)
    requires SectorSizeOk(ss) && p.au <= 128
    ensures
      var w := BootSector(ss, p, md, time);
      && LdWord(w, 510) == 0xAA55
      && (if p.fmt == Fat32 then LdDword(w, 82) % 0x100_0000 == FAT_TAG else LdDword(w, 54) % 0x100_0000 == FAT_TAG)
  {}

  /** The next multiple of a power of two. */
  lemma AlignBounds(b: nat, n: nat)
    requires n > 0 && b + n <= DWORD_MOD
    ensures b <= AlignUp(b, n) < b + n
    ensures PowerOfTwo(n) ==> Rem(AlignUp(b, n), n) == 0
  {
    hide And, Quo, Rem, Times, PowerOfTwo;
    assert (b + n - 1) % DWORD_MOD == b + n - 1;
    if PowerOfTwo(n) {
      MaskIsRem(b + n - 1, n);
      MultipleBelow(b + n - 1, n);
    }
  }

  /** The data start is a multiple of the erase block, wherever it is looked for, exactly if the erase block is a power
      of two. */
  lemma AlignExact(n: nat)
    requires 0 < n <= 32768
    ensures (forall b: nat :: b + n <= DWORD_MOD ==> Rem(AlignUp(b, n), n) == 0) <==> PowerOfTwo(n)
  {
    hide And, AlignUp, Quo, Rem, Times, PowerOfTwo;
    if PowerOfTwo(n) {
      forall b: nat | b + n <= DWORD_MOD
        ensures Rem(AlignUp(b, n), n) == 0
      {
        AlignBounds(b, n);
      }
    } else {
      LowestBit(n);
    }
  }

  /** Behind sector 1 the mask finds the lowest bit of the erase block. */
  lemma LowestBit(n: nat)
    requires 0 < n <= 32768 && !PowerOfTwo(n)
    ensures 0 < AlignUp(1, n) < n && Rem(AlignUp(1, n), n) != 0
  {
    hide And, PowerOfTwo;
    SingleBit(n);
  }

  /** f_mkfs accepts an erase block of 6 sectors and starts the data area of this FAT12 volume at sector 34. */
  lemma SixDoesNotAlign()
    ensures Gap(34, 6) == 0 && Rem(34, 6) == 4
    ensures
      var l := Layout(512, 0, 135, 8, 6);
      l.Some? && l.value.BData() == 34
  {
    hide Quo, Rem;
    QuoRemAreDivMod(34, 6);
    assert And(39, 5) == 5;
    QuoRemAreDivMod(135, 8);
    QuoRemAreDivMod(538, 512);
    QuoRemAreDivMod(ROOT_BYTES, 512);
    QuoRemAreDivMod(101, 8);
  }

  lemma MultipleBelow(x: nat, n: nat)
    requires n > 0
    ensures Rem(x, n) <= x && Rem(x - Rem(x, n), n) == 0
  {
    QuoRem(x, n);
    QuoUnique(Quo(x, n), 0, n);
  }

  /** Sectors in front of the data area. */
  function Overhead(p: Plan): nat {
    p.nRsv + p.nFat + p.nDir
  }

  /** What a plan looks like when no 32-bit sum wrapped. */
  lemma PlanFacts(ss: nat, bVol: nat, nVol: nat, au: nat, blk: nat)
    requires SectorSizeOk(ss) && 0 < au <= 128 && NoOverflow(bVol, nVol, au) && Layout(ss, bVol, nVol, au, blk).Some?
    ensures
      var p := Layout(ss, bVol, nVol, au, blk).value;
      && p.au == au && p.bVol == bVol && p.nVol == nVol > 0 && p.fmt == SubType(Quo(nVol, au)) && Fits(p)
        && p.nRsv > 0 && p.nFat > 0
      && p.nDir == (if p.fmt == Fat32 then 0 else Quo(ROOT_BYTES, ss))
      && FirstFatSize(ss, p.fmt, Quo(nVol, au)) <= p.nFat
      && (Overhead(p) <= nVol ==> p.nClst == Quo(nVol - Overhead(p), au))
      && Overhead(p) + 0x1000 < DWORD_MOD
      && (p.fmt == Fat16 ==> p.nClst >= MIN_FAT16) && (p.fmt == Fat32 ==> p.nClst >= MIN_FAT32)
      && (p.fmt == Fat32 ==> p.nRsv >= 32)
      && (0 < blk <= 32768 && PowerOfTwo(blk) ==> Rem(p.BData(), blk) == 0)
  {
    hide FirstFatSize, AlignUp, Quo, Rem, Gap;
    RootSectors(ss);
    FirstFatBound(ss, SubType(Quo(nVol, au)), Quo(nVol, au));
    var p := FirstPlan(ss, bVol, nVol, au);
    GapFacts(p.BData(), blk);
  }

  /** The distance is less than an erase block, and 0 if the driver reports none. */
  lemma GapFacts(bData: nat, blk: nat)
    requires bData + 0x1_0000 < DWORD_MOD
    ensures Gap(bData, blk) < 32768
    ensures if 0 < blk <= 32768 then Gap(bData, blk) < blk else Gap(bData, blk) == 0
    ensures 0 < blk <= 32768 && PowerOfTwo(blk) ==> Rem(bData + Gap(bData, blk), blk) == 0
  {
    var n := if blk == 0 || blk > 32768 then 1 else blk;
    hide AlignUp, Rem, PowerOfTwo;
    AlignBounds(bData, n);
  }

  lemma FirstFatBound(ss: nat, fmt: FatType, nClst0: nat)
    requires ss >= 512 && ss <= 4096 && 4 * nClst0 + 0x1_0000 < DWORD_MOD && fmt == SubType(nClst0)
    ensures 0 < FirstFatSize(ss, fmt, nClst0) < 0x80_0000
    ensures fmt != Fat32 ==> FirstFatSize(ss, fmt, nClst0) < 0x1000
  {
    match fmt
    case Fat12 =>
      QuoBound((nClst0 * 3 + 1) / 2 + 3 + ss - 1, ss, 0x1000);
      QuoMono(ss, (nClst0 * 3 + 1) / 2 + 3 + ss - 1, ss);
    case Fat16 =>
      QuoBound(nClst0 * 2 + 4 + ss - 1, ss, 0x1000);
      QuoMono(ss, nClst0 * 2 + 4 + ss - 1, ss);
    case Fat32 =>
      QuoBound(nClst0 * 4 + 8 + ss - 1, ss, 0x80_0000);
      QuoMono(ss, nClst0 * 4 + 8 + ss - 1, ss);
  }

  /** The FAT has the least number of sectors that hold the provisional clusters and the two reserved entries. */
  lemma FirstFatIsLeast(ss: nat, fmt: FatType, nClst: nat, k: nat)
    requires SectorSizeOk(ss) && 4 * nClst + 0x1_0000 < DWORD_MOD
    ensures FirstFatSize(ss, fmt, nClst) <= k <==> Nibbles(fmt, nClst + 2) <= 2 * Times(k, ss)
  {
    hide Quo, Times;
    HalfBytes(nClst);
    LeastSectors(NeededBytes(fmt, nClst + 2), ss, k);
    NeededNibbles(fmt, nClst + 2, Times(k, ss));
    if fmt == Fat12 {
      assert (nClst * 3 + 1) / 2 + 3 + ss - 1 == NeededBytes(fmt, nClst + 2) + (ss - 1);
    }
  }

  /** What f_mkfs lays out, in terms of the least FAT size `k`: the sub-type goes by the clusters of the whole volume;
      32 reserved sectors on FAT32 and one elsewhere; 512 root directory entries except on FAT32. The gap in front of
      the data area goes to the reserved sectors on FAT32 and to the FAT elsewhere. */
  lemma LayoutMeans(ss: nat, bVol: nat, nVol: nat, au: nat, blk: nat, k: nat)
    requires SectorSizeOk(ss) && 0 < au <= 128 && NoOverflow(bVol, nVol, au)
    requires
      var fmt, n := SubType(Quo(nVol, au)), Quo(nVol, au);
      Nibbles(fmt, n + 2) <= 2 * Times(k, ss) && (k > 0 ==> Nibbles(fmt, n + 2) > 2 * Times(k - 1, ss))
    ensures
      var fmt := SubType(Quo(nVol, au));
      var rsv := if fmt == Fat32 then 32 else 1;
      var root := if fmt == Fat32 then 0 else 16384 / ss;
      var gap := Gap(bVol + rsv + k + root, blk);
      && (nVol < rsv + k + root + au ==> Layout(ss, bVol, nVol, au, blk) == None)
      && (nVol >= rsv + k + root + au ==>
            && (Layout(ss, bVol, nVol, au, blk) == None <==>
                  && fmt != Fat12 && rsv + k + root + gap <= nVol
                  && SubType(Quo(nVol - rsv - k - root - gap, au)) != fmt)
            && (Layout(ss, bVol, nVol, au, blk).Some? ==>
                  var p := Layout(ss, bVol, nVol, au, blk).value;
                  && p.fmt == fmt && p.nDir == root
                  && (if fmt == Fat32 then p.nRsv == 32 + gap && p.nFat == k else p.nRsv == 1 && p.nFat == k + gap)))
  {
    hide Quo, Rem, Times, Gap, FirstFatSize, Nibbles, Layout;
    var n := Quo(nVol, au);
    var fmt := SubType(n);
    FirstFatIsLeast(ss, fmt, n, k);
    if k > 0 {
      FirstFatIsLeast(ss, fmt, n, k - 1);
    }
    QuoRemAreDivMod(ROOT_BYTES, ss);
    FirstFatBound(ss, fmt, n);
    LayoutFields(ss, bVol, nVol, au, blk, k);
    LayoutRefused(ss, bVol, nVol, au, blk, k);
  }

  lemma LayoutFields(ss: nat, bVol: nat, nVol: nat, au: nat, blk: nat, k: nat)
    requires SectorSizeOk(ss) && 0 < au <= 128 && k == FirstFatSize(ss, SubType(Quo(nVol, au)), Quo(nVol, au))
    ensures
      var fmt := SubType(Quo(nVol, au));
      var root := if fmt == Fat32 then 0 else Quo(ROOT_BYTES, ss);
      var sys := (if fmt == Fat32 then 32 else 1) + k + root;
      var gap := Gap(bVol + sys, blk);
      && (nVol < sys + au ==> Layout(ss, bVol, nVol, au, blk) == None)
      && (Layout(ss, bVol, nVol, au, blk).Some? ==>
            var p := Layout(ss, bVol, nVol, au, blk).value;
            && p.fmt == fmt && p.nDir == root
            && (if fmt == Fat32 then p.nRsv == 32 + gap && p.nFat == k else p.nRsv == 1 && p.nFat == k + gap))
  {
    hide Rem, Times, Gap, FirstFatSize, Quo;
  }

  /** The final test of f_mkfs refuses exactly a cluster count that has become too small for the sub-type. */
  lemma LayoutRefused(ss: nat, bVol: nat, nVol: nat, au: nat, blk: nat, k: nat)
    requires SectorSizeOk(ss) && 0 < au <= 128 && NoOverflow(bVol, nVol, au)
    requires k == FirstFatSize(ss, SubType(Quo(nVol, au)), Quo(nVol, au)) < 0x80_0000
    ensures
      var fmt := SubType(Quo(nVol, au));
      var sys := (if fmt == Fat32 then 32 else 1) + k + if fmt == Fat32 then 0 else Quo(ROOT_BYTES, ss);
      var gap := Gap(bVol + sys, blk);
      nVol >= sys + au ==>
        (Layout(ss, bVol, nVol, au, blk) == None <==>
           fmt != Fat12 && sys + gap <= nVol && SubType(Quo(nVol - sys - gap, au)) != fmt)
  {
    hide Rem, Times, Gap, FirstFatSize, Quo;
    RootSectors(ss);
    var fmt := SubType(Quo(nVol, au));
    var sys := (if fmt == Fat32 then 32 else 1) + k + if fmt == Fat32 then 0 else Quo(ROOT_BYTES, ss);
    GapFacts(bVol + sys, blk);
    var gap := Gap(bVol + sys, blk);
    if sys + gap <= nVol {
      QuoMono(nVol - sys - gap, nVol, au);
    } else {
      WrappedIsLarge(nVol, sys + gap, au);
    }
  }

  /** An unsigned difference that wraps leaves far more clusters than any threshold. */
  lemma WrappedIsLarge(a: nat, b: nat, au: nat)
    requires 0 < au <= 128 && a < b <= a + 0x100_0000 && b < DWORD_MOD
    ensures Quo((a - b) % DWORD_MOD, au) >= MIN_FAT32
  {
    var x := (a - b) % DWORD_MOD;
    assert x == a - b + DWORD_MOD;
    QuoBelow(x, MIN_FAT32, au);
    TimesIsProduct(MIN_FAT32, au);
  }

  /** What find_volume makes of the plan. */
  function MountedPlan(p: Plan): Mounted {
    Mounted(p.fmt, p.au, 1, p.nFat, if p.fmt == Fat32 then 0 else N_ROOTDIR, p.nClst + 2, p.bVol, p.BFat(),
            if p.fmt == Fat32 then 2 else p.BDir(), p.BData())
  }

  /** Formatting and mounting agree: find_volume accepts the boot sector that f_mkfs wrote exactly when the aligned data
      area still holds a cluster, and then it computes the same sub-type, cluster count and data start. */
  lemma MountAgrees(ss: nat, bVol: nat, nVol: nat, au: nat, blk: nat, md: Byte, time: nat)
    requires SectorSizeOk(ss) && PowerOfTwo(au) && au <= 128 && NoOverflow(bVol, nVol, au)
    requires Layout(ss, bVol, nVol, au, blk).Some?
    ensures
      var p := Layout(ss, bVol, nVol, au, blk).value;
      && p.au <= 128
      && Accept(LoadBpb(BootSector(ss, p, md, time)), bVol, ss) ==
           if Overhead(p) + au <= nVol then Some(MountedPlan(p)) else None
  {
    hide Layout, BootSector, FirstFatSize, LoadBpb, NeededBytes;
    PlanFacts(ss, bVol, nVol, au, blk);
    var p := Layout(ss, bVol, nVol, au, blk).value;
    BootReads(ss, p, md, time);
    AcceptPlan(ss, p, LoadBpb(BootSector(ss, p, md, time)).rootClus);
  }

  lemma AcceptPlan(ss: nat, p: Plan, rootClus: nat)
    requires SectorSizeOk(ss) && PowerOfTwo(p.au) && p.fmt == SubType(Quo(p.nVol, p.au)) && Fits(p) && p.nRsv > 0
      && p.nFat > 0
    requires p.nDir == if p.fmt == Fat32 then 0 else Quo(ROOT_BYTES, ss)
    requires FirstFatSize(ss, p.fmt, Quo(p.nVol, p.au)) <= p.nFat
    requires Overhead(p) <= p.nVol ==> p.nClst == Quo(p.nVol - Overhead(p), p.au)
    requires Overhead(p) + 0x1000 < DWORD_MOD && 4 * Quo(p.nVol, p.au) + 0x1_0000 < DWORD_MOD
    requires (p.fmt == Fat16 ==> p.nClst >= MIN_FAT16) && (p.fmt == Fat32 ==> p.nClst >= MIN_FAT32)
    requires p.fmt == Fat32 ==> rootClus == 2
    ensures
      Accept(Bpb(ss, p.au, p.nRsv, 1, if p.fmt == Fat32 then 0 else N_ROOTDIR, p.nVol, p.nFat, rootClus), p.bVol, ss) ==
        if Overhead(p) + p.au <= p.nVol then Some(MountedPlan(p)) else None
  {
    hide FirstFatSize, Quo, Rem, NeededBytes, PowerOfTwo;
    PositivePower(p.au);
    RootSectors(ss);
    NoRoot(ss);
    if Overhead(p) <= p.nVol {
      PlanRoom(ss, p);
      if Overhead(p) + p.au <= p.nVol {
        PlanSubType(p);
      }
    }
  }

  /** Whether a cluster is left, and that the FAT is large enough. */
  lemma PlanRoom(ss: nat, p: Plan)
    requires SectorSizeOk(ss) && p.au > 0 && Overhead(p) <= p.nVol && p.nClst == Quo(p.nVol - Overhead(p), p.au)
    requires FirstFatSize(ss, p.fmt, Quo(p.nVol, p.au)) <= p.nFat && 4 * Quo(p.nVol, p.au) + 0x1_0000 < DWORD_MOD
    ensures p.nClst <= Quo(p.nVol, p.au) && (p.nClst > 0 <==> Overhead(p) + p.au <= p.nVol)
    ensures Quo((NeededBytes(p.fmt, p.nClst + 2) + (ss - 1)) % DWORD_MOD, ss) <= p.nFat
  {
    hide FirstFatSize, Quo, NeededBytes;
    ClusterBound(p.nVol - Overhead(p), p.au);
    QuoMono(p.nVol - Overhead(p), p.nVol, p.au);
    FatLargeEnough(ss, p.fmt, Quo(p.nVol, p.au), p.nClst);
  }

  /** The final cluster count has the sub-type of the provisional one. */
  lemma PlanSubType(p: Plan)
    requires p.au > 0 && p.fmt == SubType(Quo(p.nVol, p.au)) && p.nClst <= Quo(p.nVol, p.au)
    requires (p.fmt == Fat16 ==> p.nClst >= MIN_FAT16) && (p.fmt == Fat32 ==> p.nClst >= MIN_FAT32)
    ensures SubType(p.nClst) == p.fmt
  {
    hide Quo;
  }

  lemma PositivePower(n: nat)
    requires PowerOfTwo(n)
    ensures n > 0
  {}

  /** Whether a cluster of `d` sectors fits. */
  lemma ClusterBound(a: nat, d: nat)
    requires d > 0
    ensures Quo(a, d) <= a
    ensures Quo(a, d) > 0 <==> a >= d
  {
    if a < d {
    } else {
      ClusterBound(a - d, d);
    }
  }

  lemma NoRoot(ss: nat)
    requires SectorSizeOk(ss)
    ensures Rem(0, ss / 32) == 0 && Quo(0, ss / 32) == 0
  {}
}
