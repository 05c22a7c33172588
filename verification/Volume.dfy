/** The mounted volume (FATFS): access window, FAT access and the cluster allocator. Disk transfers succeed. */
module Volume {
  import opened Results
  import opened Arith
  import opened Bytes
  import opened Fat
  import opened Window
  import opened Chains

  const UNKNOWN: nat := 0xFFFF_FFFF

  /** A known free-cluster count is right. */
  ghost predicate Counted(free: nat, fat: FatTable) {
    free != UNKNOWN ==> free == FreeCount(fat)
  }

  /** Relinking an allocated cluster keeps the count right. */
  lemma CountedMark(free: nat, fat: FatTable, c: nat, v: nat)
    requires 2 <= c < |fat| && fat[c] != 0 && v != 0
    ensures Counted(free, fat) ==> Counted(free, fat[c := v])
  {
    MarkCounts(fat, c, v);
  }

  class FatFs {
    const g: Geometry
    const win: array<Byte>
    var disk: seq<Sector>
    var winsect: nat
    var wflag: bool
    var lastClust: nat
    var freeClust: nat
    var fsiDisabled: bool  // fsi_flag b7
    var fsiDirty: bool     // fsi_flag b0
    ghost var img: seq<Sector>
    ghost var home: nat        // where the last user of the volume left the window

    /** The end of find_volume: sector `sect` of the reserved area is in the window. */
    constructor Mount(g: Geometry, disk: seq<Sector>, sect: nat, free: nat, last: nat, disabled: bool)
      requires g.Valid() && ImageOk(g, disk) && sect < g.fatBase && Mirrored(g, disk, sect, false)
      ensures Valid() && fresh(win) && this.g == g && this.disk == disk == img && winsect == sect && !wflag
      ensures freeClust == free && lastClust == last && fsiDisabled == disabled && !fsiDirty
    {
      var data := disk[sect];
      this.g := g;
      this.win := new Byte[|data|](i requires 0 <= i < |data| => data[i]);
      this.disk, this.img, this.winsect, this.wflag := disk, disk, sect, false;
      this.freeClust, this.lastClust, this.fsiDisabled, this.fsiDirty := free, last, disabled, false;
      this.home := sect;
      new;
      assert win[..] == data;
    }

    ghost predicate Valid()
      reads this, win
    {
      && g.Valid() && ImageOk(g, img) && winsect < g.nSect && win.Length == g.ss && img[winsect] == win[..]
      && WindowOk(g, disk, win[..], winsect, wflag, img)
    }

    /** The FAT as stored on the medium and in the window. */
    ghost function Table(): (fat: FatTable)
      requires Valid()
      reads this, win
      ensures |fat| == g.nFatEnt
    {
      FatMap(g, img)
    }

    ghost predicate CountOk()
      requires Valid()
      reads this, win
    {
      Counted(freeClust, Table())
    }

    /** Unless something was waiting to be written, nothing is, and the medium is as it was. */
    ghost predicate Quiet(was: seq<Sector>, busy: bool)
      reads `disk, `wflag
    {
      busy || (disk == was && !wflag)
    }

    method SyncWindow()
      requires Valid()
      modifies `disk, `wflag
      ensures Valid() && !wflag
      ensures disk == if old(wflag) then Flushed(g, old(disk), win[..], winsect) else old(disk)
    {
      if wflag {
        ghost var d := disk;
        FlushKeepsWindow(g, disk, win[..], winsect, wflag, img);
        var wsect := winsect;
        disk := disk[wsect := win[..]];
        wflag := false;
        if Sub32(wsect, g.fatBase) < g.fatSize {
          var nf := g.nFats;
          while nf >= 2
            invariant !wflag && 1 <= nf <= g.nFats
            invariant nf == g.nFats ==> wsect == winsect && disk == d[winsect := win[..]]
            invariant nf < g.nFats ==> disk == Flushed(g, d, win[..], winsect)
          {
            wsect := wsect + g.fatSize;
            disk := disk[wsect := win[..]];
            nf := nf - 1;
          }
        }
      }
    }

    method MoveWindow(sector: nat)
      requires Valid() && sector < g.nSect && !g.InMirror(sector)
      modifies `disk, `wflag, `winsect, win
      ensures Valid() && winsect == sector
      ensures sector == old(winsect) ==> disk == old(disk) && wflag == old(wflag)
      ensures sector != old(winsect) ==> !wflag
      ensures Quiet(old(disk), old(wflag))
    {
      if sector != winsect {
        SyncWindow();
        LoadKeepsWindow(g, disk, win[..], winsect, img, sector);
        var data := disk[sector];
        forall i | 0 <= i < win.Length {
          win[i] := data[i];
        }
        winsect := sector;
        assert win[..] == data;
      }
    }

    /** Brings byte `i` of the FAT into the window and returns it. */
    method LoadFatByte(i: nat) returns (b: Byte)
      requires Valid() && i < Times(g.fatSize, g.ss)
      modifies `disk, `wflag, `winsect, win
      ensures Valid() && winsect == FatSector(g, i) && Quiet(old(disk), old(wflag))
      ensures b == FatByte(g, img, i)
    {
      QuoRem(i, g.ss);
      MoveWindow(FatSector(g, i));
      b := win[Rem(i, g.ss)];
    }

    /** Stores byte `i` of the FAT into the window that holds it. */
    method StoreFatByte(i: nat, b: Byte)
      requires Valid() && i < Times(g.fatSize, g.ss) && winsect == FatSector(g, i)
      modifies `wflag, `img, win
      ensures Valid() && img == SetFatByte(g, old(img), i, b)
    {
      hide FatMap;
      QuoRem(i, g.ss);
      EditKeepsWindow(g, disk, win[..], winsect, wflag, img, SetByte(win[..], Rem(i, g.ss), b));
      win[Rem(i, g.ss)] := b;
      wflag := true;
      img := SetFatByte(g, img, i, b);
      assert win[..] == img[winsect];
    }

    /** Stores the bytes of entry `c` from byte `k` on into the window that holds them; `before` is the image put_fat
        started from. */
    method StoreFatBytes(c: nat, v: nat, k: nat, bytes: seq<Byte>, ghost before: seq<Sector>)
      requires Valid() && ImageOk(g, before) && 2 <= c < g.nFatEnt && k + |bytes| <= EntrySpan(g)
      requires img == PutBytes(g, before, c, v, k)
      requires forall n :: 0 <= n < |bytes| ==> ByteOfEntry(c, v, k + n, bytes[n], before)
      modifies `wflag, `img, win
      ensures Valid() && img == PutBytes(g, before, c, v, k + |bytes|)
    {
      hide WindowOk, SetFatByte, FatByte, FatMap, NewByte, EntryOffset;
      for n := 0 to |bytes|
        invariant Valid() && img == PutBytes(g, before, c, v, k + n)
      {
        assert ByteOfEntry(c, v, k + n, bytes[n], before);
        StoreFatByte(EntryOffset(g, c) + k + n, bytes[n]);
      }
    }

    /** `b` is what put_fat stores at byte `k` of entry `c`, and the window holds that byte. */
    ghost predicate ByteOfEntry(c: nat, v: nat, k: nat, b: Byte, before: seq<Sector>)
      requires g.Valid() && ImageOk(g, before) && c < g.nFatEnt && k < EntrySpan(g)
      reads `winsect
    {
      var i := EntryOffset(g, c) + k;
      && i < Times(g.fatSize, g.ss) && winsect == FatSector(g, i)
      && b == NewByte(g.fatType, c, v, k, FatByte(g, before, i))
    }

    method GetFat(clst: nat) returns (v: nat)
      requires Valid()
      modifies `disk, `wflag, `winsect, win
      ensures Valid() && v == Get(Table(), clst) && Quiet(old(disk), old(wflag))
      ensures if 2 <= clst < g.nFatEnt then g.fatBase <= winsect < g.fatBase + g.fatSize
              else winsect == old(winsect) && wflag == old(wflag) && disk == old(disk)
    {
      hide WindowOk, Entry, LdWord, LdDword, ByteAt;
      if clst < 2 || clst >= g.nFatEnt {
        return 1;
      }
      match g.fatType
      case Fat12 =>
        v := GetFat12(clst);
      case Fat16 =>
        EntryInSector16(g, img, clst);
        MoveWindow(g.fatBase + Quo(clst, g.ss / 2));
        v := LdWord(win[..], Rem(2 * clst, g.ss));
      case Fat32 =>
        EntryInSector32(g, img, clst);
        MoveWindow(g.fatBase + Quo(clst, g.ss / 4));
        v := LdDword(win[..], Rem(4 * clst, g.ss)) % 0x1000_0000;
    }

    method GetFat12(clst: nat) returns (v: nat)
      requires Valid() && clst < g.nFatEnt && g.fatType == Fat12
      modifies `disk, `wflag, `winsect, win
      ensures Valid() && v == Entry(g, img, clst) && Quiet(old(disk), old(wflag))
      ensures g.fatBase <= winsect < g.fatBase + g.fatSize
    {
      hide WindowOk, FatByte;
      EntryInFat(g, clst);
      var bc := clst + clst / 2;
      var b := LoadFatByte(bc);
      var wc: nat := b;
      b := LoadFatByte(bc + 1);
      wc := wc + 0x100 * b as nat;
      v := if clst % 2 == 1 then wc / 0x10 else wc % 0x1000;
    }

    method PutFat(clst: nat, val: nat) returns (res: Status)
      requires Valid()
      modifies `disk, `wflag, `winsect, `img, win
      ensures Valid()
      ensures res == if 2 <= clst < g.nFatEnt then Ok else IntErr
      ensures res == Ok ==>
        Table() == old(Table())[clst := val % g.Width()] && g.fatBase <= winsect < g.fatBase + g.fatSize
      ensures res == Ok ==> img == PutEntry(g, old(img), clst, val)
      ensures res != Ok ==> img == old(img) && winsect == old(winsect) && wflag == old(wflag)
      ensures SameOutsideFat(g, old(img), img)
    {
      if clst < 2 || clst >= g.nFatEnt {
        return IntErr;
      }
      match g.fatType {
        case Fat12 => PutFat12(clst, val);
        case Fat16 => PutFat16(clst, val);
        case Fat32 => PutFat32(clst, val);
      }
      FatMapPut(g, old(img), clst, val);
      PutFrame(g, old(img), clst, val);
      res := Ok;
    }

    method PutFat12(clst: nat, val: nat)
      requires Valid() && 2 <= clst < g.nFatEnt && g.fatType == Fat12
      modifies `disk, `wflag, `winsect, `img, win
      ensures Valid() && img == PutEntry(g, old(img), clst, val)
      ensures g.fatBase <= winsect < g.fatBase + g.fatSize
    {
      hide WindowOk, FatByte, SetFatByte, FatMap;
      EntryInFat(g, clst);
      var bc := clst + clst / 2;
      var b := LoadFatByte(bc);
      StoreFatBytes(clst, val, 0, [if clst % 2 == 1 then b % 0x10 + 0x10 * (val % 0x10) else val % 0x100], old(img));
      PutBytesAt(g, old(img), clst, val, 1);
      b := LoadFatByte(bc + 1);
      StoreFatBytes(clst, val, 1,
                    [if clst % 2 == 1 then val / 0x10 % 0x100 else 0x10 * (b / 0x10) + val / 0x100 % 0x10], old(img));
    }

    method PutFat16(clst: nat, val: nat)
      requires Valid() && 2 <= clst < g.nFatEnt && g.fatType == Fat16
      modifies `disk, `wflag, `winsect, `img, win
      ensures Valid() && img == PutEntry(g, old(img), clst, val)
      ensures g.fatBase <= winsect < g.fatBase + g.fatSize
    {
      hide WindowOk, FatMap, Entry, LdWord;
      EntryInSector16(g, img, clst);
      MoveWindow(g.fatBase + Quo(clst, g.ss / 2));
      StoreFatBytes(clst, val, 0, [val % 0x100, val / 0x100 % 0x100], old(img));
    }

    method PutFat32(clst: nat, val: nat)
      requires Valid() && 2 <= clst < g.nFatEnt && g.fatType == Fat32
      modifies `disk, `wflag, `winsect, `img, win
      ensures Valid() && img == PutEntry(g, old(img), clst, val)
      ensures g.fatBase <= winsect < g.fatBase + g.fatSize
    {
      hide WindowOk, FatMap, Or4;
      Bytes32InSector(g, clst);
      MoveWindow(g.fatBase + Quo(clst, g.ss / 4));
      var top := Or4(val / 0x1000_0000 % 0x10, win[Rem(4 * clst, g.ss) + 3] / 0x10);
      OrBound(val / 0x1000_0000 % 0x10, win[Rem(4 * clst, g.ss) + 3] / 0x10);
      StoreFatBytes(clst, val, 0, [val % 0x100, val / 0x100 % 0x100, val / 0x1_0000 % 0x100,
                                   val / 0x100_0000 % 0x10 + 0x10 * top], old(img));
    }

    /** One step of remove_chain: marks a used cluster free and counts it. */
    method ReleaseCluster(clst: nat)
      requires Valid() && 2 <= clst < g.nFatEnt && Table()[clst] != 0
      modifies `disk, `wflag, `winsect, `img, `freeClust, `fsiDirty, win
      ensures Valid() && SameOutsideFat(g, old(img), img)
      ensures Table() == old(Table())[clst := 0]
      ensures InUse(Table(), g.nFatEnt) < InUse(old(Table()), g.nFatEnt)
      ensures old(CountOk()) ==> CountOk()
      ensures g.fatBase <= winsect < g.fatBase + g.fatSize
    {
      hide WindowOk, FatMap, PutEntry, FreeCount, SameOutsideFat;
      ReleaseCounts(Table(), clst);
      var res := PutFat(clst, 0);
      if freeClust != UNKNOWN {
        freeClust := (freeClust + 1) % DWORD_MOD;
        fsiDirty := true;
      }
    }

    method RemoveChain(start: nat) returns (res: Status)
      requires Valid()
      modifies `disk, `wflag, `winsect, `img, `freeClust, `fsiDirty, win
      ensures Valid() && SameOutsideFat(g, old(img), img)
      ensures start < 2 || start >= g.nFatEnt ==> res == IntErr && Table() == old(Table())
      ensures 2 <= start < g.nFatEnt ==> Release(Table(), res) == Remove(old(Table()), start)
      ensures old(CountOk()) ==> CountOk()
      ensures WindowMoved(old(winsect), old(wflag))
    {
      var clst := start;
      if clst < 2 || clst >= g.nFatEnt {
        return IntErr;
      }
      res := Ok;
      ghost var goal := Remove(Table(), start);
      while clst < g.nFatEnt
        invariant clst >= 2 && res == Ok
        invariant Valid() && SameOutsideFat(g, old(img), img)
        invariant Remove(Table(), clst) == goal
        invariant old(CountOk()) ==> CountOk()
        invariant WindowMoved(old(winsect), old(wflag))
        decreases InUse(Table(), g.nFatEnt)
      {
        var nxt := GetFat(clst);
        if nxt == 0 {
          break;
        }
        if nxt == 1 {
          res := IntErr;
          break;
        }
        ReleaseCluster(clst);
        clst := nxt;
      }
    }

    /** The wrap-around search of create_chain. */
    method SearchFree(scl: nat) returns (r: nat)
      requires Valid() && 1 <= scl < g.nFatEnt
      modifies `disk, `wflag, `winsect, win
      ensures Valid() && r == Pick(Table(), scl) && Quiet(old(disk), old(wflag))
      ensures g.fatBase <= winsect < g.fatBase + g.fatSize
    {
      hide WindowOk, FatMap, ImageOk;
      var ncl := scl;
      ghost var k := 0;
      ghost var n, fat := g.nFatEnt, Table();
      while true
        invariant Valid() && Table() == fat && k <= n - 2 && (k == n - 2 ==> scl == 1)
        invariant Quiet(old(disk), old(wflag))
        invariant ncl == if k == 0 then scl else Candidate(n, scl, k - 1)
        invariant k > 0 ==> ncl != scl
        invariant FirstStop(fat, scl, 0) == FirstStop(fat, scl, k)
        invariant k > 0 ==> g.fatBase <= winsect < g.fatBase + g.fatSize
        decreases n - k
      {
        ncl := ncl + 1;
        if ncl >= g.nFatEnt {
          ncl := 2;
          if ncl > scl {
            return 0;
          }
        }
        var cs := GetFat(ncl);
        if cs == 0 {
          return ncl;
        }
        if cs == 1 {
          return cs;
        }
        if ncl == scl {
          return 0;
        }
        k := k + 1;
      }
    }

    method CreateChain(clst: nat) returns (ncl: nat)
      requires Valid()
      modifies `disk, `wflag, `winsect, `img, `lastClust, `freeClust, `fsiDirty, win
      ensures Valid() && SameOutsideFat(g, old(img), img)
      ensures
        var a := Create(old(Table()), g.EndMark(), clst, old(lastClust));
        && Table() == a.fat && ncl == a.cluster
        && lastClust == (if a.isNew then ncl else old(lastClust))
        && (!a.isNew ==> Quiet(old(disk), old(wflag)))
        && (a.isNew ==> g.fatBase <= winsect < g.fatBase + g.fatSize)
      ensures Sound(old(Table())) && (clst == 0 || (2 <= clst < g.nFatEnt && old(Table())[clst] >= g.nFatEnt)) ==>
        NextFree(
          old(Table()),
          if clst != 0 then clst else if 0 < old(lastClust) < g.nFatEnt then old(lastClust) else 1,
          ncl)
      ensures old(CountOk()) ==> CountOk()
      ensures WindowMoved(old(winsect), old(wflag))
    {
      hide WindowOk, FatMap, ImageOk, Pick, PutEntry, NextFree, Sound;
      if Sound(Table()) && (clst == 0 || (2 <= clst < g.nFatEnt && Table()[clst] >= g.nFatEnt)) {
        CreateIsNext(Table(), g.EndMark(), clst, lastClust);
      }
      var scl;
      if clst == 0 {
        scl := lastClust;
        if scl == 0 || scl >= g.nFatEnt {
          scl := 1;
        }
      } else {
        var cs := GetFat(clst);
        if cs < 2 {
          return 1;
        }
        if cs < g.nFatEnt {
          return cs;
        }
        scl := clst;
      }
      ncl := SearchFree(scl);
      if ncl < 2 {
        return;
      }
      PickIsFree(Table(), scl);
      LinkCluster(ncl, clst);
    }

    /** The end of create_chain: marks the free cluster `ncl`, links it behind `clst` and counts it. */
    method LinkCluster(ncl: nat, clst: nat)
      requires Valid() && 2 <= ncl < g.nFatEnt && Table()[ncl] == 0
      requires clst == 0 || (2 <= clst < g.nFatEnt && Table()[clst] != 0)
      modifies `disk, `wflag, `winsect, `img, `lastClust, `freeClust, `fsiDirty, win
      ensures Valid() && SameOutsideFat(g, old(img), img)
      ensures Table() ==
        if clst == 0 then old(Table())[ncl := g.EndMark()] else old(Table())[ncl := g.EndMark()][clst := ncl]
      ensures lastClust == ncl
      ensures old(CountOk()) ==> CountOk()
      ensures g.fatBase <= winsect < g.fatBase + g.fatSize
    {
      hide WindowOk, FatMap, ImageOk, PutEntry, FreeCount;
      LinkCounts(Table(), g.EndMark(), ncl, clst);
      var res := PutFat(ncl, 0x0FFF_FFFF);
      if clst != 0 {
        res := PutFat(clst, ncl);
      }
      lastClust := ncl;
      if freeClust != UNKNOWN {
        freeClust := (freeClust + DWORD_MOD - 1) % DWORD_MOD;
        fsiDirty := true;
      }
    }

    /** The raw scan counts no reserved entry: it does not read them on FAT12, and elsewhere neither is 0. */
    ghost predicate ReservedSet()
      requires Valid()
      reads this, win
    {
      g.fatType == Fat12 || (Table()[0] != 0 && Table()[1] != 0)
    }

    /** f_getfree: the number of free clusters, from the cached count when there is one. */
    method GetFree() returns (res: Status, nclst: nat)
      requires Valid()
      modifies `disk, `wflag, `winsect, `freeClust, `fsiDirty, win
      ensures Valid() && Table() == old(Table())
      ensures FreeAnswer(res, nclst) == Chains.GetFree(Table(), g.fatType == Fat12, old(freeClust))
      ensures nclst == freeClust
      ensures old(freeClust) > g.nFatEnt - 2 ==> fsiDirty
      ensures old(freeClust) <= g.nFatEnt - 2 ==> res == Ok && nclst == old(freeClust) && fsiDirty == old(fsiDirty)
      ensures old(freeClust) > g.nFatEnt - 2 && g.fatType != Fat12 ==>
        res == Ok && nclst == ZerosBelow(Table(), g.nFatEnt)
      ensures old(freeClust) > g.nFatEnt - 2 && g.fatType == Fat12 ==>
        (res == Ok || res == IntErr) && (res == Ok <==> forall c :: 2 <= c < g.nFatEnt ==> Table()[c] != 1)
      ensures res != Ok ==>
        var c := FirstIllegal(Table(), 2);
        2 <= c < g.nFatEnt && Table()[c] == 1 && freeClust == Free(Table(), c)
      ensures old(freeClust) > g.nFatEnt - 2 && res == Ok ==>
        (nclst == FreeCount(Table()) <==> ReservedSet()) && (ReservedSet() ==> CountOk())
    {
      hide WindowOk, FatMap, ImageOk;
      res := Ok;
      if freeClust <= g.nFatEnt - 2 {
        nclst := freeClust;
      } else {
        if g.fatType == Fat12 {
          res, nclst := CountFat12();
        } else {
          nclst := CountRaw();
        }
        ghost var fat := Table();
        ScanIsRight(fat, g.fatType == Fat12, freeClust);
        freeClust := nclst;
        fsiDirty := true;
        assert Table() == fat;
      }
    }

    method CountFat12() returns (res: Status, n: nat)
      requires Valid()
      modifies `disk, `wflag, `winsect, win
      ensures Valid()
      ensures Table() == old(Table())
      ensures res == Ok ==> n == FreeCount(Table()) && forall c :: 2 <= c < g.nFatEnt ==> Table()[c] != 1
      ensures res != Ok ==> res == IntErr && FirstIllegal(Table(), 2) < g.nFatEnt
      ensures n == Free(Table(), FirstIllegal(Table(), 2))
    {
      hide WindowOk, FatMap, ImageOk;
      res, n := Ok, 0;
      var clst := 2;
      ghost var fat := Table();
      while clst < g.nFatEnt
        invariant Valid() && Table() == fat && res == Ok && 2 <= clst <= g.nFatEnt && n == Free(fat, clst)
        invariant FirstIllegal(fat, clst) == FirstIllegal(fat, 2)
      {
        var stat := GetFat(clst);
        if stat == 1 {
          res := IntErr;
          break;
        }
        if stat == 0 {
          n := n + 1;
        }
        clst := clst + 1;
      }
    }

    /** The raw sector scan for FAT16 and FAT32, which starts at reserved entry 0. */
    method CountRaw() returns (n: nat)
      requires Valid() && g.fatType != Fat12
      modifies `disk, `wflag, `winsect, win
      ensures Valid() && Table() == old(Table()) && n == ZerosBelow(Table(), g.nFatEnt)
    {
      hide WindowOk, ImageOk, FatMap, Quo, Rem;
      n := 0;
      var clst: nat := g.nFatEnt;
      var sect: nat := g.fatBase;
      var i: nat := 0;
      ghost var fat := Table();
      while clst > 0
        invariant Valid() && Table() == fat && |fat| == g.nFatEnt && clst <= g.nFatEnt
        invariant g.fatBase <= sect && i < g.ss
        invariant EntryOffset(g, g.nFatEnt - clst) + i == Times(sect - g.fatBase, g.ss)
        invariant i > 0 ==> g.fatBase < sect == winsect + 1
        invariant n == ZerosBelow(fat, g.nFatEnt - clst)
      {
        if i == 0 {
          LoadRaw(g.nFatEnt - clst, sect);
          sect := sect + 1;
          i := g.ss;
        }
        var zero := RawTest(g.nFatEnt - clst, sect - 1 - g.fatBase, g.ss - i);
        if zero {
          n := n + 1;
        }
        i := i - EntryBytesWide(g);
        clst := clst - 1;
      }
    }

    /** Brings the FAT sector that begins with the entry of cluster `c` into the window. */
    method LoadRaw(ghost c: nat, sect: nat)
      requires Valid() && c < g.nFatEnt && g.fatType != Fat12 && g.fatBase <= sect
      requires EntryOffset(g, c) == Times(sect - g.fatBase, g.ss)
      modifies `disk, `wflag, `winsect, win
      ensures Valid() && Table() == old(Table()) && winsect == sect
      ensures EntryOffset(g, c) + g.ss == Times(sect + 1 - g.fatBase, g.ss)
    {
      hide WindowOk, ImageOk, FatMap, Quo, Rem;
      RawScanPosition(g, img, c, sect - g.fatBase, 0);
      TimesAdd(sect - g.fatBase, 1, g.ss);
      MoveWindow(sect);
    }

    /** Tests the entry of cluster `c`, which lies at offset `p` of the window. */
    method RawTest(c: nat, ghost q: nat, p: nat) returns (zero: bool)
      requires Valid() && c < g.nFatEnt && g.fatType != Fat12
      requires EntryOffset(g, c) == Times(q, g.ss) + p && p < g.ss && winsect == g.fatBase + q
      ensures p + EntryBytesWide(g) <= g.ss
      ensures zero <==> Table()[c] == 0
    {
      hide WindowOk;
      RawScanPosition(g, img, c, q, p);
      if g.fatType == Fat16 {
        zero := LdWord(win[..], p) == 0;
      } else {
        zero := LdDword(win[..], p) % 0x1000_0000 == 0;
      }
    }

    /** sync_fs: flushes the window and, on FAT32 with changed counts, the FSINFO sector. */
    method SyncFs()
      requires Valid()
      modifies `disk, `wflag, `winsect, `img, `fsiDirty, win
      ensures Valid() && !wflag
      ensures g.fatType == Fat32 && !fsiDisabled ==> !fsiDirty
      ensures
        if g.fatType == Fat32 && !fsiDisabled && old(fsiDirty)
        then img == old(img)[g.volBase + 1 := FsInfo(g.ss, freeClust, lastClust)] && winsect == g.volBase + 1
        else img == old(img) && winsect == old(winsect)
    {
      SyncWindow();
      if g.fatType == Fat32 && !fsiDisabled && fsiDirty {
        hide FsInfo;
        ReplaceKeepsWindow(g, disk, win[..], winsect, img, g.volBase + 1, FsInfo(g.ss, freeClust, lastClust));
        var info := FsInfo(g.ss, freeClust, lastClust);
        forall i | 0 <= i < win.Length {
          win[i] := info[i];
        }
        assert win[..] == info;
        winsect := g.volBase + 1;
        disk := disk[winsect := win[..]];
        img := img[winsect := info];
        fsiDirty := false;
      }
    }

    /** Changes the sector in the window and marks it dirty. */
    method EditWindow(w: Sector)
      requires Valid() && |w| == g.ss
      modifies `wflag, `img, win
      ensures Valid() && wflag && win[..] == w && img == old(img)[winsect := w]
    {
      hide FatMap;
      EditKeepsWindow(g, disk, win[..], winsect, wflag, img, w);
      forall i | 0 <= i < win.Length {
        win[i] := w[i];
      }
      wflag := true;
      img := img[winsect := w];
      assert win[..] == w;
    }

    /** Data sectors that are not in the window are on the disk as in the image. */
    lemma DiskBehindWindow(sect: nat, cc: nat)
      requires Valid() && g.dataBase <= sect && sect + cc <= g.nSect && !(sect <= winsect < sect + cc)
      ensures ImageOk(g, disk) && disk[sect..sect + cc] == img[sect..sect + cc]
    {}

    /** disk_write of one data sector, past the window. */
    method WriteSector(s: nat, data: Sector)
      requires Valid() && g.dataBase <= s < g.nSect && s != winsect && |data| == g.ss
      modifies `disk, `img
      ensures Valid()
      ensures disk == old(disk)[s := data] && img == old(img)[s := data]
      ensures Table() == old(Table())
    {
      DirectWriteKeepsWindow(g, disk, win[..], winsect, wflag, img, s, data);
      FatMapFrame(g, img, img[s := data]);
      disk := disk[s := data];
      img := img[s := data];
    }

    /** The window stayed where it was, or holds a FAT sector now. */
    ghost predicate WindowMoved(was: nat, dirty: bool)
      reads `winsect, `wflag
    {
      g.fatBase <= winsect < g.fatBase + g.fatSize || (winsect == was && wflag == dirty)
    }
  }
}
