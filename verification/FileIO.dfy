/** An open file (FIL): f_read, f_write, f_lseek, f_truncate and f_sync over the volume. */
module FileIO {
  import opened Results
  import opened Arith
  import opened Bytes
  import opened Fat
  import opened Window
  import opened Chains
  import opened LinkMap
  import opened FileData
  import opened FileState
  import opened FileGrowth
  import opened Durable
  import opened Volume

  class File {
    const fs: FatFs
    const buf: array<Byte>
    const canRead: bool   // FA_READ
    const canWrite: bool  // FA_WRITE
    const dirSect: nat    // sector containing the directory entry
    const dirOff: nat     // offset of the entry in that sector
    var err: Status       // abort flag
    var written: bool     // FA__WRITTEN
    var dirty: bool       // FA__DIRTY
    var fptr: nat
    var fsize: nat
    var sclust: nat
    var clust: nat
    var dsect: nat
    var cltbl: array?<nat>
    ghost var chain: seq<nat>
    ghost var cache: seq<Sector>
    ghost var bufAt: nat
    ghost var loose: nat

    /** The end of f_open: the entry is in the window; `chain` is the chain its start cluster heads. */
    constructor Open(fs: FatFs, read: bool, write: bool, dirOff: nat, ghost chain: seq<nat>)
      requires fs.Valid() && dirOff + 32 <= fs.g.ss && fs.g.ss <= fs.win.Length
      requires Sound(fs.Table()) && Elsewhere(fs.g, fs.Table(), chain, fs.winsect)
      requires Heads(fs.Table(), LdClust(fs.g, fs.win[..], dirOff), chain)
      requires Sized(fs.g, chain, LdDword(fs.win[..], dirOff + 28))
      ensures this.fs == fs && this.chain == chain && canRead == read && canWrite == write
      ensures this.dirSect == fs.winsect && this.dirOff == dirOff
      ensures fresh(buf) && Valid() && err == Ok && fptr == 0 && cltbl == null && !written && !dirty
      ensures sclust == LdClust(fs.g, fs.win[..], dirOff) && fsize == LdDword(fs.win[..], dirOff + 28)
      ensures cache == Stored(fs.g, fs.img, chain)
    {
      this.fs := fs;
      this.buf := new Byte[fs.g.ss];
      this.canRead, this.canWrite := read, write;
      this.dirSect, this.dirOff := fs.winsect, dirOff;
      this.err, this.written, this.dirty := Ok, false, false;
      this.sclust := LdClust(fs.g, fs.win[..], dirOff);
      this.fsize := LdDword(fs.win[..], dirOff + 28);
      this.fptr, this.clust, this.dsect := 0, 0, 0;
      this.cltbl := null;
      this.chain := chain;
      HeadsInRange(fs.g, fs.Table(), LdClust(fs.g, fs.win[..], dirOff), chain);
      this.cache := Stored(fs.g, fs.img, chain);
      this.bufAt, this.loose := 0, 0;
      new;
      OpenedCore(fs.g, fs.Table(), fs.img, St(), fs.winsect, dirSect);
    }

    /** The field values as one value. */
    ghost function St(): State
      reads this, buf, fs`home
    {
      State(chain, cache, bufAt, buf[..], dirty, dsect, sclust, clust, fptr, fsize, fs.home, loose)
    }

    /** The invariant without the cursor. */
    ghost predicate Settled()
      reads this, fs, fs.win, buf
    {
      buf != fs.win && buf.Length == fs.g.ss && dirOff + 32 <= fs.g.ss && fs.Valid()
        && Base(fs.g, fs.Table(), fs.img, St(), fs.winsect, dirSect)
    }

    ghost predicate Valid()
      reads this, fs, fs.win, buf
    {
      && Settled() && Cursor(fs.g, fs.Table(), St())
      && Sized(fs.g, chain, fsize) && fptr <= fsize < DWORD_MOD && (dirty ==> written)
    }

    /** Unless something was waiting to be written, nothing is, and the medium is as it was. */
    ghost predicate Calm(was: seq<Sector>, busy: bool)
      reads `dirty, fs`disk, fs`wflag
    {
      busy || (fs.disk == was && !fs.wflag && !dirty)
    }

    /** The bytes of the file. */
    ghost function Contents(): seq<Byte>
      requires Valid()
      reads this, fs, fs.win, buf
    {
      CacheBytes(fs.g, fs.Table(), St());
      Data(fs.g, St(), fsize)
    }

    /** The fast-seek table, if any, agrees with the chain as far as both go. */
    ghost predicate MapAgrees()
      reads `cltbl, `chain, cltbl
    {
      cltbl != null ==>
        && TableOk(cltbl[..], 1)
        && forall i :: 0 <= i < |chain| && i < |Clusters(cltbl[..], 1)| ==> Clusters(cltbl[..], 1)[i] == chain[i]
    }

    /** Writes back the dirty sector buffer. */
    method FlushBuffer()
      requires Settled()
      modifies `dirty, fs`disk, fs`img
      ensures Settled() && !dirty
      ensures St() == old(St()).(dirty := false) && fs.Table() == old(fs.Table())
      ensures old(dirty) ==> dsect < fs.g.nSect && fs.img == old(fs.img)[dsect := buf[..]]
      ensures !old(dirty) ==> fs.img == old(fs.img) && fs.disk == old(fs.disk)
      ensures Untouched(fs.g, fs.Table(), old(fs.img), chain, fs.Table(), fs.img, chain)
      ensures Calm(old(fs.disk), old(fs.wflag || dirty))
    {
      if dirty {
        FlushKeepsBase(fs.g, fs.Table(), fs.img, St(), fs.winsect, dirSect);
        UntouchedByOwnSector(fs.g, fs.Table(), fs.img, St(), dsect, buf[..]);
        fs.WriteSector(dsect, buf[..]);
        dirty := false;
      } else {
        UntouchedSelf(fs.g, fs.Table(), fs.img, St());
      }
    }

    /** clmt_clust: cluster of offset `ofs` from the link map. */
    method ClmtClust(ofs: nat) returns (r: nat)
      requires cltbl != null && TableOk(cltbl[..], 1) && fs.g.Valid()
      ensures r == Lookup(cltbl[..], 1, Quo(Quo(ofs, fs.g.ss), fs.g.csize))
    {
      var tbl := 1;
      var cl := Quo(Quo(ofs, fs.g.ss), fs.g.csize);
      while true
        invariant TableOk(cltbl[..], tbl)
        invariant Lookup(cltbl[..], 1, Quo(Quo(ofs, fs.g.ss), fs.g.csize)) == Lookup(cltbl[..], tbl, cl)
        decreases cltbl.Length - tbl
      {
        var ncl := cltbl[tbl];
        if ncl == 0 {
          return 0;
        }
        if cl < ncl {
          break;
        }
        cl := cl - ncl;
        tbl := tbl + 2;
      }
      return cl + cltbl[tbl + 1];
    }

    // -------------------------------------------------------------- f_read

    /** On a cluster boundary f_read takes the cluster of byte `fptr` from the start cluster, the map or the FAT. */
    method NextForRead() returns (res: Status)
      requires Settled() && Cursor(fs.g, fs.Table(), St()) && MapAgrees()
      requires ClusterBytes(fs.g) > 0 && Rem(fptr, ClusterBytes(fs.g)) == 0 && Quo(fptr, ClusterBytes(fs.g)) < |chain|
      modifies `clust, `err, fs`disk, fs`wflag, fs`winsect, fs.win
      ensures Settled() && fs.Table() == old(fs.Table())
      ensures res == Ok ==> AtCluster(fs.g, St()) && St() == old(St()).(clust := clust) && err == old(err)
      ensures res != Ok ==> St() == old(St()) && res == IntErr == err
      ensures res == Ok <==>
        fptr == 0 || cltbl == null || Quo(fptr, ClusterBytes(fs.g)) < |Clusters(cltbl[..], 1)|
      ensures Calm(old(fs.disk), old(fs.wflag || dirty))
    {
      hide WindowOk, FatMap, Cached, Buffered, Placed, TableOk, Clusters;
      var clst;
      ghost var k := Quo(fptr, ClusterBytes(fs.g));
      ghost var s, w := St(), fs.winsect;
      OffsetParts(fs.g, fptr);
      if fptr == 0 {
        clst := sclust;
      } else {
        PreviousByte(fs.g, fptr);
        if cltbl != null {
          LookupIndexes(cltbl[..], 1, k);
          clst := ClmtClust(fptr);
        } else {
          clst := fs.GetFat(clust);
          assert clst == chain[k];
        }
      }
      MovedKeepsBase(
        fs.g, fs.Table(), fs.img, s, w, dirSect, fs.winsect, if clst < 2 then clust else clst, fptr, fsize);
      if clst < 2 {
        err := IntErr;
        return IntErr;
      }
      clust := clst;
      return Ok;
    }

    /** Copies `data` into `rbuff` at `off`. */
    static method CopyInto(rbuff: array<Byte>, off: nat, data: seq<Byte>)
      requires off + |data| <= rbuff.Length
      modifies rbuff
      ensures rbuff[..] == Patch(old(rbuff[..]), off, data)
    {
      forall i | 0 <= i < |data| {
        rbuff[off + i] := data[i];
      }
    }

    /** disk_read of `cc` sectors into `rbuff` at `off`. */
    method ReadSectors(rbuff: array<Byte>, off: nat, sect: nat, cc: nat)
      requires fs.Valid() && rbuff != fs.win && sect + cc <= fs.g.nSect && ImageOk(fs.g, fs.disk)
      requires off + Times(cc, fs.g.ss) <= rbuff.Length
      modifies rbuff
      ensures Sectors(fs.g.ss, fs.disk[sect..sect + cc])
      ensures rbuff[..] == Patch(old(rbuff[..]), off, Content(fs.g.ss, fs.disk[sect..sect + cc], Times(cc, fs.g.ss)))
    {
      hide Patch;
      hide WindowOk, FatMap, Times, Content;
      var ss := fs.g.ss;
      ghost var raw := fs.disk[sect..sect + cc];
      ghost var before := rbuff[..];
      assert Times(0, ss) == 0 by { TimesIsProduct(0, ss); }
      assert rbuff[..] == Patch(before, off, Content(ss, raw, 0)) by { NoBytes(ss, raw, before, off); }
      for j := 0 to cc
        invariant Times(j, ss) <= Times(cc, ss)
        invariant rbuff[..] == Patch(before, off, Content(ss, raw, Times(j, ss)))
      {
        TimesMono(j + 1, cc, ss);
        TimesAdd(j, 1, ss);
        AppendSector(ss, raw, j);
        PatchTwice(before, off, Content(ss, raw, Times(j, ss)), raw[j]);
        CopyInto(rbuff, off + Times(j, ss), fs.disk[sect + j]);
      }
    }

    /** The direct transfer of f_read: `cc` whole sectors, then the dirty buffer over its own sector. */
    method ReadDirect(rbuff: array<Byte>, off: nat, sect: nat, cc: nat)
      requires Settled() && rbuff != fs.win && rbuff != buf
      requires Rem(fptr, fs.g.ss) == 0 && AtCluster(fs.g, St())
      requires
        var q := Quo(fptr, fs.g.ss);
        q < |cache| && sect == FileSec(fs.g, chain, q) && cc > 0 && Rem(q, fs.g.csize) + cc <= fs.g.csize
      requires off + Times(cc, fs.g.ss) <= rbuff.Length
      modifies rbuff
      ensures
        var q := Quo(fptr, fs.g.ss);
        && q + cc <= |cache| && Sectors(fs.g.ss, cache[q..q + cc])
        && rbuff[..] == Patch(old(rbuff[..]), off, Content(fs.g.ss, cache[q..q + cc], Times(cc, fs.g.ss)))
    {
      hide FatMap, Times, Content, FileSec, Cached, Buffered, Placed, AtCluster, WindowOk, Heads, InRange, Quo;
      hide Rem, Sub32, Patch;
      ghost var s, w, before := St(), fs.winsect, rbuff[..];
      DirectSectors(fs.g, fs.Table(), fs.img, s, w, dirSect, Quo(fptr, fs.g.ss), cc);
      DirectApart(fs.g, fs.Table(), fs.img, s, w, dirSect, Quo(fptr, fs.g.ss), cc);
      fs.DiskBehindWindow(sect, cc);
      ReadSectors(rbuff, off, sect, cc);
      ghost var raw := fs.img[sect..sect + cc];
      if dirty {
        DirtySectorInData(fs.g, fs.Table(), fs.img, s, w, dirSect);
        RangeTest(dsect, sect, cc);
      }
      if dirty && Sub32(dsect, sect) < cc {
        BufferOverRead(fs.g.ss, raw, dsect - sect, buf[..], before, off);
        CopyInto(rbuff, off + Times(dsect - sect, fs.g.ss), buf[..]);
      }
    }

    /** Fills the sector buffer with the sector at position `q` of the file, flushing it first if it holds another. */
    method LoadBuffer(sect: nat, ghost q: nat)
      requires Settled() && q < |cache| && sect == FileSec(fs.g, chain, q)
      modifies buf, `dirty, `dsect, fs`disk, fs`img
      ensures Settled() && buf[..] == cache[q] && fs.Table() == old(fs.Table())
      ensures St() == old(St()).(buf := buf[..], dirty := dirty, dsect := sect)
      ensures Untouched(fs.g, fs.Table(), old(fs.img), chain, fs.Table(), fs.img, chain)
      ensures Calm(old(fs.disk), old(fs.wflag || dirty))
      ensures dirty ==> old(dirty)
    {
      hide WindowOk, FatMap, Cached, Buffered, Placed, FileSec, Untouched;
      ghost var w := fs.winsect;
      if dsect != sect {
        FlushBuffer();
        LoadKeepsBase(fs.g, fs.Table(), fs.img, St(), w, dirSect, q);
        ReadOneSector(sect);
      } else {
        BufferHolds(fs.g, fs.Table(), fs.img, St(), w, dirSect, q);
        UntouchedSelf(fs.g, fs.Table(), fs.img, St());
      }
      dsect := sect;
    }

    /** disk_read of one sector into the buffer. */
    method ReadOneSector(sect: nat)
      requires fs.Valid() && buf != fs.win && buf.Length == fs.g.ss && sect < fs.g.nSect
      requires sect != fs.winsect && fs.g.dataBase <= sect
      modifies buf
      ensures buf[..] == fs.img[sect]
    {
      hide FatMap;
      var data := fs.disk[sect];
      forall i | 0 <= i < buf.Length {
        buf[i] := data[i];
      }
    }

    /** Delivers bytes of the buffered sector from `fptr` on. */
    method ReadPartial(rbuff: array<Byte>, off: nat, n: nat) returns (rcnt: nat)
      requires Settled() && rbuff != fs.win && rbuff != buf && AtCluster(fs.g, St())
      requires Quo(fptr, fs.g.ss) < |cache| && dsect == FileSec(fs.g, chain, Quo(fptr, fs.g.ss))
      requires 1 <= n && fptr + n <= fsize <= Times(|cache|, fs.g.ss) && off + n <= rbuff.Length
      modifies rbuff, `fptr
      ensures Settled() && Cursor(fs.g, fs.Table(), St())
      ensures 1 <= rcnt <= n && fptr == old(fptr) + rcnt
      ensures rbuff[..] == Patch(old(rbuff[..]), off, Content(fs.g.ss, cache, fsize)[old(fptr)..fptr])
    {
      hide WindowOk, FatMap, Base, Sound, Heads, InRange, FileSec, AtCluster, Content, Cursor, Quo, Rem, Times, Patch;
      ghost var s, w, q := St(), fs.winsect, Quo(fptr, fs.g.ss);
      BaseShape(fs.g, fs.Table(), fs.img, s, w, dirSect);
      var r := Rem(fptr, fs.g.ss);
      QuoRem(fptr, fs.g.ss);
      rcnt := fs.g.ss - r;
      if rcnt > n {
        rcnt := n;
      }
      BufferHolds(fs.g, fs.Table(), fs.img, s, w, dirSect, q);
      SectorSlice(fs.g.ss, cache, q, r, rcnt, fsize);
      PartialStep(fs.g, fs.Table(), s, rcnt);
      MovedKeepsBase(fs.g, fs.Table(), fs.img, s, w, dirSect, w, clust, fptr + rcnt, fsize);
      CopyInto(rbuff, off, buf[r..r + rcnt]);
      fptr := fptr + rcnt;
    }

    /** Whether the link map, if there is one, can serve a transfer that enters a cluster at offset `p`. */
    ghost predicate MapCovers(p: nat)
      requires cltbl != null ==> TableOk(cltbl[..], 1)
      reads `cltbl, cltbl
    {
      p == 0 || cltbl == null || ClusterBytes(fs.g) == 0 || Rem(p, ClusterBytes(fs.g)) != 0
      || Quo(p, ClusterBytes(fs.g)) < |Clusters(cltbl[..], 1)|
    }

    /** On a sector boundary f_read moves whole sectors directly, or loads the buffer (`rcnt` is 0 then). */
    method ReadAtBoundary(rbuff: array<Byte>, off: nat, n: nat) returns (rcnt: nat)
      requires Settled() && rbuff != fs.win && rbuff != buf && AtCluster(fs.g, St()) && Rem(fptr, fs.g.ss) == 0
      requires 1 <= n && fptr + n <= fsize <= Times(|cache|, fs.g.ss) && off + n <= rbuff.Length
      modifies rbuff, buf, `dirty, `dsect, `fptr, fs`disk, fs`img
      ensures Settled() && fs.Table() == old(fs.Table())
      ensures Untouched(fs.g, fs.Table(), old(fs.img), chain, fs.Table(), fs.img, chain)
      ensures rcnt == 0 ==>
        && fptr == old(fptr) && AtCluster(fs.g, St()) && rbuff[..] == old(rbuff[..])
        && Quo(fptr, fs.g.ss) < |cache| && dsect == FileSec(fs.g, chain, Quo(fptr, fs.g.ss))
      ensures rcnt > 0 ==>
        && rcnt <= n && fptr == old(fptr) + rcnt && Cursor(fs.g, fs.Table(), St())
        && rbuff[..] == Patch(old(rbuff[..]), off, Content(fs.g.ss, cache, fsize)[old(fptr)..fptr])
      ensures Calm(old(fs.disk), old(fs.wflag || dirty))
      ensures dirty ==> old(dirty)
    {
      hide WindowOk, FatMap, Cached, Buffered, Placed, FileSec, Content, Quo, Rem, Times, Heads, InRange, Untouched;
      ghost var q := Quo(fptr, fs.g.ss);
      CurrentSector(fs.g, fs.Table(), St());
      var csect := Rem(Quo(fptr, fs.g.ss), fs.g.csize);
      QuoRem(Quo(fptr, fs.g.ss), fs.g.csize);
      var sect := Clust2Sect(fs.g, clust) + csect;
      var cc := Quo(n, fs.g.ss);
      QuoRem(n, fs.g.ss);
      if cc > 0 {
        if csect + cc > fs.g.csize {
          cc := fs.g.csize - csect;
        }
        TimesMono(cc, Quo(n, fs.g.ss), fs.g.ss);
        DirectStep(fs.g, fs.Table(), St(), cc);
        ReadDirect(rbuff, off, sect, cc);
        ContentSlice(fs.g.ss, cache, q, cc, fsize);
        UntouchedSelf(fs.g, fs.Table(), fs.img, St());
        rcnt := Times(cc, fs.g.ss);
        MovedKeepsBase(fs.g, fs.Table(), fs.img, St(), fs.winsect, dirSect, fs.winsect, clust, fptr + rcnt, fsize);
        fptr := fptr + rcnt;
      } else {
        LoadBuffer(sect, q);
        rcnt := 0;
      }
    }

    /** One round of the f_read loop. It fails only where the link map ends before the chain. */
    method ReadChunk(rbuff: array<Byte>, off: nat, n: nat) returns (res: Status, rcnt: nat)
      requires Valid() && MapAgrees() && rbuff != fs.win && rbuff != buf
      requires 1 <= n && fptr + n <= fsize && off + n <= rbuff.Length
      modifies rbuff, buf, `clust, `err, `dirty, `dsect, `fptr, fs`disk, fs`img, fs`wflag, fs`winsect, fs.win
      ensures Valid() && fs.Table() == old(fs.Table())
      ensures Untouched(fs.g, fs.Table(), old(fs.img), chain, fs.Table(), fs.img, chain)
      ensures fsize <= Times(|cache|, fs.g.ss)
      ensures res == Ok ==>
        && 1 <= rcnt <= n && fptr == old(fptr) + rcnt && err == old(err)
        && rbuff[..] == Patch(old(rbuff[..]), off, Content(fs.g.ss, cache, fsize)[old(fptr)..fptr])
      ensures res != Ok ==>
        res == IntErr == err && fptr == old(fptr) && rbuff[..] == old(rbuff[..]) && !MapCovers(fptr)
      ensures Calm(old(fs.disk), old(fs.wflag || dirty))
    {
      hide WindowOk, FatMap, Base, Sound, Cursor, FileSec, Content, Quo, Rem, Times, TableOk, Clusters, Heads;
      hide InRange, Untouched, Sized, Patch, AtCluster;
      SizeBound();
      SelfUntouched();
      rcnt := 0;
      res := EnterForRead();
      if res != Ok {
        return;
      }
      if Rem(fptr, fs.g.ss) == 0 {
        rcnt := ReadAtBoundary(rbuff, off, n);
        if rcnt > 0 {
          return;
        }
      }
      rcnt := ReadPartial(rbuff, off, n);
    }

    /** Finds the cluster of byte `fptr`, on a cluster boundary as f_read does. */
    method EnterForRead() returns (res: Status)
      requires Valid() && MapAgrees() && fptr < fsize
      modifies `clust, `err, fs`disk, fs`wflag, fs`winsect, fs.win
      ensures Settled() && fs.Table() == old(fs.Table()) && fs.img == old(fs.img)
      ensures res == Ok ==> St() == old(St()).(clust := clust) && err == old(err) && AtCluster(fs.g, St())
      ensures res == Ok && Rem(fptr, fs.g.ss) != 0 ==>
        Quo(fptr, fs.g.ss) < |cache| && dsect == FileSec(fs.g, chain, Quo(fptr, fs.g.ss))
      ensures res != Ok ==> Valid() && res == IntErr == err && !MapCovers(fptr)
      ensures Calm(old(fs.disk), old(fs.wflag || dirty))
    {
      hide WindowOk, FatMap, Base, Sound, FileSec, Quo, Rem, Times, TableOk, Clusters, Heads, InRange, Sized;
      BaseShape(fs.g, fs.Table(), fs.img, St(), fs.winsect, dirSect);
      SectorOfByte(fs.g, fs.Table(), St(), fsize);
      res := Ok;
      if Rem(fptr, fs.g.ss) == 0 && Rem(Quo(fptr, fs.g.ss), fs.g.csize) == 0 {
        res := NextForRead();
      } else {
        CursorInCluster(fs.g, fs.Table(), St());
      }
    }

    /** f_read: delivers the bytes at the cursor, as many as asked for and present. */
    method FRead(rbuff: array<Byte>, btr: nat) returns (res: Status, br: nat)
      requires Valid() && MapAgrees() && rbuff != fs.win && rbuff != buf && btr <= rbuff.Length
      modifies rbuff, buf, `clust, `err, `dirty, `dsect, `fptr, fs`disk, fs`img, fs`wflag, fs`winsect, fs.win
      ensures Valid() && MapAgrees() && Contents() == old(Contents())
      ensures fptr == old(fptr) + br
      ensures rbuff[..] == Patch(old(rbuff[..]), 0, Contents()[old(fptr)..fptr])
      ensures old(err) != Ok ==> res == old(err) && br == 0
      ensures old(err) == Ok && !canRead ==> res == Denied && br == 0 && err == Ok
      ensures old(err) == Ok && canRead && res == Ok ==>
        err == Ok && br == if btr <= fsize - old(fptr) then btr else fsize - old(fptr)
      ensures old(err) == Ok && canRead && res != Ok ==>
        res == IntErr == err && br < btr && fptr < fsize && !MapCovers(fptr)
      ensures fs.Table() == old(fs.Table())
      ensures Untouched(fs.g, fs.Table(), old(fs.img), chain, fs.Table(), fs.img, chain)
      ensures Calm(old(fs.disk), old(fs.wflag || dirty))
    {
      hide WindowOk, FatMap, Base, Cursor, Content, Patch, Sized, Untouched, TableOk, Clusters;
      EmptyPatch(rbuff[..], Contents(), fptr);
      assert Untouched(fs.g, fs.Table(), fs.img, chain, fs.Table(), fs.img, chain) by {
        assert Shape(fs.g, fs.Table(), St()) by { BaseShape(fs.g, fs.Table(), fs.img, St(), fs.winsect, dirSect); }
        UntouchedSelf(fs.g, fs.Table(), fs.img, St());
      }
      if err != Ok {
        return err, 0;
      }
      if !canRead {
        return Denied, 0;
      }
      var remain := fsize - fptr;
      if btr > remain {
        res, br := ReadLoop(rbuff, remain);
      } else {
        res, br := ReadLoop(rbuff, btr);
      }
    }

    /** The transfer loop of f_read, for a count clipped to the bytes present. */
    method ReadLoop(rbuff: array<Byte>, total: nat) returns (res: Status, br: nat)
      requires Valid() && MapAgrees() && rbuff != fs.win && rbuff != buf
      requires err == Ok && total <= rbuff.Length && fptr + total <= fsize
      modifies rbuff, buf, `clust, `err, `dirty, `dsect, `fptr, fs`disk, fs`img, fs`wflag, fs`winsect, fs.win
      ensures Valid() && MapAgrees() && Contents() == old(Contents())
      ensures fptr == old(fptr) + br
      ensures rbuff[..] == Patch(old(rbuff[..]), 0, Contents()[old(fptr)..fptr])
      ensures res == Ok ==> err == Ok && br == total
      ensures res != Ok ==> res == IntErr == err && br < total && !MapCovers(fptr)
      ensures fs.Table() == old(fs.Table())
      ensures Untouched(fs.g, fs.Table(), old(fs.img), chain, fs.Table(), fs.img, chain)
      ensures Calm(old(fs.disk), old(fs.wflag || dirty))
    {
      hide WindowOk, FatMap, Base, Cursor, Content, Patch, Sized, Untouched, TableOk, Clusters, Shape, ImageOk;
      ghost var all, before, fat, img0 := Contents(), rbuff[..], fs.Table(), fs.img;
      EmptyPatch(before, all, fptr);
      BaseShape(fs.g, fat, img0, St(), fs.winsect, dirSect);
      UntouchedSelf(fs.g, fat, img0, St());
      br := 0;
      var left := total;
      while left > 0
        invariant Valid() && MapAgrees() && fs.Table() == fat && Contents() == all && err == Ok
        invariant fptr == old(fptr) + br && br + left == total && fptr + left <= fsize
        invariant rbuff[..] == Patch(before, 0, all[old(fptr)..fptr])
        invariant Calm(old(fs.disk), old(fs.wflag || dirty))
        invariant Untouched(fs.g, fat, img0, chain, fat, fs.img, chain)
      {
        ghost var img1, p := fs.img, fptr;
        var rcnt;
        res, rcnt := ReadChunk(rbuff, br, left);
        UntouchedTrans(fs.g, fat, img0, chain, fat, img1, chain, fat, fs.img, chain);
        if res != Ok {
          return;
        }
        PatchSlices(before, all, old(fptr), p, fptr);
        br := br + rcnt;
        left := left - rcnt;
      }
      return Ok, br;
    }

    // -------------------------------------------------------------- f_write

    /** The link map lists no cluster behind the chain: it was not made before a truncation. */
    ghost predicate MapNotLonger()
      requires cltbl != null ==> TableOk(cltbl[..], 1)
      reads `cltbl, `chain, cltbl
    {
      cltbl != null ==> |Clusters(cltbl[..], 1)| <= |chain|
    }

    /** A write up to offset `end` asks the link map for clusters of the chain only: the map is not longer than the
        chain, or the write stays within the chain. */
    ghost predicate MapFits(end: nat)
      requires cltbl != null ==> TableOk(cltbl[..], 1)
      reads `cltbl, `chain, cltbl
    {
      MapNotLonger() || end <= Times(|chain|, ClusterBytes(fs.g))
    }

    /** With a link map a file that has a cluster gets no more of them. */
    ghost predicate MapBound(was: seq<nat>)
      reads `cltbl, `chain
    {
      cltbl != null && was != [] ==> chain == was
    }

    /** Why a transfer could not enter the cluster at `p`: the chain ends there and the volume is full, or the link map
        has ended. */
    ghost predicate NoRoom(p: nat)
      requires fs.Valid() && (cltbl != null ==> TableOk(cltbl[..], 1))
      reads `cltbl, `chain, fs, fs.win, cltbl
    {
      || ((cltbl == null || p == 0) && Full(fs.Table()) && p == Times(|chain|, ClusterBytes(fs.g)))
      || (cltbl != null && p > 0 && ClusterBytes(fs.g) > 0 && Quo(p, ClusterBytes(fs.g)) >= |Clusters(cltbl[..], 1)|)
    }

    /** create_chain behind the `k`-th cluster, followed in the ghost state. */
    method Stretch(from: nat, ghost k: nat) returns (clst: nat)
      requires Settled() && k <= |chain| && from == if k == 0 then 0 else chain[k - 1]
      requires k == 0 ==> chain == []
      modifies `chain, `cache, `sclust, fs`disk, fs`wflag, fs`winsect, fs`img, fs`lastClust, fs`freeClust,
        fs`fsiDirty, fs.win
      ensures Settled()
      ensures clst == 0 ==>
        St() == old(St()) && fs.Table() == old(fs.Table()) && k == |chain| && Full(fs.Table())
      ensures clst != 0 ==>
        && k < |chain| && clst == chain[k]
        && (chain == old(chain) || (k == |old(chain)| && chain == old(chain) + [clst]))
        && sclust == if k == 0 then clst else old(sclust)
      ensures old(cache) <= cache
      ensures Untouched(fs.g, old(fs.Table()), old(fs.img), old(chain), fs.Table(), fs.img, chain)
      ensures old(fs.CountOk()) ==> fs.CountOk()
      ensures Calm(old(fs.disk), old(fs.wflag || dirty) || chain != old(chain))
    {
      hide Counted;
      hide WindowOk, FatMap, Cached, Buffered, Placed, Create, Untouched, OthersKept, IsChain;
      hide ImageOk, SameOutsideFat, ClusterSectors, Full, Sound;
      ghost var s, w, fat, img := St(), fs.winsect, fs.Table(), fs.img;
      HeadEmpty(fat, sclust, chain);
      if k < |chain| {
        FollowsChain(fs.g, fat, s, k, fs.lastClust);
      } else {
        StretchesChain(fs.g, fat, s, fs.lastClust);
      }
      clst := fs.CreateChain(from);
      ghost var a := Requested(fs.g, fat, s, k, old(fs.lastClust));
      assert a.fat == fs.Table() && a.cluster == clst;
      if a.isNew {
        GrowKeepsBase(fs.g, fat, img, s, w, dirSect, a.fat, fs.img, fs.winsect, clst);
        UntouchedByGrowth(fs.g, fat, img, s, a.fat, fs.img, clst);
        chain := chain + [clst];
        cache := cache + ClusterSectors(fs.g, fs.img, clst);
      } else {
        StayKeepsBase(fs.g, fat, img, s, w, dirSect, fs.img, fs.winsect);
      }
      if from == 0 {
        sclust := clst;
      }
    }

    /** On a cluster boundary f_write follows or stretches the chain, or asks the link map. */
    method NextForWrite(ghost end: nat) returns (ok: bool)
      requires Settled() && Cursor(fs.g, fs.Table(), St()) && MapAgrees() && MapFits(end) && fptr < end
      requires ClusterBytes(fs.g) > 0 && Rem(fptr, ClusterBytes(fs.g)) == 0 && Quo(fptr, ClusterBytes(fs.g)) <= |chain|
      modifies `clust, `chain, `cache, `sclust
      modifies fs`disk, fs`wflag, fs`winsect, fs`img, fs`lastClust, fs`freeClust, fs`fsiDirty, fs.win
      ensures Settled() && MapAgrees() && MapFits(end)
      ensures Untouched(fs.g, old(fs.Table()), old(fs.img), old(chain), fs.Table(), fs.img, chain)
      ensures old(cache) <= cache
      ensures ok ==> AtCluster(fs.g, St())
      ensures ok ==>
        (chain == old(chain) || (chain == old(chain) + [clust] && Quo(fptr, ClusterBytes(fs.g)) == |old(chain)|))
      ensures !ok ==> St() == old(St()) && fs.Table() == old(fs.Table()) && NoRoom(fptr)
      ensures old(fs.CountOk()) ==> fs.CountOk()
      ensures MapBound(old(chain))
    {
      hide Counted;
      hide WindowOk, FatMap, Cached, Buffered, Placed, TableOk, Clusters, Untouched, IsChain, Full, Quo, Rem, Times;
      ghost var k := Quo(fptr, ClusterBytes(fs.g));
      ghost var s, w := St(), fs.winsect;
      OffsetParts(fs.g, fptr);
      HeadEmpty(fs.Table(), sclust, chain);
      UntouchedSelf(fs.g, fs.Table(), fs.img, s);
      var clst;
      if fptr == 0 {
        QuoUnique(0, 0, ClusterBytes(fs.g));
        assert k == 0 by { assert Times(0, ClusterBytes(fs.g)) == 0 by { TimesIsProduct(0, ClusterBytes(fs.g)); } }
        clst := sclust;
        if clst == 0 {
          clst := Stretch(0, 0);
        }
      } else {
        PreviousByte(fs.g, fptr);
        if cltbl != null {
          LookupIndexes(cltbl[..], 1, k);
          clst := ClmtClust(fptr);
        } else {
          clst := Stretch(clust, k);
        }
      }
      if clst == 0 {
        return false;
      }
      MovedKeepsBase(fs.g, fs.Table(), fs.img, St(), fs.winsect, dirSect, fs.winsect, clst, fptr, fsize);
      clust := clst;
      return true;
    }

    /** disk_write of the `j`-th sector behind the sector of `fptr`, while the buffer counts for nothing. */
    method WriteNth(sect: nat, j: nat, d: Sector, ghost hi: nat)
      requires fs.Valid() && !dirty
      requires Base(fs.g, fs.Table(), fs.img, St().(dsect := 0), fs.winsect, dirSect)
      requires
        var q := Quo(fptr, fs.g.ss);
        q < |cache| && sect == FileSec(fs.g, chain, q) + j && Rem(q, fs.g.csize) + j < fs.g.csize
      requires |d| == fs.g.ss && fptr == Times(Quo(fptr, fs.g.ss), fs.g.ss)
      requires fptr + Times(j, fs.g.ss) <= hi <= Times(|cache|, fs.g.ss)
      modifies `cache, fs`disk, fs`img
      ensures fs.Valid() && fs.Table() == old(fs.Table()) && |cache| == |old(cache)|
      ensures Base(fs.g, fs.Table(), fs.img, St().(dsect := 0), fs.winsect, dirSect)
      ensures Sectors(fs.g.ss, cache) && sect < fs.g.nSect && fs.img == old(fs.img)[sect := d]
      ensures
        var p := fptr + Times(j, fs.g.ss);
        && Max(hi, p + fs.g.ss) <= Times(|cache|, fs.g.ss)
        && Content(fs.g.ss, cache, Max(hi, p + fs.g.ss)) == Patch(Content(fs.g.ss, old(cache), hi), p, d)
      ensures Untouched(fs.g, fs.Table(), old(fs.img), chain, fs.Table(), fs.img, chain)
    {
      hide WindowOk, FatMap, Base, FileSec, Quo, Rem, Times, Content, Untouched, Patch;
      ghost var s, w, fat, img := St().(dsect := 0), fs.winsect, fs.Table(), fs.img;
      ghost var q := Quo(fptr, fs.g.ss);
      BaseShape(fs.g, fat, img, s, w, dirSect);
      DirectWriteStep(fs.g, fat, img, s, w, dirSect, q, j, d, hi);
      fs.WriteSector(sect, d);
      cache := cache[q + j := d];
      assert St().(dsect := 0) == s.(cache := cache);
    }

    /** disk_write of `cc` sectors of one cluster, while the buffer counts for nothing. */
    method WriteSectors(sect: nat, data: seq<Byte>, cc: nat, ghost hi: nat)
      requires fs.Valid() && !dirty && Rem(fptr, fs.g.ss) == 0
      requires Base(fs.g, fs.Table(), fs.img, St().(dsect := 0), fs.winsect, dirSect)
      requires
        var q := Quo(fptr, fs.g.ss);
        q < |cache| && sect == FileSec(fs.g, chain, q) && cc > 0 && Rem(q, fs.g.csize) + cc <= fs.g.csize
      requires |data| == Times(cc, fs.g.ss) && fptr <= hi <= Times(|cache|, fs.g.ss)
      requires fptr == Times(Quo(fptr, fs.g.ss), fs.g.ss) && dsect < fs.g.nSect
      modifies `cache, fs`disk, fs`img
      ensures fs.Valid() && fs.Table() == old(fs.Table()) && |cache| == |old(cache)|
      ensures Base(fs.g, fs.Table(), fs.img, St().(dsect := 0), fs.winsect, dirSect)
      ensures Max(hi, fptr + |data|) <= Times(|cache|, fs.g.ss)
      ensures Content(fs.g.ss, cache, Max(hi, fptr + |data|)) == Patch(Content(fs.g.ss, old(cache), hi), fptr, data)
      ensures dsect < fs.g.nSect
      ensures !(sect <= dsect < sect + cc) ==> fs.img[dsect] == old(fs.img)[dsect]
      ensures sect <= dsect < sect + cc ==>
        Times(dsect - sect, fs.g.ss) + fs.g.ss <= |data| && fs.img[dsect] == Chunk(fs.g.ss, data, dsect - sect)
      ensures Untouched(fs.g, fs.Table(), old(fs.img), chain, fs.Table(), fs.img, chain)
    {
      hide WindowOk, FatMap, Base, FileSec, Quo, Rem, Times, Content, Untouched, Patch, Chunk, Shape, Sectors, InRange;
      ghost var fat, img, ss := fs.Table(), fs.img, fs.g.ss;
      assert Untouched(fs.g, fat, img, chain, fat, img, chain) && Sectors(ss, cache) by {
        BaseShape(fs.g, fat, img, St().(dsect := 0), fs.winsect, dirSect);
        UntouchedSelf(fs.g, fat, img, St());
      }
      assert Times(0, ss) == 0 by { TimesIsProduct(0, ss); }
      assert data[..0] == [];
      ghost var old0 := Content(ss, cache, hi);
      NoPatch(old0, fptr);
      for j := 0 to cc
        invariant fs.Valid() && fs.Table() == fat && |cache| == |old(cache)| && Sectors(ss, cache)
        invariant Base(fs.g, fat, fs.img, St().(dsect := 0), fs.winsect, dirSect)
        invariant Times(j, ss) <= |data| && Max(hi, fptr + Times(j, ss)) <= Times(|cache|, ss)
        invariant Content(ss, cache, Max(hi, fptr + Times(j, ss))) == Patch(old0, fptr, data[..Times(j, ss)])
        invariant !(sect <= dsect < sect + j) ==> fs.img[dsect] == img[dsect]
        invariant sect <= dsect < sect + j ==>
          Times(dsect - sect, ss) + ss <= |data| && fs.img[dsect] == Chunk(ss, data, dsect - sect)
        invariant Untouched(fs.g, fat, img, chain, fat, fs.img, chain)
      {
        ghost var img1 := fs.img;
        ChunkInside(ss, data, cc, j);
        PatchTwice(old0, fptr, data[..Times(j, ss)], Chunk(ss, data, j));
        WriteNth(sect + j, j, Chunk(fs.g.ss, data, j), Max(hi, fptr + Times(j, ss)));
        UntouchedTrans(fs.g, fat, img, chain, fat, img1, chain, fat, fs.img, chain);
      }
      assert data[..Times(cc, ss)] == data;
    }

    /** The direct transfer of f_write: `cc` whole sectors past the clean buffer, which is refilled when it holds one
        of them. `hi` is the size of the file so far. */
    method WriteDirect(sect: nat, data: seq<Byte>, cc: nat, ghost hi: nat)
      requires Settled() && !dirty && AtCluster(fs.g, St()) && Rem(fptr, fs.g.ss) == 0
      requires
        var q := Quo(fptr, fs.g.ss);
        q < |cache| && sect == FileSec(fs.g, chain, q) && cc > 0 && Rem(q, fs.g.csize) + cc <= fs.g.csize
      requires |data| == Times(cc, fs.g.ss) && fptr <= hi <= Times(|cache|, fs.g.ss)
      modifies buf, `cache, fs`disk, fs`img
      ensures Settled() && |cache| == |old(cache)|
      ensures St() == old(St()).(cache := cache, buf := buf[..]) && fs.Table() == old(fs.Table())
      ensures Max(hi, fptr + |data|) <= Times(|cache|, fs.g.ss)
      ensures Content(fs.g.ss, cache, Max(hi, fptr + |data|)) == Patch(Content(fs.g.ss, old(cache), hi), fptr, data)
      ensures Untouched(fs.g, fs.Table(), old(fs.img), chain, fs.Table(), fs.img, chain)
    {
      hide WindowOk, FatMap, Base, Sound, FileSec, Quo, Rem, Times, Content, Untouched, Heads, InRange, Patch;
      hide Chunk, AtCluster;
      ghost var s, w, fat, img := St(), fs.winsect, fs.Table(), fs.img;
      ghost var q, ss := Quo(fptr, fs.g.ss), fs.g.ss;
      BaseShape(fs.g, fat, img, s, w, dirSect);
      DirectStep(fs.g, fat, s, cc);
      DirectApart(fs.g, fat, img, s, w, dirSect, q, cc);
      UntouchedSelf(fs.g, fat, img, s);
      EmptyBufferKeepsBase(fs.g, fat, img, s, w, dirSect);
      WriteSectors(sect, data, cc, hi);
      BufferAfterDirect(fs.g, fat, img, s, w, dirSect, fs.img, cache, sect, cc,
                        if sect <= dsect < sect + cc then fs.img[dsect] else buf[..]);
      RangeTest(dsect, sect, cc);
      if Sub32(dsect, sect) < cc {
        WholePatch(buf[..], Chunk(fs.g.ss, data, dsect - sect));
        CopyInto(buf, 0, Chunk(fs.g.ss, data, dsect - sect));
      }
    }

    /** Gets the buffer ready for a partial write at `fptr`: it holds the sector, or the write is at the growing edge,
        where the code does not read the sector first. */
    method PrepareBuffer(sect: nat)
      requires Settled() && Quo(fptr, fs.g.ss) < |cache| && sect == FileSec(fs.g, chain, Quo(fptr, fs.g.ss))
      requires if Rem(fptr, fs.g.ss) == 0 then !dirty else dsect == sect
      modifies buf, `dsect
      ensures dsect == sect && (dirty ==> bufAt == Quo(fptr, fs.g.ss))
      ensures buf[..] == cache[Quo(fptr, fs.g.ss)] || (Rem(fptr, fs.g.ss) == 0 && fptr >= fsize)
    {
      hide WindowOk, FatMap, Cached, Buffered, Placed, FileSec, Quo, Rem, InRange, Heads;
      ghost var s, w, q := St(), fs.winsect, Quo(fptr, fs.g.ss);
      if dsect == sect {
        BufferHolds(fs.g, fs.Table(), fs.img, s, w, dirSect, q);
      }
      if Rem(fptr, fs.g.ss) == 0 {
        if dsect != sect {
          if fptr < fsize {
            LoadKeepsBase(fs.g, fs.Table(), fs.img, s, w, dirSect, q);
            ReadOneSector(sect);
          }
        }
        dsect := sect;
      }
    }

    /** Fits the front of `data` into the buffered sector at `fptr`. */
    method PutPartial(sect: nat, data: seq<Byte>, ghost hi: nat) returns (wcnt: nat)
      requires Settled() && AtCluster(fs.g, St()) && data != []
      requires Quo(fptr, fs.g.ss) < |cache| && sect == FileSec(fs.g, chain, Quo(fptr, fs.g.ss))
      requires if Rem(fptr, fs.g.ss) == 0 then !dirty else dsect == sect
      requires hi == Max(fsize, fptr) <= Times(|cache|, fs.g.ss)
      modifies buf, `dsect, `dirty, `bufAt, `cache, `fptr
      ensures Settled() && Cursor(fs.g, fs.Table(), St()) && |cache| == |old(cache)|
      ensures 1 <= wcnt <= |data| && fptr == old(fptr) + wcnt
        && Max(fsize, fptr) == Max(hi, fptr) <= Times(|cache|, fs.g.ss)
      ensures Content(fs.g.ss, cache, Max(hi, fptr)) == Patch(Content(fs.g.ss, old(cache), hi), old(fptr), data[..wcnt])
    {
      hide WindowOk, FatMap, Base, Sound, FileSec, Quo, Rem, Times, Content, AtCluster, InRange, Heads;
      hide Cursor, Splice, Patch, Shape, Sectors;
      BaseShape(fs.g, fs.Table(), fs.img, St(), fs.winsect, dirSect);
      ghost var s, w, q := St(), fs.winsect, Quo(fptr, fs.g.ss);
      var r := Rem(fptr, fs.g.ss);
      QuoRem(fptr, fs.g.ss);
      PrepareBuffer(sect);
      wcnt := fs.g.ss - r;
      if wcnt > |data| {
        wcnt := |data|;
      }
      ghost var base, d := buf[..], data[..wcnt];
      PutKeepsCore(fs.g, fs.Table(), fs.img, s, w, dirSect, d, base);
      PutContent(fs.g, fs.Table(), s, d, base, hi);
      SpliceAt(r, data[..wcnt], q);
      assert St() == Buffering(s, q, Splice(base, r, d), sect).(fptr := s.fptr + wcnt);
    }

    /** Puts `d` into the buffer, which then is the dirty sector `q` of the file. */
    method SpliceAt(r: nat, d: seq<Byte>, ghost q: nat)
      requires r + |d| <= buf.Length && q < |cache|
      modifies buf, `dirty, `bufAt, `cache, `fptr
      ensures buf[..] == Splice(old(buf[..]), r, d) && cache == old(cache)[q := buf[..]]
      ensures dirty && bufAt == q && fptr == old(fptr) + |d|
    {
      SpliceInto(r, d);
      dirty, bufAt, cache := true, q, cache[q := buf[..]];
      fptr := fptr + |d|;
    }

    /** mem_cpy of `d` into the buffer at offset `r`. */
    method SpliceInto(r: nat, d: seq<Byte>)
      requires r + |d| <= buf.Length
      modifies buf
      ensures buf[..] == Splice(old(buf[..]), r, d)
    {
      CopyInto(buf, r, d);
    }

    /** On a sector boundary f_write finds the cluster and flushes the buffer. `hi` is the size of the file so far. */
    method EnterForWrite(ghost hi: nat, ghost end: nat) returns (ok: bool)
      requires Settled() && Cursor(fs.g, fs.Table(), St()) && MapAgrees() && MapFits(end) && fptr < end
      requires hi == Max(fsize, fptr) && Sized(fs.g, chain, hi) && hi <= Times(|cache|, fs.g.ss)
        && Rem(fptr, fs.g.ss) == 0
      modifies `clust, `chain, `cache, `sclust, `dirty
      modifies fs`disk, fs`wflag, fs`winsect, fs`img, fs`lastClust, fs`freeClust, fs`fsiDirty, fs.win
      ensures Settled() && MapAgrees() && MapFits(end)
      ensures Untouched(fs.g, old(fs.Table()), old(fs.img), old(chain), fs.Table(), fs.img, chain)
      ensures hi <= Times(|cache|, fs.g.ss) && old(chain) <= chain
      ensures Content(fs.g.ss, cache, hi) == Content(fs.g.ss, old(cache), hi)
      ensures ok ==> !dirty && AtCluster(fs.g, St()) && Roomy(fs.g, chain, hi, fptr)
      ensures !ok ==> St() == old(St()) && fs.Table() == old(fs.Table()) && NoRoom(fptr)
      ensures old(fs.CountOk()) ==> fs.CountOk()
      ensures MapBound(old(chain))
    {
      hide Counted;
      hide WindowOk, FatMap, Cached, Buffered, Placed, TableOk, Clusters, Untouched, Heads, InRange, Quo, Rem;
      hide Times, Content, Full;
      ghost var chain0, cache0, fat0, img0, ss := chain, cache, fs.Table(), fs.img, fs.g.ss;
      ClusterWithin(fs.g, chain, hi, fptr);
      ok := true;
      if Rem(Quo(fptr, fs.g.ss), fs.g.csize) == 0 {
        ok := NextForWrite(end);
        ContentPrefix(ss, cache0, cache, hi);
        if !ok {
          return;
        }
        if chain != chain0 {
          RoomyAfterGrowth(fs.g, chain0, hi, fptr, clust);
        }
      } else {
        CursorInCluster(fs.g, fs.Table(), St());
        UntouchedSelf(fs.g, fs.Table(), fs.img, St());
      }
      ghost var img1 := fs.img;
      FlushBuffer();
      UntouchedTrans(fs.g, fat0, img0, chain0, fs.Table(), img1, chain, fs.Table(), fs.img, chain);
    }

    /** One round of the f_write loop; 0 bytes when no cluster could be entered. `hi` is the size of the file so far. */
    method WriteChunk(data: seq<Byte>, ghost hi: nat, ghost end: nat) returns (wcnt: nat)
      requires Settled() && Shape(fs.g, fs.Table(), St()) && Cursor(fs.g, fs.Table(), St()) && MapAgrees() && data != []
      requires MapFits(end) && fptr + |data| <= end
      requires hi == Max(fsize, fptr) && Sized(fs.g, chain, hi) && hi <= Times(|cache|, fs.g.ss)
      modifies buf, `clust, `chain, `cache, `sclust, `dirty, `dsect, `bufAt, `fptr
      modifies fs`disk, fs`wflag, fs`winsect, fs`img, fs`lastClust, fs`freeClust, fs`fsiDirty, fs.win
      ensures Settled() && Cursor(fs.g, fs.Table(), St()) && MapAgrees() && MapFits(end)
      ensures wcnt <= |data| && fptr == old(fptr) + wcnt && old(chain) <= chain
      ensures Max(fsize, fptr) == Max(hi, fptr) <= Times(|cache|, fs.g.ss) && Sized(fs.g, chain, Max(hi, fptr))
      ensures Content(fs.g.ss, cache, Max(hi, fptr)) == Patch(Content(fs.g.ss, old(cache), hi), old(fptr), data[..wcnt])
      ensures wcnt == 0 ==> NoRoom(fptr)
      ensures Untouched(fs.g, old(fs.Table()), old(fs.img), old(chain), fs.Table(), fs.img, chain)
      ensures old(fs.CountOk()) ==> fs.CountOk()
      ensures MapBound(old(chain))
    {
      hide Counted;
      hide WindowOk, FatMap, Base, Sound, Cursor, TableOk, Clusters, Untouched, Heads, InRange, Quo, Rem, Times;
      hide Content, Full, FileSec, Sized, Roomy, AtCluster, Patch, NoRoom;
      ghost var chain0, fat0, img0, ss := chain, fs.Table(), fs.img, fs.g.ss;
      NoPatch(Content(ss, cache, hi), fptr);
      assert data[..0] == [];
      var ok := ReachCluster(hi, end);
      if !ok {
        return 0;
      }
      ghost var img1, fat1, chain1 := fs.img, fs.Table(), chain;
      BaseShape(fs.g, fs.Table(), fs.img, St(), fs.winsect, dirSect);
      CacheBytes(fs.g, fs.Table(), St());
      wcnt := WriteInCluster(data, hi);
      UntouchedTrans(fs.g, fat0, img0, chain0, fat1, img1, chain1, fs.Table(), fs.img, chain);
      SizedAfter(fs.g, chain, hi, old(fptr), wcnt);
    }

    /** The cluster of byte `fptr` for writing: found or made on a sector boundary, known already within a sector. */
    method ReachCluster(ghost hi: nat, ghost end: nat) returns (ok: bool)
      requires Settled() && Shape(fs.g, fs.Table(), St()) && Cursor(fs.g, fs.Table(), St()) && MapAgrees()
      requires MapFits(end) && fptr < end
      requires hi == Max(fsize, fptr) && Sized(fs.g, chain, hi) && hi <= Times(|cache|, fs.g.ss)
      modifies `clust, `chain, `cache, `sclust, `dirty
      modifies fs`disk, fs`wflag, fs`winsect, fs`img, fs`lastClust, fs`freeClust, fs`fsiDirty, fs.win
      ensures Settled() && MapAgrees() && MapFits(end) && MapBound(old(chain))
      ensures Sectors(fs.g.ss, cache) && hi <= Times(|cache|, fs.g.ss) && old(chain) <= chain
      ensures Content(fs.g.ss, cache, hi) == old(Content(fs.g.ss, cache, hi))
      ensures ok ==> AtCluster(fs.g, St()) && Roomy(fs.g, chain, hi, fptr)
      ensures ok ==> if Rem(fptr, fs.g.ss) == 0 then !dirty else Cursor(fs.g, fs.Table(), St())
      ensures !ok ==>
        St() == old(St()) && fs.Table() == old(fs.Table()) && Cursor(fs.g, fs.Table(), St()) && NoRoom(fptr)
      ensures Untouched(fs.g, old(fs.Table()), old(fs.img), old(chain), fs.Table(), fs.img, chain)
      ensures old(fs.CountOk()) ==> fs.CountOk()
    {
      hide Counted;
      hide WindowOk, FatMap, Base, Sound, Cursor, TableOk, Clusters, Untouched, Heads, InRange, Quo, Rem, Times;
      hide Content, Full, FileSec, Sized, Roomy, AtCluster, Patch, NoRoom;
      ClusterWithin(fs.g, chain, hi, fptr);
      ok := true;
      if Rem(fptr, fs.g.ss) == 0 {
        ok := EnterForWrite(hi, end);
        BaseShape(fs.g, fs.Table(), fs.img, St(), fs.winsect, dirSect);
      } else {
        CursorInCluster(fs.g, fs.Table(), St());
        UntouchedSelf(fs.g, fs.Table(), fs.img, St());
        RoomyNow(fs.g, chain, hi, fptr);
      }
    }

    /** The transfer of one round, once the cluster is known: whole sectors directly, or part of one in the buffer. */
    method WriteInCluster(data: seq<Byte>, ghost hi: nat) returns (wcnt: nat)
      requires Settled() && AtCluster(fs.g, St()) && data != []
      requires Rem(fptr, fs.g.ss) == 0 ==> !dirty
      requires Rem(fptr, fs.g.ss) != 0 ==> Cursor(fs.g, fs.Table(), St())
      requires hi == Max(fsize, fptr) <= Times(|cache|, fs.g.ss)
      modifies buf, `cache, `dirty, `dsect, `bufAt, `fptr, fs`disk, fs`img
      ensures Settled() && Cursor(fs.g, fs.Table(), St()) && fs.Table() == old(fs.Table()) && |cache| == |old(cache)|
      ensures 1 <= wcnt <= |data| && fptr == old(fptr) + wcnt
      ensures Max(fsize, fptr) == Max(hi, fptr) <= Times(|cache|, fs.g.ss)
      ensures Content(fs.g.ss, cache, Max(hi, fptr)) == Patch(Content(fs.g.ss, old(cache), hi), old(fptr), data[..wcnt])
      ensures Untouched(fs.g, fs.Table(), old(fs.img), chain, fs.Table(), fs.img, chain)
    {
      hide WindowOk, FatMap, Cached, Buffered, Placed, Untouched, Heads, InRange, Quo, Rem, Times;
      hide Content, FileSec, AtCluster, Patch;
      UntouchedSelf(fs.g, fs.Table(), fs.img, St());
      CurrentSector(fs.g, fs.Table(), St());
      if Rem(fptr, fs.g.ss) == 0 {
        var csect := Rem(Quo(fptr, fs.g.ss), fs.g.csize);
        QuoRem(Quo(fptr, fs.g.ss), fs.g.csize);
        var sect := Clust2Sect(fs.g, clust) + csect;
        var cc := Quo(|data|, fs.g.ss);
        QuoRem(|data|, fs.g.ss);
        if cc > 0 {
          if csect + cc > fs.g.csize {
            cc := fs.g.csize - csect;
          }
          TimesMono(cc, Quo(|data|, fs.g.ss), fs.g.ss);
          wcnt := Times(cc, fs.g.ss);
          WriteWhole(sect, data[..wcnt], cc, hi);
          return;
        }
        wcnt := PutPartial(sect, data, hi);
      } else {
        wcnt := PutPartial(dsect, data, hi);
      }
    }

    /** A direct transfer and the step of the cursor over it. */
    method WriteWhole(sect: nat, data: seq<Byte>, cc: nat, ghost hi: nat)
      requires Settled() && !dirty && AtCluster(fs.g, St()) && Rem(fptr, fs.g.ss) == 0
      requires
        var q := Quo(fptr, fs.g.ss);
        q < |cache| && sect == FileSec(fs.g, chain, q) && cc > 0 && Rem(q, fs.g.csize) + cc <= fs.g.csize
      requires |data| == Times(cc, fs.g.ss) && hi == Max(fsize, fptr) <= Times(|cache|, fs.g.ss)
      modifies buf, `cache, `fptr, fs`disk, fs`img
      ensures Settled() && Cursor(fs.g, fs.Table(), St()) && fs.Table() == old(fs.Table()) && |cache| == |old(cache)|
      ensures 1 <= |data| && fptr == old(fptr) + |data|
      ensures Max(hi, fptr) <= Times(|cache|, fs.g.ss)
      ensures Content(fs.g.ss, cache, Max(hi, fptr)) == Patch(Content(fs.g.ss, old(cache), hi), old(fptr), data)
      ensures Untouched(fs.g, fs.Table(), old(fs.img), chain, fs.Table(), fs.img, chain)
    {
      hide WindowOk, FatMap, Cached, Buffered, Placed, Untouched, Heads, InRange, Quo, Rem, Times;
      hide Content, FileSec, AtCluster, Patch;
      WriteDirect(sect, data, cc, hi);
      assert AtCluster(fs.g, St()) by { SameCluster(fs.g, old(St()), cache, buf[..]); }
      DirectStep(fs.g, fs.Table(), St(), cc);
      MovedKeepsBase(fs.g, fs.Table(), fs.img, St(), fs.winsect, dirSect, fs.winsect, clust, fptr + |data|, fsize);
      fptr := fptr + |data|;
    }

    /** f_write: splices exactly the `bw` bytes written into the content at the cursor. It stops short only when the
        volume is full, the link map has ended, or the file would reach 4 GB. */
    method FWrite(wbuff: seq<Byte>) returns (res: Status, bw: nat)
      requires Valid() && MapAgrees() && MapFits(fptr + |wbuff|) && |wbuff| < DWORD_MOD
      modifies buf, `clust, `chain, `cache, `sclust, `dirty, `dsect, `bufAt, `fptr, `fsize, `written
      modifies fs`disk, fs`wflag, fs`winsect, fs`img, fs`lastClust, fs`freeClust, fs`fsiDirty, fs.win
      ensures Valid() && MapAgrees() && err == old(err)
      ensures old(MapNotLonger()) ==> MapNotLonger()
      ensures bw <= |wbuff| && fptr == old(fptr) + bw && fsize == Max(old(fsize), fptr)
      ensures Contents() == Patch(old(Contents()), old(fptr), wbuff[..bw])
      ensures err != Ok ==> res == err && bw == 0
      ensures err == Ok && !canWrite ==> res == Denied && bw == 0
      ensures err == Ok && canWrite ==> res == Ok && written
      ensures res != Ok ==> unchanged(`written, `dirty, `chain, fs`disk, fs`wflag)
      ensures res == Ok && bw < |wbuff| ==> NoRoom(fptr) || old(fptr) + |wbuff| >= DWORD_MOD
      ensures old(fptr) + |wbuff| >= DWORD_MOD ==> bw == 0
      ensures old(chain) <= chain
      ensures Untouched(fs.g, old(fs.Table()), old(fs.img), old(chain), fs.Table(), fs.img, chain)
      ensures old(fs.CountOk()) ==> fs.CountOk()
      ensures MapBound(old(chain))
    {
      hide Counted;
      hide WindowOk, FatMap, Base, Cursor, Content, Patch, Sized, Untouched, TableOk, Clusters, Full, Times, Quo, Rem;
      if err != Ok {
        WriteNothing();
        return err, 0;
      }
      if !canWrite {
        WriteNothing();
        return Denied, 0;
      }
      var btw := |wbuff|;
      WrapTest(fptr, btw);
      if (fptr + btw) % DWORD_MOD < fptr {
        btw := 0;
      }
      bw := WriteAll(wbuff[..btw]);
      assert wbuff[..btw][..bw] == wbuff[..bw];
      res := Ok;
    }

    /** Writing no byte changes nothing. */
    lemma WriteNothing()
      requires Valid()
      ensures Patch(Contents(), fptr, []) == Contents()
      ensures Untouched(fs.g, fs.Table(), fs.img, chain, fs.Table(), fs.img, chain)
    {
      NoPatch(Contents(), fptr);
      UntouchedSelf(fs.g, fs.Table(), fs.img, St());
    }

    /** f_write once the arguments are checked and the count is clipped to 4 GB. */
    method WriteAll(data: seq<Byte>) returns (bw: nat)
      requires Valid() && MapAgrees() && MapFits(fptr + |data|) && fptr + |data| < DWORD_MOD
      modifies buf, `clust, `chain, `cache, `sclust, `dirty, `dsect, `bufAt, `fptr, `fsize, `written
      modifies fs`disk, fs`wflag, fs`winsect, fs`img, fs`lastClust, fs`freeClust, fs`fsiDirty, fs.win
      ensures Valid() && MapAgrees() && written
      ensures bw <= |data| && fptr == old(fptr) + bw && fsize == Max(old(fsize), fptr)
      ensures Contents() == Patch(old(Contents()), old(fptr), data[..bw])
      ensures bw < |data| ==> NoRoom(fptr)
      ensures old(chain) <= chain
      ensures Untouched(fs.g, old(fs.Table()), old(fs.img), old(chain), fs.Table(), fs.img, chain)
      ensures old(fs.CountOk()) ==> fs.CountOk()
      ensures MapBound(old(chain))
    {
      hide Counted;
      hide NoRoom, MapAgrees, MapFits, MapBound, Sound;
      hide WindowOk, FatMap, Base, Cursor, Content, Patch, Sized, Untouched, TableOk, Clusters, Full, Times, Quo, Rem;
      SizeBound();
      bw := WriteLoop(data);
      UpdateSize();
    }

    /** The end of f_write: the recorded size grows to the cursor. */
    method UpdateSize()
      requires Settled() && Cursor(fs.g, fs.Table(), St()) && fptr < DWORD_MOD && fsize < DWORD_MOD
      requires Max(fsize, fptr) <= Times(|cache|, fs.g.ss) && Sized(fs.g, chain, Max(fsize, fptr))
      modifies `fsize, `written
      ensures Valid() && fsize == Max(old(fsize), fptr) && written
      ensures Contents() == old(Content(fs.g.ss, cache, Max(fsize, fptr)))
    {
      hide WindowOk, FatMap, Base, Cursor, Content, Sized, Times;
      ResizeKeepsCore(fs.g, fs.Table(), fs.img, St(), fs.winsect, dirSect, Max(fsize, fptr));
      if fptr > fsize {
        fsize := fptr;
      }
      written := true;
    }

    /** The transfer loop of f_write; the size field is updated after it. */
    method WriteLoop(data: seq<Byte>) returns (bw: nat)
      requires Valid() && MapAgrees() && MapFits(fptr + |data|) && fptr + |data| < DWORD_MOD
      requires fsize <= Times(|cache|, fs.g.ss)
      modifies buf, `clust, `chain, `cache, `sclust, `dirty, `dsect, `bufAt, `fptr
      modifies fs`disk, fs`wflag, fs`winsect, fs`img, fs`lastClust, fs`freeClust, fs`fsiDirty, fs.win
      ensures Settled() && Cursor(fs.g, fs.Table(), St()) && MapAgrees()
      ensures bw <= |data| && fptr == old(fptr) + bw && (bw < |data| ==> NoRoom(fptr))
      ensures Max(fsize, fptr) <= Times(|cache|, fs.g.ss) && Sized(fs.g, chain, Max(fsize, fptr))
      ensures Content(fs.g.ss, cache, Max(fsize, fptr)) ==
        Patch(Content(fs.g.ss, old(cache), fsize), old(fptr), data[..bw])
      ensures old(chain) <= chain
      ensures Untouched(fs.g, old(fs.Table()), old(fs.img), old(chain), fs.Table(), fs.img, chain)
      ensures old(fs.CountOk()) ==> fs.CountOk()
      ensures MapBound(old(chain))
    {
      hide Counted;
      hide Sound, Heads, InRange;
      hide WindowOk, FatMap, Base, Cursor, Content, Patch, Sized, Untouched, TableOk, Clusters, NoRoom, Times;
      ghost var s0, fat0, img0, ss, end := St(), fs.Table(), fs.img, fs.g.ss, fptr + |data|;
      BaseShape(fs.g, fat0, img0, s0, fs.winsect, dirSect);
      UntouchedSelf(fs.g, fat0, img0, s0);
      ghost var c0 := Content(ss, cache, fsize);
      assert data[..0] == [];
      NoPatch(c0, fptr);
      bw := 0;
      while bw < |data|
        invariant Settled() && Shape(fs.g, fs.Table(), St()) && Cursor(fs.g, fs.Table(), St())
        invariant MapAgrees() && MapFits(end) && MapBound(old(chain)) && bw <= |data| && fptr == old(fptr) + bw
        invariant Max(fsize, fptr) <= Times(|cache|, ss) && Sized(fs.g, chain, Max(fsize, fptr))
        invariant Content(ss, cache, Max(fsize, fptr)) == Patch(c0, old(fptr), data[..bw])
        invariant old(chain) <= chain
        invariant Untouched(fs.g, fat0, img0, s0.chain, fs.Table(), fs.img, chain)
        invariant old(fs.CountOk()) ==> fs.CountOk()
      {
        ghost var img1, fat1, chain1 := fs.img, fs.Table(), chain;
        var wcnt := WriteChunk(data[bw..], Max(fsize, fptr), end);
        UntouchedTrans(fs.g, fat0, img0, s0.chain, fat1, img1, chain1, fs.Table(), fs.img, chain);
        PatchTwice(c0, old(fptr), data[..bw], data[bw..][..wcnt]);
        assert data[..bw] + data[bw..][..wcnt] == data[..bw + wcnt];
        BaseShape(fs.g, fs.Table(), fs.img, St(), fs.winsect, dirSect);
        bw := bw + wcnt;
        if wcnt == 0 {
          break;
        }
      }
    }

    // -------------------------------------------------------------- f_lseek

    /** The cluster-following loop of f_lseek, from cluster `k0`; `ofs` counts from the start of that cluster. */
    method FollowTo(ofs0: nat, ghost k0: nat) returns (ofs: nat, ghost k: nat, full: bool)
      requires Settled() && k0 < |chain| && clust == chain[k0] && ofs0 >= 1 && fptr == Times(k0, ClusterBytes(fs.g))
      requires !canWrite ==> fptr + ofs0 <= Times(|chain|, ClusterBytes(fs.g))
      modifies `clust, `fptr, `chain, `cache, `sclust
      modifies fs`disk, fs`wflag, fs`winsect, fs`img, fs`lastClust, fs`freeClust, fs`fsiDirty, fs.win
      ensures Settled() && old(chain) <= chain && old(cache) <= cache && k < |chain| && clust == chain[k]
      ensures k0 <= k && (chain == old(chain) || k == |chain| - 1)
      ensures fptr == Times(k, ClusterBytes(fs.g)) && 1 <= ofs <= ClusterBytes(fs.g)
      ensures !full ==> fptr + ofs == old(fptr) + ofs0
      ensures full ==>
        ofs == ClusterBytes(fs.g) && k == |chain| - 1 && fptr + ofs < old(fptr) + ofs0 && Full(fs.Table()) && canWrite
      ensures !canWrite ==> chain == old(chain)
      ensures Untouched(fs.g, old(fs.Table()), old(fs.img), old(chain), fs.Table(), fs.img, chain)
      ensures old(fs.CountOk()) ==> fs.CountOk()
      ensures Calm(old(fs.disk), old(fs.wflag || dirty) || chain != old(chain))
    {
      hide Counted;
      hide WindowOk, FatMap, Base, Untouched, Times, Quo, Rem, Full, Shape, ImageOk;
      ghost var fat0, img0, chain0, cache0 := fs.Table(), fs.img, chain, cache;
      ghost var target := fptr + ofs0;
      var bcs := Times(fs.g.csize, fs.g.ss);
      SelfUntouched();
      ofs, k, full := ofs0, k0, false;
      while ofs > bcs
        invariant Settled() && 1 <= ofs && k0 <= k && fptr == Times(k, bcs) && fptr + ofs == target
        invariant chain0 <= chain && cache0 <= cache && k < |chain| && clust == chain[k]
        invariant chain == chain0 || k == |chain| - 1
        invariant !canWrite ==> chain == chain0
        invariant Untouched(fs.g, fat0, img0, chain0, fs.Table(), fs.img, chain)
        invariant old(fs.CountOk()) ==> fs.CountOk()
        invariant Calm(old(fs.disk), old(fs.wflag || dirty) || chain != old(chain))
        decreases ofs
      {
        ghost var fat1, img1, chain1 := fs.Table(), fs.img, chain;
        FollowBound(fs.g, |chain|, k, ofs);
        var ok := FollowStep(k);
        UntouchedTrans(fs.g, fat0, img0, chain0, fat1, img1, chain1, fs.Table(), fs.img, chain);
        if !ok {
          ofs, full := bcs, true;
          break;
        }
        ofs := ofs - bcs;
        k := k + 1;
      }
    }

    lemma SelfUntouched()
      requires Settled()
      ensures Untouched(fs.g, fs.Table(), fs.img, chain, fs.Table(), fs.img, chain)
      ensures ClusterBytes(fs.g) > 0
    {
      UntouchedSelf(fs.g, fs.Table(), fs.img, St());
      ClusterBytesPositive(fs.g);
    }

    /** One round of that loop: to the next cluster, if there is one. */
    method FollowStep(ghost k: nat) returns (ok: bool)
      requires Settled() && k < |chain| && clust == chain[k] && fptr == Times(k, ClusterBytes(fs.g))
      requires !canWrite ==> k + 1 < |chain|
      modifies `clust, `fptr, `chain, `cache, `sclust
      modifies fs`disk, fs`wflag, fs`winsect, fs`img, fs`lastClust, fs`freeClust, fs`fsiDirty, fs.win
      ensures Settled() && old(chain) <= chain && old(cache) <= cache && (!canWrite ==> chain == old(chain))
      ensures !ok ==>
        && clust == old(clust) && fptr == old(fptr) && chain == old(chain) && k == |chain| - 1
        && Full(fs.Table()) && canWrite
      ensures ok ==>
        && k + 1 < |chain| && clust == chain[k + 1]
        && fptr == old(fptr) + ClusterBytes(fs.g) == Times(k + 1, ClusterBytes(fs.g))
        && (chain == old(chain) || k + 1 == |chain| - 1)
      ensures Untouched(fs.g, old(fs.Table()), old(fs.img), old(chain), fs.Table(), fs.img, chain)
      ensures old(fs.CountOk()) ==> fs.CountOk()
      ensures Calm(old(fs.disk), old(fs.wflag || dirty) || chain != old(chain))
    {
      hide Counted;
      hide WindowOk, FatMap, Base, Untouched, Times, Quo, Rem, Full;
      var bcs := Times(fs.g.csize, fs.g.ss);
      TimesAdd(k, 1, bcs);
      TimesIsProduct(1, bcs);
      var clst := NextForSeek(k);
      if clst == 0 {
        return false;
      }
      MovedKeepsBase(fs.g, fs.Table(), fs.img, St(), fs.winsect, dirSect, fs.winsect, clst, fptr + bcs, fsize);
      clust := clst;
      fptr := fptr + bcs;
      return true;
    }

    /** One step of that loop: stretching in write mode, following otherwise. */
    method NextForSeek(ghost k: nat) returns (clst: nat)
      requires Settled() && k < |chain| && clust == chain[k]
      requires !canWrite ==> k + 1 < |chain|
      modifies `chain, `cache, `sclust
      modifies fs`disk, fs`wflag, fs`winsect, fs`img, fs`lastClust, fs`freeClust, fs`fsiDirty, fs.win
      ensures Settled() && old(chain) <= chain && old(cache) <= cache && (!canWrite ==> chain == old(chain))
      ensures clst == 0 ==> chain == old(chain) && k == |chain| - 1 && Full(fs.Table()) && canWrite
      ensures clst != 0 ==>
        && k + 1 < |chain| && clst == chain[k + 1]
        && (chain == old(chain) || (k + 1 == |old(chain)| && chain == old(chain) + [clst]))
      ensures Untouched(fs.g, old(fs.Table()), old(fs.img), old(chain), fs.Table(), fs.img, chain)
      ensures old(fs.CountOk()) ==> fs.CountOk()
      ensures Calm(old(fs.disk), old(fs.wflag || dirty) || chain != old(chain))
    {
      hide Counted;
      hide WindowOk, FatMap, Cached, Buffered, Placed, Untouched, Sectors, Full;
      ghost var s, w, fat, img := St(), fs.winsect, fs.Table(), fs.img;
      if canWrite {
        clst := Stretch(clust, k + 1);
      } else {
        clst := fs.GetFat(clust);
        assert clst == chain[k + 1];
        StayKeepsBase(fs.g, fat, img, s, w, dirSect, fs.img, fs.winsect);
      }
    }

    /** Where f_lseek starts to walk: the current cluster when the target lies in it or behind, else the first one,
        which is created when the file has none. */
    method SeekStart(target: nat) returns (clst: nat, ghost k: nat)
      requires Valid() && target > 0 && (canWrite || target <= fsize)
      modifies `clust, `fptr, `chain, `cache, `sclust
      modifies fs`disk, fs`wflag, fs`winsect, fs`img, fs`lastClust, fs`freeClust, fs`fsiDirty, fs.win
      ensures Settled() && old(chain) <= chain && old(cache) <= cache
      ensures clst == 0 ==> chain == old(chain) == [] && fptr == 0 && Full(fs.Table())
      ensures clst != 0 ==> k < |chain| && clst == clust == chain[k] && fptr == Times(k, ClusterBytes(fs.g)) < target
      ensures chain == old(chain) || (old(chain) == [] && |chain| == 1 && k == 0 && canWrite)
      ensures Untouched(fs.g, old(fs.Table()), old(fs.img), old(chain), fs.Table(), fs.img, chain)
      ensures old(fs.CountOk()) ==> fs.CountOk()
      ensures Calm(old(fs.disk), old(fs.wflag || dirty) || chain != old(chain))
    {
      hide Counted;
      hide WindowOk, FatMap, Cached, Buffered, Placed, Untouched, Times, Quo, Rem, Sectors, Full;
      var bcs := Times(fs.g.csize, fs.g.ss);
      ClusterBytesPositive(fs.g);
      UntouchedSelf(fs.g, fs.Table(), fs.img, St());
      HeadEmpty(fs.Table(), sclust, chain);
      TimesIsProduct(0, bcs);
      k := 0;
      if fptr > 0 && Quo(target - 1, bcs) >= Quo(fptr - 1, bcs) {
        k := Quo(fptr - 1, bcs);
        QuoRem(fptr - 1, bcs);
        QuoRem(target - 1, bcs);
        TimesMono(k, Quo(target - 1, bcs), bcs);
        clst := clust;
        MovedKeepsBase(fs.g, fs.Table(), fs.img, St(), fs.winsect, dirSect, fs.winsect, clst, Times(k, bcs), fsize);
        fptr := fptr - 1 - Rem(fptr - 1, bcs);
      } else {
        clst := sclust;
        if clst == 0 {
          clst := Stretch(0, 0);
        }
        MovedKeepsBase(fs.g, fs.Table(), fs.img, St(), fs.winsect, dirSect, fs.winsect, clst, 0, fsize);
        clust := clst;
        fptr := 0;
      }
    }

    /** The end of f_lseek: fills the sector buffer if the cursor is mid-sector, and extends the size. */
    method SeekFinish(nsect: nat)
      requires Settled() && fptr < DWORD_MOD && fsize < DWORD_MOD
      requires fptr > 0 ==>
        && ClusterBytes(fs.g) > 0 && Quo(fptr - 1, ClusterBytes(fs.g)) < |chain|
        && clust == chain[Quo(fptr - 1, ClusterBytes(fs.g))]
      requires Rem(fptr, fs.g.ss) != 0 ==>
        Quo(fptr, fs.g.ss) < |cache| && nsect == FileSec(fs.g, chain, Quo(fptr, fs.g.ss))
      requires Sized(fs.g, chain, Max(fsize, fptr)) && Max(fsize, fptr) <= Times(|cache|, fs.g.ss)
      requires dirty ==> written
      modifies buf, `dirty, `dsect, `fsize, `written, fs`disk, fs`img
      ensures Valid() && fsize == Max(old(fsize), fptr)
      ensures Contents() == old(Content(fs.g.ss, cache, Max(fsize, fptr)))
      ensures fs.Table() == old(fs.Table())
      ensures Untouched(fs.g, fs.Table(), old(fs.img), chain, fs.Table(), fs.img, chain)
      ensures Calm(old(fs.disk), old(fs.wflag || dirty))
      ensures dirty ==> old(dirty)
      ensures written == (old(written) || old(fptr > fsize))
    {
      hide WindowOk, FatMap, Cached, Buffered, Placed, Untouched, Times, Quo, Rem, Content, FileSec, InRange, Heads;
      hide Sized;
      UntouchedSelf(fs.g, fs.Table(), fs.img, St());
      if Rem(fptr, fs.g.ss) != 0 && nsect != dsect {
        LoadBuffer(nsect, Quo(fptr, fs.g.ss));
      }
      ResizeKeepsCore(fs.g, fs.Table(), fs.img, St(), fs.winsect, dirSect, Max(fsize, fptr));
      if fptr > fsize {
        fsize := fptr;
        written := true;
      }
    }

    /** The walk of f_lseek to a nonzero offset; `nsect` is the sector the code finds for a mid-sector cursor. */
    method SeekWalk(target: nat) returns (nsect: nat)
      requires Valid() && target > 0 && (canWrite || target <= fsize)
      modifies `clust, `fptr, `chain, `cache, `sclust
      modifies fs`disk, fs`wflag, fs`winsect, fs`img, fs`lastClust, fs`freeClust, fs`fsiDirty, fs.win
      ensures Settled() && old(chain) <= chain && old(cache) <= cache
      ensures fptr <= target && fptr <= Times(|chain|, ClusterBytes(fs.g))
      ensures fptr < target ==> Full(fs.Table()) && fptr == Times(|chain|, ClusterBytes(fs.g)) && canWrite
      ensures Sized(fs.g, chain, Max(fsize, fptr))
      ensures fptr > 0 ==>
        ClusterBytes(fs.g) > 0 && Quo(fptr - 1, ClusterBytes(fs.g)) < |chain|
          && clust == chain[Quo(fptr - 1, ClusterBytes(fs.g))]
      ensures Rem(fptr, fs.g.ss) != 0 ==>
        Quo(fptr, fs.g.ss) < |cache| && nsect == FileSec(fs.g, chain, Quo(fptr, fs.g.ss))
      ensures Untouched(fs.g, old(fs.Table()), old(fs.img), old(chain), fs.Table(), fs.img, chain)
      ensures old(fs.CountOk()) ==> fs.CountOk()
      ensures Calm(old(fs.disk), old(fs.wflag || dirty) || chain != old(chain))
    {
      hide Counted;
      hide WindowOk, FatMap, Base, Sound, Untouched, Times, Quo, Rem, FileSec, InRange, Heads, Full, Sized;
      ghost var fat0, img0, chain0, bcs := fs.Table(), fs.img, chain, ClusterBytes(fs.g);
      nsect := 0;
      TimesIsProduct(0, bcs);
      QuoUnique(0, 0, fs.g.ss);
      TimesIsProduct(0, fs.g.ss);
      SizedAtEnd(fs.g, chain, fsize);
      var clst;
      ghost var k0;
      clst, k0 := SeekStart(target);
      if clst != 0 {
        ghost var fat1, img1, chain1 := fs.Table(), fs.img, chain;
        SizedBound(fs.g, chain0, fsize, chain, target);
        nsect := SeekTo(target, k0, chain0);
        UntouchedTrans(fs.g, fat0, img0, chain0, fat1, img1, chain1, fs.Table(), fs.img, chain);
      }
    }

    /** The walk from cluster `k0` on, which lies before the target. */
    method SeekTo(target: nat, ghost k0: nat, ghost chain0: seq<nat>) returns (nsect: nat)
      requires Settled() && k0 < |chain| && clust == chain[k0] && fptr == Times(k0, ClusterBytes(fs.g)) < target
      requires !canWrite ==> target <= Times(|chain|, ClusterBytes(fs.g))
      requires Sized(fs.g, chain0, fsize) && chain0 <= chain && (chain == chain0 || k0 == |chain| - 1)
      modifies `clust, `fptr, `chain, `cache, `sclust
      modifies fs`disk, fs`wflag, fs`winsect, fs`img, fs`lastClust, fs`freeClust, fs`fsiDirty, fs.win
      ensures Settled() && old(chain) <= chain && old(cache) <= cache && fptr > 0
      ensures fptr <= target && fptr <= Times(|chain|, ClusterBytes(fs.g))
      ensures fptr < target ==> Full(fs.Table()) && fptr == Times(|chain|, ClusterBytes(fs.g)) && canWrite
      ensures Sized(fs.g, chain, Max(fsize, fptr))
      ensures ClusterBytes(fs.g) > 0 && Quo(fptr - 1, ClusterBytes(fs.g)) < |chain|
        && clust == chain[Quo(fptr - 1, ClusterBytes(fs.g))]
      ensures Rem(fptr, fs.g.ss) != 0 ==>
        Quo(fptr, fs.g.ss) < |cache| && nsect == FileSec(fs.g, chain, Quo(fptr, fs.g.ss))
      ensures Untouched(fs.g, old(fs.Table()), old(fs.img), old(chain), fs.Table(), fs.img, chain)
      ensures old(fs.CountOk()) ==> fs.CountOk()
      ensures Calm(old(fs.disk), old(fs.wflag || dirty) || chain != old(chain))
    {
      hide Counted;
      hide WindowOk, FatMap, Base, Sound, Untouched, Times, Quo, Rem, FileSec, InRange, Heads, Full, Sized;
      nsect := 0;
      var ofs;
      ghost var k;
      ghost var full;
      ofs, k, full := FollowTo(target - fptr, k0);
      BaseShape(fs.g, fs.Table(), fs.img, St(), fs.winsect, dirSect);
      SeekTarget(fs.g, fs.Table(), St(), k, ofs);
      SeekSized(fs.g, chain0, fsize, chain, k, ofs, target);
      MovedKeepsBase(fs.g, fs.Table(), fs.img, St(), fs.winsect, dirSect, fs.winsect, clust, fptr + ofs, fsize);
      if Rem(ofs, fs.g.ss) != 0 {
        nsect := Clust2Sect(fs.g, clust) + Quo(ofs, fs.g.ss);
      }
      fptr := fptr + ofs;
    }

    /** f_lseek without a link map. In write mode the file is stretched to the target, or to the last cluster that
        could be had; otherwise the target is clipped to the size. */
    method SeekNormal(ofs: nat) returns (res: Status)
      requires Valid() && ofs < DWORD_MOD
      modifies buf, `clust, `chain, `cache, `sclust, `dirty, `dsect, `fptr, `fsize, `written
      modifies fs`disk, fs`wflag, fs`winsect, fs`img, fs`lastClust, fs`freeClust, fs`fsiDirty, fs.win
      ensures Valid() && res == Ok && fsize == Max(old(fsize), fptr)
      ensures Contents()[..old(fsize)] == old(Contents()) && old(chain) <= chain
      ensures !canWrite ==> fptr == if ofs > old(fsize) then old(fsize) else ofs
      ensures canWrite && fptr != ofs ==>
        (old(fsize) <= fptr < ofs && Full(fs.Table()) && fptr == Times(|chain|, ClusterBytes(fs.g)))
      ensures Untouched(fs.g, old(fs.Table()), old(fs.img), old(chain), fs.Table(), fs.img, chain)
      ensures old(fs.CountOk()) ==> fs.CountOk()
      ensures Calm(old(fs.disk), old(fs.wflag || dirty) || chain != old(chain))
      ensures written == (old(written) || fsize > old(fsize))
    {
      hide Counted;
      hide WindowOk, FatMap, Base, Sound, Cursor, Untouched, Times, Quo, Rem, FileSec, InRange, Heads, Full;
      hide Content, Sized;
      ghost var fat0, img0, chain0, ss := fs.Table(), fs.img, chain, fs.g.ss;
      res := Ok;
      var target := ofs;
      if target > fsize && !canWrite {
        target := fsize;
      }
      var nsect := SeekPlace(target);
      ContentShorter(ss, cache, Max(fsize, fptr), fsize);
      ghost var fat1, img1 := fs.Table(), fs.img;
      SeekFinish(nsect);
      UntouchedTrans(fs.g, fat0, img0, chain0, fat1, img1, chain, fs.Table(), fs.img, chain);
    }

    /** The cursor of f_lseek moved to the target, or as near as it gets; the file keeps its bytes. */
    method SeekPlace(target: nat) returns (nsect: nat)
      requires Valid() && (canWrite || target <= fsize)
      modifies `clust, `fptr, `chain, `cache, `sclust
      modifies fs`disk, fs`wflag, fs`winsect, fs`img, fs`lastClust, fs`freeClust, fs`fsiDirty, fs.win
      ensures Settled() && old(chain) <= chain && Sectors(fs.g.ss, cache)
      ensures fptr <= target && Max(fsize, fptr) <= Times(|cache|, fs.g.ss)
      ensures fsize <= old(Times(|cache|, fs.g.ss)) && Content(fs.g.ss, cache, fsize) ==
        old(Content(fs.g.ss, cache, fsize))
      ensures fptr < target ==>
        fsize <= fptr && Full(fs.Table()) && fptr == Times(|chain|, ClusterBytes(fs.g)) && canWrite
      ensures Sized(fs.g, chain, Max(fsize, fptr))
      ensures fptr > 0 ==>
        ClusterBytes(fs.g) > 0 && Quo(fptr - 1, ClusterBytes(fs.g)) < |chain|
          && clust == chain[Quo(fptr - 1, ClusterBytes(fs.g))]
      ensures Rem(fptr, fs.g.ss) != 0 ==>
        Quo(fptr, fs.g.ss) < |cache| && nsect == FileSec(fs.g, chain, Quo(fptr, fs.g.ss))
      ensures Untouched(fs.g, old(fs.Table()), old(fs.img), old(chain), fs.Table(), fs.img, chain)
      ensures old(fs.CountOk()) ==> fs.CountOk()
      ensures Calm(old(fs.disk), old(fs.wflag || dirty) || chain != old(chain))
    {
      hide Counted;
      hide WindowOk, FatMap, Base, Sound, Cursor, Untouched, Times, Quo, Rem, FileSec, InRange, Heads, Full;
      hide Content, Sized;
      ghost var cache0, ss := cache, fs.g.ss;
      BaseShape(fs.g, fs.Table(), fs.img, St(), fs.winsect, dirSect);
      UntouchedSelf(fs.g, fs.Table(), fs.img, St());
      CacheBytes(fs.g, fs.Table(), St());
      SizedAtEnd(fs.g, chain, fsize);
      nsect := 0;
      if target > 0 {
        nsect := SeekWalk(target);
      } else {
        SeekToStart(fs.g, fs.Table(), fs.img, St(), fs.winsect, dirSect);
        fptr := 0;
      }
      BaseShape(fs.g, fs.Table(), fs.img, St(), fs.winsect, dirSect);
      CacheBytes(fs.g, fs.Table(), St());
      ContentPrefix(ss, cache0, cache, fsize);
      SizedAtEnd(fs.g, chain, Max(fsize, fptr));
    }

    /** f_lseek with a link map: clips to the size and looks the cluster up. It fails only where the map has ended. */
    method SeekFast(ofs0: nat) returns (res: Status)
      requires Valid() && cltbl != null && MapAgrees() && err == Ok
      modifies buf, `clust, `dirty, `dsect, `fptr, `err, fs`disk, fs`img
      ensures fptr == (if ofs0 > fsize then fsize else ofs0) && Settled() && fs.Table() == old(fs.Table())
      ensures res == Ok <==>
        fptr == 0 || (ClusterBytes(fs.g) > 0 && Quo(fptr - 1, ClusterBytes(fs.g)) < |Clusters(cltbl[..], 1)|)
      ensures res == Ok ==> Valid() && Contents() == old(Contents()) && err == Ok
      ensures res != Ok ==> res == IntErr == err
      ensures Untouched(fs.g, fs.Table(), old(fs.img), chain, fs.Table(), fs.img, chain)
      ensures Calm(old(fs.disk), old(fs.wflag || dirty))
    {
      hide WindowOk, FatMap, Base, Sound, Untouched, Times, Quo, Rem, FileSec, InRange, Heads, TableOk;
      hide Clusters, Content, Sized;
      BaseShape(fs.g, fs.Table(), fs.img, St(), fs.winsect, dirSect);
      UntouchedSelf(fs.g, fs.Table(), fs.img, St());
      CacheBytes(fs.g, fs.Table(), St());
      SizedAtEnd(fs.g, chain, fsize);
      var ofs := ofs0;
      if ofs > fsize {
        ofs := fsize;
      }
      MovedKeepsBase(fs.g, fs.Table(), fs.img, St(), fs.winsect, dirSect, fs.winsect, clust, ofs, fsize);
      StartCursor(fs.g, fs.Table(), St());
      fptr := ofs;
      res := Ok;
      if ofs > 0 {
        res := SeekMapped();
      }
    }

    /** The fast seek to a nonzero offset: the cluster from the link map, then the sector buffer. */
    method SeekMapped() returns (res: Status)
      requires Settled() && cltbl != null && MapAgrees() && err == Ok && 0 < fptr <= Times(|chain|, ClusterBytes(fs.g))
      modifies buf, `clust, `dirty, `dsect, `err, fs`disk, fs`img
      ensures Settled() && fs.Table() == old(fs.Table())
      ensures ClusterBytes(fs.g) > 0
      ensures res == Ok <==> Quo(fptr - 1, ClusterBytes(fs.g)) < |Clusters(cltbl[..], 1)|
      ensures res == Ok ==> Shape(fs.g, fs.Table(), St()) && Cursor(fs.g, fs.Table(), St()) && err == Ok
      ensures res != Ok ==> res == IntErr == err
      ensures Untouched(fs.g, fs.Table(), old(fs.img), chain, fs.Table(), fs.img, chain)
      ensures Calm(old(fs.disk), old(fs.wflag || dirty)) && (dirty ==> old(dirty))
    {
      hide WindowOk, FatMap, Base, Sound, Untouched, Times, Quo, Rem, FileSec, InRange, Heads, TableOk;
      hide Clusters, Content, Cursor;
      BaseShape(fs.g, fs.Table(), fs.img, St(), fs.winsect, dirSect);
      UntouchedSelf(fs.g, fs.Table(), fs.img, St());
      ClusterBytesPositive(fs.g);
      OffsetParts(fs.g, fptr - 1);
      LookupIndexes(cltbl[..], 1, Quo(fptr - 1, ClusterBytes(fs.g)));
      QuoBelow(fptr - 1, |chain|, ClusterBytes(fs.g));
      var cl := ClmtClust(fptr - 1);
      MovedKeepsBase(fs.g, fs.Table(), fs.img, St(), fs.winsect, dirSect, fs.winsect, cl, fptr, fsize);
      clust := cl;
      var dsc := Clust2Sect(fs.g, clust);
      if Quo(fptr - 1, ClusterBytes(fs.g)) < |Clusters(cltbl[..], 1)| {
        ClusterHasSector(fs.g, fs.Table(), St(), Quo(fptr - 1, ClusterBytes(fs.g)));
      }
      if dsc == 0 {
        err := IntErr;
        return IntErr;
      }
      res := Ok;
      FillForSeek(dsc + Rem(Quo(fptr - 1, fs.g.ss), fs.g.csize));
      BaseShape(fs.g, fs.Table(), fs.img, St(), fs.winsect, dirSect);
    }

    /** Refills the sector buffer for a mid-sector cursor of a fast seek. */
    method FillForSeek(dsc: nat)
      requires Settled() && fptr > 0 && ClusterBytes(fs.g) > 0 && Quo(fptr - 1, ClusterBytes(fs.g)) < |chain|
      requires clust == chain[Quo(fptr - 1, ClusterBytes(fs.g))]
      requires dsc == Clust2Sect(fs.g, clust) + Rem(Quo(fptr - 1, fs.g.ss), fs.g.csize)
      modifies buf, `dirty, `dsect, fs`disk, fs`img
      ensures Settled() && Cursor(fs.g, fs.Table(), St()) && fs.Table() == old(fs.Table())
      ensures Untouched(fs.g, fs.Table(), old(fs.img), chain, fs.Table(), fs.img, chain)
      ensures Calm(old(fs.disk), old(fs.wflag || dirty))
      ensures dirty ==> old(dirty)
    {
      hide WindowOk, FatMap, Cached, Buffered, Placed, Untouched, Times, Quo, Rem, FileSec, InRange, Heads;
      UntouchedSelf(fs.g, fs.Table(), fs.img, St());
      if Rem(fptr, fs.g.ss) != 0 {
        MidSector(fs.g, fs.Table(), St());
      }
      if Rem(fptr, fs.g.ss) != 0 && dsc != dsect {
        LoadBuffer(dsc, Quo(fptr, fs.g.ss));
      }
    }

    /** One fragment of the link map: the run of consecutive clusters from `top` on, and the FAT entry behind it. */
    method NextFragment(top: nat, ghost i: nat) returns (ncl: nat, cl: nat)
      requires Settled() && i < |chain| && top == chain[i] && EndApart(fs.Table(), chain)
      modifies fs`disk, fs`wflag, fs`winsect, fs.win
      ensures Settled() && ncl == RunLength(chain[i..])
      ensures if i + ncl < |chain| then cl == chain[i + ncl] else cl >= fs.g.nFatEnt
    {
      hide WindowOk, FatMap, Base, Sound;
      ghost var tail, fat := chain[i..], fs.Table();
      ChainShape();
      cl, ncl := top, 0;
      var pcl := cl;
      while true
        invariant Settled() && fs.Table() == fat && ncl < |tail| && cl == tail[ncl] && Consecutive(tail, ncl)
        invariant ncl > 0 ==> tail[ncl] == tail[ncl - 1] + 1
        decreases |tail| - ncl
      {
        pcl := cl;
        assert tail[ncl] == chain[i + ncl];
        cl := Follow(cl, i + ncl);
        ncl := ncl + 1;
        if cl != pcl + 1 {
          break;
        }
      }
      RunLengthIs(tail, ncl);
    }

    lemma ChainShape()
      requires Settled()
      ensures InRange(fs.g, chain)
    {}

    /** get_fat along the chain. */
    method Follow(clst: nat, ghost i: nat) returns (cl: nat)
      requires Settled() && i < |chain| && clst == chain[i] && EndApart(fs.Table(), chain)
      modifies fs`disk, fs`wflag, fs`winsect, fs.win
      ensures Settled() && fs.Table() == old(fs.Table())
      ensures if i + 1 < |chain| then cl == chain[i + 1] else cl >= fs.g.nFatEnt && cl != clst + 1
    {
      hide WindowOk, FatMap, Cached, Buffered, Placed, Sound;
      ghost var s, w, fat := St(), fs.winsect, fs.Table();
      HeadEmpty(fat, sclust, chain);
      cl := fs.GetFat(clst);
      MovedKeepsBase(fs.g, fat, fs.img, s, w, dirSect, fs.winsect, clust, fptr, fsize);
    }

    /** f_lseek(CREATE_LINKMAP): fills the caller's table with the maximal fragments of the chain. The items needed are
        reported even when the table is too small. */
    method CreateLinkMap() returns (res: Status)
      requires Valid() && cltbl != null && 1 <= cltbl.Length && cltbl[0] <= cltbl.Length && EndApart(fs.Table(), chain)
      modifies cltbl, fs`disk, fs`wflag, fs`winsect, fs.win
      ensures Valid() && Contents() == old(Contents()) && fs.Table() == old(fs.Table())
      ensures cltbl[0] == 2 * |Fragments(chain)| + 2
      ensures res == if cltbl[0] <= old(cltbl[0]) then Ok else NotEnoughCore
      ensures res == Ok ==> TableOk(cltbl[..], 1) && Clusters(cltbl[..], 1) == chain && MapAgrees() && MapNotLonger()
    {
      hide WindowOk, FatMap, Base, Cursor, Content, Sized, Times, Fragments, EndApart, Holds;
      var tlen := cltbl[0];
      var tbl, ulen := MakeTable();
      ghost var fs0, t: seq<nat> := Fragments(chain), cltbl[..];
      ghost var t1: seq<nat> := t[0 := ulen];
      cltbl[0] := ulen;
      if ulen <= tlen {
        cltbl[tbl] := 0;
        res := Ok;
        HoldsElsewhere(t, 1, fs0, 0, ulen);
        HoldsElsewhere(t1, 1, fs0, tbl, 0);
        assert cltbl[..] == t1[tbl := 0];
        FragmentsPositive(chain);
        HeldTable(cltbl[..], 1, fs0);
        FragmentsListChain(chain);
      } else {
        res := NotEnoughCore;
      }
    }

    /** The loop over the fragments: counts all of them, stores those that fit. */
    method MakeTable() returns (tbl: nat, ulen: nat)
      requires Valid() && cltbl != null && 1 <= cltbl.Length && cltbl[0] <= cltbl.Length && EndApart(fs.Table(), chain)
      modifies cltbl, fs`disk, fs`wflag, fs`winsect, fs.win
      ensures Settled() && fs.Table() == old(fs.Table()) && cltbl[0] == old(cltbl[0])
      ensures ulen == 2 * |Fragments(chain)| + 2
      ensures ulen <= cltbl[0] ==> tbl == ulen - 1 && Holds(cltbl[..], 1, Fragments(chain))
    {
      hide WindowOk, FatMap, Base, Cursor, Content, Sized, Times, Fragments, EndApart, Holds, RunLength;
      tbl := 1;
      var tlen := cltbl[0];
      ulen := 2;
      var cl := sclust;
      ghost var i: nat, done: seq<Fragment> := 0, [];
      ghost var fat := fs.Table();
      LinkStart();
      HoldsNothing(cltbl[..]);
      assert chain[0..] == chain;
      if cl != 0 {
        while cl < fs.g.nFatEnt
          invariant Settled() && fs.Table() == fat && i <= |chain|
          invariant if i < |chain| then cl == chain[i] else cl >= fs.g.nFatEnt
          invariant ulen == 2 * |done| + 2 && cltbl[0] == tlen
          invariant ulen <= tlen ==> tbl == 1 + 2 * |done| && Holds(cltbl[..], 1, done)
          invariant Fragments(chain) == done + Fragments(chain[i..])
          decreases |chain| - i
        {
          ulen := ulen + 2;
          ghost var n;
          cl, tbl, n := LinkFragment(cl, tbl, ulen <= tlen, i, done);
          done := done + [Fragment(n, chain[i])];
          i := i + n;
        }
      }
      ChainShape();
      NoMoreFragments(chain, i);
      assert done + [] == done;
    }

    /** One round of that loop: the fragment at cluster `tcl` is stored if it fits. */
    method LinkFragment(tcl: nat, tbl0: nat, fits: bool, ghost i: nat, ghost done: seq<Fragment>)
      returns (cl: nat, tbl: nat, ghost n: nat)
      requires Settled() && EndApart(fs.Table(), chain) && i < |chain| && tcl == chain[i]
      requires cltbl != null && cltbl.Length >= 1
      requires fits ==> tbl0 == 1 + 2 * |done| && tbl0 + 2 <= cltbl.Length && Holds(cltbl[..], 1, done)
      modifies cltbl, fs`disk, fs`wflag, fs`winsect, fs.win
      ensures Settled() && fs.Table() == old(fs.Table()) && cltbl[0] == old(cltbl[0])
      ensures n > 0 && i + n <= |chain| && if i + n < |chain| then cl == chain[i + n] else cl >= fs.g.nFatEnt
      ensures Fragments(chain[i..]) == [Fragment(n, chain[i])] + Fragments(chain[i + n..])
      ensures fits ==> tbl == tbl0 + 2 && Holds(cltbl[..], 1, done + [Fragment(n, chain[i])])
    {
      hide WindowOk, FatMap, Base, Fragments, EndApart, Holds;
      var ncl;
      ncl, cl := NextFragment(tcl, i);
      n, tbl := ncl, tbl0;
      FragmentsStep(chain, i);
      if fits {
        StoreFragment(tbl, ncl, tcl, done);
        tbl := tbl + 2;
      }
    }

    method StoreFragment(tbl: nat, ncl: nat, tcl: nat, ghost done: seq<Fragment>)
      requires cltbl != null && tbl == 1 + 2 * |done| && tbl + 2 <= cltbl.Length && Holds(cltbl[..], 1, done)
      modifies cltbl
      ensures Holds(cltbl[..], 1, done + [Fragment(ncl, tcl)]) && cltbl[0] == old(cltbl[0])
    {
      HoldsMore(cltbl[..], 1, done, Fragment(ncl, tcl));
      ghost var t: seq<nat> := cltbl[..];
      ghost var t1: seq<nat> := t[tbl := ncl];
      cltbl[tbl] := ncl;
      cltbl[tbl + 1] := tcl;
      assert cltbl[..] == t1[tbl + 1 := tcl];
    }

    lemma LinkStart()
      requires Settled()
      ensures (sclust == 0 <==> chain == []) && (chain != [] ==> chain[0] == sclust < fs.g.nFatEnt)
    {}

    // -------------------------------------------------------------- f_truncate

    /** The FAT side of f_truncate: removes the whole chain, or everything behind the cursor's cluster. */
    method CutChain(ghost m: nat) returns (res: Status)
      requires Settled() && m <= |chain| && chain != []
      requires if m == 0 then fptr == 0 else fptr > 0 && clust == chain[m - 1]
      modifies fs`disk, fs`wflag, fs`winsect, fs`img, fs`freeClust, fs`fsiDirty, fs.win
      ensures res == Ok && fs.Valid()
      ensures InRange(fs.g, chain) && fs.Table() == Cut(old(fs.Table()), fs.g.EndMark(), chain, m)
      ensures SameOutsideFat(fs.g, old(fs.img), fs.img) && (fs.winsect < fs.g.dataBase || fs.winsect == old(fs.winsect))
      ensures old(fs.CountOk()) ==> fs.CountOk()
    {
      hide Counted;
      hide WindowOk, FatMap, Cached, Buffered, Placed, Sectors, OthersKept, Remove, Clear, SameOutsideFat;
      ghost var fat, img := fs.Table(), fs.img;
      SameSelf(fs.g, img);
      HeadEmpty(fat, sclust, chain);
      if fptr == 0 {
        RemoveChainClears(fat, chain);
        res := fs.RemoveChain(sclust);
      } else {
        EndIsLast(fat, chain, m - 1);
        var ncl := fs.GetFat(clust);
        res := Ok;
        if ncl < fs.g.nFatEnt {
          TruncateChain(fat, fs.g.EndMark(), chain, m);
          assert ncl == chain[m];
          CountedMark(fs.freeClust, fat, clust, fs.g.EndMark());
          res := fs.PutFat(clust, 0x0FFF_FFFF);
          ghost var img1 := fs.img;
          res := fs.RemoveChain(ncl);
          SameTrans(fs.g, img, img1, fs.img);
        }
      }
    }

    /** f_truncate: cuts the file at the cursor. */
    method FTruncate() returns (res: Status)
      requires Valid()
      modifies `chain, `cache, `sclust, `dirty, `fsize, `written, `loose
      modifies fs`disk, fs`wflag, fs`winsect, fs`img, fs`freeClust, fs`fsiDirty, fs.win
      ensures Valid() && (old(MapAgrees()) ==> MapAgrees())
      ensures err != Ok ==> res == err && Contents() == old(Contents())
      ensures err == Ok && !canWrite ==> res == Denied && Contents() == old(Contents())
      ensures err == Ok && canWrite ==> res == Ok && Contents() == old(Contents())[..fptr] && fsize == fptr
      ensures fsize == old(fsize) ==> unchanged(`written, `dirty, `chain, fs`disk, fs`wflag)
      ensures fsize != old(fsize) ==> written
      ensures chain <= old(chain)
      ensures Untouched(fs.g, old(fs.Table()), old(fs.img), old(chain), fs.Table(), fs.img, chain)
      ensures old(fs.CountOk()) ==> fs.CountOk()
    {
      hide Counted;
      hide WindowOk, FatMap, Base, Cursor, Content, Sized, Untouched, Times, Quo, Rem;
      WriteNothing();
      assert Contents()[..fsize] == Contents();
      if err != Ok {
        return err;
      }
      if !canWrite {
        return Denied;
      }
      res := Ok;
      if fsize > fptr {
        res := CutFile();
      }
    }

    /** f_truncate once the arguments are checked and the file reaches beyond the cursor. */
    method CutFile() returns (res: Status)
      requires Valid() && fptr < fsize
      modifies `chain, `cache, `sclust, `dirty, `fsize, `written, `loose
      modifies fs`disk, fs`wflag, fs`winsect, fs`img, fs`freeClust, fs`fsiDirty, fs.win
      ensures Valid() && res == Ok && fsize == fptr && written
      ensures Contents() == old(Contents())[..fptr]
      ensures chain <= old(chain)
      ensures Untouched(fs.g, old(fs.Table()), old(fs.img), old(chain), fs.Table(), fs.img, chain)
      ensures old(fs.CountOk()) ==> fs.CountOk()
    {
      hide Counted;
      hide WindowOk, FatMap, Cached, Buffered, Placed, Heads, FileSec, Untouched, Times, Quo, Rem, Content, InRange;
      hide Sound, Sized;
      ghost var s := St();
      ghost var m := Kept(fs.g, s);
      CacheBytes(fs.g, fs.Table(), s);
      TruncateCursor(fs.g, fs.Table(), s);
      ContentShorter(fs.g.ss, cache, fsize, fptr);
      ResizeKeepsBase(fs.g, fs.Table(), fs.img, s, fs.winsect, dirSect, fptr);
      fsize := fptr;
      written := true;
      res := DropTail(m);
    }

    /** Writes the dirty buffer to its sector. */
    method WriteOut()
      requires fs.Valid() && buf.Length == fs.g.ss
      requires dirty ==> fs.g.dataBase <= dsect < fs.g.nSect && dsect != fs.winsect
      modifies `dirty, fs`disk, fs`img
      ensures fs.Valid() && fs.Table() == old(fs.Table()) && !dirty
      ensures old(dirty) ==> |fs.img| == fs.g.nSect > dsect
      ensures fs.img == if old(dirty) then old(fs.img)[dsect := buf[..]] else old(fs.img)
    {
      hide WindowOk, FatMap;
      if dirty {
        fs.WriteSector(dsect, buf[..]);
        dirty := false;
      }
    }

    /** Removes the clusters behind the first `m`, and flushes the buffer, which may belong to one of them. */
    method DropTail(ghost m: nat) returns (res: Status)
      requires Settled() && m <= |chain| && chain != []
      requires if m == 0 then fptr == 0 else fptr > 0 && clust == chain[m - 1]
      modifies `chain, `cache, `sclust, `dirty, `loose
      modifies fs`disk, fs`wflag, fs`winsect, fs`img, fs`freeClust, fs`fsiDirty, fs.win
      ensures res == Ok && Settled() && St() == Truncated(fs.g, old(St()), m)
      ensures Untouched(fs.g, old(fs.Table()), old(fs.img), old(chain), fs.Table(), fs.img, chain)
      ensures old(fs.CountOk()) ==> fs.CountOk()
    {
      hide Counted;
      hide WindowOk, FatMap, Cached, Buffered, Placed, Sectors, Cut, Heads, Untouched, Times, SameOutsideFat;
      hide InRange, Sound, Loose, FileSec, Base;
      BaseShape(fs.g, fs.Table(), fs.img, St(), fs.winsect, dirSect);
      ghost var s, w, fat, img := St(), fs.winsect, fs.Table(), fs.img;
      res := CutChain(m);
      CutKeepsBase(fs.g, fat, img, s, w, dirSect, fs.img, fs.winsect, m);
      CutUntouched(fs.g, fat, img, s, m, fs.img, dsect, buf[..], dirty);
      if fptr == 0 {
        sclust := 0;
      }
      WriteOut();
      ghost var t := Truncated(fs.g, s, m);
      chain, cache, loose := t.chain, t.cache, t.loose;
    }

    // -------------------------------------------------------------- f_sync

    /** Updates the directory entry in the window. */
    method StoreEntry(tm: nat)
      requires Settled()
      modifies fs`disk, fs`wflag, fs`winsect, fs`img, fs.win
      ensures Settled() && fs.Table() == old(fs.Table()) && dirSect < fs.g.nSect
      ensures fs.img == old(fs.img)[dirSect := SyncedEntry(old(fs.img)[dirSect], dirOff, fsize, sclust, tm)]
    {
      hide WindowOk, FatMap, Cached, Buffered, SyncedEntry, Sectors, InRange, Heads;
      ghost var s, w, fat, img := St(), fs.winsect, fs.Table(), fs.img;
      fs.MoveWindow(dirSect);
      fs.EditWindow(SyncedEntry(fs.win[..], dirOff, fsize, sclust, tm));
      FatMapFrame(fs.g, img, fs.img);
      ForeignKeepsBase(fs.g, fat, img, s, w, dirSect, fs.img, fs.winsect);
    }

    /** Flushes the window and FSINFO. */
    method FinishSync()
      requires Settled()
      modifies fs`disk, fs`wflag, fs`winsect, fs`img, fs`fsiDirty, fs.win
      ensures Settled() && fs.Table() == old(fs.Table()) && !fs.wflag
      ensures |fs.img| == |old(fs.img)| == fs.g.nSect
      ensures forall x :: 0 <= x < fs.g.nSect && x != fs.g.volBase + 1 ==> fs.img[x] == old(fs.img)[x]
      ensures fs.g.volBase + 1 < dirSect < fs.g.nSect
    {
      hide WindowOk, FatMap, Cached, Buffered, Sectors, InRange, Heads, FsInfo;
      ghost var s, w, fat, img := St(), fs.winsect, fs.Table(), fs.img;
      fs.SyncFs();
      FatMapFrame(fs.g, img, fs.img);
      ForeignKeepsBase(fs.g, fat, img, s, w, dirSect, fs.img, fs.winsect);
    }

    /** f_sync: after it the medium alone holds the file. `tm` is the current time. */
    method FSync(tm: nat)
      requires Valid()
      modifies `dirty, `written, fs`disk, fs`wflag, fs`winsect, fs`img, fs`fsiDirty, fs.win
      ensures Valid() && !written && Contents() == old(Contents()) && fs.Table() == old(fs.Table())
      ensures old(written) ==>
        !dirty && !fs.wflag && DiskHolds(fs.g, fs.disk, dirSect, dirOff, chain, Contents())
      ensures !old(written) ==> unchanged(`dirty, fs`img, fs`disk, fs`wflag)
      ensures dirSect < fs.g.nSect
      ensures forall x ::
        0 <= x < fs.g.nSect && x != dirSect && x != fs.g.volBase + 1 && !(old(dirty) && x == dsect) ==>
          fs.img[x] == old(fs.img)[x]
      ensures old(written) ==>
        fs.img[dirSect] == SyncedEntry(old(fs.img)[dirSect], dirOff, fsize, sclust, tm)
      ensures old(written) ==>
        SyncStores(fs.g, old(fs.img)[dirSect], fs.img[dirSect], dirOff, fsize, sclust, tm)
    {
      hide WindowOk, FatMap, Base, Cursor, Content, Sized, SyncedEntry, DiskHolds, SyncStores;
      DirSectApart();
      if written {
        EntryIsStored(tm);
        SyncWritten(tm);
      }
    }

    /** f_sync of a file that was written. */
    method SyncWritten(tm: nat)
      requires Valid()
      modifies `dirty, `written, fs`disk, fs`wflag, fs`winsect, fs`img, fs`fsiDirty, fs.win
      ensures Valid() && !written && !dirty && !fs.wflag && Contents() == old(Contents())
        && fs.Table() == old(fs.Table())
      ensures DiskHolds(fs.g, fs.disk, dirSect, dirOff, chain, Contents())
      ensures dirSect < fs.g.nSect && fs.img[dirSect] == SyncedEntry(old(fs.img)[dirSect], dirOff, fsize, sclust, tm)
      ensures forall x ::
        0 <= x < fs.g.nSect && x != dirSect && x != fs.g.volBase + 1 && !(old(dirty) && x == dsect) ==>
          fs.img[x] == old(fs.img)[x]
    {
      CursorIgnoresDirty(fs.g, fs.Table(), St());
      SizeBound();
      DirSectApart();
      hide WindowOk, FatMap, Base, Cursor, Content, Sized, SyncedEntry, Times, DiskHolds, LdClust, LdDword;
      ghost var old0 := fs.img[dirSect];
      FlushAndStore(tm);
      written := false;
      FinishSync();
      EntryNamesFile(old0, tm);
      SyncedIsDurable(fs.g, fs.disk, fs.win[..], fs.winsect, fs.img, fs.Table(), St(), fs.winsect, dirSect, dirOff,
        fsize);
    }

    lemma EntryIsStored(tm: nat)
      requires Valid()
      ensures dirSect < fs.g.nSect
      ensures
        var s := fs.img[dirSect];
        dirOff + 32 <= |s| && SyncStores(fs.g, s, SyncedEntry(s, dirOff, fsize, sclust, tm), dirOff, fsize, sclust, tm)
    {
      hide WindowOk, FatMap, Cached, Buffered, Cursor, Sized, SyncedEntry, SyncStores;
      SyncedStores(fs.g, fs.img[dirSect], dirOff, fsize, sclust, tm);
    }

    method FlushAndStore(tm: nat)
      requires Settled()
      modifies `dirty, fs`disk, fs`wflag, fs`winsect, fs`img, fs.win
      ensures Settled() && !dirty && St() == old(St()).(dirty := false) && fs.Table() == old(fs.Table())
      ensures fs.g.volBase + 1 < dirSect < fs.g.nSect
      ensures fs.img[dirSect] == SyncedEntry(old(fs.img)[dirSect], dirOff, fsize, sclust, tm)
      ensures forall x ::
        0 <= x < fs.g.nSect && x != dirSect && !(old(dirty) && x == dsect) ==> fs.img[x] == old(fs.img)[x]
    {
      hide WindowOk, FatMap, Base, SyncedEntry, Untouched;
      DirSectApart();
      FlushBuffer();
      StoreEntry(tm);
    }

    lemma DirSectApart()
      requires Settled()
      ensures fs.g.volBase + 1 < dirSect < fs.g.nSect && dsect != dirSect
    {}

    lemma SizeBound()
      requires Valid()
      ensures fsize <= Times(|cache|, fs.g.ss)
    {
      CacheBytes(fs.g, fs.Table(), St());
    }

    lemma EntryNamesFile(sec: Sector, tm: nat)
      requires Settled() && fsize < DWORD_MOD && |sec| == fs.g.ss
      ensures LdDword(SyncedEntry(sec, dirOff, fsize, sclust, tm), dirOff + 28) == fsize
      ensures LdClust(fs.g, SyncedEntry(sec, dirOff, fsize, sclust, tm), dirOff) == sclust
    {
      SyncedEntryReadsBack(fs.g, sec, dirOff, fsize, sclust, tm);
    }
  }
}
