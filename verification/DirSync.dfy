/** f_sync seen from the directory: the entry it stores keeps its name. */
module DirSync {
  import opened Arith
  import opened Bytes
  import opened Fat
  import opened Chains
  import opened Window
  import opened FileData
  import opened Lfn
  import opened Directory
  import opened Registry
  import opened Removal
  import opened DirTable
  import opened DirImage
  import opened DirWalk
  import Durable
  import FileState
  import FileIO

  // ---------------------------------------------------------------- the bytes of a directory

  /** Byte `b` of slot `i` by sector and slot, and by byte offset. */
  lemma SlotOffset(i: nat, b: nat, d: nat)
    requires b < 32 && d > 0
    ensures Quo(32 * i + b, 32 * d) == Quo(i, d) && Rem(32 * i + b, 32 * d) == 32 * Rem(i, d) + b
  {
    hide Quo, Rem, Times;
    var q, r := Quo(i, d), Rem(i, d);
    QuoRem(i, d);
    TimesIsProduct(q, d);
    TimesIsProduct(q, 32 * d);
    assert q * (32 * d) == 32 * (q * d);
    QuoUnique(q, 32 * r + b, 32 * d);
  }

  /** A directory is a file of its clusters, or for the root of FAT12 and FAT16 the sectors from the start of the root
      directory on, taken 32 bytes at a time. */
  lemma TableIsFile(g: Geometry, fat: FatTable, img: seq<Sector>, chain: seq<nat>, i: nat, b: nat)
    requires PerSector(g) > 0 && Exists(g, fat, chain) && ImageOk(g, img) && i < Len(g, chain) && b < 32
    ensures chain == [] ==>
      var s := g.dirBase + Quo(32 * i + b, g.ss);
      && s < g.nSect && Rem(32 * i + b, g.ss) < |img[s]|
      && TableOf(g, fat, img, chain)[i][b] == img[s][Rem(32 * i + b, g.ss)]
    ensures chain != [] ==>
      var n := Times(Times(|chain|, g.csize), g.ss);
      && 32 * i + b < n
      && TableOf(g, fat, img, chain)[i][b] == Content(g.ss, FileState.Stored(g, img, chain), n)[32 * i + b]
  {
    PerClusterPositive(g);
    SlotOffset(i, b, PerSector(g));
    SlotFits(g, chain, i);
    DirSecInVolume(g, chain, Quo(i, PerSector(g)));
    hide Quo, Rem, Times, PlaceOf, FileSec;
    assert TableOf(g, fat, img, chain)[i] == SlotAt(g, fat, img, chain, i);
    if chain != [] {
      QuoBelow(32 * i + b, Times(|chain|, g.csize), g.ss);
    }
  }

  // ---------------------------------------------------------------- the slots

  /** The items with slot `d` as the new short-name slot of the object that ends there. */
  function Reentered(items: seq<Item>, d: nat, e: Slot): seq<Item>
    requires ItemEnding(items, d).Some? && ItemEnding(items, d).value.Object?
  {
    if d < Width(items[0]) then [Object(items[0].name, e)] + items[1..]
    else [items[0]] + Reentered(items[1..], d - Width(items[0]), e)
  }

  /** A slot that names the same object: the short name and what kind of slot it is are the same. */
  predicate SameName(e: Slot, e': Slot) {
    e'[..11] == e[..11] && e'[11] / 8 % 2 == e[11] / 8 % 2
  }

  lemma SameSlots(x: Item, e: Slot)
    requires ItemOk(x) && x.Object? && SameName(x.sfn, e)
    ensures ItemOk(Object(x.name, e)) && Slots(Object(x.name, e)) == Slots(x)[Width(x) - 1 := e]
  {
    hide MakeSlot;
    assert e[0] == e[..11][0] && x.sfn[0] == x.sfn[..11][0];
    SumLocal(x.sfn, e, 11);
  }

  lemma {:induction false} ReenteredRepresents(table: Table, items: seq<Item>, d: nat, e: Slot)
    requires Represents(table, items) && ItemEnding(items, d).Some? && ItemEnding(items, d).value.Object?
    requires SameName(ItemEnding(items, d).value.sfn, e)
    ensures d < |table| && table[d] == ItemEnding(items, d).value.sfn
    ensures Represents(table[d := e], Reentered(items, d, e))
    decreases |items|
  {
    hide Represents, Slots, ItemOk, Width, SameName;
    FirstItem(table, items);
    var v := Width(items[0]);
    if d < v {
      LastSlot(items[0]);
      SameSlots(items[0], e);
      assert table[d] == table[..v][d];
      PutFirst(table[v..], items[1..], Object(items[0].name, e));
      assert table[d := e] == table[..v][d := e] + table[v..];
    } else {
      ReenteredRepresents(table[v..], items[1..], d - v, e);
      PutFirst(table[v..][d - v := e], Reentered(items[1..], d - v, e), items[0]);
      assert table[d := e] == table[..v] + table[v..][d - v := e];
    }
  }

  lemma LastSlot(x: Item)
    requires ItemOk(x) && x.Object?
    ensures Slots(x)[Width(x) - 1] == x.sfn && Width(x) == SlotCount(x.name) + 1
  {
    hide MakeSlot;
  }

  lemma {:induction false} ReenteredLookup(up: Folding, items: seq<Item>, d: nat, e: Slot, q: Query, p: nat)
    requires ItemEnding(items, d).Some? && ItemEnding(items, d).value.Object?
    requires SameName(ItemEnding(items, d).value.sfn, e)
    ensures Lookup(up, Reentered(items, d, e), q, p) == Lookup(up, items, q, p)
    decreases |items|
  {
    var r := Reentered(items, d, e);
    if d < Width(items[0]) {
      assert r[1..] == items[1..];
    } else {
      ReenteredLookup(up, items[1..], d - Width(items[0]), e, q, p + Width(items[0]));
      assert r[1..] == Reentered(items[1..], d - Width(items[0]), e);
    }
  }

  // ---------------------------------------------------------------- the sectors

  /** Sectors that may have changed: the one with the entry, FSINFO, and those of the file. */
  ghost predicate OnlyFile(
    g: Geometry, img: seq<Sector>, img': seq<Sector>, sect: nat, chain: seq<nat>)
    requires g.Valid() && ImageOk(g, img) && ImageOk(g, img')
  {
    forall x :: 0 <= x < g.nSect && x != sect && x != g.volBase + 1 && FileState.OffChain(g, chain, x) ==>
      img'[x] == img[x]
  }

  /** The slot at byte `o` of a sector is the only one that differs. */
  predicate OnlySlot(s: Sector, r: Sector, o: nat) {
    o + 32 <= |s| == |r| && forall i :: 0 <= i < |s| && !(o <= i < o + 32) ==> r[i] == s[i]
  }

  lemma SlotChanged(s: Sector, r: Sector, o: nat, p: nat)
    requires OnlySlot(s, r, o) && p + 32 <= |s| && (p + 32 <= o || o + 32 <= p)
    ensures SlotIn(r, p) == SlotIn(s, p)
  {}

  /** On the directory such a change is that of one slot. */
  lemma TableChanged(
    g: Geometry, fat: FatTable, img: seq<Sector>, img': seq<Sector>, dir: seq<nat>, i: nat, sect: nat, off: nat,
    chain: seq<nat>)
    requires PerSector(g) > 0 && Exists(g, fat, dir) && ImageOk(g, img) && ImageOk(g, img') && i < Len(g, dir)
    requires PlaceOf(g, dir, i).sect == sect && PlaceOf(g, dir, i).off == off
    requires OnlyFile(g, img, img', sect, chain) && Disjoint(dir, chain) && sect < g.nSect
    requires OnlySlot(img[sect], img'[sect], off)
    ensures TableOf(g, fat, img', dir) == TableOf(g, fat, img, dir)[i := SlotIn(img'[sect], off)]
  {
    PlaceIsSec(g, dir, i);
    SlotFits(g, dir, i);
    hide OnlyFile, OnlySlot, PlaceOf, SlotIn;
    forall j | 0 <= j < Len(g, dir)
      ensures SlotAt(g, fat, img', dir, j) == if j == i then SlotIn(img'[sect], off) else SlotAt(g, fat, img, dir, j)
    {
      OneSlotChanged(g, fat, img, img', dir, i, sect, off, chain, j);
    }
  }

  lemma OneSlotChanged(
    g: Geometry, fat: FatTable, img: seq<Sector>, img': seq<Sector>, dir: seq<nat>, i: nat, sect: nat, off: nat,
    chain: seq<nat>, j: nat)
    requires PerSector(g) > 0 && Exists(g, fat, dir) && ImageOk(g, img) && ImageOk(g, img')
    requires i < Len(g, dir) && j < Len(g, dir)
    requires PlaceOf(g, dir, i).sect == sect && PlaceOf(g, dir, i).off == off
    requires OnlyFile(g, img, img', sect, chain) && Disjoint(dir, chain) && sect < g.nSect
    requires OnlySlot(img[sect], img'[sect], off)
    ensures off + 32 <= g.ss
    ensures SlotAt(g, fat, img', dir, j) == if j == i then SlotIn(img'[sect], off) else SlotAt(g, fat, img, dir, j)
  {
    PlaceIsSec(g, dir, i);
    SlotFits(g, dir, i);
    SlotFits(g, dir, j);
    var q, p := Quo(i, PerSector(g)), Quo(j, PerSector(g));
    DirSecInVolume(g, dir, q);
    DirSecInVolume(g, dir, p);
    BehindFsInfo(g);
    hide PlaceOf, SlotIn, SectorCount, Quo, Rem, OnlySlot, Placed;
    if DirSec(g, dir, p) == sect {
      if i != j {
        DirSecInjective(g, fat, dir, q, p);
        QuoRemDistinct(i, j, PerSector(g));
        SlotChanged(img[sect], img'[sect], off, SZ_DIR * Rem(j, PerSector(g)));
      }
    }
  }

  lemma BehindFsInfo(g: Geometry)
    requires g.Valid()
    ensures g.volBase + 1 < g.FatEnd()
  {}

  // ---------------------------------------------------------------- f_sync

  lemma StoresKeepName(g: Geometry, s: Sector, r: Sector, o: nat, size: nat, cl: nat, tm: nat)
    requires SyncStores(g, s, r, o, size, cl, tm)
    ensures OnlySlot(s, r, o) && SameName(SlotIn(s, o), SlotIn(r, o))
  {
    hide LdClust, LdWord, LdDword;
    var e, e' := SlotIn(s, o), SlotIn(r, o);
    assert forall i :: 0 <= i < 11 ==> e'[..11][i] == r[o + i] && e[..11][i] == s[o + i];
    assert e'[..11] == e[..11];
    BitOfRest(s[o + 11], r[o + 11]);
  }

  lemma BitOfRest(a: Byte, b: Byte)
    requires b % 0x20 == a % 0x20
    ensures b / 8 % 2 == a / 8 % 2
  {
    LowBits(a / 0x20, a % 0x20);
    LowBits(b / 0x20, b % 0x20);
  }

  lemma Eighth(a: nat, j: nat)
    requires j < 8
    ensures (8 * a + j) / 8 == a
  {}

  lemma LowBits(q: nat, r: nat)
    requires r < 0x20
    ensures (0x20 * q + r) / 8 % 2 == r / 8 % 2
  {
    var k, j := r / 8, r % 8;
    assert 0x20 * q + r == 8 * (4 * q + k) + j;
    Eighth(4 * q + k, j);
    assert (4 * q + k) % 2 == k % 2;
  }

  /** The dirty buffer belongs to the file. */
  lemma BufferOnChain(f: FileIO.File)
    requires f.Valid() && f.dirty
    ensures f.fs.g.dataBase <= f.dsect && !FileState.OffChain(f.fs.g, f.chain, f.dsect)
  {
    hide WindowOk, FatMap, FileSec, FileState.Cached, FileState.Placed, FileState.Cursor, FileState.Sized;
    FileSecInData(f.fs.g, f.chain, f.bufAt);
  }

  lemma ChangedOnlyFile(
    g: Geometry, img: seq<Sector>, img': seq<Sector>, sect: nat, dirty: bool, dsect: nat, chain: seq<nat>)
    requires g.Valid() && ImageOk(g, img) && ImageOk(g, img')
    requires dirty ==> !FileState.OffChain(g, chain, dsect)
    requires forall x ::
      0 <= x < g.nSect && x != sect && x != g.volBase + 1 && !(dirty && x == dsect) ==> img'[x] == img[x]
    ensures OnlyFile(g, img, img', sect, chain)
  {
    hide FileState.OffChain;
  }

  /** The file's directory entry is slot `i` of the directory, and it shares no cluster with it. */
  ghost predicate EntryAt(f: FileIO.File, d: Dir, i: nat)
    requires d.Valid()
    reads f, d, d.fs, d.fs.win
  {
    d.Usable();
    && f.fs == d.fs && i < Len(d.fs.g, d.chain) && Disjoint(d.chain, f.chain)
    && PlaceOf(d.fs.g, d.chain, i).sect == f.dirSect && PlaceOf(d.fs.g, d.chain, i).off == f.dirOff
  }

  /** Replacing the slot by one of the same name keeps every answer. */
  lemma ReenteredFinds(up: Folding, t: Table, items: seq<Item>, i: nat, e: Slot)
    requires Folds(up) && Represents(t, items) && ItemEnding(items, i).Some? && ItemEnding(items, i).value.Object?
    requires SameName(ItemEnding(items, i).value.sfn, e)
    ensures i < |t| && Represents(t[i := e], Reentered(items, i, e))
    ensures forall q :: QueryOk(q) ==> Find(up, t[i := e], q) == Find(up, t, q)
  {
    hide Find, Represents, Lookup, SameName, ItemEnding, Reentered, Folds;
    ReenteredRepresents(t, items, i, e);
    forall q | QueryOk(q)
      ensures Find(up, t[i := e], q) == Find(up, t, q)
    {
      FindIsLookup(up, t, items, q);
      FindIsLookup(up, t[i := e], Reentered(items, i, e), q);
      ReenteredLookup(up, items, i, e, q, 0);
    }
  }

  /** The slot of the entry before the change. */
  lemma SlotHere(g: Geometry, fat: FatTable, img: seq<Sector>, dir: seq<nat>, i: nat)
    requires PerSector(g) > 0 && Exists(g, fat, dir) && ImageOk(g, img) && i < Len(g, dir)
    ensures
      var p := PlaceOf(g, dir, i);
      p.sect < g.nSect && p.off + 32 <= g.ss && TableOf(g, fat, img, dir)[i] == SlotIn(img[p.sect], p.off)
  {
    PlaceIsSec(g, dir, i);
    SlotFits(g, dir, i);
    DirSecInVolume(g, dir, Quo(i, PerSector(g)));
    hide PlaceOf, SlotIn, SectorCount, Quo, Rem;
  }

  /** What f_sync stores in the directory, and that every name is found where it was. */
  lemma SyncedDirectory(
    up: Folding, g: Geometry, fat: FatTable, img: seq<Sector>, img': seq<Sector>, dir: seq<nat>, i: nat,
    chain: seq<nat>, size: nat, cl: nat, tm: nat, items: seq<Item>)
    requires PerSector(g) > 0 && Exists(g, fat, dir) && ImageOk(g, img) && ImageOk(g, img') && i < Len(g, dir)
    requires PlaceOf(g, dir, i).sect < g.nSect && OnlyFile(g, img, img', PlaceOf(g, dir, i).sect, chain)
    requires SyncStores(
      g, img[PlaceOf(g, dir, i).sect], img'[PlaceOf(g, dir, i).sect], PlaceOf(g, dir, i).off, size, cl, tm)
    requires Disjoint(dir, chain) && Folds(up) && Represents(TableOf(g, fat, img, dir), items)
    requires ItemEnding(items, i).Some? && ItemEnding(items, i).value.Object?
    ensures
      var t, t' := TableOf(g, fat, img, dir), TableOf(g, fat, img', dir);
      && Represents(t', Reentered(items, i, t'[i])) && forall q :: QueryOk(q) ==> Find(up, t', q) == Find(up, t, q)
  {
    hide TableOf, PlaceOf, Find, Represents, SyncStores, OnlySlot, SameName, OnlyFile, Disjoint, Reentered;
    hide ItemEnding, Folds, SlotIn;
    var p := PlaceOf(g, dir, i);
    StoresKeepName(g, img[p.sect], img'[p.sect], p.off, size, cl, tm);
    SlotHere(g, fat, img, dir, i);
    TableChanged(g, fat, img, img', dir, i, p.sect, p.off, chain);
    EntryOfObject(TableOf(g, fat, img, dir), items, i);
    ReenteredFinds(up, TableOf(g, fat, img, dir), items, i, SlotIn(img'[p.sect], p.off));
  }

  lemma {:induction false} EntryOfObject(table: Table, items: seq<Item>, d: nat)
    requires Represents(table, items) && ItemEnding(items, d).Some? && ItemEnding(items, d).value.Object?
    ensures d < |table| && table[d] == ItemEnding(items, d).value.sfn
    decreases |items|
  {
    hide Represents, Slots, ItemOk, Width;
    FirstItem(table, items);
    var v := Width(items[0]);
    if d < v {
      LastSlot(items[0]);
      assert table[d] == table[..v][d];
    } else {
      EntryOfObject(table[v..], items[1..], d - v);
    }
  }

  /** f_sync on a file whose entry lies in the directory: every name, the file's own included, is found where it was. */
  method SyncInDirectory(f: FileIO.File, d: Dir, up: Folding, i: nat, tm: nat, ghost items: seq<Item>)
    returns (ghost items': seq<Item>)
    requires f.Valid() && d.Valid() && EntryAt(f, d, i) && Folds(up) && Represents(d.T(), items)
    requires ItemEnding(items, i).Some? && ItemEnding(items, i).value.Object?
    modifies f`dirty, f`written, f.fs`disk, f.fs`wflag, f.fs`winsect, f.fs`img, f.fs`fsiDirty, f.fs.win
    ensures f.Valid() && d.Valid() && EntryAt(f, d, i) && i < |d.T()| && !f.written
    ensures f.Contents() == old(f.Contents())
    ensures items' == (if old(f.written) then Reentered(items, i, d.T()[i]) else items) && Represents(d.T(), items')
    ensures forall q :: QueryOk(q) ==> Find(up, d.T(), q) == old(Find(up, d.T(), q))
  {
    hide WindowOk, FatMap, TableOn, TableOf, Exists, PlaceOf, Find, Represents, FileState.Base, FileState.Cursor;
    hide FileState.Sized, Content, Durable.DiskHolds, SyncedEntry, SyncStores, OnlySlot, SameName, OnlyFile, Disjoint;
    hide Reentered, ItemEnding, FileState.OffChain;
    ghost var g, fat, img, t, chain := f.fs.g, f.fs.Table(), f.fs.img, d.T(), f.chain;
    d.Usable();
    if f.dirty {
      BufferOnChain(f);
    }
    ghost var was := f.written;
    f.FSync(tm);
    d.Usable();
    items' := items;
    EntryOfObject(t, items, i);
    if was {
      assert OnlyFile(g, img, f.fs.img, f.dirSect, chain) by {
        ChangedOnlyFile(g, img, f.fs.img, f.dirSect, old(f.dirty), f.dsect, chain);
      }
      SyncedDirectory(up, g, fat, img, f.fs.img, d.chain, i, chain, f.fsize, f.sclust, tm, items);
      items' := Reentered(items, i, d.T()[i]);
    }
  }
}
