/** What is on the medium itself, without any window or buffer: the view of whoever mounts it next. */
module Durable {
  import opened Arith
  import opened Bytes
  import opened Fat
  import opened Window
  import opened Chains
  import opened FileData
  import opened FileState

  /** The medium alone holds a file with this chain and content: its directory entry leads to the chain in the FAT, and
      the chain's sectors hold the bytes. */
  ghost predicate DiskHolds(
    g: Geometry, disk: seq<Sector>, dirSect: nat, dirOff: nat, chain: seq<nat>, content: seq<Byte>) {
    && g.Valid() && ImageOk(g, disk) && dirSect < g.nSect && dirOff + 32 <= g.ss
    && Heads(FatMap(g, disk), LdClust(g, disk[dirSect], dirOff), chain) && InRange(g, chain)
    && LdDword(disk[dirSect], dirOff + 28) == |content|
    && |content| <= Times(|Stored(g, disk, chain)|, g.ss)
    && Content(g.ss, Stored(g, disk, chain), |content|) == content
  }

  /** With a clean window the disk is the image, wherever it counts. */
  lemma CleanWindowIsDisk(g: Geometry, disk: seq<Sector>, w: Sector, winsect: nat, img: seq<Sector>)
    requires WindowOk(g, disk, w, winsect, false, img)
    ensures forall s :: 0 <= s < g.nSect && !g.InMirror(s) ==> disk[s] == img[s]
    ensures FatMap(g, disk) == FatMap(g, img)
  {
    FatMapFrame(g, img, disk);
  }

  /** A clean buffer and window, and an entry that names the file: the disk alone holds it. */
  lemma SyncedIsDurable(
    g: Geometry, disk: seq<Sector>, w: Sector, winsect: nat, img: seq<Sector>,
    fat: FatTable, s: State, wsect: nat, dirSect: nat, dirOff: nat, size: nat)
    requires WindowOk(g, disk, w, winsect, false, img) && Base(g, fat, img, s, wsect, dirSect) && !s.dirty
    requires fat == FatMap(g, img) && dirOff + 32 <= g.ss && size <= Times(|s.cache|, g.ss)
    requires LdClust(g, img[dirSect], dirOff) == s.sclust && LdDword(img[dirSect], dirOff + 28) == size
    ensures DiskHolds(g, disk, dirSect, dirOff, s.chain, Content(g.ss, s.cache, size))
  {
    CleanWindowIsDisk(g, disk, w, winsect, img);
    var stored := Stored(g, disk, s.chain);
    forall q: nat | q < |s.cache|
      ensures stored[q] == s.cache[q]
    {
      FileSecInData(g, s.chain, q);
    }
    assert stored == s.cache;
  }

  /** A later change of the directory sector or of a sector before the data area keeps the invariant. */
  lemma ForeignKeepsBase(
    g: Geometry, fat: FatTable, img: seq<Sector>, s: State, winsect: nat, dirSect: nat, img': seq<Sector>,
    winsect': nat)
    requires Base(g, fat, img, s, winsect, dirSect) && ImageOk(g, img')
    requires forall x :: g.dataBase <= x < g.nSect && x != dirSect ==> img'[x] == img[x]
    requires winsect' < g.dataBase || winsect' == winsect || winsect' == dirSect
    ensures Base(g, fat, img', s, winsect', dirSect)
  {
    forall q: nat | q < |s.cache|
      ensures g.dataBase <= FileSec(g, s.chain, q) < g.nSect && FileSec(g, s.chain, q) != dirSect
    {
      FileSecInData(g, s.chain, q);
    }
  }

  /** The medium holds one file at a directory entry. */
  lemma HeldIsUnique(
    g: Geometry, disk: seq<Sector>, dirSect: nat, dirOff: nat, a: seq<nat>, x: seq<Byte>, b: seq<nat>, y: seq<Byte>)
    requires DiskHolds(g, disk, dirSect, dirOff, a, x) && DiskHolds(g, disk, dirSect, dirOff, b, y)
    ensures a == b && x == y
  {
    hide LdClust, LdDword, Heads, FatMap, Stored, Content;
    HeadDetermines(FatMap(g, disk), LdClust(g, disk[dirSect], dirOff), a, b);
  }
}
