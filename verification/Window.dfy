/** The one-sector write-back window over the medium, as a relation between values. */
module Window {
  import opened Bytes
  import opened Fat

  /** `k`-th sector of the first and of the second FAT copy. */
  function FirstCopy(g: Geometry, k: nat): nat {
    g.fatBase + k
  }

  function SecondCopy(g: Geometry, k: nat): nat {
    g.fatBase + g.fatSize + k
  }

  /** With two FATs every FAT sector equals its mirror, except the one waiting dirty in the window. */
  ghost predicate Mirrored(g: Geometry, disk: seq<Sector>, winsect: nat, wflag: bool)
    requires g.Valid() && ImageOk(g, disk)
  {
    g.nFats == 2 ==>
      forall k: nat :: k < g.fatSize && !(wflag && winsect == FirstCopy(g, k)) ==>
        disk[SecondCopy(g, k)] == disk[FirstCopy(g, k)]
  }

  /** `img` is the disk overlaid with the window, outside the second FAT copy. */
  ghost predicate Overlays(g: Geometry, disk: seq<Sector>, w: Sector, winsect: nat, img: seq<Sector>) {
    && g.Valid() && ImageOk(g, disk) && ImageOk(g, img)
    && |w| == g.ss && winsect < g.nSect && !g.InMirror(winsect)
    && img[winsect] == w
    && forall s :: 0 <= s < g.nSect && s != winsect && !g.InMirror(s) ==> disk[s] == img[s]
  }

  ghost predicate WindowOk(g: Geometry, disk: seq<Sector>, w: Sector, winsect: nat, wflag: bool, img: seq<Sector>) {
    && Overlays(g, disk, w, winsect, img)
    && (!wflag ==> disk[winsect] == w)
    && Mirrored(g, disk, winsect, wflag)
  }

  /** What sync_window leaves on the disk: the window sector and, inside the FAT, its mirror. */
  function Flushed(g: Geometry, disk: seq<Sector>, w: Sector, winsect: nat): seq<Sector>
    requires g.Valid() && ImageOk(g, disk) && winsect < g.nSect
  {
    if g.nFats == 2 && g.fatBase <= winsect < g.fatBase + g.fatSize
    then disk[winsect := w][winsect + g.fatSize := w]
    else disk[winsect := w]
  }

  lemma FlushKeepsWindow(g: Geometry, disk: seq<Sector>, w: Sector, winsect: nat, wflag: bool, img: seq<Sector>)
    requires WindowOk(g, disk, w, winsect, wflag, img)
    ensures WindowOk(g, Flushed(g, disk, w, winsect), w, winsect, false, img)
  {
    var d := Flushed(g, disk, w, winsect);
    forall k: nat | g.nFats == 2 && k < g.fatSize
      ensures d[SecondCopy(g, k)] == d[FirstCopy(g, k)]
    {}
  }

  lemma LoadKeepsWindow(g: Geometry, disk: seq<Sector>, w: Sector, winsect: nat, img: seq<Sector>, sector: nat)
    requires WindowOk(g, disk, w, winsect, false, img)
    requires sector < g.nSect && !g.InMirror(sector)
    ensures WindowOk(g, disk, disk[sector], sector, false, img)
  {
    forall k: nat | g.nFats == 2 && k < g.fatSize
      ensures disk[SecondCopy(g, k)] == disk[FirstCopy(g, k)]
    {}
  }

  /** Changing the window contents and marking it dirty changes the image at that sector only. */
  lemma EditKeepsWindow(
    g: Geometry, disk: seq<Sector>, w: Sector, winsect: nat, wflag: bool, img: seq<Sector>, w': Sector)
    requires WindowOk(g, disk, w, winsect, wflag, img) && |w'| == g.ss
    ensures WindowOk(g, disk, w', winsect, true, img[winsect := w'])
  {}

  /** A sector written past the window, outside the FATs and the window sector. */
  lemma DirectWriteKeepsWindow(
    g: Geometry, disk: seq<Sector>, w: Sector, winsect: nat, wflag: bool, img: seq<Sector>, s: nat, data: Sector)
    requires WindowOk(g, disk, w, winsect, wflag, img)
    requires s < g.nSect && s != winsect && g.dataBase <= s && |data| == g.ss
    ensures WindowOk(g, disk[s := data], w, winsect, wflag, img[s := data])
  {
    var d := disk[s := data];
    forall k: nat | g.nFats == 2 && k < g.fatSize && !(wflag && winsect == FirstCopy(g, k))
      ensures d[SecondCopy(g, k)] == d[FirstCopy(g, k)]
    {}
  }

  /** The signatures of an FSINFO sector. */
  function FsInfoHead(ss: nat): (s: Sector)
    requires ss >= 512
  {
    StDword(StDword(StWord(Zeros(ss), 510, 0xAA55), 0, 0x41615252), 484, 0x61417272)
  }

  /** The FSINFO sector that sync_fs writes. */
  function FsInfo(ss: nat, free: nat, last: nat): (s: Sector)
    requires ss >= 512
    ensures |s| == ss
  {
    StDword(StDword(FsInfoHead(ss), 488, free), 492, last)
  }

  predicate FsInfoSigned(s: Sector)
    requires |s| >= 512
  {
    LdWord(s, 510) == 0xAA55 && LdDword(s, 0) == 0x41615252 && LdDword(s, 484) == 0x61417272
  }

  lemma HeadSigned(ss: nat)
    requires ss >= 512
    ensures |FsInfoHead(ss)| == ss && FsInfoSigned(FsInfoHead(ss))
  {
    var z := Zeros(ss);
    var a := StWord(z, 510, 0xAA55);
    var b := StDword(a, 0, 0x41615252);
    var c := StDword(b, 484, 0x61417272);
    LoadStoredWord(z, 510, 0xAA55);
    LoadStoredDword(a, 0, 0x41615252);
    LoadStoredDword(b, 484, 0x61417272);
    hide StWord, StDword, LdDword;
    LoadElsewhere(b, c, 484, 4, 0);
  }

  lemma SignedElsewhere(s: Sector, t: Sector, o: nat)
    requires |t| == |s| && |s| >= 512 && 488 <= o <= 506 && FsInfoSigned(s)
    requires forall i :: 0 <= i < |s| && !(o <= i < o + 4) ==> t[i] == s[i]
    ensures FsInfoSigned(t)
  {
    hide LdDword;
    LoadElsewhere(s, t, o, 4, 0);
    LoadElsewhere(s, t, o, 4, 484);
  }

  /** The signatures and the counts of an FSINFO sector where FAT32 has them, and zeros elsewhere. */
  lemma FsInfoFields(ss: nat, free: nat, last: nat)
    requires ss >= 512 && free < DWORD_MOD && last < DWORD_MOD
    ensures
      var w := FsInfo(ss, free, last);
      && w[0] == 0x52 && w[1] == 0x52 && w[2] == 0x61 && w[3] == 0x41
      && w[484] == 0x72 && w[485] == 0x72 && w[486] == 0x41 && w[487] == 0x61
      && LdDword(w, 488) == free && LdDword(w, 492) == last && w[510] == 0x55 && w[511] == 0xAA
      && forall i :: 4 <= i < 484 || 496 <= i < 510 || 512 <= i < ss ==> w[i] == 0
  {
    FsInfoReadsBack(ss, free, last);
    hide LdDword;
  }

  /** find_volume accepts the FSINFO sector and loads both counts back. */
  lemma FsInfoReadsBack(ss: nat, free: nat, last: nat)
    requires ss >= 512 && free < DWORD_MOD && last < DWORD_MOD
    ensures FsInfoSigned(FsInfo(ss, free, last))
    ensures LdDword(FsInfo(ss, free, last), 488) == free && LdDword(FsInfo(ss, free, last), 492) == last
  {
    hide FsInfoHead, FsInfoSigned, StDword, LdDword;
    HeadSigned(ss);
    var a := FsInfoHead(ss);
    var b := StDword(a, 488, free);
    LoadStoredDword(a, 488, free);
    SignedElsewhere(a, b, 488);
    LoadStoredDword(b, 492, last);
    SignedElsewhere(b, StDword(b, 492, last), 492);
    LoadElsewhere(b, StDword(b, 492, last), 492, 4, 488);
  }

  /** Replacing a sector together with its window, as sync_fs does with FSINFO. */
  lemma ReplaceKeepsWindow(
    g: Geometry, disk: seq<Sector>, w: Sector, winsect: nat, img: seq<Sector>, s: nat, data: Sector)
    requires WindowOk(g, disk, w, winsect, false, img)
    requires s < g.fatBase && |data| == g.ss
    ensures WindowOk(g, disk[s := data], data, s, false, img[s := data])
  {
    var d := disk[s := data];
    forall k: nat | g.nFats == 2 && k < g.fatSize
      ensures d[SecondCopy(g, k)] == d[FirstCopy(g, k)]
    {
      assert disk[SecondCopy(g, k)] == disk[FirstCopy(g, k)];
    }
  }
}
