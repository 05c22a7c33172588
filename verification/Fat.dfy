/** Volume geometry and the FAT entry codec (get_fat, put_fat), stated on the logical image of the medium:
    the sectors of the disk overlaid with the access window. */
module Fat {
  import opened Arith
  import opened Bytes

  datatype FatType = Fat12 | Fat16 | Fat32

  /** What find_volume leaves in the FATFS object; `nSect` is the size of the medium. */
  datatype Geometry = Geometry(
    fatType: FatType,
    ss: nat,       // bytes per sector
    csize: nat,    // sectors per cluster
    nFats: nat,
    nRootDir: nat,
    nFatEnt: nat,  // number of clusters + 2
    fatSize: nat,  // sectors per FAT (fsize)
    volBase: nat,
    fatBase: nat,
    dirBase: nat,  // root directory: first sector, or first cluster on FAT32
    dataBase: nat,
    nSect: nat
  ) {
    /** A volume on which every sector and entry number means what it should. find_volume does not check all of this:
        `Format.MountedIsValid` says which volumes it accepts without. */
    ghost predicate Valid() {
      && ss >= 512 && ss % 32 == 0
      && 1 <= csize <= 128
      && (nFats == 1 || nFats == 2)
      && 3 <= nFatEnt <= EntryLimit()
      && EntryBytes() <= Times(fatSize, ss)
      && volBase < fatBase
      && (fatType == Fat32 ==> volBase + 1 < fatBase)
      && FatEnd() <= dataBase
      && dataBase + Times(nFatEnt - 2, csize) <= nSect <= DWORD_MOD
    }

    /** One more than the largest value an entry can hold. */
    function Width(): nat {
      match fatType
      case Fat12 => 0x1000
      case Fat16 => 0x1_0000
      case Fat32 => 0x1000_0000
    }

    /** The end mark that put_fat stores for 0x0FFFFFFF. */
    function EndMark(): nat {
      Width() - 1
    }

    /** End marks must lie above every cluster number. */
    function EntryLimit(): nat {
      EndMark()
    }

    /** Bytes the FAT needs (szbfat in find_volume). */
    function EntryBytes(): nat {
      match fatType
      case Fat12 => nFatEnt * 3 / 2 + nFatEnt % 2
      case Fat16 => nFatEnt * 2
      case Fat32 => nFatEnt * 4
    }

    /** First sector behind all FAT copies. */
    function FatEnd(): nat {
      if nFats == 2 then fatBase + 2 * fatSize else fatBase + fatSize
    }

    predicate InMirror(s: nat) {
      nFats == 2 && fatBase + fatSize <= s < fatBase + 2 * fatSize
    }
  }

  /** An image has one full sector for each sector number. */
  ghost predicate ImageOk(g: Geometry, img: seq<Sector>) {
    && |img| == g.nSect
    && forall s :: 0 <= s < |img| ==> |img[s]| == g.ss
  }

  /** Sector number, relative to the FAT, of byte `i` of the FAT. */
  function FatSector(g: Geometry, i: nat): (s: nat)
    requires g.Valid() && i < Times(g.fatSize, g.ss)
    ensures g.fatBase <= s < g.fatBase + g.fatSize
    ensures s < g.nSect
  {
    QuoBelow(i, g.fatSize, g.ss);
    g.fatBase + Quo(i, g.ss)
  }

  /** Byte `i` of the FAT area. */
  function FatByte(g: Geometry, img: seq<Sector>, i: nat): Byte
    requires g.Valid() && ImageOk(g, img) && i < Times(g.fatSize, g.ss)
  {
    QuoRem(i, g.ss);
    img[FatSector(g, i)][Rem(i, g.ss)]
  }

  function SetFatByte(g: Geometry, img: seq<Sector>, i: nat, b: Byte): seq<Sector>
    requires g.Valid() && ImageOk(g, img) && i < Times(g.fatSize, g.ss)
  {
    QuoRem(i, g.ss);
    var s := FatSector(g, i);
    img[s := SetByte(img[s], Rem(i, g.ss), b)]
  }

  /** A FAT byte update is a map update on FAT bytes and touches no other sector. */
  lemma FatByteSet(g: Geometry, img: seq<Sector>, i: nat, b: Byte)
    requires g.Valid() && ImageOk(g, img) && i < Times(g.fatSize, g.ss)
    ensures ImageOk(g, SetFatByte(g, img, i, b))
    ensures forall j: nat :: j < Times(g.fatSize, g.ss) ==>
      FatByte(g, SetFatByte(g, img, i, b), j) == if j == i then b else FatByte(g, img, j)
    ensures forall s :: 0 <= s < g.nSect && !(g.fatBase <= s < g.fatBase + g.fatSize) ==>
      SetFatByte(g, img, i, b)[s] == img[s]
  {
    QuoRem(i, g.ss);
    forall j: nat | j < Times(g.fatSize, g.ss)
      ensures FatByte(g, SetFatByte(g, img, i, b), j) == if j == i then b else FatByte(g, img, j)
    {
      QuoRem(j, g.ss);
      if j != i {
        QuoRemDistinct(i, j, g.ss);
      }
    }
  }

  /** Four-bit inclusive or, bit by bit. */
  function Or4(a: nat, b: nat): nat
    requires a < 16 && b < 16
  {
    8 * OrBit(a / 8, b / 8) + 4 * OrBit(a / 4 % 2, b / 4 % 2) + 2 * OrBit(a / 2 % 2, b / 2 % 2) + OrBit(a % 2, b % 2)
  }

  function OrBit(a: nat, b: nat): nat {
    if a == 1 || b == 1 then 1 else 0
  }

  /** Offset of the first FAT byte that holds part of entry `c`. */
  function EntryOffset(g: Geometry, c: nat): nat {
    match g.fatType
    case Fat12 => c + c / 2
    case Fat16 => 2 * c
    case Fat32 => 4 * c
  }

  /** Number of FAT bytes that hold part of an entry. */
  function EntrySpan(g: Geometry): nat {
    match g.fatType
    case Fat12 => 2
    case Fat16 => 2
    case Fat32 => 4
  }

  lemma EntryInFat(g: Geometry, c: nat)
    requires g.Valid() && c < g.nFatEnt
    ensures EntryOffset(g, c) + EntrySpan(g) <= Times(g.fatSize, g.ss)
  {}

  /** The value get_fat decodes for an entry in range. */
  function Entry(g: Geometry, img: seq<Sector>, c: nat): nat
    requires g.Valid() && ImageOk(g, img) && c < g.nFatEnt
  {
    EntryInFat(g, c);
    var o := EntryOffset(g, c);
    match g.fatType
    case Fat12 =>
      var wc: nat := FatByte(g, img, o) as nat + 0x100 * FatByte(g, img, o + 1) as nat;
      if c % 2 == 1 then wc / 0x10 else wc % 0x1000
    case Fat16 =>
      FatByte(g, img, o) as nat + 0x100 * FatByte(g, img, o + 1) as nat
    case Fat32 =>
      (FatByte(g, img, o) as nat + 0x100 * FatByte(g, img, o + 1) as nat
       + 0x1_0000 * FatByte(g, img, o + 2) as nat + 0x100_0000 * FatByte(g, img, o + 3) as nat) % 0x1000_0000
  }

  /** Two FAT12 entries share three bytes: the middle one has the high bits of the even entry and the low bits of the
      odd one. */
  lemma TwoInThree(g: Geometry, img: seq<Sector>, k: nat)
    requires g.Valid() && ImageOk(g, img) && g.fatType == Fat12 && 2 * k < g.nFatEnt
    ensures 3 * k + 1 < Times(g.fatSize, g.ss)
    ensures Entry(g, img, 2 * k) == FatByte(g, img, 3 * k) as nat + 0x100 * (FatByte(g, img, 3 * k + 1) % 0x10)
    ensures 2 * k + 1 < g.nFatEnt ==>
      && 3 * k + 2 < Times(g.fatSize, g.ss)
      && Entry(g, img, 2 * k + 1) == FatByte(g, img, 3 * k + 1) / 0x10 + 0x10 * FatByte(g, img, 3 * k + 2) as nat
  {
    hide FatByte, Times;
    EntryInFat(g, 2 * k);
    if 2 * k + 1 < g.nFatEnt {
      EntryInFat(g, 2 * k + 1);
      assert 2 * k + 1 + (2 * k + 1) / 2 == 3 * k + 1;
    }
  }

  /** FAT16 and FAT32 entries are little-endian words and double words, of which the low 28 bits count. */
  lemma WholeEntries(g: Geometry, img: seq<Sector>, c: nat)
    requires g.Valid() && ImageOk(g, img) && c < g.nFatEnt
    ensures g.fatType == Fat16 ==>
      && 2 * c + 1 < Times(g.fatSize, g.ss)
      && Entry(g, img, c) == FatByte(g, img, 2 * c) as nat + 0x100 * FatByte(g, img, 2 * c + 1) as nat
    ensures g.fatType == Fat32 ==>
      && 4 * c + 3 < Times(g.fatSize, g.ss)
      && Entry(g, img, c) ==
           FatByte(g, img, 4 * c) as nat + 0x100 * FatByte(g, img, 4 * c + 1) as nat
           + 0x1_0000 * FatByte(g, img, 4 * c + 2) as nat + 0x100_0000 * (FatByte(g, img, 4 * c + 3) % 0x10)
  {
    hide FatByte, Times;
    EntryInFat(g, c);
  }

  /** The byte put_fat stores at offset `k` within the entry, given the byte already there. */
  function NewByte(t: FatType, c: nat, v: nat, k: nat, before: Byte): Byte
    requires k < 4
  {
    match t
    case Fat12 =>
      if k == 0 then
        if c % 2 == 1 then before % 0x10 + 0x10 * (v % 0x10) else v % 0x100
      else
        if c % 2 == 1 then v / 0x10 % 0x100 else 0x10 * (before / 0x10) + v / 0x100 % 0x10
    case Fat16 =>
      if k == 0 then v % 0x100 else v / 0x100 % 0x100
    case Fat32 =>
      if k == 0 then v % 0x100
      else if k == 1 then v / 0x100 % 0x100
      else if k == 2 then v / 0x1_0000 % 0x100
      else v / 0x100_0000 % 0x10 + 0x10 * Or4(v / 0x1000_0000 % 0x10, before / 0x10)
  }

  /** The image after put_fat stored the first `n` bytes of an entry. */
  function PutBytes(g: Geometry, img: seq<Sector>, c: nat, v: nat, n: nat): (r: seq<Sector>)
    requires g.Valid() && ImageOk(g, img) && c < g.nFatEnt && n <= EntrySpan(g)
    ensures ImageOk(g, r)
  {
    if n == 0 then img
    else
      EntryInFat(g, c);
      var before := PutBytes(g, img, c, v, n - 1);
      var i := EntryOffset(g, c) + n - 1;
      FatByteSet(g, before, i, NewByte(g.fatType, c, v, n - 1, FatByte(g, img, i)));
      SetFatByte(g, before, i, NewByte(g.fatType, c, v, n - 1, FatByte(g, img, i)))
  }

  function PutEntry(g: Geometry, img: seq<Sector>, c: nat, v: nat): seq<Sector>
    requires g.Valid() && ImageOk(g, img) && c < g.nFatEnt
  {
    PutBytes(g, img, c, v, EntrySpan(g))
  }

  /** Exactly the bytes of the entry change, and each becomes what put_fat computes from the old one. */
  lemma {:induction false} PutBytesAt(g: Geometry, img: seq<Sector>, c: nat, v: nat, n: nat)
    requires g.Valid() && ImageOk(g, img) && c < g.nFatEnt && n <= EntrySpan(g)
    ensures forall j: nat :: j < Times(g.fatSize, g.ss) ==>
      FatByte(g, PutBytes(g, img, c, v, n), j) ==
        if EntryOffset(g, c) <= j < EntryOffset(g, c) + n
        then NewByte(g.fatType, c, v, j - EntryOffset(g, c), FatByte(g, img, j))
        else FatByte(g, img, j)
    ensures forall s :: 0 <= s < g.nSect && !(g.fatBase <= s < g.fatBase + g.fatSize) ==>
      PutBytes(g, img, c, v, n)[s] == img[s]
  {
    hide FatByte, SetFatByte, NewByte;
    if n == 0 {
    } else {
      EntryInFat(g, c);
      PutBytesAt(g, img, c, v, n - 1);
      var i := EntryOffset(g, c) + n - 1;
      FatByteSet(g, PutBytes(g, img, c, v, n - 1), i, NewByte(g.fatType, c, v, n - 1, FatByte(g, img, i)));
    }
  }

  /** The low 28 bits of a value, as the bytes put_fat stores; `top` is what ends up in the reserved four bits. */
  lemma DecodeFat32(v: nat, top: nat)
    requires top < 0x10
    ensures (v % 0x100 + 0x100 * (v / 0x100 % 0x100) + 0x1_0000 * (v / 0x1_0000 % 0x100)
             + 0x100_0000 * (v / 0x100_0000 % 0x10 + 0x10 * top)) % 0x1000_0000 == v % 0x1000_0000
  {
    var a := v / 0x100;
    var b := a / 0x100;
    var c := b / 0x100;
    var low := v % 0x100 + 0x100 * (a % 0x100) + 0x1_0000 * (b % 0x100) + 0x100_0000 * (c % 0x10);
    QuarterShifts(v);
    assert v == low + 0x1000_0000 * (c / 0x10);
    LowRemainder(v, c / 0x10, low);
    LowRemainder(low + 0x1000_0000 * top, top, low);
  }

  lemma LowRemainder(v: nat, q: nat, r: nat)
    requires v == 0x1000_0000 * q + r && r < 0x1000_0000
    ensures v % 0x1000_0000 == r
  {}

  lemma DecodeFat16(v: nat)
    ensures v % 0x100 + 0x100 * (v / 0x100 % 0x100) == v % 0x1_0000
  {
    var a := v / 0x100;
    assert v == 0x1_0000 * (a / 0x100) + (v % 0x100 + 0x100 * (a % 0x100));
  }

  /** Either half of a FAT12 pair decodes to the low 12 bits, whatever nibble the neighbour keeps. */
  lemma DecodeFat12Odd(v: nat, low: nat)
    requires low < 0x10
    ensures (low + 0x10 * (v % 0x10) + 0x100 * (v / 0x10 % 0x100)) / 0x10 == v % 0x1000
  {
    var w := v / 0x10;
    assert v % 0x1000 == v % 0x10 + 0x10 * (w % 0x100);
  }

  lemma DecodeFat12Even(v: nat, high: nat)
    requires high < 0x10
    ensures (v % 0x100 + 0x100 * (0x10 * high + v / 0x100 % 0x10)) % 0x1000 == v % 0x1000
  {
    var w := v / 0x100;
    assert v == 0x1000 * (w / 0x10) + (v % 0x100 + 0x100 * (w % 0x10));
    assert v % 0x1000 == v % 0x100 + 0x100 * (w % 0x10);
    assert v % 0x100 + 0x100 * (0x10 * high + w % 0x10) == 0x1000 * high + (v % 0x100 + 0x100 * (w % 0x10));
  }

  /** The entry just written reads back truncated to its width. */
  lemma WrittenReadsBack(g: Geometry, img: seq<Sector>, c: nat, v: nat)
    requires g.Valid() && ImageOk(g, img) && c < g.nFatEnt
    ensures Entry(g, PutEntry(g, img, c, v), c) == v % g.Width()
  {
    match g.fatType
    case Fat12 => WrittenFat12(g, img, c, v);
    case Fat16 => EntryInFat(g, c); PutBytesAt(g, img, c, v, 2); DecodeFat16(v);
    case Fat32 => WrittenFat32(g, img, c, v);
  }

  lemma WrittenFat12(g: Geometry, img: seq<Sector>, c: nat, v: nat)
    requires g.Valid() && ImageOk(g, img) && c < g.nFatEnt && g.fatType == Fat12
    ensures Entry(g, PutEntry(g, img, c, v), c) == v % 0x1000
  {
    EntryInFat(g, c);
    PutBytesAt(g, img, c, v, 2);
    var o := EntryOffset(g, c);
    if c % 2 == 1 {
      DecodeFat12Odd(v, FatByte(g, img, o) % 0x10);
    } else {
      DecodeFat12Even(v, FatByte(g, img, o + 1) / 0x10);
    }
  }

  /** The four bytes of a FAT32 entry after put_fat. */
  lemma WrittenBytes32(g: Geometry, img: seq<Sector>, c: nat, v: nat)
    requires g.Valid() && ImageOk(g, img) && c < g.nFatEnt && g.fatType == Fat32
    ensures 4 * c + 3 < Times(g.fatSize, g.ss)
    ensures
      var after := PutEntry(g, img, c, v);
      var o := 4 * c;
      && FatByte(g, after, o) == v % 0x100
      && FatByte(g, after, o + 1) == v / 0x100 % 0x100
      && FatByte(g, after, o + 2) == v / 0x1_0000 % 0x100
      && FatByte(g, after, o + 3) ==
         v / 0x100_0000 % 0x10 + 0x10 * Or4(v / 0x1000_0000 % 0x10, FatByte(g, img, o + 3) / 0x10)
  {
    hide FatByte, Or4;
    EntryInFat(g, c);
    PutBytesAt(g, img, c, v, 4);
  }

  lemma WrittenFat32(g: Geometry, img: seq<Sector>, c: nat, v: nat)
    requires g.Valid() && ImageOk(g, img) && c < g.nFatEnt && g.fatType == Fat32
    ensures Entry(g, PutEntry(g, img, c, v), c) == v % 0x1000_0000
  {
    hide PutEntry, FatByte, Or4;
    EntryInFat(g, c);
    WrittenBytes32(g, img, c, v);
    var top := Or4(v / 0x1000_0000 % 0x10, FatByte(g, img, 4 * c + 3) / 0x10);
    assert top < 0x10 by { OrBound(v / 0x1000_0000 % 0x10, FatByte(g, img, 4 * c + 3) / 0x10); }
    DecodeFat32(v, top);
  }

  lemma OrBound(a: nat, b: nat)
    requires a < 16 && b < 16
    ensures Or4(a, b) < 16
    ensures a == 0 ==> Or4(a, b) == b
  {
    assert OrBit(a / 8, b / 8) <= 1 && OrBit(a / 4 % 2, b / 4 % 2) <= 1;
    assert OrBit(a / 2 % 2, b / 2 % 2) <= 1 && OrBit(a % 2, b % 2) <= 1;
    if a == 0 {
      FourBits(b);
    }
  }

  lemma FourBits(b: nat)
    requires b < 16
    ensures b == 8 * (b / 8) + 4 * (b / 4 % 2) + 2 * (b / 2 % 2) + b % 2
    ensures b / 8 < 2
  {
    var h := b / 2;
    var q := h / 2;
    assert q == b / 4 && q / 2 == b / 8;
  }

  /** FAT32's four reserved bits survive any value that fits in 28 bits. */
  lemma ReservedBitsKept(g: Geometry, img: seq<Sector>, c: nat, v: nat)
    requires g.Valid() && ImageOk(g, img) && c < g.nFatEnt && g.fatType == Fat32
    requires v < 0x1000_0000
    ensures 4 * c + 3 < Times(g.fatSize, g.ss)
    ensures
      FatByte(g, PutEntry(g, img, c, v), 4 * c + 3) / 0x10 == FatByte(g, img, 4 * c + 3) / 0x10
  {
    hide PutEntry, FatByte, Or4;
    WrittenBytes32(g, img, c, v);
    OrBound(0, FatByte(g, img, 4 * c + 3) / 0x10);
    assert v / 0x1000_0000 == 0;
  }

  /** Entries that share no byte with the one written keep their value. */
  lemma DistantKept(g: Geometry, img: seq<Sector>, c: nat, v: nat, d: nat)
    requires g.Valid() && ImageOk(g, img) && c < g.nFatEnt && d < g.nFatEnt
    requires EntryOffset(g, c) + EntrySpan(g) <= EntryOffset(g, d)
      || EntryOffset(g, d) + EntrySpan(g) <= EntryOffset(g, c)
    ensures Entry(g, PutEntry(g, img, c, v), d) == Entry(g, img, d)
  {
    hide FatByte, PutBytes, NewByte, Times;
    EntryInFat(g, c);
    EntryInFat(g, d);
    PutBytesAt(g, img, c, v, EntrySpan(g));
    var after := PutEntry(g, img, c, v);
    var p := EntryOffset(g, d);
    assert FatByte(g, after, p + 0) == FatByte(g, img, p + 0);
    assert FatByte(g, after, p + 1) == FatByte(g, img, p + 1);
    assert g.fatType == Fat32 ==>
      FatByte(g, after, p + 2) == FatByte(g, img, p + 2) && FatByte(g, after, p + 3) == FatByte(g, img, p + 3);
  }

  /** A FAT12 entry keeps its value when the neighbour with which it shares a byte is written. */
  lemma NeighbourKept(g: Geometry, img: seq<Sector>, c: nat, v: nat, d: nat)
    requires g.Valid() && ImageOk(g, img) && c < g.nFatEnt && d < g.nFatEnt && c != d
    requires g.fatType == Fat12
    ensures Entry(g, PutEntry(g, img, c, v), d) == Entry(g, img, d)
  {
    hide Entry, PutEntry;
    if d == c + 1 && c % 2 == 0 {
      UpperNeighbourKept(g, img, c, v);
    } else if c == d + 1 && d % 2 == 0 {
      LowerNeighbourKept(g, img, d, v);
    } else {
      DistantKept(g, img, c, v, d);
    }
  }

  lemma UpperNeighbourKept(g: Geometry, img: seq<Sector>, c: nat, v: nat)
    requires g.Valid() && ImageOk(g, img) && c + 1 < g.nFatEnt && g.fatType == Fat12 && c % 2 == 0
    ensures Entry(g, PutEntry(g, img, c, v), c + 1) == Entry(g, img, c + 1)
  {
    hide FatByte, PutBytes;
    EntryInFat(g, c);
    EntryInFat(g, c + 1);
    PutBytesAt(g, img, c, v, 2);
    var p := EntryOffset(g, c + 1);
    var after := PutEntry(g, img, c, v);
    NibbleSplit(FatByte(g, img, p), FatByte(g, img, p + 1));
    NibbleSplit(FatByte(g, after, p), FatByte(g, after, p + 1));
  }

  lemma LowerNeighbourKept(g: Geometry, img: seq<Sector>, d: nat, v: nat)
    requires g.Valid() && ImageOk(g, img) && d + 1 < g.nFatEnt && g.fatType == Fat12 && d % 2 == 0
    ensures Entry(g, PutEntry(g, img, d + 1, v), d) == Entry(g, img, d)
  {
    hide FatByte, PutBytes, Times;
    EntryInFat(g, d);
    EntryInFat(g, d + 1);
    PutBytesAt(g, img, d + 1, v, 2);
    var p := EntryOffset(g, d);
    var after := PutEntry(g, img, d + 1, v);
    NibbleSplit(FatByte(g, img, p), FatByte(g, img, p + 1));
    NibbleSplit(FatByte(g, after, p), FatByte(g, after, p + 1));
  }

  /** The two FAT12 entries packed around a shared byte. */
  lemma NibbleSplit(b0: nat, b1: nat)
    requires b0 < 0x100 && b1 < 0x100
    ensures (b0 + 0x100 * b1) / 0x10 == b0 / 0x10 + 0x10 * b1
    ensures (b0 + 0x100 * b1) % 0x1000 == b0 + 0x100 * (b1 % 0x10)
  {}

  /** put_fat then get_fat is a map update for all three widths: the entry written reads back truncated to its
      width, and every other entry, including a FAT12 neighbour sharing a byte, is unchanged. */
  lemma PutThenGet(g: Geometry, img: seq<Sector>, c: nat, v: nat, d: nat)
    requires g.Valid() && ImageOk(g, img) && c < g.nFatEnt && d < g.nFatEnt
    ensures Entry(g, PutEntry(g, img, c, v), d) == if d == c then v % g.Width() else Entry(g, img, d)
  {
    if d == c {
      WrittenReadsBack(g, img, c, v);
    } else if g.fatType == Fat12 {
      NeighbourKept(g, img, c, v, d);
    } else {
      DistantKept(g, img, c, v, d);
    }
  }

  /** The whole FAT as get_fat sees it; entries 0 and 1 are the reserved ones. */
  function FatMap(g: Geometry, img: seq<Sector>): (fat: seq<nat>)
    requires g.Valid() && ImageOk(g, img)
  {
    seq(g.nFatEnt, c requires 0 <= c < g.nFatEnt => Entry(g, img, c))
  }

  lemma FatMapPut(g: Geometry, img: seq<Sector>, c: nat, v: nat)
    requires g.Valid() && ImageOk(g, img) && c < g.nFatEnt
    ensures FatMap(g, PutEntry(g, img, c, v)) == FatMap(g, img)[c := v % g.Width()]
  {
    forall d | 0 <= d < g.nFatEnt
      ensures FatMap(g, PutEntry(g, img, c, v))[d] == FatMap(g, img)[c := v % g.Width()][d]
    {
      PutThenGet(g, img, c, v, d);
    }
  }

  /** No sector outside the first FAT is touched by put_fat. */
  predicate SameOutsideFat(g: Geometry, before: seq<Sector>, after: seq<Sector>) {
    && |before| == |after|
    && forall s :: 0 <= s < |before| && !(g.fatBase <= s < g.fatBase + g.fatSize) ==> after[s] == before[s]
  }

  lemma SameSelf(g: Geometry, img: seq<Sector>)
    ensures SameOutsideFat(g, img, img)
  {}

  lemma SameTrans(g: Geometry, a: seq<Sector>, b: seq<Sector>, c: seq<Sector>)
    requires SameOutsideFat(g, a, b) && SameOutsideFat(g, b, c)
    ensures SameOutsideFat(g, a, c)
  {}

  lemma PutFrame(g: Geometry, img: seq<Sector>, c: nat, v: nat)
    requires g.Valid() && ImageOk(g, img) && c < g.nFatEnt
    ensures SameOutsideFat(g, img, PutEntry(g, img, c, v))
  {
    PutBytesAt(g, img, c, v, EntrySpan(g));
  }

  /** The FAT depends on the sectors of the FAT area only. */
  lemma FatMapFrame(g: Geometry, before: seq<Sector>, after: seq<Sector>)
    requires g.Valid() && ImageOk(g, before) && ImageOk(g, after)
    requires forall s :: g.fatBase <= s < g.fatBase + g.fatSize ==> after[s] == before[s]
    ensures FatMap(g, after) == FatMap(g, before)
  {
    forall c | 0 <= c < g.nFatEnt
      ensures FatMap(g, after)[c] == FatMap(g, before)[c]
    {
      EntryInFat(g, c);
      forall i: nat | i < Times(g.fatSize, g.ss)
        ensures FatByte(g, after, i) == FatByte(g, before, i)
      {}
    }
  }

  /** FAT16 and FAT32 entries lie in one sector, where the code looks for them. */
  lemma WordLocation(ss: nat, c: nat, k: nat)
    requires ss > 0 && ss % 2 == 0 && k < 2
    ensures Quo(2 * c + k, ss) == Quo(c, ss / 2)
    ensures Rem(2 * c + k, ss) == Rem(2 * c, ss) + k
    ensures Rem(2 * c, ss) + 2 <= ss
  {
    var h := ss / 2;
    QuoRem(c, h);
    var q, r := Quo(c, h), Rem(c, h);
    TimesDouble(q, h);
    assert 2 * h == ss;
    QuoUnique(q, 2 * r, ss);
    QuoUnique(q, 2 * r + k, ss);
  }

  lemma DwordLocation(ss: nat, c: nat, k: nat)
    requires ss > 0 && ss % 4 == 0 && k < 4
    ensures Quo(4 * c + k, ss) == Quo(c, ss / 4)
    ensures Rem(4 * c + k, ss) == Rem(4 * c, ss) + k
    ensures Rem(4 * c, ss) + 4 <= ss
  {
    var h := ss / 4;
    QuoRem(c, h);
    var q, r := Quo(c, h), Rem(c, h);
    TimesDouble(q, h);
    TimesDouble(q, 2 * h);
    assert 2 * (2 * h) == ss;
    QuoUnique(q, 4 * r, ss);
    QuoUnique(q, 4 * r + k, ss);
  }

  /** Byte `i` of the FAT is byte `p` of sector `s`. */
  predicate ByteAt(g: Geometry, i: nat, s: nat, p: nat)
    requires g.Valid()
  {
    i < Times(g.fatSize, g.ss) && FatSector(g, i) == s && Rem(i, g.ss) == p
  }

  /** A FAT16 entry is the word found in sector `c / (ss / 2)` at offset `c * 2 % ss`. */
  lemma EntryInSector16(g: Geometry, img: seq<Sector>, c: nat)
    requires g.Valid() && ImageOk(g, img) && c < g.nFatEnt && g.fatType == Fat16
    ensures
      var s, p := g.fatBase + Quo(c, g.ss / 2), Rem(2 * c, g.ss);
      && s < g.fatBase + g.fatSize && s < g.nSect && p + 2 <= g.ss
      && ByteAt(g, 2 * c, s, p) && ByteAt(g, 2 * c + 1, s, p + 1)
      && Entry(g, img, c) == LdWord(img[s], p)
  {
    EntryInFat(g, c);
    WordLocation(g.ss, c, 0);
    WordLocation(g.ss, c, 1);
    QuoBelow(2 * c, g.fatSize, g.ss);
    assert FatByte(g, img, 2 * c) == img[g.fatBase + Quo(c, g.ss / 2)][Rem(2 * c, g.ss)];
    assert FatByte(g, img, 2 * c + 1) == img[g.fatBase + Quo(c, g.ss / 2)][Rem(2 * c, g.ss) + 1];
  }

  /** A FAT32 entry is the low 28 bits of the double word found in sector `c / (ss / 4)` at offset `c * 4 % ss`. */
  lemma EntryInSector32(g: Geometry, img: seq<Sector>, c: nat)
    requires g.Valid() && ImageOk(g, img) && c < g.nFatEnt && g.fatType == Fat32
    ensures
      var s, p := g.fatBase + Quo(c, g.ss / 4), Rem(4 * c, g.ss);
      && s < g.fatBase + g.fatSize && s < g.nSect && p + 4 <= g.ss
      && ByteAt(g, 4 * c, s, p) && ByteAt(g, 4 * c + 1, s, p + 1) && ByteAt(g, 4 * c + 2, s, p + 2)
        && ByteAt(g, 4 * c + 3, s, p + 3)
      && Entry(g, img, c) == LdDword(img[s], p) % 0x1000_0000
  {
    hide Quo, Rem;
    Bytes32InSector(g, c);
    var s, p := g.fatBase + Quo(c, g.ss / 4), Rem(4 * c, g.ss);
    assert FatByte(g, img, 4 * c) == img[s][p];
    assert FatByte(g, img, 4 * c + 1) == img[s][p + 1];
    assert FatByte(g, img, 4 * c + 2) == img[s][p + 2];
    assert FatByte(g, img, 4 * c + 3) == img[s][p + 3];
  }

  lemma Bytes32InSector(g: Geometry, c: nat)
    requires g.Valid() && c < g.nFatEnt && g.fatType == Fat32
    ensures
      var s, p := g.fatBase + Quo(c, g.ss / 4), Rem(4 * c, g.ss);
      && s < g.fatBase + g.fatSize && s < g.nSect && p + 4 <= g.ss
      && ByteAt(g, 4 * c, s, p) && ByteAt(g, 4 * c + 1, s, p + 1) && ByteAt(g, 4 * c + 2, s, p + 2)
        && ByteAt(g, 4 * c + 3, s, p + 3)
  {
    EntryInFat(g, c);
    DwordLocation(g.ss, c, 0);
    DwordLocation(g.ss, c, 1);
    DwordLocation(g.ss, c, 2);
    DwordLocation(g.ss, c, 3);
    QuoBelow(4 * c, g.fatSize, g.ss);
  }

  /** Bytes per FAT16 or FAT32 entry. */
  function EntryBytesWide(g: Geometry): nat
    requires g.fatType != Fat12
  {
    if g.fatType == Fat16 then 2 else 4
  }

  /** Whether the raw scan of f_getfree counts the entry at offset `p` of a FAT sector as free. */
  predicate RawFree(g: Geometry, s: Sector, p: nat)
    requires g.fatType != Fat12 && p + EntryBytesWide(g) <= |s|
  {
    if g.fatType == Fat16 then LdWord(s, p) == 0 else LdDword(s, p) % 0x1000_0000 == 0
  }

  /** The raw scan, `q` sectors and `p` bytes into the FAT, looks at the entry get_fat decodes for cluster `c`. */
  lemma RawScanPosition(g: Geometry, img: seq<Sector>, c: nat, q: nat, p: nat)
    requires g.Valid() && ImageOk(g, img) && c < g.nFatEnt && g.fatType != Fat12
    requires EntryOffset(g, c) == Times(q, g.ss) + p && p < g.ss
    ensures q < g.fatSize && p + EntryBytesWide(g) <= g.ss
    ensures RawFree(g, img[g.fatBase + q], p) <==> Entry(g, img, c) == 0
  {
    if g.fatType == Fat16 {
      RawScan16(g, img, c, q, p);
    } else {
      RawScan32(g, img, c, q, p);
    }
  }

  lemma RawScan16(g: Geometry, img: seq<Sector>, c: nat, q: nat, p: nat)
    requires g.Valid() && ImageOk(g, img) && c < g.nFatEnt && g.fatType == Fat16
    requires 2 * c == Times(q, g.ss) + p && p < g.ss
    ensures q < g.fatSize && p + 2 <= g.ss
    ensures Entry(g, img, c) == LdWord(img[g.fatBase + q], p)
  {
    hide Entry, LdWord, ByteAt, Quo, Rem, Times;
    QuoUnique(q, p, g.ss);
    WordLocation(g.ss, c, 0);
    EntryInSector16(g, img, c);
  }

  lemma RawScan32(g: Geometry, img: seq<Sector>, c: nat, q: nat, p: nat)
    requires g.Valid() && ImageOk(g, img) && c < g.nFatEnt && g.fatType == Fat32
    requires 4 * c == Times(q, g.ss) + p && p < g.ss
    ensures q < g.fatSize && p + 4 <= g.ss
    ensures Entry(g, img, c) == LdDword(img[g.fatBase + q], p) % 0x1000_0000
  {
    hide Entry, LdDword, ByteAt, Quo, Rem, Times;
    QuoUnique(q, p, g.ss);
    DwordLocation(g.ss, c, 0);
    EntryInSector32(g, img, c);
  }

  /** ld_clust: the start cluster in the directory entry at offset `o`; only FAT32 uses the high word. */
  function LdClust(g: Geometry, s: Sector, o: nat): nat
    requires o + 32 <= |s|
  {
    if g.fatType == Fat32 then LdWord(s, o + 26) + 0x1_0000 * LdWord(s, o + 20) else LdWord(s, o + 26)
  }

  // ---------------------------------------------------------------- directory entry fields

  /** Bitwise or with the archive bit. */
  function WithArchive(a: Byte): Byte {
    if a / 0x20 % 2 == 1 then a else a + 0x20
  }

  /** st_clust and the other stores of f_sync on the entry at offset `o`. */
  function SyncedEntry(s: Sector, o: nat, size: nat, cl: nat, tm: nat): (r: Sector)
    requires o + 32 <= |s|
    ensures |r| == |s|
  {
    var s := SetByte(s, o + 11, WithArchive(s[o + 11]));
    var s := StDword(s, o + 28, size);
    var s := StWord(s, o + 26, cl);
    var s := StWord(s, o + 20, cl / 0x1_0000);
    var s := StDword(s, o + 22, tm);
    StWord(s, o + 18, 0)
  }

  /** The stores change only the attribute, the dates and times, the cluster and the size of that one entry. */
  lemma SyncedEntryFrame(s: Sector, o: nat, size: nat, cl: nat, tm: nat)
    requires o + 32 <= |s|
    ensures forall i :: 0 <= i < |s| && i != o + 11 && !(o + 18 <= i < o + 32) ==>
      SyncedEntry(s, o, size, cl, tm)[i] == s[i]
  {}

  /** The bytes of the cluster and size fields after the stores. */
  lemma SyncedEntryBytes(s: Sector, o: nat, size: nat, cl: nat, tm: nat)
    requires o + 32 <= |s|
    ensures
      var r := SyncedEntry(s, o, size, cl, tm);
      && r[o + 20] == cl / 0x1_0000 % 0x100 && r[o + 21] == cl / 0x1_0000 / 0x100 % 0x100
      && r[o + 26] == cl % 0x100 && r[o + 27] == cl / 0x100 % 0x100
      && r[o + 28] == size % 0x100 && r[o + 29] == size / 0x100 % 0x100
      && r[o + 30] == size / 0x1_0000 % 0x100 && r[o + 31] == size / 0x100_0000 % 0x100
  {}

  /** f_open loads back the size and the start cluster that f_sync stored, on every FAT type. */
  lemma SyncedEntryReadsBack(g: Geometry, s: Sector, o: nat, size: nat, cl: nat, tm: nat)
    requires g.Valid() && o + 32 <= |s| && size < DWORD_MOD && cl < g.nFatEnt
    ensures LdDword(SyncedEntry(s, o, size, cl, tm), o + 28) == size
    ensures LdClust(g, SyncedEntry(s, o, size, cl, tm), o) == cl
  {
    hide SyncedEntry;
    SyncedEntryBytes(s, o, size, cl, tm);
    FourBytes(size);
    assert cl < g.Width();
    WordOf(cl);
  }

  /** The two words of a cluster number; the high one is 0 outside FAT32. */
  lemma WordOf(cl: nat)
    requires cl < DWORD_MOD
    ensures cl % 0x100 + 0x100 * (cl / 0x100 % 0x100)
          + 0x1_0000 * (cl / 0x1_0000 % 0x100 + 0x100 * (cl / 0x1_0000 / 0x100 % 0x100)) == cl
    ensures cl < 0x1_0000 ==> cl % 0x100 + 0x100 * (cl / 0x100 % 0x100) == cl
  {
    FourBytes(cl);
    QuarterShifts(cl);
  }

  /** What f_sync makes of the sector with the entry at offset `o`: the archive bit set and the seven other attribute
      bits as before; the last access date 0, the write time, the start cluster and the size as given; and no other
      byte changed. */
  ghost predicate SyncStores(g: Geometry, s: Sector, r: Sector, o: nat, size: nat, cl: nat, tm: nat) {
    && o + 32 <= |s| == |r|
    && r[o + 11] / 0x20 % 2 == 1 && r[o + 11] % 0x20 == s[o + 11] % 0x20 && r[o + 11] / 0x40 == s[o + 11] / 0x40
    && LdWord(r, o + 18) == 0 && LdDword(r, o + 22) == tm % DWORD_MOD
    && LdClust(g, r, o) == cl && LdDword(r, o + 28) == size
    && forall i :: 0 <= i < |s| && i != o + 11 && !(o + 18 <= i < o + 32) ==> r[i] == s[i]
  }

  lemma SyncedStores(g: Geometry, s: Sector, o: nat, size: nat, cl: nat, tm: nat)
    requires g.Valid() && o + 32 <= |s| && size < DWORD_MOD && cl < g.nFatEnt
    ensures SyncStores(g, s, SyncedEntry(s, o, size, cl, tm), o, size, cl, tm)
  {
    SyncedAttribute(s, o, size, cl, tm);
    SyncedTimes(s, o, size, cl, tm);
    SyncedEntryFrame(s, o, size, cl, tm);
    SyncedEntryReadsBack(g, s, o, size, cl, tm);
    hide SyncedEntry, LdClust, LdWord, LdDword;
  }

  lemma SyncedAttribute(s: Sector, o: nat, size: nat, cl: nat, tm: nat)
    requires o + 32 <= |s|
    ensures
      var a, b := s[o + 11], SyncedEntry(s, o, size, cl, tm)[o + 11];
      b / 0x20 % 2 == 1 && b % 0x20 == a % 0x20 && b / 0x40 == a / 0x40
  {}

  lemma SyncedTimes(s: Sector, o: nat, size: nat, cl: nat, tm: nat)
    requires o + 32 <= |s|
    ensures LdWord(SyncedEntry(s, o, size, cl, tm), o + 18) == 0
    ensures LdDword(SyncedEntry(s, o, size, cl, tm), o + 22) == tm % DWORD_MOD
  {
    FourBytes(tm);
  }
}
