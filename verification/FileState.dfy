/** The state of one open file and its invariant, as a relation between values: the chain, the logical sectors, the
    private sector buffer, and the cursor. */
module FileState {
  import opened Arith
  import opened Bytes
  import opened Fat
  import opened Chains
  import opened FileData

  /** `chain` and `cache` are what the fields stand for: the file's clusters, and its sectors with the buffered one in
      place. `bufAt` is the position of the dirty buffer's sector in the file, `home` a sector where others may have
      left the window, and `loose` one of a freed cluster that truncation left in the buffer. */
  datatype State = State(
    chain: seq<nat>,
    cache: seq<Sector>,
    bufAt: nat,
    buf: Sector,
    dirty: bool,
    dsect: nat,
    sclust: nat,
    clust: nat,
    fptr: nat,
    fsize: nat,
    home: nat,
    loose: nat
  )

  ghost predicate Shape(g: Geometry, fat: FatTable, s: State) {
    && g.Valid() && |fat| == g.nFatEnt && Sound(fat)
    && Heads(fat, s.sclust, s.chain) && InRange(g, s.chain)
    && |s.cache| == Times(|s.chain|, g.csize) && Sectors(g.ss, s.cache)
  }

  /** Every logical sector is the one on the medium, except the one waiting in the dirty buffer. */
  ghost predicate Cached(g: Geometry, fat: FatTable, img: seq<Sector>, s: State)
    requires Shape(g, fat, s) && ImageOk(g, img)
  {
    forall q: nat :: q < |s.cache| ==>
      FileSec(g, s.chain, q) < g.nSect
      && s.cache[q] == if s.dirty && q == s.bufAt then s.buf else img[FileSec(g, s.chain, q)]
  }

  /** A dirty buffer belongs to a sector of the file; a clean one mirrors its sector. */
  ghost predicate Buffered(g: Geometry, fat: FatTable, img: seq<Sector>, s: State)
    requires Shape(g, fat, s) && ImageOk(g, img)
  {
    && |s.buf| == g.ss
    && (s.dirty ==> s.bufAt < |s.cache| && s.dsect == FileSec(g, s.chain, s.bufAt))
    && (!s.dirty && s.dsect != 0 ==>
          g.dataBase <= s.dsect < g.nSect && img[s.dsect] == s.buf
          && (ClusterOf(g, s.dsect) in s.chain || s.dsect == s.loose))
  }

  /** The cursor invariant: `clust` is the cluster of byte `fptr - 1`, and mid-sector the buffer is that sector. */
  ghost predicate Cursor(g: Geometry, fat: FatTable, s: State)
    requires Shape(g, fat, s)
  {
    && (s.fptr > 0 ==>
          ClusterBytes(g) > 0 && Quo(s.fptr - 1, ClusterBytes(g)) < |s.chain|
          && s.clust == s.chain[Quo(s.fptr - 1, ClusterBytes(g))])
    && (Rem(s.fptr, g.ss) != 0 ==> Quo(s.fptr, g.ss) < |s.cache| && s.dsect == FileSec(g, s.chain, Quo(s.fptr, g.ss)))
  }

  /** The chain has exactly the clusters that `size` bytes need. */
  ghost predicate Sized(g: Geometry, chain: seq<nat>, size: nat) {
    && size <= Times(|chain|, ClusterBytes(g))
    && (|chain| > 0 ==> Times(|chain| - 1, ClusterBytes(g)) < size)
  }

  /** A sector of the directory that holds the file's entry: before the data area, or in another object's cluster. */
  ghost predicate Elsewhere(g: Geometry, fat: FatTable, chain: seq<nat>, sect: nat)
    requires g.Valid() && |fat| == g.nFatEnt
  {
    && g.FatEnd() <= sect < g.nSect
    && (g.dataBase <= sect ==>
          var c := ClusterOf(g, sect);
          c < g.nFatEnt && fat[c] != 0 && c !in chain)
  }

  /** A sector before the data area, or of a cluster that is not in the chain. */
  ghost predicate OffChain(g: Geometry, chain: seq<nat>, sect: nat)
    requires g.Valid()
  {
    g.dataBase <= sect ==> ClusterOf(g, sect) !in chain
  }

  /** The window never holds a sector of the file: it holds the directory sector, or one before the data area, or is
      where others left it. */
  ghost predicate Placed(g: Geometry, fat: FatTable, s: State, winsect: nat, dirSect: nat)
    requires Shape(g, fat, s)
  {
    && Elsewhere(g, fat, s.chain, dirSect) && s.dsect != dirSect
    && (winsect < g.dataBase || winsect == dirSect || (winsect == s.home && OffChain(g, s.chain, s.home)))
  }

  /** Everything but the cursor. */
  ghost predicate Base(g: Geometry, fat: FatTable, img: seq<Sector>, s: State, winsect: nat, dirSect: nat) {
    && Shape(g, fat, s) && ImageOk(g, img)
    && Cached(g, fat, img, s)
    && Buffered(g, fat, img, s)
    && Placed(g, fat, s, winsect, dirSect)
  }

  lemma BaseShape(g: Geometry, fat: FatTable, img: seq<Sector>, s: State, winsect: nat, dirSect: nat)
    requires Base(g, fat, img, s, winsect, dirSect)
    ensures Shape(g, fat, s) && ImageOk(g, img)
  {}

  /** In the middle of a transfer: `clust` is the cluster of byte `fptr`. */
  ghost predicate AtCluster(g: Geometry, s: State) {
    && ClusterBytes(g) > 0 && Quo(s.fptr, ClusterBytes(g)) < |s.chain|
    && s.clust == s.chain[Quo(s.fptr, ClusterBytes(g))]
  }

  /** Off a cluster boundary the cursor already knows the cluster of byte `fptr`. */
  lemma CursorInCluster(g: Geometry, fat: FatTable, s: State)
    requires Shape(g, fat, s) && Cursor(g, fat, s)
    requires ClusterBytes(g) > 0 && Rem(s.fptr, ClusterBytes(g)) != 0
    ensures AtCluster(g, s)
  {
    QuoRem(s.fptr, ClusterBytes(g));
    PreviousByte(g, s.fptr);
  }

  /** After `n` bytes inside the cluster the cursor invariant holds again. */
  lemma CursorAdvanced(g: Geometry, fat: FatTable, s: State, n: nat)
    requires Shape(g, fat, s) && AtCluster(g, s)
    requires 1 <= n && Rem(s.fptr, ClusterBytes(g)) + n <= ClusterBytes(g)
    requires Rem(s.fptr + n, g.ss) != 0 ==>
      Quo(s.fptr + n, g.ss) < |s.cache| && s.dsect == FileSec(g, s.chain, Quo(s.fptr + n, g.ss))
    ensures Cursor(g, fat, s.(fptr := s.fptr + n))
  {
    var b := ClusterBytes(g);
    QuoRem(s.fptr, b);
    QuoUnique(Quo(s.fptr, b), Rem(s.fptr, b) + n - 1, b);
  }

  /** The sector of byte `fptr`, as the code computes it from `clust` and the sector offset in the cluster. */
  lemma CurrentSector(g: Geometry, fat: FatTable, s: State)
    requires Shape(g, fat, s) && AtCluster(g, s)
    ensures
      var q := Quo(s.fptr, g.ss);
      && q < |s.cache| && g.dataBase <= FileSec(g, s.chain, q) < g.nSect
      && FileSec(g, s.chain, q) == Clust2Sect(g, s.clust) + Rem(q, g.csize)
      && Clust2Sect(g, s.clust) != 0
  {
    var q := Quo(s.fptr, g.ss);
    OffsetParts(g, s.fptr);
    QuoBelow(q, |s.chain|, g.csize);
    QuoRem(q, g.csize);
    FileSecInData(g, s.chain, q);
    SecInData(g, s.clust, Rem(q, g.csize));
  }

  /** The bytes a reader of the file sees. */
  function Data(g: Geometry, s: State, n: nat): seq<Byte>
    requires Sectors(g.ss, s.cache) && n <= Times(|s.cache|, g.ss)
  {
    Content(g.ss, s.cache, n)
  }

  lemma CacheBytes(g: Geometry, fat: FatTable, s: State)
    requires Shape(g, fat, s)
    ensures Times(|s.cache|, g.ss) == Times(|s.chain|, ClusterBytes(g))
  {
    TimesAssoc(|s.chain|, g.csize, g.ss);
  }

  /** Flushing the dirty buffer changes no logical sector. */
  lemma FlushKeepsBase(g: Geometry, fat: FatTable, img: seq<Sector>, s: State, winsect: nat, dirSect: nat)
    requires Base(g, fat, img, s, winsect, dirSect) && s.dirty
    ensures s.dsect < g.nSect && s.dsect != winsect && g.dataBase <= s.dsect
    ensures ClusterOf(g, s.dsect) in s.chain
    ensures Base(g, fat, img[s.dsect := s.buf], s.(dirty := false), winsect, dirSect)
  {
    FileSecInData(g, s.chain, s.bufAt);
    var img' := img[s.dsect := s.buf];
    var s' := s.(dirty := false);
    forall q: nat | q < |s'.cache|
      ensures FileSec(g, s.chain, q) < g.nSect && s'.cache[q] == img'[FileSec(g, s.chain, q)]
    {
      FileSecInData(g, s.chain, q);
      if FileSec(g, s.chain, q) == s.dsect {
        FileSecInjective(g, fat, s.chain, q, s.bufAt);
      }
    }
  }

  /** The sectors of a chain as they are on the medium. */
  function Stored(g: Geometry, img: seq<Sector>, chain: seq<nat>): (r: seq<Sector>)
    requires g.Valid() && ImageOk(g, img) && InRange(g, chain)
    ensures |r| == Times(|chain|, g.csize) && Sectors(g.ss, r)
    ensures forall q: nat :: q < |r| ==> FileSec(g, chain, q) < g.nSect && r[q] == img[FileSec(g, chain, q)]
  {
    assert forall q: nat :: q < Times(|chain|, g.csize) ==> FileSec(g, chain, q) < g.nSect by {
      forall q: nat | q < Times(|chain|, g.csize)
        ensures FileSec(g, chain, q) < g.nSect
      {
        FileSecInData(g, chain, q);
      }
    }
    seq(Times(|chain|, g.csize),
        q requires 0 <= q < Times(|chain|, g.csize) && FileSec(g, chain, q) < g.nSect => img[FileSec(g, chain, q)])
  }

  /** A freshly opened file satisfies the invariant. */
  lemma OpenedCore(g: Geometry, fat: FatTable, img: seq<Sector>, s: State, winsect: nat, dirSect: nat)
    requires g.Valid() && ImageOk(g, img) && |fat| == g.nFatEnt && Sound(fat) && |s.buf| == g.ss
    requires Heads(fat, s.sclust, s.chain) && Elsewhere(g, fat, s.chain, dirSect)
    requires winsect < g.dataBase || winsect == dirSect
    requires InRange(g, s.chain) && s.cache == Stored(g, img, s.chain) && !s.dirty && s.dsect == 0 && s.fptr == 0
    ensures Base(g, fat, img, s, winsect, dirSect) && Cursor(g, fat, s)
  {
    assert Rem(0, g.ss) == 0;
  }

  // ---------------------------------------------------------------- FAT steps

  /** The sectors of a cluster as they are on the medium. */
  function ClusterSectors(g: Geometry, img: seq<Sector>, c: nat): (r: seq<Sector>)
    requires g.Valid() && ImageOk(g, img) && 2 <= c < g.nFatEnt
    ensures |r| == g.csize && Sectors(g.ss, r)
  {
    var f := (j: int) requires 0 <= j < g.csize && Sec(g, c, j) < g.nSect => img[Sec(g, c, j)];
    assert forall j: nat :: j < g.csize ==> Sec(g, c, j) < g.nSect by {
      forall j: nat | j < g.csize
        ensures Sec(g, c, j) < g.nSect
      {
        SecInData(g, c, j);
      }
    }
    seq(g.csize, f)
  }

  /** The state after cluster `c` was appended to the chain. */
  function Grown(g: Geometry, img: seq<Sector>, s: State, c: nat): State
    requires g.Valid() && ImageOk(g, img) && 2 <= c < g.nFatEnt
  {
    s.(chain := s.chain + [c], cache := s.cache + ClusterSectors(g, img, c),
       sclust := if s.chain == [] then c else s.sclust)
  }

  lemma GrowKeepsShape(g: Geometry, fat: FatTable, img: seq<Sector>, s: State, fat': FatTable, c: nat)
    requires Shape(g, fat, s) && ImageOk(g, img)
    requires 2 <= c < g.nFatEnt && |fat'| == |fat| && Sound(fat') && IsChain(fat', s.chain + [c])
    ensures Shape(g, fat', Grown(g, img, s, c))
  {
    TimesAdd(|s.chain|, 1, g.csize);
  }

  lemma GrownSectors(g: Geometry, img: seq<Sector>, s: State, c: nat, q: nat)
    requires g.Valid() && ImageOk(g, img) && 2 <= c < g.nFatEnt && InRange(g, s.chain)
    requires |s.cache| == Times(|s.chain|, g.csize)
    requires |s.cache| <= q < |s.cache| + g.csize
    ensures InRange(g, s.chain + [c]) && q < Times(|s.chain + [c]|, g.csize)
    ensures FileSec(g, s.chain + [c], q) < g.nSect
    ensures Grown(g, img, s, c).cache[q] == img[FileSec(g, s.chain + [c], q)]
  {
    var j := q - |s.cache|;
    TimesAdd(|s.chain|, 1, g.csize);
    QuoUnique(|s.chain|, j, g.csize);
    SecInData(g, c, j);
    assert FileSec(g, s.chain + [c], q) == Sec(g, c, j);
  }

  /** Appending a formerly free cluster keeps the invariant and every byte already there. */
  lemma GrowKeepsBase(
    g: Geometry, fat: FatTable, img: seq<Sector>, s: State, winsect: nat, dirSect: nat,
    fat': FatTable, img': seq<Sector>, winsect': nat, c: nat)
    requires Base(g, fat, img, s, winsect, dirSect)
    requires ImageOk(g, img') && SameOutsideFat(g, img, img')
    requires winsect' < g.dataBase
    requires Sound(fat')
    requires 2 <= c < g.nFatEnt && fat[c] == 0 && OthersKept(fat, s.chain, fat') && IsChain(fat', s.chain + [c])
    ensures Base(g, fat', img', Grown(g, img', s, c), winsect', dirSect)
  {
    var s' := Grown(g, img', s, c);
    GrowKeepsShape(g, fat, img', s, fat', c);
    forall q: nat | q < |s'.cache|
      ensures FileSec(g, s'.chain, q) < g.nSect
      ensures s'.cache[q] == if s.dirty && q == s.bufAt then s.buf else img'[FileSec(g, s'.chain, q)]
    {
      if q < |s.cache| {
        FileSecPrefix(g, s.chain, s'.chain, q);
        FileSecInData(g, s.chain, q);
      } else {
        GrownSectors(g, img', s, c, q);
      }
    }
    if s.dirty {
      FileSecPrefix(g, s.chain, s'.chain, s.bufAt);
    }
  }

  /** The invariant without the cursor survives moves of the cursor fields and of the window off the file. */
  lemma MovedKeepsBase(
    g: Geometry, fat: FatTable, img: seq<Sector>, s: State, winsect: nat, dirSect: nat,
    winsect': nat, clust: nat, fptr: nat, fsize: nat)
    requires Base(g, fat, img, s, winsect, dirSect)
    requires winsect' < g.dataBase || winsect' == winsect || winsect' == dirSect
    ensures Base(g, fat, img, s.(clust := clust, fptr := fptr, fsize := fsize), winsect', dirSect)
  {}

  /** A FAT access that changes no entry keeps the invariant, and touches nothing. */
  lemma StayKeepsBase(
    g: Geometry, fat: FatTable, img: seq<Sector>, s: State, winsect: nat, dirSect: nat, img': seq<Sector>,
    winsect': nat)
    requires Base(g, fat, img, s, winsect, dirSect)
    requires ImageOk(g, img') && SameOutsideFat(g, img, img')
    requires winsect' < g.dataBase || winsect' == winsect || winsect' == dirSect
    ensures Base(g, fat, img', s, winsect', dirSect)
    ensures Untouched(g, fat, img, s.chain, fat, img', s.chain)
  {
    forall q: nat | q < |s.cache|
      ensures g.dataBase <= FileSec(g, s.chain, q) < g.nSect
    {
      FileSecInData(g, s.chain, q);
    }
    UntouchedSelf(g, fat, img, s);
  }

  // ---------------------------------------------------------------- sector steps

  /** One sector of the file replaced through the buffer: the buffer becomes that sector and is dirty. */
  function Buffering(s: State, q: nat, b: Sector, sect: nat): State
    requires q < |s.cache|
  {
    s.(cache := s.cache[q := b], buf := b, dirty := true, bufAt := q, dsect := sect)
  }

  lemma BufferingKeepsBase(
    g: Geometry, fat: FatTable, img: seq<Sector>, s: State, winsect: nat, dirSect: nat, q: nat, b: Sector)
    requires Base(g, fat, img, s, winsect, dirSect)
    requires q < |s.cache| && |b| == g.ss && (s.dirty ==> s.bufAt == q)
    ensures Base(g, fat, img, Buffering(s, q, b, FileSec(g, s.chain, q)), winsect, dirSect)
  {
    FileSecInData(g, s.chain, q);
  }

  /** A clean buffer reloaded with sector `q` of the file. */
  lemma LoadKeepsBase(g: Geometry, fat: FatTable, img: seq<Sector>, s: State, winsect: nat, dirSect: nat, q: nat)
    requires Base(g, fat, img, s, winsect, dirSect)
    requires q < |s.cache| && !s.dirty
    ensures g.dataBase <= FileSec(g, s.chain, q) < g.nSect && FileSec(g, s.chain, q) != winsect
    ensures img[FileSec(g, s.chain, q)] == s.cache[q]
    ensures Base(g, fat, img, s.(buf := s.cache[q], dsect := FileSec(g, s.chain, q)), winsect, dirSect)
  {
    FileSecInData(g, s.chain, q);
  }

  /** One sector of the file written past the buffer, which holds nothing meanwhile. */
  lemma DirectKeepsBase(
    g: Geometry, fat: FatTable, img: seq<Sector>, s: State, winsect: nat, dirSect: nat, q: nat, b: Sector)
    requires Base(g, fat, img, s, winsect, dirSect)
    requires q < |s.cache| && |b| == g.ss && !s.dirty && s.dsect == 0
    ensures FileSec(g, s.chain, q) < g.nSect && FileSec(g, s.chain, q) != winsect
      && g.dataBase <= FileSec(g, s.chain, q)
    ensures Base(g, fat, img[FileSec(g, s.chain, q) := b], s.(cache := s.cache[q := b]), winsect, dirSect)
  {
    FileSecInData(g, s.chain, q);
    var sect := FileSec(g, s.chain, q);
    var s' := s.(cache := s.cache[q := b]);
    forall p: nat | p < |s'.cache|
      ensures FileSec(g, s.chain, p) < g.nSect && s'.cache[p] == img[sect := b][FileSec(g, s.chain, p)]
    {
      FileSecInData(g, s.chain, p);
      if p != q && FileSec(g, s.chain, p) == sect {
        FileSecInjective(g, fat, s.chain, p, q);
      }
    }
  }

  /** The bytes after sector `q` was replaced by a splice of `d` into `base`, where `base` is the sector itself or the
      write starts at the growing edge `hi`. */
  lemma PatchSector(ss: nat, cache: seq<Sector>, q: nat, r: nat, d: seq<Byte>, base: Sector, hi: nat)
    requires Sectors(ss, cache) && q < |cache| && |base| == ss && r + |d| <= ss
    requires Times(q, ss) + r <= hi <= Times(|cache|, ss)
    requires base == cache[q] || hi <= Times(q, ss)
    ensures
      var after := cache[q := Splice(base, r, d)];
      var p := Times(q, ss) + r;
      && Sectors(ss, after) && p + |d| <= Times(|cache|, ss)
      && Content(ss, after, Max(hi, p + |d|)) == Patch(Content(ss, cache, hi), p, d)
  {
    var after := cache[q := Splice(base, r, d)];
    var p := Times(q, ss) + r;
    SpliceBytes(ss, cache, q, r, d, base);
    forall i: nat | i < hi && !(p <= i < p + |d|)
      ensures ByteIn(ss, after, i) == ByteIn(ss, cache, i)
    {
      QuoRem(i, ss);
      if Quo(i, ss) == q {
        assert ByteIn(ss, after, i) == base[Rem(i, ss)];
      }
    }
    ContentPatched(ss, cache, after, hi, p, d, Max(hi, p + |d|));
  }

  // ---------------------------------------------------------------- everything else on the volume

  /** A sector that no step on `chain` may change: outside the FATs, and not in a cluster that is free or in `chain`. */
  ghost predicate Foreign(g: Geometry, fat: FatTable, chain: seq<nat>, s: nat)
    requires g.Valid() && |fat| == g.nFatEnt
  {
    && !(g.fatBase <= s < g.FatEnd())
    && (g.dataBase <= s ==> var c := ClusterOf(g, s); c < g.nFatEnt && fat[c] != 0 && c !in chain)
  }

  /** A step on one file, whose chain goes from `chain` to `chain'`: entries of other allocated clusters and foreign
      sectors are unchanged, and a cluster is allocated afterwards exactly when another object owns it or it is in
      `chain'`. So nothing is stolen, and nothing leaks. */
  ghost predicate Untouched(
    g: Geometry, fat: FatTable, img: seq<Sector>, chain: seq<nat>, fat': FatTable, img': seq<Sector>,
    chain': seq<nat>) {
    && g.Valid() && |fat| == g.nFatEnt && ImageOk(g, img) && ImageOk(g, img')
    && OthersKept(fat, chain, fat')
    && (forall c :: 2 <= c < |fat| ==> (fat'[c] != 0 <==> (fat[c] != 0 && c !in chain) || c in chain'))
    && (forall c :: c in chain' ==> c in chain || (2 <= c < |fat| && fat[c] == 0))
    && (forall s :: 0 <= s < g.nSect && Foreign(g, fat, chain, s) ==> img'[s] == img[s])
  }

  lemma UntouchedTrans(
    g: Geometry, fat: FatTable, img: seq<Sector>, chain: seq<nat>, fat': FatTable, img': seq<Sector>, chain': seq<nat>,
    fat'': FatTable, img'': seq<Sector>, chain'': seq<nat>)
    requires Untouched(g, fat, img, chain, fat', img', chain')
      && Untouched(g, fat', img', chain', fat'', img'', chain'')
    ensures Untouched(g, fat, img, chain, fat'', img'', chain'')
  {
    forall s | 0 <= s < g.nSect && Foreign(g, fat, chain, s)
      ensures img''[s] == img[s]
    {
      assert Foreign(g, fat', chain', s);
    }
  }

  lemma UntouchedSelf(g: Geometry, fat: FatTable, img: seq<Sector>, s: State)
    requires Shape(g, fat, s) && ImageOk(g, img)
    ensures Untouched(g, fat, img, s.chain, fat, img, s.chain)
  {
    if s.chain != [] {
      ChainAllocated(fat, s.chain);
    }
  }

  lemma UntouchedByOwnSector(g: Geometry, fat: FatTable, img: seq<Sector>, s: State, sect: nat, b: Sector)
    requires Shape(g, fat, s) && ImageOk(g, img) && |b| == g.ss
    requires g.dataBase <= sect < g.nSect && ClusterOf(g, sect) in s.chain
    ensures Untouched(g, fat, img, s.chain, fat, img[sect := b], s.chain)
  {
    UntouchedSelf(g, fat, img, s);
  }

  lemma UntouchedByGrowth(
    g: Geometry, fat: FatTable, img: seq<Sector>, s: State, fat': FatTable, img': seq<Sector>, c: nat)
    requires Shape(g, fat, s) && ImageOk(g, img) && ImageOk(g, img') && SameOutsideFat(g, img, img')
    requires 2 <= c < g.nFatEnt && fat[c] == 0 && OthersKept(fat, s.chain, fat') && IsChain(fat', s.chain + [c])
    requires forall d :: 2 <= d < |fat| && d !in s.chain && d != c ==> fat'[d] == fat[d]
    ensures Untouched(g, fat, img, s.chain, fat', img', s.chain + [c])
  {
    ChainAllocated(fat', s.chain + [c]);
    forall d | d in s.chain + [c]
      ensures fat'[d] != 0
    {
      var i :| 0 <= i < |s.chain + [c]| && (s.chain + [c])[i] == d;
    }
    assert c in s.chain + [c];
  }

  /** Sector `j` behind the `q`-th, within the same cluster. */
  lemma DirectSector(g: Geometry, fat: FatTable, img: seq<Sector>, s: State, winsect: nat, dirSect: nat, q: nat, j: nat)
    requires Base(g, fat, img, s, winsect, dirSect)
    requires q < |s.cache| && Rem(q, g.csize) + j < g.csize
    ensures q + j < |s.cache| && FileSec(g, s.chain, q + j) == FileSec(g, s.chain, q) + j
    ensures g.dataBase <= FileSec(g, s.chain, q) + j < g.nSect && FileSec(g, s.chain, q) + j != winsect
    ensures s.cache[q + j] ==
      if s.dirty && FileSec(g, s.chain, q) + j == s.dsect then s.buf else img[FileSec(g, s.chain, q) + j]
  {
    hide FileSec, Quo, Rem, Times, Sound;
    ConsecutiveSectors(g, s.chain, q, j);
    FileSecInData(g, s.chain, q + j);
    if s.dirty && FileSec(g, s.chain, q + j) == s.dsect {
      FileSecInjective(g, fat, s.chain, q + j, s.bufAt);
    }
  }

  /** Whole sectors of one cluster lie in the data area and apart from the window. */
  lemma DirectApart(g: Geometry, fat: FatTable, img: seq<Sector>, s: State, winsect: nat, dirSect: nat, q: nat, cc: nat)
    requires Base(g, fat, img, s, winsect, dirSect)
    requires q < |s.cache| && cc > 0 && Rem(q, g.csize) + cc <= g.csize
    ensures q + cc <= |s.cache| && g.dataBase <= FileSec(g, s.chain, q) && FileSec(g, s.chain, q) + cc <= g.nSect
    ensures !(FileSec(g, s.chain, q) <= winsect < FileSec(g, s.chain, q) + cc)
  {
    hide Cached, Buffered, Placed, FileSec;
    var sect := FileSec(g, s.chain, q);
    DirectSector(g, fat, img, s, winsect, dirSect, q, cc - 1);
    DirectSector(g, fat, img, s, winsect, dirSect, q, 0);
    if sect <= winsect < sect + cc {
      DirectSector(g, fat, img, s, winsect, dirSect, q, winsect - sect);
    }
  }

  lemma DirtySectorInData(g: Geometry, fat: FatTable, img: seq<Sector>, s: State, winsect: nat, dirSect: nat)
    requires Base(g, fat, img, s, winsect, dirSect) && s.dirty
    ensures g.dataBase <= s.dsect < g.nSect <= DWORD_MOD
  {
    FileSecInData(g, s.chain, s.bufAt);
  }

  /** Sectors read from `sect` on, with the dirty buffer put in its place. */
  function WithBuffer(raw: seq<Sector>, sect: nat, s: State): (r: seq<Sector>)
    ensures |r| == |raw|
    ensures forall j :: 0 <= j < |r| ==> r[j] == if s.dirty && s.dsect == sect + j then s.buf else raw[j]
  {
    if s.dirty && sect <= s.dsect < sect + |raw| then raw[s.dsect - sect := s.buf] else raw
  }

  /** Sectors read straight from the medium, with the dirty buffer put in its place, are the logical sectors. */
  lemma DirectSectors(
    g: Geometry, fat: FatTable, img: seq<Sector>, s: State, winsect: nat, dirSect: nat, q: nat, cc: nat)
    requires Base(g, fat, img, s, winsect, dirSect)
    requires q < |s.cache| && cc > 0 && Rem(q, g.csize) + cc <= g.csize
    ensures q + cc <= |s.cache| && FileSec(g, s.chain, q) + cc <= g.nSect
    ensures s.cache[q..q + cc] == WithBuffer(img[FileSec(g, s.chain, q)..FileSec(g, s.chain, q) + cc], FileSec(g,
      s.chain, q), s)
  {
    hide Cached, Buffered, Placed, Heads, InRange, Sectors, FileSec;
    DirectApart(g, fat, img, s, winsect, dirSect, q, cc);
    var sect := FileSec(g, s.chain, q);
    var raw := img[sect..sect + cc];
    hide WithBuffer;
    var a, b := s.cache[q..q + cc], WithBuffer(raw, sect, s);
    forall j | 0 <= j < cc
      ensures a[j] == b[j]
    {
      DirectSector(g, fat, img, s, winsect, dirSect, q, j);
      assert a[j] == s.cache[q + j] && raw[j] == img[sect + j];
    }
  }

  /** Putting the buffer over its sector in the caller's memory is reading the sectors with the buffer in place. */
  lemma BufferOverRead(ss: nat, raw: seq<Sector>, k: nat, b: Sector, before: seq<Byte>, off: nat)
    requires Sectors(ss, raw) && k < |raw| && |b| == ss && off + Times(|raw|, ss) <= |before|
    ensures Sectors(ss, raw[k := b]) && Times(k, ss) + ss <= Times(|raw|, ss)
    ensures Patch(Patch(before, off, Content(ss, raw, Times(|raw|, ss))), off + Times(k, ss), b)
         == Patch(before, off, Content(ss, raw[k := b], Times(|raw|, ss)))
  {
    var n := Times(|raw|, ss);
    TimesMono(k, |raw|, ss);
    PatchSector(ss, raw, k, 0, b, raw[k], n);
    assert Splice(raw[k], 0, b) == b;
    PatchInside(before, off, Content(ss, raw, n), Times(k, ss), b);
  }

  /** A buffer that names a sector of the file holds it, dirty or clean. */
  lemma BufferHolds(g: Geometry, fat: FatTable, img: seq<Sector>, s: State, winsect: nat, dirSect: nat, q: nat)
    requires Base(g, fat, img, s, winsect, dirSect)
    requires q < |s.cache| && s.dsect == FileSec(g, s.chain, q)
    ensures s.buf == s.cache[q] && (s.dirty ==> s.bufAt == q)
  {
    FileSecInData(g, s.chain, q);
    if s.dirty {
      FileSecInjective(g, fat, s.chain, q, s.bufAt);
    }
  }

  /** The sector of byte `fptr` of a file with more than `fptr` bytes, and where the cluster ends. */
  lemma SectorOfByte(g: Geometry, fat: FatTable, s: State, size: nat)
    requires Shape(g, fat, s) && s.fptr < size && Sized(g, s.chain, size)
    ensures ClusterBytes(g) > 0
    ensures Quo(s.fptr, ClusterBytes(g)) < |s.chain| && Quo(s.fptr, g.ss) < |s.cache|
    ensures Rem(s.fptr, ClusterBytes(g)) == 0 <==> Rem(s.fptr, g.ss) == 0 && Rem(Quo(s.fptr, g.ss), g.csize) == 0
  {
    ClusterBytesPositive(g);
    OffsetParts(g, s.fptr);
    QuoBelow(s.fptr, |s.chain|, ClusterBytes(g));
    CacheBytes(g, fat, s);
    QuoBelow(s.fptr, |s.cache|, g.ss);
    var c := Rem(Quo(s.fptr, g.ss), g.csize);
    if c > 0 {
      TimesMono(1, c, g.ss);
    }
  }

  /** `n` bytes within the current sector keep the cursor invariant. */
  lemma PartialStep(g: Geometry, fat: FatTable, s: State, n: nat)
    requires Shape(g, fat, s) && AtCluster(g, s)
    requires Quo(s.fptr, g.ss) < |s.cache| && s.dsect == FileSec(g, s.chain, Quo(s.fptr, g.ss))
    requires 1 <= n && Rem(s.fptr, g.ss) + n <= g.ss
    ensures Cursor(g, fat, s.(fptr := s.fptr + n))
  {
    hide Quo, Rem, Times, FileSec;
    OffsetParts(g, s.fptr);
    var q, r := Quo(s.fptr, g.ss), Rem(s.fptr, g.ss);
    TimesMono(Rem(q, g.csize), g.csize, g.ss);
    if r + n < g.ss {
      QuoUnique(q, r + n, g.ss);
    } else {
      TimesAdd(q, 1, g.ss);
      TimesIsProduct(1, g.ss);
      QuoUnique(q + 1, 0, g.ss);
    }
    CursorAdvanced(g, fat, s, n);
  }

  /** `cc` whole sectors within the current cluster keep the cursor invariant. */
  lemma DirectStep(g: Geometry, fat: FatTable, s: State, cc: nat)
    requires Shape(g, fat, s) && AtCluster(g, s)
    requires Rem(s.fptr, g.ss) == 0 && 1 <= cc && Rem(Quo(s.fptr, g.ss), g.csize) + cc <= g.csize
    ensures Times(cc, g.ss) >= g.ss
    ensures s.fptr == Times(Quo(s.fptr, g.ss), g.ss)
    ensures Cursor(g, fat, s.(fptr := s.fptr + Times(cc, g.ss)))
  {
    hide Quo, Rem, Times, FileSec;
    OffsetParts(g, s.fptr);
    var q := Quo(s.fptr, g.ss);
    var c := Rem(q, g.csize);
    TimesIsProduct(1, g.ss);
    TimesMono(1, cc, g.ss);
    TimesAdd(q, cc, g.ss);
    TimesAdd(c, cc, g.ss);
    TimesMono(c + cc, g.csize, g.ss);
    QuoUnique(q + cc, 0, g.ss);
    CursorAdvanced(g, fat, s, Times(cc, g.ss));
  }

  // ---------------------------------------------------------------- writing

  /** `wcnt` bytes put into the buffer of sector `q` at the cursor, over `base`: the invariant holds again. */
  lemma PutKeepsCore(
    g: Geometry, fat: FatTable, img: seq<Sector>, s: State, winsect: nat, dirSect: nat, d: seq<Byte>, base: Sector)
    requires Base(g, fat, img, s, winsect, dirSect) && AtCluster(g, s)
    requires Quo(s.fptr, g.ss) < |s.cache| && (s.dirty ==> s.bufAt == Quo(s.fptr, g.ss))
    requires 1 <= |d| && Rem(s.fptr, g.ss) + |d| <= g.ss && |base| == g.ss
    ensures
      var q := Quo(s.fptr, g.ss);
      var s' := Buffering(s, q, Splice(base, Rem(s.fptr, g.ss), d), FileSec(g, s.chain, q)).(fptr := s.fptr + |d|);
      Base(g, fat, img, s', winsect, dirSect) && Cursor(g, fat, s')
  {
    hide Cached, Buffered, Placed, FileSec, Quo, Rem, Times;
    var q := Quo(s.fptr, g.ss);
    var b := Splice(base, Rem(s.fptr, g.ss), d);
    BufferingKeepsBase(g, fat, img, s, winsect, dirSect, q, b);
    var s1 := Buffering(s, q, b, FileSec(g, s.chain, q));
    PartialStep(g, fat, s1, |d|);
    MovedKeepsBase(g, fat, img, s1, winsect, dirSect, winsect, s1.clust, s.fptr + |d|, s1.fsize);
  }

  /** The bytes after that put. */
  lemma PutContent(g: Geometry, fat: FatTable, s: State, d: seq<Byte>, base: Sector, hi: nat)
    requires Shape(g, fat, s) && s.fptr <= hi <= Times(|s.cache|, g.ss)
    requires Quo(s.fptr, g.ss) < |s.cache| && |base| == g.ss && Rem(s.fptr, g.ss) + |d| <= g.ss
    requires base == s.cache[Quo(s.fptr, g.ss)] || (Rem(s.fptr, g.ss) == 0 && hi == s.fptr)
    ensures
      var after := s.cache[Quo(s.fptr, g.ss) := Splice(base, Rem(s.fptr, g.ss), d)];
      && Sectors(g.ss, after) && s.fptr + |d| <= Times(|s.cache|, g.ss)
      && Content(g.ss, after, Max(hi, s.fptr + |d|)) == Patch(Content(g.ss, s.cache, hi), s.fptr, d)
  {
    QuoRem(s.fptr, g.ss);
    PatchSector(g.ss, s.cache, Quo(s.fptr, g.ss), Rem(s.fptr, g.ss), d, base, hi);
  }

  /** The chain fits the size, or the cluster at the growing edge was just appended. */
  ghost predicate Roomy(g: Geometry, chain: seq<nat>, size: nat, p: nat) {
    && size <= Times(|chain|, ClusterBytes(g))
    && (Sized(g, chain, size) || (size == p && |chain| > 0 && Times(|chain| - 1, ClusterBytes(g)) <= p))
  }

  /** The file stays sized when it grows within its last cluster. */
  lemma SizedAfter(g: Geometry, chain: seq<nat>, size: nat, p: nat, n: nat)
    requires Roomy(g, chain, size, p)
    requires p <= size && 1 <= n && p + n <= Times(|chain|, ClusterBytes(g))
    ensures Sized(g, chain, Max(size, p + n))
  {}

  /** A cluster is appended only at the growing edge. */
  lemma RoomyAfterGrowth(g: Geometry, chain: seq<nat>, size: nat, p: nat, c: nat)
    requires g.Valid() && Sized(g, chain, size) && p <= size
    requires ClusterBytes(g) > 0 && Rem(p, ClusterBytes(g)) == 0 && Quo(p, ClusterBytes(g)) == |chain|
    ensures Roomy(g, chain + [c], size, p)
  {
    QuoRem(p, ClusterBytes(g));
    TimesMono(|chain|, |chain| + 1, ClusterBytes(g));
  }

  lemma ClusterWithin(g: Geometry, chain: seq<nat>, size: nat, p: nat)
    requires g.Valid() && Sized(g, chain, size) && p <= size
    ensures ClusterBytes(g) > 0 && Quo(p, ClusterBytes(g)) <= |chain|
    ensures Rem(p, ClusterBytes(g)) == 0 <==> Rem(p, g.ss) == 0 && Rem(Quo(p, g.ss), g.csize) == 0
  {
    hide Quo, Rem, Times;
    ClusterBytesPositive(g);
    OffsetParts(g, p);
    TimesMono(|chain|, |chain| + 1, ClusterBytes(g));
    QuoBelow(p, |chain| + 1, ClusterBytes(g));
    var c := Rem(Quo(p, g.ss), g.csize);
    if c > 0 {
      TimesMono(1, c, g.ss);
      TimesIsProduct(1, g.ss);
    } else {
      TimesIsProduct(0, g.ss);
    }
  }

  /** One sector of a direct transfer: the `j`-th behind sector `q`, with the buffer holding nothing meanwhile. */
  lemma DirectWriteStep(
    g: Geometry, fat: FatTable, img: seq<Sector>, s: State, winsect: nat, dirSect: nat, q: nat, j: nat, d: Sector,
    hi: nat)
    requires Base(g, fat, img, s, winsect, dirSect) && !s.dirty && s.dsect == 0
    requires q < |s.cache| && Rem(q, g.csize) + j < g.csize && |d| == g.ss
    requires Times(q, g.ss) + Times(j, g.ss) <= hi <= Times(|s.cache|, g.ss)
    ensures q + j < |s.cache| && Sectors(g.ss, s.cache[q + j := d])
    ensures
      var sect := FileSec(g, s.chain, q) + j;
      && g.dataBase <= sect < g.nSect && sect != winsect
      && Base(g, fat, img[sect := d], s.(cache := s.cache[q + j := d]), winsect, dirSect)
      && Untouched(g, fat, img, s.chain, fat, img[sect := d], s.chain)
    ensures
      var p := Times(q, g.ss) + Times(j, g.ss);
      && Max(hi, p + g.ss) <= Times(|s.cache|, g.ss)
      && Content(g.ss, s.cache[q + j := d], Max(hi, p + g.ss)) == Patch(Content(g.ss, s.cache, hi), p, d)
  {
    hide Cached, Buffered, Placed, FileSec, Quo, Rem, Times, Content, Patch, Untouched;
    DirectSector(g, fat, img, s, winsect, dirSect, q, j);
    DirectKeepsBase(g, fat, img, s, winsect, dirSect, q + j, d);
    OwnSector(g, fat, s, q + j);
    UntouchedByOwnSector(g, fat, img, s, FileSec(g, s.chain, q) + j, d);
    TimesAdd(q, j, g.ss);
    PatchSector(g.ss, s.cache, q + j, 0, d, s.cache[q + j], hi);
    assert Splice(s.cache[q + j], 0, d) == d;
  }

  lemma OwnSector(g: Geometry, fat: FatTable, s: State, q: nat)
    requires Shape(g, fat, s) && q < |s.cache|
    ensures g.dataBase <= FileSec(g, s.chain, q) && ClusterOf(g, FileSec(g, s.chain, q)) in s.chain
  {
    FileSecInData(g, s.chain, q);
  }

  /** After a direct transfer of clean sectors the buffer is valid again: refilled when its sector was among those
      written, and otherwise still equal to its sector. */
  lemma BufferAfterDirect(
    g: Geometry, fat: FatTable, img: seq<Sector>, s: State, winsect: nat, dirSect: nat, img': seq<Sector>,
    cache': seq<Sector>,
    sect: nat, cc: nat, b: Sector)
    requires Base(g, fat, img, s, winsect, dirSect) && !s.dirty
    requires Base(g, fat, img', s.(cache := cache', dsect := 0), winsect, dirSect)
    requires g.dataBase <= sect && sect + cc <= g.nSect
    requires s.dsect < g.nSect && (!(sect <= s.dsect < sect + cc) ==> img'[s.dsect] == img[s.dsect])
    requires b == if sect <= s.dsect < sect + cc then img'[s.dsect] else s.buf
    ensures Base(g, fat, img', s.(cache := cache', buf := b), winsect, dirSect)
  {}

  /** A clean buffer may be taken to hold nothing. */
  lemma EmptyBufferKeepsBase(g: Geometry, fat: FatTable, img: seq<Sector>, s: State, winsect: nat, dirSect: nat)
    requires Base(g, fat, img, s, winsect, dirSect) && !s.dirty
    ensures Base(g, fat, img, s.(dsect := 0), winsect, dirSect)
    ensures s.dsect < g.nSect <= DWORD_MOD
  {}

  lemma RoomyNow(g: Geometry, chain: seq<nat>, size: nat, p: nat)
    requires Sized(g, chain, size)
    ensures Roomy(g, chain, size, p)
  {}

  lemma SameCluster(g: Geometry, s: State, cache: seq<Sector>, buf: Sector)
    requires AtCluster(g, s)
    ensures AtCluster(g, s.(cache := cache, buf := buf))
  {}

  /** The recorded size is no part of the cursor or of the buffer's state. */
  lemma ResizeKeepsCore(g: Geometry, fat: FatTable, img: seq<Sector>, s: State, winsect: nat, dirSect: nat, size: nat)
    requires Base(g, fat, img, s, winsect, dirSect) && Cursor(g, fat, s)
    ensures Base(g, fat, img, s.(fsize := size), winsect, dirSect) && Cursor(g, fat, s.(fsize := size))
  {}

  // ---------------------------------------------------------------- seeking

  /** The cursor `ofs` bytes into cluster `k`, and the sector the code computes for it. */
  lemma SeekTarget(g: Geometry, fat: FatTable, s: State, k: nat, ofs: nat)
    requires Shape(g, fat, s) && k < |s.chain| && s.clust == s.chain[k]
    requires 1 <= ofs <= ClusterBytes(g)
    ensures
      var p := Times(k, ClusterBytes(g)) + ofs;
      && p <= Times(|s.chain|, ClusterBytes(g)) && Quo(p - 1, ClusterBytes(g)) == k
      && Rem(p, g.ss) == Rem(ofs, g.ss)
      && (Rem(ofs, g.ss) != 0 ==>
            && Quo(p, g.ss) < |s.cache| && AtCluster(g, s.(fptr := p))
            && FileSec(g, s.chain, Quo(p, g.ss)) == Clust2Sect(g, s.clust) + Quo(ofs, g.ss))
  {
    hide FileSec, Times, Quo, Rem;
    var b := ClusterBytes(g);
    var p := Times(k, b) + ofs;
    TimesMono(k + 1, |s.chain|, b);
    TimesAdd(k, 1, b);
    TimesIsProduct(1, b);
    QuoUnique(k, ofs - 1, b);
    OffsetOfClusters(g, k, ofs);
    if Rem(ofs, g.ss) != 0 {
      if ofs == b {
        WholeCluster(g, ofs);
      }
      QuoUnique(k, ofs, b);
      CurrentSector(g, fat, s.(fptr := p));
    }
  }

  /** Sector and byte of an offset counted from a cluster start. */
  lemma OffsetOfClusters(g: Geometry, k: nat, ofs: nat)
    requires g.Valid() && ofs <= ClusterBytes(g)
    ensures Rem(Times(k, ClusterBytes(g)) + ofs, g.ss) == Rem(ofs, g.ss)
    ensures ofs < ClusterBytes(g) ==> Rem(Quo(Times(k, ClusterBytes(g)) + ofs, g.ss), g.csize) == Quo(ofs, g.ss)
  {
    hide Times, Quo, Rem;
    QuoRem(ofs, g.ss);
    var a, r := Quo(ofs, g.ss), Rem(ofs, g.ss);
    TimesAssoc(k, g.csize, g.ss);
    TimesAdd(Times(k, g.csize), a, g.ss);
    QuoUnique(Times(k, g.csize) + a, r, g.ss);
    if ofs < ClusterBytes(g) {
      QuoBelow(ofs, g.csize, g.ss);
      QuoUnique(k, a, g.csize);
    }
  }

  /** A whole cluster ends on a sector boundary. */
  lemma WholeCluster(g: Geometry, ofs: nat)
    requires g.Valid() && ofs == ClusterBytes(g)
    ensures Rem(ofs, g.ss) == 0
  {
    QuoUnique(g.csize, 0, g.ss);
  }

  /** A target within the size lies within the chain. */
  lemma SizedBound(g: Geometry, chain: seq<nat>, size: nat, longer: seq<nat>, target: nat)
    requires Sized(g, chain, size) && chain <= longer
    ensures target <= size ==> target <= Times(|longer|, ClusterBytes(g))
  {
    TimesMono(|chain|, |longer|, ClusterBytes(g));
  }

  /** After a walk that stopped `ofs` bytes into cluster `k`, a longer chain than before ends at the cursor. */
  lemma SeekSized(g: Geometry, chain0: seq<nat>, size: nat, chain: seq<nat>, k: nat, ofs: nat, target: nat)
    requires g.Valid() && Sized(g, chain0, size) && chain0 <= chain && k < |chain| && 1 <= ofs <= ClusterBytes(g)
    requires chain == chain0 || k == |chain| - 1
    ensures
      var p := Times(k, ClusterBytes(g)) + ofs;
      p <= Times(|chain|, ClusterBytes(g)) && Sized(g, chain, Max(size, p))
      && (k == |chain| - 1 && ofs == ClusterBytes(g) ==> p == Times(|chain|, ClusterBytes(g)))
  {
    var b := ClusterBytes(g);
    hide Times;
    TimesMono(k + 1, |chain|, b);
    TimesMono(|chain0|, |chain|, b);
    TimesAdd(k, 1, b);
    TimesIsProduct(1, b);
    if |chain0| > 0 {
      TimesMono(|chain0| - 1, |chain| - 1, b);
    }
  }

  lemma SeekToStart(g: Geometry, fat: FatTable, img: seq<Sector>, s: State, winsect: nat, dirSect: nat)
    requires Base(g, fat, img, s, winsect, dirSect)
    ensures Base(g, fat, img, s.(fptr := 0), winsect, dirSect)
    ensures Rem(0, g.ss) == 0
  {}

  /** At offset 0 the cursor knows nothing yet. */
  lemma StartCursor(g: Geometry, fat: FatTable, s: State)
    requires Shape(g, fat, s)
    ensures Shape(g, fat, s.(fptr := 0)) && Cursor(g, fat, s.(fptr := 0))
  {
    assert Rem(0, g.ss) == 0;
  }

  lemma ClusterHasSector(g: Geometry, fat: FatTable, s: State, k: nat)
    requires Shape(g, fat, s) && k < |s.chain| && s.clust == s.chain[k]
    ensures Clust2Sect(g, s.clust) != 0
  {
    SecInData(g, s.clust, 0);
  }

  /** Mid-sector, the sector of byte `fptr` is the one of byte `fptr - 1`, which the fast seek computes. */
  lemma MidSector(g: Geometry, fat: FatTable, s: State)
    requires Shape(g, fat, s) && s.fptr > 0 && Rem(s.fptr, g.ss) != 0 && ClusterBytes(g) > 0
    requires Quo(s.fptr - 1, ClusterBytes(g)) < |s.chain| && s.clust == s.chain[Quo(s.fptr - 1, ClusterBytes(g))]
    ensures Quo(s.fptr, g.ss) < |s.cache|
    ensures FileSec(g, s.chain, Quo(s.fptr, g.ss)) == Clust2Sect(g, s.clust) + Rem(Quo(s.fptr - 1, g.ss), g.csize)
  {
    hide Quo, Rem, Times, FileSec;
    var p := s.fptr;
    OffsetParts(g, p);
    OffsetParts(g, p - 1);
    PreviousByte(g, p);
    QuoUnique(Quo(p, g.ss), Rem(p, g.ss) - 1, g.ss);
    CurrentSector(g, fat, s);
  }

  lemma ResizeKeepsBase(g: Geometry, fat: FatTable, img: seq<Sector>, s: State, winsect: nat, dirSect: nat, size: nat)
    requires Base(g, fat, img, s, winsect, dirSect)
    ensures Base(g, fat, img, s.(fsize := size), winsect, dirSect)
  {}

  lemma CursorIgnoresDirty(g: Geometry, fat: FatTable, s: State)
    requires Shape(g, fat, s) && Cursor(g, fat, s)
    ensures Shape(g, fat, s.(dirty := false)) && Cursor(g, fat, s.(dirty := false))
  {}

  /** More than a cluster still to go, within the chain, means that there is a next cluster. */
  lemma FollowBound(g: Geometry, n: nat, k: nat, ofs: nat)
    requires ofs > ClusterBytes(g)
    ensures Times(k, ClusterBytes(g)) + ofs <= Times(n, ClusterBytes(g)) ==> k + 1 < n
  {
    var b := ClusterBytes(g);
    if n <= k + 1 {
      TimesMono(n, k + 1, b);
    }
  }

  /** A sized chain has as many clusters as its bytes take. */
  lemma SizedIsNeed(g: Geometry, chain: seq<nat>, size: nat)
    requires g.Valid() && Sized(g, chain, size)
    ensures |chain| == Need(ClusterBytes(g), size)
  {
    ClusterBytesPositive(g);
    if size > 0 {
      QuoBelow(size - 1, |chain|, ClusterBytes(g));
      QuoBelow(size - 1, |chain| - 1, ClusterBytes(g));
    }
  }

  lemma SizedAtEnd(g: Geometry, chain: seq<nat>, size: nat)
    requires Sized(g, chain, size)
    ensures size <= Times(|chain|, ClusterBytes(g))
  {}
}
