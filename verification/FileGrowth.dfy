/** What create_chain answers for a file under the invariant, and what that does to the file and to everything else. */
module FileGrowth {
  import opened Arith
  import opened Bytes
  import opened Fat
  import opened Chains
  import opened FileData
  import opened FileState
  import opened LinkMap

  /** No cluster is free. */
  ghost predicate Full(fat: FatTable) {
    forall c :: 2 <= c < |fat| ==> fat[c] != 0
  }

  /** create_chain for the `k`-th cluster of a file: the existing one, a new one behind the tail, or none. */
  function Requested(g: Geometry, fat: FatTable, s: State, k: nat, last: nat): Allocation
    requires |fat| >= 3 && k <= |s.chain|
  {
    Create(fat, g.EndMark(), if k == 0 then 0 else s.chain[k - 1], last)
  }

  lemma FollowsChain(g: Geometry, fat: FatTable, s: State, k: nat, last: nat)
    requires Shape(g, fat, s) && 0 < k < |s.chain|
    ensures Requested(g, fat, s, k, last) == Allocation(fat, s.chain[k], false)
  {
    assert fat[s.chain[k - 1]] == s.chain[k];
  }

  /** At the end of the chain: no free cluster anywhere and nothing changes, or exactly one is appended. */
  lemma StretchesChain(g: Geometry, fat: FatTable, s: State, last: nat)
    requires Shape(g, fat, s)
    ensures
      var a := Requested(g, fat, s, |s.chain|, last);
      && Sound(a.fat)
      && (a.isNew ==>
            && 2 <= a.cluster < |fat| && fat[a.cluster] == 0 && a.cluster !in s.chain
            && IsChain(a.fat, s.chain + [a.cluster]) && OthersKept(fat, s.chain, a.fat)
            && forall d :: 2 <= d < |fat| && d !in s.chain && d != a.cluster ==> a.fat[d] == fat[d])
      && (!a.isNew ==> a == Allocation(fat, 0, false) && Full(fat))
  {
    var a := Requested(g, fat, s, |s.chain|, last);
    if s.chain == [] {
      PickIsFirstFree(fat, Hint(|fat|, last));
      if a.isNew {
        CreateStarts(fat, g.EndMark(), last);
        assert s.chain + [a.cluster] == [a.cluster];
      }
    } else {
      PickIsFirstFree(fat, s.chain[|s.chain| - 1]);
      if a.isNew {
        CreateAppends(fat, g.EndMark(), s.chain, last);
      }
    }
  }

  // ---------------------------------------------------------------- truncation

  /** The FAT after a chain was cut to its first `m` clusters. */
  function Cut(fat: FatTable, end: nat, chain: seq<nat>, m: nat): FatTable
    requires m <= |chain| && (forall i :: 0 <= i < |chain| ==> chain[i] < |fat|)
  {
    if m == |chain| then fat
    else if m == 0 then Clear(fat, chain)
    else Clear(fat[chain[m - 1] := end], chain[m..])
  }

  /** What cutting leaves: the front is the file's chain, exactly the rest is free, everything else is kept. */
  lemma CutShape(g: Geometry, fat: FatTable, s: State, m: nat)
    requires Shape(g, fat, s) && m <= |s.chain|
    ensures
      var fat' := Cut(fat, g.EndMark(), s.chain, m);
      && |fat'| == |fat| && Sound(fat')
      && Heads(fat', if m == 0 then 0 else s.sclust, s.chain[..m])
      && OthersKept(fat, s.chain, fat')
      && (forall c :: c in s.chain[m..] ==> 2 <= c < |fat| && fat'[c] == 0)
      && (forall c :: 2 <= c < |fat| && c !in s.chain ==> fat'[c] == fat[c])
      && (forall c :: c in s.chain[..m] ==> 2 <= c < |fat| && fat'[c] != 0)
  {
    hide Sectors;
    if s.chain == [] {
      CutNothing(g, fat, s);
    } else if m == |s.chain| {
      CutNothing(g, fat, s);
    } else if m == 0 {
      ChainAllocated(fat, s.chain);
    } else {
      CutRest(g, fat, s, m);
    }
  }

  lemma CutNothing(g: Geometry, fat: FatTable, s: State)
    requires Shape(g, fat, s)
    ensures s.chain[..|s.chain|] == s.chain && s.chain[|s.chain|..] == []
    ensures forall c :: c in s.chain ==> 2 <= c < |fat| && fat[c] != 0
  {
    if s.chain != [] {
      ChainAllocated(fat, s.chain);
    }
  }

  lemma CutRest(g: Geometry, fat: FatTable, s: State, m: nat)
    requires Shape(g, fat, s) && 0 < m < |s.chain|
    ensures
      var fat' := Cut(fat, g.EndMark(), s.chain, m);
      && Sound(fat') && IsChain(fat', s.chain[..m]) && OthersKept(fat, s.chain, fat')
      && (forall c :: c in s.chain[m..] ==> 2 <= c < |fat| && fat'[c] == 0)
      && (forall c :: 2 <= c < |fat| && c !in s.chain ==> fat'[c] == fat[c])
      && (forall c :: c in s.chain[..m] ==> 2 <= c < |fat| && fat'[c] != 0)
  {
    TruncateChain(fat, g.EndMark(), s.chain, m);
    ChainAllocated(Cut(fat, g.EndMark(), s.chain, m), s.chain[..m]);
  }

  /** A link map made before a cut is right for the clusters that are left, and leads to free clusters beyond them. */
  lemma StaleMap(g: Geometry, fat: FatTable, s: State, m: nat, t: seq<nat>, k: nat)
    requires Shape(g, fat, s) && m <= |s.chain| && TableOk(t, 1) && Clusters(t, 1) == s.chain && k < |s.chain|
    ensures
      var c := Lookup(t, 1, k);
      && c == s.chain[k] && (c in s.chain[..m] <==> k < m)
      && (k >= m ==> 2 <= c < |fat| && Cut(fat, g.EndMark(), s.chain, m)[c] == 0)
  {
    LookupIndexes(t, 1, k);
    CutShape(g, fat, s, m);
    ChainDistinct(fat, s.chain);
    hide Shape, Cut, TableOk, Clusters, Lookup;
    if k >= m {
      assert s.chain[m..][k - m] == s.chain[k];
    } else {
      assert s.chain[..m][k] == s.chain[k];
    }
  }

  /** Two clusters, 2 and 3, with their link map. Cut to one cluster, the next new file gets cluster 3, where the old
      map still leads. */
  lemma MapLeadsElsewhere()
    ensures
      var fat := [0xFF8, 0xFFF, 3, 0xFFF, 0];
      var t := [4, 2, 2, 0];
      && IsChain(fat, [2, 3]) && TableOk(t, 1) && Clusters(t, 1) == [2, 3] && Lookup(t, 1, 1) == 3
      && Create(Cut(fat, 0xFFF, [2, 3], 1), 0xFFF, 0, 2).cluster == 3
  {
    var fat := [0xFF8, 0xFFF, 3, 0xFFF, 0];
    var t := [4, 2, 2, 0];
    assert TableOk(t, 3) && Clusters(t, 3) == [];
    assert Run(2, 2) == [2, 3];
    var cut := Cut(fat, 0xFFF, [2, 3], 1);
    assert [2, 3][1..] == [3];
    assert cut == [0xFF8, 0xFFF, 0xFFF, 0, 0];
    assert FirstStop(cut, 2, 0) == 0;
  }

  lemma CutUntouched(
    g: Geometry, fat: FatTable, img: seq<Sector>, s: State, m: nat, img': seq<Sector>, sect: nat, b: Sector,
    flush: bool)
    requires Shape(g, fat, s) && m <= |s.chain| && ImageOk(g, img) && ImageOk(g, img') && SameOutsideFat(g, img, img')
    requires flush ==> g.dataBase <= sect < g.nSect && ClusterOf(g, sect) in s.chain && |b| == g.ss
    ensures Untouched(
      g, fat, img, s.chain, Cut(fat, g.EndMark(), s.chain, m), if flush then img'[sect := b] else img', s.chain[..m])
  {
    CutShape(g, fat, s, m);
    hide Cut, Heads, OthersKept, Sectors;
    forall c | 2 <= c < |fat|
      ensures Cut(fat, g.EndMark(), s.chain, m)[c] != 0 <==> (fat[c] != 0 && c !in s.chain) || c in s.chain[..m]
    {
      SplitMembership(s.chain, m, c);
    }
    forall c | c in s.chain[..m]
      ensures c in s.chain
    {
      SplitMembership(s.chain, m, c);
    }
  }

  lemma SplitMembership(s: seq<nat>, m: nat, c: nat)
    requires m <= |s|
    ensures c in s <==> c in s[..m] || c in s[m..]
  {
    assert s == s[..m] + s[m..];
  }

  /** The buffered sector, if the first `m` clusters do not contain it. */
  function Loose(g: Geometry, s: State, m: nat): nat
    requires m <= |s.chain| && g.Valid()
  {
    if s.dsect < g.dataBase || ClusterOf(g, s.dsect) in s.chain[..m] then s.loose else s.dsect
  }

  /** The state after truncation: the front of the chain, and a clean buffer. */
  function Truncated(g: Geometry, s: State, m: nat): State
    requires m <= |s.chain| && |s.cache| == Times(|s.chain|, g.csize) && g.Valid()
  {
    TimesMono(m, |s.chain|, g.csize);
    s.(chain := s.chain[..m], cache := s.cache[..Times(m, g.csize)], dirty := false,
       sclust := if m == 0 then 0 else s.sclust, loose := Loose(g, s, m))
  }

  lemma LooseMeans(g: Geometry, s: State, m: nat)
    requires m <= |s.chain| && g.Valid()
    ensures g.dataBase <= s.dsect ==> ClusterOf(g, s.dsect) in s.chain[..m] || s.dsect == Loose(g, s, m)
  {}

  /** The sectors that are left are on the medium once the buffer is. */
  lemma CutCached(
    g: Geometry, fat: FatTable, img: seq<Sector>, s: State, winsect: nat, dirSect: nat, img': seq<Sector>, m: nat,
    q: nat)
    requires Base(g, fat, img, s, winsect, dirSect) && m <= |s.chain| && q < Times(m, g.csize)
    requires ImageOk(g, img') && SameOutsideFat(g, img, img')
    ensures InRange(g, s.chain[..m]) && Times(m, g.csize) <= |s.cache| && (s.dirty ==> s.dsect < g.nSect)
    ensures FileSec(g, s.chain[..m], q) < g.nSect
    ensures s.cache[q] == (if s.dirty then img'[s.dsect := s.buf] else img')[FileSec(g, s.chain[..m], q)]
  {
    hide FileSec, Sound, Placed, Sectors;
    TimesMono(m, |s.chain|, g.csize);
    FileSecPrefix(g, s.chain[..m], s.chain, q);
    FileSecInData(g, s.chain, q);
    if s.dirty {
      FileSecInData(g, s.chain, s.bufAt);
      if FileSec(g, s.chain, q) == s.dsect {
        FileSecInjective(g, fat, s.chain, q, s.bufAt);
      }
    }
  }

  /** The buffer, written back if it was dirty, still is the sector it stands for. */
  lemma CutBuffered(
    g: Geometry, fat: FatTable, img: seq<Sector>, s: State, winsect: nat, dirSect: nat, img': seq<Sector>, m: nat)
    requires Base(g, fat, img, s, winsect, dirSect) && m <= |s.chain|
    requires ImageOk(g, img') && SameOutsideFat(g, img, img')
    ensures |s.buf| == g.ss
    ensures s.dirty ==> g.dataBase <= s.dsect < g.nSect && ClusterOf(g, s.dsect) in s.chain
    ensures s.dsect != 0 ==>
      && g.dataBase <= s.dsect < g.nSect
      && (if s.dirty then img'[s.dsect := s.buf] else img')[s.dsect] == s.buf
      && (ClusterOf(g, s.dsect) in s.chain[..m] || s.dsect == Loose(g, s, m))
  {
    hide FileSec, Sound, Cached, Placed, Loose;
    LooseMeans(g, s, m);
    if s.dirty {
      FileSecInData(g, s.chain, s.bufAt);
    }
  }

  /** The window stays off the chain, and the directory sector out of it. */
  lemma CutPlaced(
    g: Geometry, fat: FatTable, img: seq<Sector>, s: State, winsect: nat, dirSect: nat, winsect': nat, m: nat)
    requires Base(g, fat, img, s, winsect, dirSect) && m <= |s.chain|
    requires winsect' < g.dataBase || winsect' == winsect
    requires
      var fat' := Cut(fat, g.EndMark(), s.chain, m);
      |fat'| == |fat| && (forall c :: 2 <= c < |fat| && fat[c] != 0 && c !in s.chain ==> fat'[c] == fat[c])
    ensures Elsewhere(g, Cut(fat, g.EndMark(), s.chain, m), s.chain[..m], dirSect) && s.dsect != dirSect
    ensures winsect' < g.dataBase || winsect' == dirSect || (winsect' == s.home && OffChain(g, s.chain[..m], s.home))
    ensures s.dirty ==> g.dataBase <= s.dsect < g.nSect && ClusterOf(g, s.dsect) in s.chain && s.dsect != winsect'
  {
    hide Cut, FileSec, Cached, Sound;
    if s.dirty {
      FileSecInData(g, s.chain, s.bufAt);
    }
  }

  lemma CutKeepsBase(
    g: Geometry, fat: FatTable, img: seq<Sector>, s: State, winsect: nat, dirSect: nat,
    img': seq<Sector>, winsect': nat, m: nat)
    requires Base(g, fat, img, s, winsect, dirSect) && m <= |s.chain|
    requires ImageOk(g, img') && SameOutsideFat(g, img, img')
    requires winsect' < g.dataBase || winsect' == winsect
    ensures s.dirty ==> g.dataBase <= s.dsect < g.nSect && s.dsect != winsect' && ClusterOf(g, s.dsect) in s.chain
    ensures
      var img'' := if s.dirty then img'[s.dsect := s.buf] else img';
      Base(g, Cut(fat, g.EndMark(), s.chain, m), img'', Truncated(g, s, m), winsect', dirSect)
  {
    hide Cut, FileSec, Sound, Loose, Elsewhere, OffChain, ClusterOf;
    CutShape(g, fat, s, m);
    CutBuffered(g, fat, img, s, winsect, dirSect, img', m);
    CutPlaced(g, fat, img, s, winsect, dirSect, winsect', m);
    TimesMono(m, |s.chain|, g.csize);
    var img'' := if s.dirty then img'[s.dsect := s.buf] else img';
    forall q: nat | q < Times(m, g.csize)
      ensures InRange(g, s.chain[..m]) && FileSec(g, s.chain[..m], q) < g.nSect
      ensures s.cache[q] == img''[FileSec(g, s.chain[..m], q)]
    {
      CutCached(g, fat, img, s, winsect, dirSect, img', m, q);
    }
  }

  /** The number of clusters that the bytes before the cursor need. */
  function Kept(g: Geometry, s: State): nat {
    Need(ClusterBytes(g), s.fptr)
  }

  /** Truncation at the cursor keeps the cursor invariant, the bytes before the cursor, and the size relation. */
  lemma TruncateCursor(g: Geometry, fat: FatTable, s: State)
    requires Shape(g, fat, s) && Cursor(g, fat, s) && s.fptr < s.fsize && Sized(g, s.chain, s.fsize)
    ensures
      var m := Kept(g, s);
      && m <= |s.chain| && s.chain != [] && (m == 0 <==> s.fptr == 0) && (m > 0 ==> s.clust == s.chain[m - 1])
      && Sized(g, s.chain[..m], s.fptr)
      && Times(m, g.csize) <= |s.cache| && s.fptr <= Times(Times(m, g.csize), g.ss)
      && s.fsize <= Times(|s.cache|, g.ss)
      && (Rem(s.fptr, g.ss) != 0 ==>
            && InRange(g, s.chain[..m]) && Quo(s.fptr, g.ss) < Times(|s.chain[..m]|, g.csize)
            && s.dsect == FileSec(g, s.chain[..m], Quo(s.fptr, g.ss)))
      && Sectors(g.ss, s.cache[..Times(m, g.csize)])
      && Content(g.ss, s.cache[..Times(m, g.csize)], s.fptr) == Content(g.ss, s.cache, s.fptr)
  {
    hide Quo, Rem, Times, FileSec, Content;
    ClusterBytesPositive(g);
    var b := ClusterBytes(g);
    var m := Kept(g, s);
    TimesIsProduct(0, b);
    TimesIsProduct(0, g.csize);
    TimesIsProduct(0, g.ss);
    TimesMono(m, |s.chain|, g.csize);
    TimesAssoc(m, g.csize, g.ss);
    if m > 0 {
      QuoRem(s.fptr - 1, b);
      TimesAdd(m - 1, 1, b);
      TimesIsProduct(1, b);
      if Rem(s.fptr, g.ss) != 0 {
        QuoBelow(s.fptr, Times(m, g.csize), g.ss);
        if s.fptr == Times(m, b) {
          QuoUnique(Times(m, g.csize), 0, g.ss);
        }
        FileSecPrefix(g, s.chain[..m], s.chain, Quo(s.fptr, g.ss));
      }
    } else {
      QuoUnique(0, 0, g.ss);
    }
    CacheBytes(g, fat, s);
    ContentPrefix(g.ss, s.cache[..Times(m, g.csize)], s.cache, s.fptr);
  }
}
