/** A file's bytes over its cluster chain: which sector holds which byte, and how sector updates act on the bytes. */
module FileData {
  import opened Arith
  import opened Bytes
  import opened Fat
  import opened Chains

  // ---------------------------------------------------------------- sectors

  /** Sector `j` of cluster `c`. */
  function Sec(g: Geometry, c: nat, j: nat): nat
    requires c >= 2
  {
    g.dataBase + Times(c - 2, g.csize) + j
  }

  /** clust2sect: first sector of a cluster, 0 for an invalid cluster number. */
  function Clust2Sect(g: Geometry, c: nat): (s: nat)
    ensures s > 0 ==> 2 <= c < g.nFatEnt && s == g.dataBase + Times(c - 2, g.csize)
  {
    if c < 2 || c >= g.nFatEnt then 0 else g.dataBase + Times(c - 2, g.csize)
  }

  /** The cluster to which a data sector belongs. */
  function ClusterOf(g: Geometry, s: nat): (c: nat)
    requires g.csize > 0 && g.dataBase <= s
  {
    2 + Quo(s - g.dataBase, g.csize)
  }

  lemma SecInData(g: Geometry, c: nat, j: nat)
    requires g.Valid() && 2 <= c < g.nFatEnt && j < g.csize
    ensures g.dataBase <= Sec(g, c, j) < g.nSect
    ensures ClusterOf(g, Sec(g, c, j)) == c
    ensures Sec(g, c, j) == Clust2Sect(g, c) + j && Clust2Sect(g, c) != 0
  {
    QuoUnique(c - 2, j, g.csize);
    TimesMono(c - 2, g.nFatEnt - 2, g.csize);
  }

  lemma SecInjective(g: Geometry, c: nat, j: nat, d: nat, k: nat)
    requires g.Valid() && 2 <= c < g.nFatEnt && j < g.csize && 2 <= d < g.nFatEnt && k < g.csize
    requires Sec(g, c, j) == Sec(g, d, k)
    ensures c == d && j == k
  {
    QuoUnique(c - 2, j, g.csize);
    QuoUnique(d - 2, k, g.csize);
  }

  ghost predicate InRange(g: Geometry, chain: seq<nat>) {
    forall i :: 0 <= i < |chain| ==> 2 <= chain[i] < g.nFatEnt
  }

  lemma HeadsInRange(g: Geometry, fat: FatTable, head: nat, chain: seq<nat>)
    requires |fat| == g.nFatEnt && Heads(fat, head, chain)
    ensures InRange(g, chain)
  {}

  /** Cluster size in bytes. */
  function ClusterBytes(g: Geometry): nat {
    Times(g.csize, g.ss)
  }

  /** The number of clusters of `b` bytes that `n` bytes take. */
  function Need(b: nat, n: nat): nat {
    if n == 0 || b == 0 then 0 else Quo(n - 1, b) + 1
  }

  /** The `q`-th sector of the file with this chain. */
  function FileSec(g: Geometry, chain: seq<nat>, q: nat): nat
    requires g.Valid() && InRange(g, chain) && q < Times(|chain|, g.csize)
  {
    QuoBelow(q, |chain|, g.csize);
    Sec(g, chain[Quo(q, g.csize)], Rem(q, g.csize))
  }

  lemma FileSecInData(g: Geometry, chain: seq<nat>, q: nat)
    requires g.Valid() && InRange(g, chain) && q < Times(|chain|, g.csize)
    ensures g.dataBase <= FileSec(g, chain, q) < g.nSect
    ensures ClusterOf(g, FileSec(g, chain, q)) in chain
  {
    QuoBelow(q, |chain|, g.csize);
    QuoRem(q, g.csize);
    SecInData(g, chain[Quo(q, g.csize)], Rem(q, g.csize));
  }

  /** The first cluster that can be used is number 2, at the start of the data area, and each takes `csize` sectors. */
  lemma FileSecIs(g: Geometry, chain: seq<nat>, k: nat, j: nat)
    requires g.Valid() && InRange(g, chain) && k < |chain| && j < g.csize
    ensures
      var q := k * g.csize + j;
      q < Times(|chain|, g.csize) && FileSec(g, chain, q) == g.dataBase + (chain[k] - 2) * g.csize + j
  {
    TimesIsProduct(k, g.csize);
    QuoUnique(k, j, g.csize);
    QuoBelow(Times(k, g.csize) + j, |chain|, g.csize);
    TimesIsProduct(chain[k] - 2, g.csize);
  }

  /** No two positions of a file share a sector. */
  lemma FileSecInjective(g: Geometry, fat: FatTable, chain: seq<nat>, q: nat, p: nat)
    requires g.Valid() && InRange(g, chain) && q < Times(|chain|, g.csize) && p < Times(|chain|, g.csize)
    requires IsChain(fat, chain) && FileSec(g, chain, q) == FileSec(g, chain, p)
    ensures q == p
  {
    ChainDistinct(fat, chain);
    QuoBelow(q, |chain|, g.csize);
    QuoBelow(p, |chain|, g.csize);
    QuoRem(q, g.csize);
    QuoRem(p, g.csize);
    SecInjective(g, chain[Quo(q, g.csize)], Rem(q, g.csize), chain[Quo(p, g.csize)], Rem(p, g.csize));
  }

  /** Sectors keep their place when a chain grows or is cut behind them. */
  lemma FileSecPrefix(g: Geometry, chain: seq<nat>, longer: seq<nat>, q: nat)
    requires g.Valid() && InRange(g, longer) && chain <= longer && q < Times(|chain|, g.csize)
    ensures InRange(g, chain) && q < Times(|longer|, g.csize)
    ensures FileSec(g, chain, q) == FileSec(g, longer, q)
  {
    TimesMono(|chain|, |longer|, g.csize);
    QuoBelow(q, |chain|, g.csize);
    forall i | 0 <= i < |chain|
      ensures 2 <= chain[i] < g.nFatEnt
    {
      assert chain[i] == longer[i];
    }
  }

  // ---------------------------------------------------------------- positions

  /** A byte offset in terms of cluster, sector in the cluster, and byte in the sector. */
  lemma OffsetParts(g: Geometry, p: nat)
    requires g.Valid()
    ensures
      var q, r := Quo(p, g.ss), Rem(p, g.ss);
      var k, c := Quo(q, g.csize), Rem(q, g.csize);
      && p == Times(q, g.ss) + r && r < g.ss
      && q == Times(k, g.csize) + c && c < g.csize
      && p == Times(k, ClusterBytes(g)) + Times(c, g.ss) + r
      && Times(c, g.ss) + r < ClusterBytes(g)
      && Quo(p, ClusterBytes(g)) == k && Rem(p, ClusterBytes(g)) == Times(c, g.ss) + r
  {
    hide Quo, Rem, Times;
    var q, r := Quo(p, g.ss), Rem(p, g.ss);
    var k, c := Quo(q, g.csize), Rem(q, g.csize);
    QuoRem(p, g.ss);
    QuoRem(q, g.csize);
    TimesAdd(Times(k, g.csize), c, g.ss);
    TimesAssoc(k, g.csize, g.ss);
    TimesMono(c, g.csize, g.ss);
    assert Times(c, g.ss) + r < ClusterBytes(g);
    QuoUnique(k, Times(c, g.ss) + r, ClusterBytes(g));
  }

  lemma ClusterBytesPositive(g: Geometry)
    requires g.Valid()
    ensures ClusterBytes(g) >= g.ss
  {
    TimesMono(1, g.csize, g.ss);
  }

  /** The cluster of byte `p - 1`: on a cluster boundary it is the one before, otherwise that of byte `p`. */
  lemma PreviousByte(g: Geometry, p: nat)
    requires g.Valid() && p > 0
    ensures ClusterBytes(g) > 0
    ensures Rem(p, ClusterBytes(g)) == 0 ==>
      Quo(p, ClusterBytes(g)) > 0 && Quo(p - 1, ClusterBytes(g)) == Quo(p, ClusterBytes(g)) - 1
    ensures Rem(p, ClusterBytes(g)) != 0 ==> Quo(p - 1, ClusterBytes(g)) == Quo(p, ClusterBytes(g))
  {
    ClusterBytesPositive(g);
    var b := ClusterBytes(g);
    QuoRem(p, b);
    var k := Quo(p, b);
    if Rem(p, b) == 0 {
      assert k > 0;
      assert Times(k, b) == Times(k - 1, b) + b;
      QuoUnique(k - 1, b - 1, b);
    } else {
      QuoUnique(k, Rem(p, b) - 1, b);
    }
  }

  // ---------------------------------------------------------------- bytes

  ghost predicate Sectors(ss: nat, cache: seq<Sector>) {
    ss > 0 && forall q :: 0 <= q < |cache| ==> |cache[q]| == ss
  }

  /** Byte `i` of consecutive sectors. */
  function ByteIn(ss: nat, cache: seq<Sector>, i: nat): Byte
    requires Sectors(ss, cache) && i < Times(|cache|, ss)
  {
    QuoBelow(i, |cache|, ss);
    QuoRem(i, ss);
    cache[Quo(i, ss)][Rem(i, ss)]
  }

  /** The first `n` bytes. */
  function Content(ss: nat, cache: seq<Sector>, n: nat): (s: seq<Byte>)
    requires Sectors(ss, cache) && n <= Times(|cache|, ss)
    ensures |s| == n
  {
    seq(n, i requires 0 <= i < n => ByteIn(ss, cache, i))
  }

  /** `d` written over `s` at `p`, extending it when it runs past the end. */
  function Patch(s: seq<Byte>, p: nat, d: seq<Byte>): seq<Byte>
    requires p <= |s|
  {
    s[..p] + d + (if p + |d| <= |s| then s[p + |d|..] else [])
  }

  function Max(a: nat, b: nat): nat {
    if a < b then b else a
  }

  /** Consecutive writes are one write. */
  lemma PatchTwice(s: seq<Byte>, p: nat, d: seq<Byte>, e: seq<Byte>)
    requires p <= |s|
    ensures p + |d| <= |Patch(s, p, d)|
    ensures Patch(Patch(s, p, d), p + |d|, e) == Patch(s, p, d + e)
  {}

  lemma WholePatch(s: seq<Byte>, d: seq<Byte>)
    requires |d| == |s|
    ensures Patch(s, 0, d) == d
  {}

  lemma EmptyPatch(s: seq<Byte>, all: seq<Byte>, p: nat)
    requires p <= |all|
    ensures Patch(s, 0, all[p..p]) == s
  {}

  lemma NoPatch(s: seq<Byte>, p: nat)
    requires p <= |s|
    ensures Patch(s, p, []) == s
  {}

  /** Delivering consecutive slices one after the other delivers their union. */
  lemma PatchSlices(s: seq<Byte>, all: seq<Byte>, a: nat, b: nat, c: nat)
    requires a <= b <= c <= |all| && c - a <= |s|
    ensures b - a <= |Patch(s, 0, all[a..b])|
    ensures Patch(Patch(s, 0, all[a..b]), b - a, all[b..c]) == Patch(s, 0, all[a..c])
  {
    PatchTwice(s, 0, all[a..b], all[b..c]);
    assert all[a..b] + all[b..c] == all[a..c];
  }

  lemma ContentPrefix(ss: nat, a: seq<Sector>, b: seq<Sector>, n: nat)
    requires Sectors(ss, b) && a <= b && n <= Times(|a|, ss)
    ensures Sectors(ss, a) && n <= Times(|b|, ss)
    ensures Content(ss, a, n) == Content(ss, b, n)
  {
    TimesMono(|a|, |b|, ss);
    forall q | 0 <= q < |a|
      ensures |a[q]| == ss
    {
      assert a[q] == b[q];
    }
    forall i: nat | i < n
      ensures ByteIn(ss, a, i) == ByteIn(ss, b, i)
    {
      QuoBelow(i, |a|, ss);
    }
  }

  lemma ContentShorter(ss: nat, a: seq<Sector>, n: nat, m: nat)
    requires Sectors(ss, a) && m <= n <= Times(|a|, ss)
    ensures Content(ss, a, n)[..m] == Content(ss, a, m)
  {}

  /** The content when the bytes from `p` on were replaced by `d`, up to the new end `m`. */
  lemma ContentPatched(ss: nat, a: seq<Sector>, b: seq<Sector>, n: nat, p: nat, d: seq<Byte>, m: nat)
    requires Sectors(ss, a) && Sectors(ss, b) && n <= Times(|a|, ss) && m <= Times(|b|, ss)
    requires p <= n && m == Max(n, p + |d|)
    requires forall i: nat :: i < n && !(p <= i < p + |d|) ==> ByteIn(ss, b, i) == ByteIn(ss, a, i)
    requires forall i: nat :: p <= i < p + |d| ==> ByteIn(ss, b, i) == d[i - p]
    ensures Content(ss, b, m) == Patch(Content(ss, a, n), p, d)
  {
    var s := Patch(Content(ss, a, n), p, d);
    forall i | 0 <= i < m
      ensures Content(ss, b, m)[i] == s[i]
    {
      if p <= i < p + |d| {
        assert s[i] == d[i - p];
      } else {
        assert ByteIn(ss, b, i) == ByteIn(ss, a, i);
      }
    }
  }

  /** Splicing `d` into sector `q` at offset `r` replaces the bytes from `q * ss + r` on. */
  function Splice(s: Sector, r: nat, d: seq<Byte>): Sector
    requires r + |d| <= |s|
  {
    s[..r] + d + s[r + |d|..]
  }

  lemma SpliceBytes(ss: nat, a: seq<Sector>, q: nat, r: nat, d: seq<Byte>, base: Sector)
    requires Sectors(ss, a) && q < |a| && r + |d| <= ss && |base| == ss
    ensures
      var b := a[q := Splice(base, r, d)];
      var p := Times(q, ss) + r;
      && Sectors(ss, b) && p + |d| <= Times(|a|, ss)
      && (forall i: nat :: i < Times(|a|, ss) && Quo(i, ss) != q ==> ByteIn(ss, b, i) == ByteIn(ss, a, i))
      && (forall i: nat :: i < Times(|a|, ss) && Quo(i, ss) == q && !(p <= i < p + |d|) ==>
            Rem(i, ss) < ss && ByteIn(ss, b, i) == base[Rem(i, ss)])
      && (forall i: nat :: p <= i < p + |d| ==> ByteIn(ss, b, i) == d[i - p])
  {
    var b := a[q := Splice(base, r, d)];
    var p := Times(q, ss) + r;
    TimesMono(q, |a|, ss);
    forall i: nat | i < Times(|a|, ss)
      ensures Quo(i, ss) != q ==> ByteIn(ss, b, i) == ByteIn(ss, a, i)
      ensures Quo(i, ss) == q ==> i == Times(q, ss) + Rem(i, ss) && Rem(i, ss) < ss
    {
      QuoRem(i, ss);
      QuoBelow(i, |a|, ss);
    }
    forall i: nat | p <= i < p + |d|
      ensures ByteIn(ss, b, i) == d[i - p]
    {
      QuoUnique(q, i - Times(q, ss), ss);
    }
  }

  /** A patch within a patch. */
  lemma PatchInside(s: seq<Byte>, p: nat, c: seq<Byte>, i: nat, d: seq<Byte>)
    requires p + |c| <= |s| && i + |d| <= |c|
    ensures Patch(Patch(s, p, c), p + i, d) == Patch(s, p, Patch(c, i, d))
  {}

  /** The bytes of whole consecutive sectors are a slice of the content. */
  lemma ContentSlice(ss: nat, cache: seq<Sector>, q: nat, n: nat, size: nat)
    requires Sectors(ss, cache) && q + n <= |cache| && size <= Times(|cache|, ss)
    requires Times(q, ss) + Times(n, ss) <= size
    ensures Sectors(ss, cache[q..q + n])
    ensures Content(ss, cache, size)[Times(q, ss)..Times(q, ss) + Times(n, ss)]
         == Content(ss, cache[q..q + n], Times(n, ss))
  {
    hide Quo, Rem, Times, ByteIn;
    var part := cache[q..q + n];
    var p := Times(q, ss);
    var t := Content(ss, cache, size)[p..p + Times(n, ss)];
    forall i | 0 <= i < Times(n, ss)
      ensures t[i] == Content(ss, part, Times(n, ss))[i]
    {
      SliceByte(ss, cache, part, q, i);
    }
  }

  lemma SliceByte(ss: nat, cache: seq<Sector>, part: seq<Sector>, q: nat, i: nat)
    requires Sectors(ss, cache) && Sectors(ss, part) && q + |part| <= |cache| && i < Times(|part|, ss)
    requires forall k :: 0 <= k < |part| ==> part[k] == cache[q + k]
    ensures Times(q, ss) + i < Times(|cache|, ss)
    ensures ByteIn(ss, cache, Times(q, ss) + i) == ByteIn(ss, part, i)
  {
    hide Quo, Rem, Times, ByteIn;
    ShiftedOffset(ss, q, |part|, i);
    SliceInside(ss, q, |part|, |cache|, i);
    ByteParts(ss, cache, Times(q, ss) + i);
    ByteParts(ss, part, i);
  }

  lemma SliceInside(ss: nat, q: nat, n: nat, m: nat, i: nat)
    requires q + n <= m && i < Times(n, ss)
    ensures Times(q, ss) + i < Times(m, ss)
  {
    TimesAdd(q, n, ss);
    TimesMono(q + n, m, ss);
  }

  lemma ByteParts(ss: nat, cache: seq<Sector>, i: nat)
    requires Sectors(ss, cache) && i < Times(|cache|, ss)
    ensures Quo(i, ss) < |cache| && Rem(i, ss) < ss
    ensures ByteIn(ss, cache, i) == cache[Quo(i, ss)][Rem(i, ss)]
  {
    QuoBelow(i, |cache|, ss);
    QuoRem(i, ss);
  }

  lemma ShiftedOffset(ss: nat, q: nat, n: nat, i: nat)
    requires ss > 0 && i < Times(n, ss)
    ensures Quo(i, ss) < n && Rem(i, ss) < ss
    ensures Quo(Times(q, ss) + i, ss) == q + Quo(i, ss)
    ensures Rem(Times(q, ss) + i, ss) == Rem(i, ss)
  {
    hide Quo, Rem, Times;
    QuoRem(i, ss);
    QuoBelow(i, n, ss);
    TimesAdd(q, Quo(i, ss), ss);
    QuoUnique(q + Quo(i, ss), Rem(i, ss), ss);
  }

  /** Part of one sector is a slice of the content. */
  lemma SectorSlice(ss: nat, cache: seq<Sector>, q: nat, r: nat, n: nat, size: nat)
    requires Sectors(ss, cache) && q < |cache| && r + n <= ss && size <= Times(|cache|, ss)
    requires Times(q, ss) + r + n <= size
    ensures Content(ss, cache, size)[Times(q, ss) + r..Times(q, ss) + r + n] == cache[q][r..r + n]
  {
    var s := Content(ss, cache, size);
    var p := Times(q, ss) + r;
    var t := s[p..p + n];
    forall i | 0 <= i < n
      ensures t[i] == cache[q][r..r + n][i]
    {
      QuoUnique(q, r + i, ss);
    }
  }

  /** Sectors of one cluster are consecutive on the medium. */
  lemma ConsecutiveSectors(g: Geometry, chain: seq<nat>, q: nat, j: nat)
    requires g.Valid() && InRange(g, chain) && q < Times(|chain|, g.csize)
    requires Rem(q, g.csize) + j < g.csize
    ensures q + j < Times(|chain|, g.csize)
    ensures FileSec(g, chain, q + j) == FileSec(g, chain, q) + j
  {
    QuoRem(q, g.csize);
    QuoBelow(q, |chain|, g.csize);
    var k := Quo(q, g.csize);
    QuoUnique(k, Rem(q, g.csize) + j, g.csize);
    QuoBelow(q + j, |chain|, g.csize);
  }

  lemma NoBytes(ss: nat, cache: seq<Sector>, s: seq<Byte>, off: nat)
    requires Sectors(ss, cache) && off <= |s|
    ensures Patch(s, off, Content(ss, cache, 0)) == s
  {}

  /** One more whole sector. */
  lemma AppendSector(ss: nat, cache: seq<Sector>, j: nat)
    requires Sectors(ss, cache) && j < |cache|
    ensures Times(j + 1, ss) == Times(j, ss) + ss <= Times(|cache|, ss)
    ensures Content(ss, cache, Times(j + 1, ss)) == Content(ss, cache, Times(j, ss)) + cache[j]
  {
    TimesMono(j + 1, |cache|, ss);
    var a := Content(ss, cache, Times(j + 1, ss));
    forall i | Times(j, ss) <= i < Times(j + 1, ss)
      ensures a[i] == cache[j][i - Times(j, ss)]
    {
      QuoUnique(j, i - Times(j, ss), ss);
    }
  }

  /** Sector `j` of the caller's data. */
  function Chunk(ss: nat, data: seq<Byte>, j: nat): (s: Sector)
    requires Times(j, ss) + ss <= |data|
    ensures |s| == ss
  {
    data[Times(j, ss)..Times(j, ss) + ss]
  }

  lemma ChunkInside(ss: nat, data: seq<Byte>, cc: nat, j: nat)
    requires |data| == Times(cc, ss) && j < cc
    ensures Times(j, ss) + ss == Times(j + 1, ss) <= |data|
    ensures data[..Times(j, ss)] + Chunk(ss, data, j) == data[..Times(j + 1, ss)]
  {
    TimesMono(j + 1, cc, ss);
  }
}
