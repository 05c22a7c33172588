/** Numbered short names (gen_numname): the alias dir_register makes for a name that does not fit 8.3. */
module NumName {
  import opened Bytes
  import opened Lfn
  import opened Directory
  import opened Registry

  const SPACE: Byte := 0x20
  const TILDE: Byte := 0x7E

  /** First byte of a double-byte character in code page 936. */
  predicate IsDbcs1(c: Byte) {
    0x81 <= c <= 0xFE
  }

  function HexDigit(d: nat): (r: Byte)
    requires d < 16
    ensures r as char == "0123456789ABCDEF"[d]
  {
    if d < 10 then 0x30 + d else 0x37 + d
  }

  /** A number in upper-case hexadecimal, without leading zeros. */
  function Digits(n: nat): (s: seq<Byte>)
    ensures |s| >= 1
  {
    if n < 16 then [HexDigit(n)] else Digits(n / 16) + [HexDigit(n % 16)]
  }

  function Flip(y: nat, b: nat): nat
    requires b > 0
  {
    if y / b % 2 == 1 then y - b else y + b
  }

  /** Exclusive or with the polynomial 0x1021. */
  function Reduce(x: nat): (r: nat)
    ensures x < 0x1_0000 ==> r < 0x1_0000
  {
    Flip(Flip(Flip(x, 0x1000), 0x20), 1)
  }

  /** One bit of the hash: shift it in and reduce by the polynomial 0x11021. */
  function HashBit(sr: nat, bit: nat): (r: nat)
    requires sr < 0x1_0000 && bit < 2
    ensures r < 0x1_0000
  {
    var x := 2 * sr + bit;
    if x >= 0x1_0000 then Reduce(x - 0x1_0000) else x
  }

  /** The bits of a unit, lowest first. */
  function HashUnit(sr: nat, wc: nat, n: nat): (r: nat)
    requires sr < 0x1_0000
    ensures r < 0x1_0000
    decreases n
  {
    if n == 0 then sr else HashUnit(HashBit(sr, wc % 2), wc / 2, n - 1)
  }

  function HashName(sr: nat, name: Name): (r: nat)
    requires sr < 0x1_0000
    ensures r < 0x1_0000
    decreases name
  {
    if name == [] then sr else HashName(HashUnit(sr, name[0], 16), name[1..])
  }

  /** The number in the alias: after five collisions, a hash of the long name. */
  function Number(name: Name, n: nat): (r: nat)
    requires n < 0x1_0000
    ensures r < 0x1_0000 && (n <= 5 ==> r == n) && (n >= 6 ==> r == HashName(n, name))
  {
    if n > 5 then HashName(n, name) else n
  }

  lemma FlipBit(q: nat, b: nat, w: nat, r: nat)
    requires b < 2 && r < w && (w == 0x1000 || w == 0x20 || w == 1)
    ensures Flip(2 * w * q + w * b + r, w) == 2 * w * q + w * (1 - b) + r
  {}

  /** The polynomial inverts bits 12, 5 and 0 when a bit is shifted out at the top. */
  lemma HashBitMeans(sr: nat, bit: nat, a: nat, b: nat, c: nat, d: nat, e: nat, f: nat)
    requires sr < 0x1_0000 && bit < 2 && b < 2 && c < 0x40 && d < 2 && e < 0x10 && f < 2
    requires 2 * sr + bit == 0x1_0000 + 0x2000 * a + 0x1000 * b + 0x40 * c + 0x20 * d + 2 * e + f
    ensures HashBit(sr, bit) == 0x2000 * a + 0x1000 * (1 - b) + 0x40 * c + 0x20 * (1 - d) + 2 * e + (1 - f)
  {
    hide Flip;
    FlipBit(a, b, 0x1000, 0x40 * c + 0x20 * d + 2 * e + f);
    FlipBit(0x80 * a + 0x40 * (1 - b) + c, d, 0x20, 2 * e + f);
    FlipBit(0x1000 * a + 0x800 * (1 - b) + 0x20 * c + 0x10 * (1 - d) + e, f, 1, 0);
  }

  /** Without a bit at the top the register is shifted. */
  lemma HashBitShifts(sr: nat, bit: nat)
    requires bit < 2 && sr < 0x8000
    ensures HashBit(sr, bit) == 2 * sr + bit
  {}

  function Doubled(x: nat, n: nat): nat
    decreases n
  {
    if n == 0 then x else Doubled(2 * x, n - 1)
  }

  lemma {:induction false} DoubledGrows(x: nat, n: nat)
    ensures Doubled(x, n) >= x
    decreases n
  {
    if n == 0 {
    } else {
      DoubledGrows(2 * x, n - 1);
    }
  }

  lemma FourDoubled(x: nat, n: nat)
    ensures Doubled(x, n + 4) == Doubled(16 * x, n)
  {
    assert Doubled(x, n + 4) == Doubled(2 * x, n + 3) == Doubled(4 * x, n + 2) == Doubled(8 * x, n + 1);
  }

  lemma ThreeDoubled(x: nat)
    ensures Doubled(x, 3) == 8 * x
  {
    assert Doubled(x, 3) == Doubled(2 * x, 2) == Doubled(4 * x, 1) == Doubled(8 * x, 0);
  }

  lemma {:induction false} NothingDoubled(n: nat)
    ensures Doubled(0, n) == 0
  {
    if n == 0 {
    } else {
      NothingDoubled(n - 1);
    }
  }

  lemma {:induction false} ZerosShift(sr: nat, n: nat)
    requires Doubled(sr, n) < 0x1_0000
    ensures sr < 0x1_0000 && HashUnit(sr, 0, n) == Doubled(sr, n)
    decreases n
  {
    DoubledGrows(sr, n);
    if n == 0 {
    } else {
      DoubledGrows(2 * sr, n - 1);
      HashBitShifts(sr, 0);
      ZerosShift(2 * sr, n - 1);
    }
  }

  lemma {:induction false} UnitSplits(sr: nat, n: nat, m: nat)
    requires sr < 0x1_0000
    ensures HashUnit(sr, 0, n + m) == HashUnit(HashUnit(sr, 0, n), 0, m)
    decreases n
  {
    hide HashBit;
    if n == 0 {
    } else {
      UnitSplits(HashBit(sr, 0), n - 1, m);
    }
  }

  /** Units are shifted in one after the other, 16 bits each, the lowest bit first. */
  lemma HashShifts()
    ensures HashName(0, [0, 1]) == 0x8000 && HashName(1, [0]) == 0x1021
  {
    hide HashBit, HashUnit;
    var n: Name := [0, 1];
    var m: Name := [0];
    assert n[1..] == [1] && n[1..][1..] == [] && m[1..] == [];
    FourDoubled(1, 11);
    FourDoubled(0x10, 7);
    FourDoubled(0x100, 3);
    ThreeDoubled(0x1000);
    NothingDoubled(16);
    ZerosShift(1, 15);
    ZerosShift(0, 16);
    FirstBit(0, 1, 16);
    UnitSplits(1, 15, 1);
    HashBitMeans(0x8000, 0, 0, 0, 0, 0, 0, 0);
    FirstBit(0x8000, 0, 1);
    assert HashName(0, n) == HashName(0, n[1..]) && HashName(0, n[1..]) == HashName(0x8000, []);
    assert HashName(1, m) == HashName(0x1021, m[1..]);
  }

  lemma FirstBit(sr: nat, wc: nat, n: nat)
    requires sr < 0x1_0000 && wc < 2 && n > 0
    ensures HashUnit(sr, wc, n) == HashUnit(HashBit(sr, wc), 0, n - 1)
    ensures n == 1 ==> HashUnit(sr, wc, n) == HashBit(sr, wc)
    ensures 2 * sr + wc < 0x1_0000 ==> HashBit(sr, wc) == 2 * sr + wc
  {}

  /** How many bytes of the body are kept in front of a suffix that begins at `i`. */
  function Kept(src: Sector, i: nat, j: nat): (k: nat)
    requires |src| == 11 && i <= 8 && j <= i
    ensures j <= k <= i
    decreases i - j
  {
    if j < i && src[j] != SPACE then
      if IsDbcs1(src[j]) then (if j + 1 >= i then j else Kept(src, i, j + 2))
      else Kept(src, i, j + 1)
    else j
  }

  /** `k` is where a character begins if one begins at `j`; bytes from 0x81 to 0xFE begin a double-byte one. */
  predicate Begins(src: Sector, j: nat, k: nat)
    requires k <= |src|
    decreases k - j
  {
    if j >= k then j == k else Begins(src, j + (if 0x81 <= src[j] <= 0xFE then 2 else 1), k)
  }

  /** The part that is kept ends where a character begins, at the first space or where the next character does not fit
      any more. */
  lemma {:induction false} KeptMeans(src: Sector, i: nat, j: nat)
    requires |src| == 11 && i <= 8 && j <= i
    ensures
      var k := Kept(src, i, j);
      && Begins(src, j, k) && (forall p :: j <= p < k && Begins(src, j, p) ==> src[p] as char != ' ')
      && (k == i || src[k] as char == ' ' || (k == i - 1 && 0x81 <= src[k] <= 0xFE))
    decreases i - j
  {
    var k := Kept(src, i, j);
    if j >= i || src[j] == SPACE {
    } else {
      var n := if IsDbcs1(src[j]) then 2 else 1;
      if n == 1 || j + 1 < i {
        KeptMeans(src, i, j + n);
        forall p | j <= p < k && Begins(src, j, p)
          ensures src[p] as char != ' '
        {
          assert p > j ==> Begins(src, j + n, p);
        }
      }
    }
  }

  /** Of a body in ASCII everything in front of its first space is kept, as far as the suffix leaves room. */
  lemma {:induction false} KeptPlain(src: Sector, i: nat, j: nat)
    requires |src| == 11 && i <= 8 && j <= i && forall p :: 0 <= p < 8 ==> src[p] < 0x80
    ensures
      var k := Kept(src, i, j);
      (forall p :: j <= p < k ==> src[p] as char != ' ') && (k == i || src[k] as char == ' ')
    decreases i - j
  {
    if j >= i || src[j] == SPACE {
    } else {
      KeptPlain(src, i, j + 1);
    }
  }

  /** The first five aliases of a name: the body cut to six characters, a tilde, the number, and the extension. */
  lemma NumberedPlain(src: Sector, name: Name, n: nat, k: nat)
    requires |src| == 11 && (forall p :: 0 <= p < 8 ==> src[p] < 0x80) && 1 <= n <= 5
    requires k <= 6 && (forall p :: 0 <= p < k ==> src[p] as char != ' ') && (k == 6 || src[k] as char == ' ')
    ensures
      var r := Numbered(src, name, n);
      && r[..k] == src[..k] && r[k] as char == '~' && r[k + 1] as char == "012345"[n]
      && (forall p :: k + 2 <= p < 8 ==> r[p] as char == ' ') && r[8..] == src[8..]
  {
    KeptPlain(src, 6, 0);
    assert Kept(src, 6, 0) == k;
    hide Kept;
    var d := Digits(n);
    assert d == [HexDigit(n)];
    var r := Joined(src, k, [TILDE] + d);
    assert r == src[..k] + [TILDE, HexDigit(n)] + Spaces(6 - k) + src[8..];
  }

  /** What a numeral means in base 16. */
  function Value(s: seq<Byte>): nat {
    if s == [] then 0
    else
      var c := s[|s| - 1] as char;
      var d := if '0' <= c <= '9' then (c - '0') as nat else if 'A' <= c <= 'F' then 10 + (c - 'A') as nat else 0;
      16 * Value(s[..|s| - 1]) + d
  }

  /** The digits are the numeral of the number, without leading zeros. */
  lemma {:induction false} DigitsMean(n: nat)
    ensures Value(Digits(n)) == n && (n > 0 ==> Digits(n)[0] as char != '0')
  {
    if n < 16 {
      assert [HexDigit(n)][..0] == [];
    } else {
      DigitsMean(n / 16);
      var d := Digits(n);
      assert d[..|d| - 1] == Digits(n / 16);
    }
  }

  /** The alias: kept body, tilde, number, padding, extension. */
  function Numbered(src: Sector, name: Name, n: nat): (r: Sector)
    requires |src| == 11 && n < 0x1_0000
    ensures |r| == 11 && r[8..] == src[8..]
  {
    var d := Digits(Number(name, n));
    DigitsShort(Number(name, n));
    var k := Kept(src, 7 - |d|, 0);
    Joined(src, k, [TILDE] + d)
  }

  /** The body cut after `k` bytes, a suffix, padding, and the extension. */
  function Joined(src: Sector, k: nat, sfx: seq<Byte>): (r: Sector)
    requires |src| == 11 && k + |sfx| <= 8
    ensures |r| == 11 && r[8..] == src[8..]
  {
    src[..k] + sfx + Spaces(8 - |sfx| - k) + src[8..]
  }

  function Spaces(n: nat): (s: seq<Byte>)
    ensures |s| == n && forall i :: 0 <= i < n ==> s[i] == SPACE
  {
    seq(n, i => SPACE)
  }

  lemma DigitsShort(n: nat)
    requires n < 0x1_0000
    ensures |Digits(n)| <= 4
  {
    hide Digits;
    DigitsStep(n);
    DigitsStep(n / 16);
    DigitsStep(n / 16 / 16);
    DigitsStep(n / 16 / 16 / 16);
  }

  lemma DigitsStep(n: nat)
    ensures |Digits(n)| == if n < 16 then 1 else |Digits(n / 16)| + 1
  {}

  lemma {:induction false} DigitsAreHex(n: nat)
    ensures forall i :: 0 <= i < |Digits(n)| ==> 0x30 <= Digits(n)[i] <= 0x46
  {
    if n < 16 {
    } else {
      DigitsAreHex(n / 16);
    }
  }

  lemma {:induction false} DigitsInjective(a: nat, b: nat)
    requires Digits(a) == Digits(b)
    ensures a == b
  {
    var x, y := Digits(a), Digits(b);
    assert x[|x| - 1] == HexDigit(a % 16) && y[|y| - 1] == HexDigit(b % 16);
    if a < 16 || b < 16 {
    } else {
      assert x[..|x| - 1] == Digits(a / 16) && y[..|y| - 1] == Digits(b / 16);
      DigitsInjective(a / 16, b / 16);
    }
  }

  /** The body of `r` ends in a tilde at `k`, the hexadecimal digits `d`, and spaces. */
  ghost predicate Suffixed(r: Sector, k: nat, d: seq<Byte>) {
    && |r| == 11 && k + |d| < 8 && r[k] == TILDE && r[k + 1..k + 1 + |d|] == d
    && (forall i :: k < i <= k + |d| ==> 0x30 <= r[i] <= 0x46)
    && (forall i :: k + |d| < i < 8 ==> r[i] == SPACE)
  }

  /** Such a suffix is unique. */
  lemma SuffixUnique(r: Sector, k: nat, d: seq<Byte>, k': nat, d': seq<Byte>)
    requires Suffixed(r, k, d) && Suffixed(r, k', d')
    ensures d == d'
  {
    assert k == k';
    var i := k + |d| + 1;
    var b := if i < 8 then r[i] else SPACE;
    var i' := k' + |d'| + 1;
    var b' := if i' < 8 then r[i'] else SPACE;
    assert |d| == |d'|;
  }

  lemma JoinedSuffix(src: Sector, k: nat, d: seq<Byte>)
    requires |src| == 11 && k + |d| < 8 && forall i :: 0 <= i < |d| ==> 0x30 <= d[i] <= 0x46
    ensures Suffixed(Joined(src, k, [TILDE] + d), k, d)
  {
    var r := Joined(src, k, [TILDE] + d);
    forall i | k <= i < 8
      ensures r[i] == if i == k then TILDE else if i <= k + |d| then d[i - k - 1] else SPACE
    {
      assert r[i] == (([TILDE] + d) + Spaces(7 - |d| - k))[i - k];
    }
  }

  lemma AliasSuffixed(src: Sector, name: Name, n: nat)
    requires |src| == 11 && n < 0x1_0000
    ensures exists k: nat :: Suffixed(Numbered(src, name, n), k, Digits(Number(name, n)))
  {
    DigitsShort(Number(name, n));
    DigitsAreHex(Number(name, n));
    hide Digits, Kept, Number, Suffixed;
    var d := Digits(Number(name, n));
    var k := Kept(src, 7 - |d|, 0);
    JoinedSuffix(src, k, d);
    assert Suffixed(Numbered(src, name, n), k, d);
  }

  /** Different numbers give different aliases. */
  lemma AliasesDiffer(src: Sector, src': Sector, name: Name, name': Name, n: nat, n': nat)
    requires |src| == 11 && |src'| == 11 && n < 0x1_0000 && n' < 0x1_0000
    requires Number(name, n) != Number(name', n')
    ensures Numbered(src, name, n) != Numbered(src', name', n')
  {
    hide Number, Numbered, Suffixed, Digits;
    AliasSuffixed(src, name, n);
    AliasSuffixed(src', name', n');
    var d, d' := Digits(Number(name, n)), Digits(Number(name', n'));
    var k: nat :| Suffixed(Numbered(src, name, n), k, d);
    var k': nat :| Suffixed(Numbered(src', name', n'), k', d');
    if Numbered(src, name, n) == Numbered(src', name', n') {
      SuffixUnique(Numbered(src, name, n), k, d, k', d');
      DigitsInjective(Number(name, n), Number(name', n'));
      assert false;
    }
  }

  // ---------------------------------------------------------------- exhaustion

  /** Flipping a bit twice changes nothing. */
  lemma FlipHighTwice(x: nat)
    ensures Flip(Flip(x, 0x1000), 0x1000) == x
  {}

  lemma FlipMiddleTwice(x: nat)
    ensures Flip(Flip(x, 0x20), 0x20) == x
  {}

  lemma FlipLowTwice(x: nat)
    ensures Flip(Flip(x, 1), 1) == x
  {}

  /** Of the three bits of the polynomial only the last one changes the parity. */
  lemma FlipParity(x: nat)
    ensures Flip(x, 0x1000) % 2 == x % 2 && Flip(x, 0x20) % 2 == x % 2 && Flip(x, 1) % 2 != x % 2
  {}

  lemma ReduceInjective(x: nat, y: nat)
    requires Reduce(x) == Reduce(y)
    ensures x == y
  {
    hide Flip;
    FlipLowTwice(Flip(Flip(x, 0x1000), 0x20));
    FlipLowTwice(Flip(Flip(y, 0x1000), 0x20));
    FlipMiddleTwice(Flip(x, 0x1000));
    FlipMiddleTwice(Flip(y, 0x1000));
    FlipHighTwice(x);
    FlipHighTwice(y);
  }

  lemma ReduceParity(x: nat)
    ensures Reduce(x) % 2 != x % 2
  {
    hide Flip;
    FlipParity(x);
    FlipParity(Flip(x, 0x1000));
    FlipParity(Flip(Flip(x, 0x1000), 0x20));
  }

  /** The hash is computed by an invertible shift register. */
  lemma HashBitInjective(a: nat, b: nat, bit: nat)
    requires a < 0x1_0000 && b < 0x1_0000 && bit < 2 && HashBit(a, bit) == HashBit(b, bit)
    ensures a == b
  {
    hide Reduce;
    var x, y := 2 * a + bit, 2 * b + bit;
    if x >= 0x1_0000 && y >= 0x1_0000 {
      ReduceInjective(x - 0x1_0000, y - 0x1_0000);
    } else if x >= 0x1_0000 {
      ReduceParity(x - 0x1_0000);
      OddEven(a - 0x8000, b, bit);
    } else if y >= 0x1_0000 {
      ReduceParity(y - 0x1_0000);
      OddEven(b - 0x8000, a, bit);
    }
  }

  lemma OddEven(a: nat, b: nat, bit: nat)
    requires bit < 2
    ensures (2 * a + bit) % 2 == (2 * b + bit) % 2
  {}

  lemma {:induction false} HashUnitInjective(a: nat, b: nat, wc: nat, n: nat)
    requires a < 0x1_0000 && b < 0x1_0000 && HashUnit(a, wc, n) == HashUnit(b, wc, n)
    ensures a == b
    decreases n
  {
    hide HashBit;
    if n == 0 {
    } else {
      HashUnitInjective(HashBit(a, wc % 2), HashBit(b, wc % 2), wc / 2, n - 1);
      HashBitInjective(a, b, wc % 2);
    }
  }

  /** Different collision counts hash to different numbers. */
  lemma {:induction false} HashNameInjective(a: nat, b: nat, name: Name)
    requires a < 0x1_0000 && b < 0x1_0000 && HashName(a, name) == HashName(b, name)
    ensures a == b
    decreases name
  {
    hide HashUnit;
    if name == [] {
    } else {
      HashNameInjective(HashUnit(a, name[0], 16), HashUnit(b, name[0], 16), name[1..]);
      HashUnitInjective(a, b, name[0], 16);
    }
  }

  /** The aliases from the sixth on are pairwise different. */
  lemma HashedDiffer(src: Sector, name: Name, n: nat, m: nat)
    requires |src| == 11 && 5 < n < m < 0x1_0000
    ensures Numbered(src, name, n) != Numbered(src, name, m)
  {
    hide Numbered, HashName;
    if HashName(n, name) == HashName(m, name) {
      HashNameInjective(n, m, name);
    }
    AliasesDiffer(src, src, name, name, n, m);
  }

  /** Each of the 99 aliases is the short name of some object. */
  ghost predicate AliasesTaken(up: Folding, t: Table, fn: Sector, name: Name)
    requires |fn| == 11
  {
    forall n: nat {:trigger Numbered(fn, name, n)} ::
      1 <= n < 100 ==> Find(up, t, Query(None, name, Numbered(fn, name, n), false)).Some?
  }

  /** The object whose short name is alias `n`. */
  lemma AliasOwner(up: Folding, t: Table, items: seq<Item>, fn: Sector, name: Name, n: nat) returns (i: nat)
    requires Folds(up) && Represents(t, items) && |fn| == 11 && 1 <= n < 100
    requires AliasesTaken(up, t, fn, name)
    ensures i < |items| && items[i].Object? && items[i].sfn[..11] == Numbered(fn, name, n)
  {
    hide Find, Represents, Numbered, Lookup;
    var q := Query(None, name, Numbered(fn, name, n), false);
    FindIsLookup(up, t, items, q);
    MissMeans(up, items, q, 0);
    i :| 0 <= i < |items| && (LongMatch(up, items[i], q) || ShortMatch(items[i], q));
  }

  /** The objects of a directory, by position. */
  ghost function Objects(items: seq<Item>): set<nat> {
    set i: nat | i < |items| && items[i].Object?
  }

  /** dir_register runs out of aliases only in a directory of at least 94 objects. */
  lemma TakenNeedsMany(up: Folding, t: Table, items: seq<Item>, fn: Sector, name: Name)
    requires Folds(up) && Represents(t, items) && |fn| == 11 && AliasesTaken(up, t, fn, name)
    ensures |Objects(items)| >= 94
  {
    hide Represents, Numbered, AliasesTaken;
    var owners: set<nat> := {};
    for m := 6 to 100
      invariant |owners| == m - 6
      invariant forall i :: i in owners ==> OwnsAlias(items, fn, name, i, m)
    {
      var i := AliasOwner(up, t, items, fn, name, m);
      if OwnsAlias(items, fn, name, i, m) {
        var n: nat :| 6 <= n < m && items[i].sfn[..11] == Numbered(fn, name, n);
        HashedDiffer(fn, name, n, m);
        assert false;
      }
      owners := owners + {i};
    }
    SubsetSize(owners, Objects(items));
  }

  /** Object `i` has one of the aliases from the sixth to the one before `m`. */
  ghost predicate OwnsAlias(items: seq<Item>, fn: Sector, name: Name, i: nat, m: nat)
    requires |fn| == 11 && m <= 0x1_0000
  {
    i < |items| && items[i].Object? && exists n: nat :: 6 <= n < m && items[i].sfn[..11] == Numbered(fn, name, n)
  }

  lemma {:induction false} SubsetSize(s: set<nat>, u: set<nat>)
    requires s <= u
    ensures |s| <= |u|
  {
    if s == {} {
    } else {
      var x :| x in s;
      SubsetSize(s - {x}, u - {x});
    }
  }

  /** The first byte is the first byte of the source name, or the tilde when that is a space. */
  lemma NumberedStart(src: Sector, name: Name, n: nat)
    requires |src| == 11 && n < 0x1_0000
    ensures Numbered(src, name, n)[0] == if src[0] == SPACE then TILDE else src[0]
  {
    DigitsShort(Number(name, n));
    hide Digits, Number;
    assert Kept(src, 7 - |Digits(Number(name, n))|, 0) > 0 <==> src[0] != SPACE;
  }

  method GenNumname(src: Sector, lfn: seq<Unit>, ghost name: Name, n: nat) returns (dst: Sector)
    requires |src| == 11 && n < 0x1_0000 && Holds(lfn, name)
    ensures dst == Numbered(src, name, n)
  {
    hide Digits, HashName, Kept, Joined, Holds;
    var num: nat := n;
    if n > 5 {
      num := HashLfn(lfn, name, n);
    }
    DigitsShort(num);
    var sfx := Suffix(num);
    var j := KeepBody(src, 8 - |sfx|);
    dst := AppendSuffix(src, j, sfx);
  }

  /** The loop that looks for the end of the body, not splitting a double-byte character. */
  method KeepBody(src: Sector, i: nat) returns (j: nat)
    requires |src| == 11 && i <= 8
    ensures j == Kept(src, i, 0)
  {
    j := 0;
    while j < i && src[j] != SPACE
      invariant 0 <= j <= i
      invariant Kept(src, i, j) == Kept(src, i, 0)
      decreases i - j
    {
      if IsDbcs1(src[j]) {
        if j == i - 1 {
          break;
        }
        j := j + 1;
      }
      j := j + 1;
    }
  }

  method AppendSuffix(src: Sector, k: nat, sfx: seq<Byte>) returns (dst: Sector)
    requires |src| == 11 && k + |sfx| <= 8
    ensures dst == Joined(src, k, sfx)
  {
    dst := src;
    var j := k;
    var t := 0;
    ghost var tail := sfx + Spaces(8);
    while j < 8
      invariant k <= j <= 8 && 0 <= t <= |sfx| && t == (if j - k < |sfx| then j - k else |sfx|)
      invariant |dst| == 11 && dst[..k] == src[..k] && dst[8..] == src[8..]
      invariant forall p :: k <= p < j ==> dst[p] == tail[p - k]
    {
      var c := SPACE;
      if t < |sfx| {
        c := sfx[t];
        t := t + 1;
      }
      dst := SetByte(dst, j, c);
      j := j + 1;
    }
    Assembled(src, sfx, k, dst);
  }

  lemma Assembled(src: Sector, sfx: seq<Byte>, k: nat, dst: Sector)
    requires |src| == 11 && |dst| == 11 && k + |sfx| <= 8
    requires dst[..k] == src[..k] && dst[8..] == src[8..]
    requires forall p :: k <= p < 8 ==> dst[p] == (sfx + Spaces(8))[p - k]
    ensures dst == Joined(src, k, sfx)
  {
    var r := Joined(src, k, sfx);
    forall p | 0 <= p < 11
      ensures dst[p] == r[p]
    {
      if p < k {
        assert dst[p] == dst[..k][p];
      } else if p >= 8 {
        assert dst[p] == dst[8..][p - 8];
      }
    }
  }

  method HashLfn(lfn: seq<Unit>, ghost name: Name, n: nat) returns (sr: nat)
    requires Holds(lfn, name) && n < 0x1_0000
    ensures sr == HashName(n, name)
  {
    hide HashUnit;
    sr := n;
    var p := 0;
    assert name[0..] == name;
    while lfn[p] != 0
      invariant 0 <= p <= |name| && sr < 0x1_0000
      invariant HashName(sr, name[p..]) == HashName(n, name)
      decreases |name| - p
    {
      assert lfn[p] == lfn[..|name|][p];
      assert name[p..][1..] == name[p + 1..];
      sr := HashBits(sr, lfn[p]);
      p := p + 1;
    }
    HeldLength(lfn, name, p);
  }

  method HashBits(sr0: nat, wc0: Unit) returns (sr: nat)
    requires sr0 < 0x1_0000
    ensures sr < 0x1_0000 && sr == HashUnit(sr0, wc0, 16)
  {
    sr := sr0;
    var wc: nat := wc0;
    for i := 0 to 16
      invariant sr < 0x1_0000 && HashUnit(sr, wc, 16 - i) == HashUnit(sr0, wc0, 16)
    {
      sr := HashBit(sr, wc % 2);
      wc := wc / 2;
    }
  }

  /** The tilde and the number, built from the last digit on. */
  method Suffix(num: nat) returns (ns: seq<Byte>)
    ensures ns == [TILDE] + Digits(num)
  {
    ns := [];
    var n := num;
    while true
      invariant Digits(n) + ns == Digits(num)
      decreases n
    {
      ns := [HexDigit(n % 16)] + ns;
      n := n / 16;
      if n == 0 {
        break;
      }
    }
    ns := [TILDE] + ns;
  }
}
