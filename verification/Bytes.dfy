/** Bytes, sectors and the little-endian load and store macros of ff.h. */
module Bytes {

  type Byte = b: nat | b < 256

  type Sector = seq<Byte>

  datatype Option<+T> = None | Some(value: T)

  const DWORD_MOD: nat := 0x1_0000_0000
  const WORD_MOD: nat := 0x1_0000

  function SetByte(s: Sector, i: nat, b: Byte): Sector
    requires i < |s|
  {
    s[i := b]
  }

  function LdWord(s: Sector, o: nat): (w: nat)
    requires o + 2 <= |s|
  {
    s[o] as nat + 0x100 * s[o + 1] as nat
  }

  function LdDword(s: Sector, o: nat): (w: nat)
    requires o + 4 <= |s|
  {
    s[o] as nat + 0x100 * s[o + 1] as nat + 0x1_0000 * s[o + 2] as nat + 0x100_0000 * s[o + 3] as nat
  }

  function StWord(s: Sector, o: nat, v: nat): Sector
    requires o + 2 <= |s|
  {
    s[o := v % 0x100][o + 1 := v / 0x100 % 0x100]
  }

  function StDword(s: Sector, o: nat, v: nat): Sector
    requires o + 4 <= |s|
  {
    s[o := v % 0x100][o + 1 := v / 0x100 % 0x100][o + 2 := v / 0x1_0000 % 0x100][o + 3 := v / 0x100_0000 % 0x100]
  }

  /** Unsigned 32-bit subtraction, as in `wsect - fs->fatbase`. */
  function Sub32(a: nat, b: nat): nat
    requires a < DWORD_MOD && b < DWORD_MOD
  {
    (a - b) % DWORD_MOD
  }

  /** The code's `a - b < n` on unsigned words is the range test it is meant to be. */
  lemma RangeTest(a: nat, b: nat, n: nat)
    requires a < DWORD_MOD && b < DWORD_MOD && b + n <= DWORD_MOD
    ensures Sub32(a, b) < n <==> b <= a < b + n
  {
    if a < b {
      assert (a - b) % DWORD_MOD == a - b + DWORD_MOD;
    }
  }

  /** The code's overflow test on an unsigned sum. */
  lemma WrapTest(a: nat, b: nat)
    requires a < DWORD_MOD && b < DWORD_MOD
    ensures (a + b) % DWORD_MOD < a <==> a + b >= DWORD_MOD
  {
    if a + b >= DWORD_MOD {
      assert (a + b) % DWORD_MOD == a + b - DWORD_MOD;
    }
  }

  /** A stored word reads back modulo its width and no byte outside it changes. */
  lemma LoadStoredWord(s: Sector, o: nat, v: nat)
    requires o + 2 <= |s|
    ensures |StWord(s, o, v)| == |s|
    ensures LdWord(StWord(s, o, v), o) == v % WORD_MOD
    ensures forall i :: 0 <= i < |s| && !(o <= i < o + 2) ==> StWord(s, o, v)[i] == s[i]
  {
    assert v % WORD_MOD == v % 0x100 + 0x100 * (v / 0x100 % 0x100);
  }

  lemma LoadStoredDword(s: Sector, o: nat, v: nat)
    requires o + 4 <= |s|
    ensures |StDword(s, o, v)| == |s|
    ensures LdDword(StDword(s, o, v), o) == v % DWORD_MOD
    ensures forall i :: 0 <= i < |s| && !(o <= i < o + 4) ==> StDword(s, o, v)[i] == s[i]
  {
    FourBytes(v);
  }

  /** A load does not see a store elsewhere. */
  lemma LoadElsewhere(s: Sector, t: Sector, o: nat, n: nat, p: nat)
    requires |t| == |s| && p + 4 <= |s| && (p + 4 <= o || o + n <= p)
    requires forall i :: 0 <= i < |s| && !(o <= i < o + n) ==> t[i] == s[i]
    ensures LdDword(t, p) == LdDword(s, p)
    ensures LdWord(t, p) == LdWord(s, p)
  {}

  /** A value modulo 2^32 is the sum of its four bytes. */
  lemma FourBytes(v: nat)
    ensures v % DWORD_MOD == v % 0x100 + 0x100 * (v / 0x100 % 0x100)
                             + 0x1_0000 * (v / 0x1_0000 % 0x100) + 0x100_0000 * (v / 0x100_0000 % 0x100)
  {
    var a := v / 0x100;
    var b := a / 0x100;
    var c := b / 0x100;
    QuarterShifts(v);
    RemainderOf(v, c / 0x100, v % 0x100 + 0x100 * (a % 0x100) + 0x1_0000 * (b % 0x100) + 0x100_0000 * (c % 0x100));
  }

  lemma QuarterShifts(v: nat)
    ensures v / 0x100 / 0x100 == v / 0x1_0000
    ensures v / 0x100 / 0x100 / 0x100 == v / 0x100_0000
  {}

  lemma RemainderOf(v: nat, q: nat, r: nat)
    requires v == 0x1_0000_0000 * q + r && r < 0x1_0000_0000
    ensures v % DWORD_MOD == r
  {}

  function Zeros(n: nat): (s: Sector)
    ensures |s| == n && forall i :: 0 <= i < n ==> s[i] == 0
  {
    seq(n, i => 0)
  }
}
