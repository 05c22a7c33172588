/** Short names: how create_name makes one from an ASCII name, and how get_fileinfo prints it. */
module ShortName {
  import opened Bytes

  const BLANK: Byte := 0x20
  const DOT: Byte := 0x2E
  const UNDERSCORE: Byte := 0x5F
  const NS_BODY: Byte := 0x08
  const NS_EXT: Byte := 0x10

  predicate IsUpper(c: nat): (r: bool)
    ensures r <==> 'A' as nat <= c <= 'Z' as nat
  {
    0x41 <= c <= 0x5A
  }

  predicate IsLower(c: nat): (r: bool)
    ensures r <==> 'a' as nat <= c <= 'z' as nat
  {
    0x61 <= c <= 0x7A
  }

  /** Allowed in long names but not in short ones. */
  predicate Replaced(c: nat): (r: bool)
    ensures c < 0x80 ==> (r <==> c as char in "+,;=[]")
  {
    c == 0x2B || c == 0x2C || c == 0x3B || c == 0x3D || c == 0x5B || c == 0x5D
  }

  type Ascii = c: Byte | c < 0x80

  function Up(c: Ascii): Ascii {
    if IsLower(c) then c - 0x20 else c
  }

  function UpAll(s: seq<Ascii>): (r: seq<Ascii>)
    ensures |r| == |s|
  {
    seq(|s|, i requires 0 <= i < |s| => Up(s[i]))
  }

  // ---------------------------------------------------------------- create_name, the short name

  /** The variables of create_name's second half. `b` collects the cases met: 1 lower, 2 upper, shifted for the body. */
  datatype State = State(si: nat, i: nat, ni: nat, b: nat, fn: Sector, loss: bool, long: bool)

  function Lossy(s: State): State {
    s.(loss := true, long := true)
  }

  /** `b | m` for the two case bits. */
  function OrCase(b: nat, m: nat): nat
    requires m == 1 || m == 2
  {
    if b / m % 2 == 1 then b else b + m
  }

  /** Stores a character of the body or extension. */
  function Store(s: State, w: Ascii): State
    requires s.i < |s.fn|
  {
    if Replaced(w) then Lossy(s).(fn := SetByte(s.fn, s.i, UNDERSCORE), i := s.i + 1)
    else
      s.(fn := SetByte(s.fn, s.i, Up(w)), i := s.i + 1,
         b := if IsUpper(w) then OrCase(s.b, 2) else if IsLower(w) then OrCase(s.b, 1) else s.b)
  }

  /** The loop of create_name that fills the short name; `di` is the index behind the last dot, or 0. */
  function Fill(name: seq<Ascii>, di: nat, s: State): (r: State)
    requires s.ni <= |s.fn| == 11
    ensures |r.fn| == 11 && (s.long ==> r.long) && (s.loss ==> r.loss)
    decreases |name| - s.si
  {
    if s.si >= |name| then s
    else
      var w := name[s.si];
      var t := s.(si := s.si + 1);
      if w == BLANK || (w == DOT && t.si != di) then Fill(name, di, Lossy(t))
      else if t.i >= t.ni || t.si == di then
        if t.ni == 11 then Lossy(t)
        else if t.si > di then Lossy(t)
        else Fill(name, di, (if t.si != di then Lossy(t) else t).(si := di, i := 8, ni := 11, b := t.b * 4))
      else Fill(name, di, Store(t, w))
  }

  /** Number of leading blanks and dots. */
  function Leading(name: seq<Ascii>, k: nat): (n: nat)
    requires k <= |name|
    ensures k <= n <= |name| && (forall j :: k <= j < n ==> name[j] == BLANK || name[j] == DOT)
    ensures n < |name| ==> name[n] != BLANK && name[n] != DOT
    decreases |name| - k
  {
    if k < |name| && (name[k] == BLANK || name[k] == DOT) then Leading(name, k + 1) else k
  }

  /** The index behind the last dot below `k`, or 0. */
  function Extension(name: seq<Ascii>, k: nat): (di: nat)
    requires k <= |name|
    ensures di <= k && (di > 0 ==> name[di - 1] == DOT) && (forall j :: di <= j < k ==> name[j] != DOT)
  {
    if k > 0 && name[k - 1] != DOT then Extension(name, k - 1) else k
  }

  function Blanks(n: nat): (s: Sector)
    ensures |s| == n && forall i :: 0 <= i < n ==> s[i] == ' ' as nat
  {
    seq(n, i => BLANK)
  }

  function Begin(name: seq<Ascii>): State {
    var si := Leading(name, 0);
    State(si, 0, 8, 0, Blanks(11), si > 0, si > 0)
  }

  /** A short name with its flags: NS_LOSS, NS_LFN, NS_BODY and NS_EXT. */
  datatype Short = Short(fn: Sector, loss: bool, long: bool, body: bool, ext: bool)

  function Finish(s: State): Short {
    var b := if s.ni == 8 then s.b * 4 else s.b;
    var long := s.long || b / 4 % 4 == 3 || b % 4 == 3;
    Short(s.fn, s.loss, long, !long && b / 4 % 4 == 1, !long && b % 4 == 1)
  }

  /** create_name on an ASCII name without trailing blanks and dots. */
  function Make(name: seq<Ascii>): (r: Short)
    ensures |r.fn| == 11
  {
    Finish(Fill(name, Extension(name, |name|), Begin(name)))
  }

  // ---------------------------------------------------------------- case does not matter

  /** The same state but for the case bits and the long-name flag they may set later. */
  predicate Alike(s: State, t: State) {
    s.si == t.si && s.i == t.i && s.ni == t.ni && s.fn == t.fn && s.loss == t.loss
  }

  predicate SameButCase(a: seq<Ascii>, b: seq<Ascii>) {
    |a| == |b| && forall i :: 0 <= i < |a| ==> Up(a[i]) == Up(b[i])
  }

  lemma SameKind(w: Ascii, v: Ascii)
    requires Up(w) == Up(v)
    ensures (w == BLANK <==> v == BLANK) && (w == DOT <==> v == DOT)
  {}

  lemma StoreAlike(s: State, t: State, w: Ascii, v: Ascii)
    requires Alike(s, t) && Up(w) == Up(v) && s.i < |s.fn|
    ensures Alike(Store(s, w), Store(t, v)) && |Store(s, w).fn| == |s.fn|
    ensures Store(s, w).si == s.si && Store(s, w).ni == s.ni
  {}

  lemma {:induction false} FillAlike(a: seq<Ascii>, b: seq<Ascii>, di: nat, s: State, t: State)
    requires SameButCase(a, b) && Alike(s, t) && s.ni <= |s.fn| == 11
    ensures Alike(Fill(a, di, s), Fill(b, di, t))
    decreases |a| - s.si
  {
    if s.si >= |a| {
    } else {
      hide Store;
      var w, v := a[s.si], b[s.si];
      SameKind(w, v);
      var s1, t1 := s.(si := s.si + 1), t.(si := t.si + 1);
      if w == BLANK || (w == DOT && s1.si != di) {
        FillAlike(a, b, di, Lossy(s1), Lossy(t1));
      } else if s1.i >= s1.ni || s1.si == di {
        if s1.ni != 11 && s1.si <= di {
          FillAlike(a, b, di, (if s1.si != di then Lossy(s1) else s1).(si := di, i := 8, ni := 11, b := s1.b * 4),
                    (if t1.si != di then Lossy(t1) else t1).(si := di, i := 8, ni := 11, b := t1.b * 4));
        }
      } else {
        StoreAlike(s1, t1, w, v);
        FillAlike(a, b, di, Store(s1, w), Store(t1, v));
      }
    }
  }

  lemma {:induction false} LeadingAlike(a: seq<Ascii>, b: seq<Ascii>, k: nat)
    requires SameButCase(a, b) && k <= |a|
    ensures Leading(a, k) == Leading(b, k)
    decreases |a| - k
  {
    if k >= |a| {
    } else {
      assert Up(a[k]) == Up(b[k]);
      if a[k] == BLANK || a[k] == DOT {
        LeadingAlike(a, b, k + 1);
      }
    }
  }

  lemma {:induction false} ExtensionAlike(a: seq<Ascii>, b: seq<Ascii>, k: nat)
    requires SameButCase(a, b) && k <= |a|
    ensures Extension(a, k) == Extension(b, k)
  {
    if k == 0 {
    } else {
      assert Up(a[k - 1]) == Up(b[k - 1]);
      if a[k - 1] != DOT {
        ExtensionAlike(a, b, k - 1);
      }
    }
  }

  /** Names that differ in case only have the same short name, and both fit 8.3 or neither does. */
  lemma CaseDoesNotMatter(a: seq<Ascii>, b: seq<Ascii>)
    requires SameButCase(a, b)
    ensures Make(a).fn == Make(b).fn && Make(a).loss == Make(b).loss
  {
    LeadingAlike(a, b, 0);
    ExtensionAlike(a, b, |a|);
    FillAlike(a, b, Extension(a, |a|), Begin(a), Begin(b));
  }

  // ---------------------------------------------------------------- printing

  /** get_fileinfo on byte `k` of the short name. */
  function PrintByte(fn: Sector, k: nat, body: bool, ext: bool): seq<Byte>
    requires |fn| == 11 && k < 11
  {
    if fn[k] == BLANK then []
    else
      var c := if fn[k] == 0x05 then 0xE5 else fn[k];
      var d := if IsUpper(c) && (if k >= 8 then ext else body) then c + 0x20 else c;
      (if k == 8 then [DOT] else []) + [d]
  }

  function Print(fn: Sector, k: nat, body: bool, ext: bool): seq<Byte>
    requires |fn| == 11 && k <= 11
    decreases 11 - k
  {
    if k == 11 then [] else PrintByte(fn, k, body, ext) + Print(fn, k + 1, body, ext)
  }

  // ---------------------------------------------------------------- names that fit 8.3

  /** The case bits of a string, as the loop collects them. */
  function CaseBits(s: seq<Ascii>): (b: nat)
    ensures b < 4
  {
    if s == [] then 0
    else
      var b := CaseBits(s[..|s| - 1]);
      var w := s[|s| - 1];
      if IsUpper(w) then OrCase(b, 2) else if IsLower(w) then OrCase(b, 1) else b
  }

  /** Characters that go into a short name as they are, but for case. */
  predicate Simple(s: seq<Ascii>) {
    forall i :: 0 <= i < |s| ==> s[i] > BLANK && s[i] != DOT && !Replaced(s[i])
  }

  function Field(s: seq<Ascii>, n: nat): (f: Sector)
    requires |s| <= n
    ensures |f| == n
  {
    UpAll(s) + Blanks(n - |s|)
  }

  predicate Printable(name: seq<Ascii>) {
    forall i :: 0 <= i < |name| ==> name[i] >= BLANK
  }

  /** Case bits of the extension are collected below those of the body. */
  lemma CaseBitsAdd(a: nat, b: nat, w: Ascii)
    requires b < 4
    ensures OrCase(a * 4 + b, 1) == a * 4 + OrCase(b, 1) && OrCase(a * 4 + b, 2) == a * 4 + OrCase(b, 2)
  {}

  /** What create_name takes out of a short name. */
  predicate Skipped(c: Ascii): (r: bool)
    ensures r <==> c as char in " ."
  {
    c == BLANK || c == DOT
  }

  /** The characters that are left. */
  function Clean(s: seq<Ascii>): (r: seq<Ascii>)
    ensures |r| <= |s|
  {
    if s == [] then []
    else Clean(s[..|s| - 1]) + (if Skipped(s[|s| - 1]) then [] else [s[|s| - 1]])
  }

  /** A character as it is stored. */
  function Stored(c: Ascii): (r: Ascii)
    ensures c as char in "+,;=[]" ==> r == '_' as nat
    ensures c as char !in "+,;=[]" ==> r == if 'a' as nat <= c <= 'z' as nat then c - 'a' as nat + 'A' as nat else c
  {
    if Replaced(c) then UNDERSCORE else Up(c)
  }

  function StoredAll(s: seq<Ascii>): (r: seq<Ascii>)
    ensures |r| == |s|
  {
    seq(|s|, i requires 0 <= i < |s| => Stored(s[i]))
  }

  /** A field of `n` bytes: the first `n` characters that are left, and blanks. */
  function Cut(s: seq<Ascii>, n: nat): (f: Sector)
    ensures |f| == n
  {
    var c := if |Clean(s)| <= n then Clean(s) else Clean(s)[..n];
    StoredAll(c) + Blanks(n - |c|)
  }

  lemma CleanStep(s: seq<Ascii>, w: Ascii)
    ensures Clean(s + [w]) == Clean(s) + (if Skipped(w) then [] else [w])
  {
    assert (s + [w])[..|s|] == s;
  }

  lemma CutSkips(s: seq<Ascii>, w: Ascii, n: nat)
    requires Skipped(w)
    ensures Cut(s + [w], n) == Cut(s, n) && |Clean(s + [w])| == |Clean(s)| && !Simple(s + [w])
  {
    CleanStep(s, w);
    assert (s + [w])[|s|] == w;
  }

  lemma CutGrows(s: seq<Ascii>, w: Ascii, n: nat)
    requires !Skipped(w) && |Clean(s)| < n
    ensures Cut(s + [w], n) == SetByte(Cut(s, n), |Clean(s)|, Stored(w)) && |Clean(s + [w])| == |Clean(s)| + 1
  {
    CleanStep(s, w);
  }

  lemma {:induction false} CleanPrefix(s: seq<Ascii>, k: nat)
    requires k <= |s|
    ensures Clean(s[..k]) <= Clean(s)
    decreases |s|
  {
    if k == |s| {
      assert s[..k] == s;
    } else {
      CleanPrefix(s[..|s| - 1], k);
      assert s[..|s| - 1][..k] == s[..k];
    }
  }

  /** A full field stays as it is; what does not fit makes the part longer than the field. */
  lemma CutFull(s: seq<Ascii>, k: nat, n: nat)
    requires k < |s| && |Clean(s[..k])| == n && !Skipped(s[k])
    ensures Cut(s, n) == Cut(s[..k], n) && |s| > n
  {
    hide Clean, StoredAll;
    CleanPrefix(s, k);
    CleanPrefix(s, k + 1);
    CleanStep(s[..k], s[k]);
    assert s[..k + 1] == s[..k] + [s[k]];
    assert Clean(s)[..n] == Clean(s[..k]);
    assert |s| == n + 1 ==> Clean(s)[..n + 1] == Clean(s[..k + 1]);
  }

  lemma NotSkipped(c: Ascii)
    requires c > BLANK && c != DOT
    ensures !Skipped(c)
  {}

  lemma {:induction false} CleanSimple(s: seq<Ascii>)
    requires Simple(s)
    ensures Clean(s) == s
  {
    if s == [] {
    } else {
      hide Replaced, Skipped;
      CleanSimple(s[..|s| - 1]);
      NotSkipped(s[|s| - 1]);
    }
  }

  lemma CutSimple(s: seq<Ascii>, n: nat)
    requires Simple(s) && |s| <= n
    ensures Cut(s, n) == Field(s, n)
  {
    CleanSimple(s);
    hide Clean, Blanks, Up, Replaced;
    forall i | 0 <= i < |s|
      ensures StoredAll(s)[i] == UpAll(s)[i]
    {}
    assert StoredAll(s) == UpAll(s);
  }

  lemma SimpleStep(s: seq<Ascii>, w: Ascii)
    requires w > BLANK && w != DOT
    ensures Simple(s + [w]) <==> Simple(s) && !Replaced(w)
  {
    assert (s + [w])[|s|] == w;
    if Simple(s + [w]) {
      forall i | 0 <= i < |s|
        ensures s[i] > BLANK && s[i] != DOT && !Replaced(s[i])
      {
        assert (s + [w])[i] == s[i];
      }
    }
  }

  lemma CaseBitsStep(s: seq<Ascii>, w: Ascii)
    ensures CaseBits(s + [w]) ==
      if IsUpper(w) then OrCase(CaseBits(s), 2) else if IsLower(w) then OrCase(CaseBits(s), 1) else CaseBits(s)
  {
    assert (s + [w])[..|s|] == s;
  }

  /** The part of a name in front of its last dot, without leading blanks and dots. */
  function BodyOf(name: seq<Ascii>): seq<Ascii> {
    var n, di := Leading(name, 0), Extension(name, |name|);
    if di > n then name[n..di - 1] else name[n..]
  }

  /** The part behind its last dot, unless only blanks and dots are in front of it. */
  function ExtensionOf(name: seq<Ascii>): seq<Ascii> {
    var di := Extension(name, |name|);
    if di > Leading(name, 0) then name[di..] else []
  }

  /** Body `p` and extension `e` of a name with `n` leading blanks and dots are of the form 8.3. */
  predicate Fits(n: nat, p: seq<Ascii>, e: seq<Ascii>) {
    n == 0 && Simple(p) && |p| <= 8 && Simple(e) && |e| <= 3
  }

  /** The body begins at `n`, and `di` is the index behind the last dot. */
  ghost predicate Parts(name: seq<Ascii>, n: nat, di: nat, p: seq<Ascii>, e: seq<Ascii>) {
    && n <= |name| && di <= |name|
    && (di > 0 ==> name[di - 1] == DOT) && (forall j :: di <= j < |name| ==> name[j] != DOT)
    && p == (if di > n then name[n..di - 1] else name[n..]) && e == (if di > n then name[di..] else [])
  }

  /** Position `s.si` of the body, which begins at `n` and ends in front of `di`; `p` is the part that was read. */
  ghost predicate InBody(name: seq<Ascii>, n: nat, di: nat, s: State, p: seq<Ascii>) {
    && s.ni == 8 && n <= s.si <= |name| && (di > n ==> s.si < di) && p == name[n..s.si]
    && s.i == |Clean(p)| <= 8 && s.fn == Cut(p, 8) + Blanks(3)
    && s.long == s.loss && (s.loss <==> n > 0 || !Simple(p)) && (!s.loss ==> s.b == CaseBits(p))
  }

  /** Position `s.si` of the extension behind the body `p`; `e` is the part of it that was read. */
  ghost predicate InExtension(name: seq<Ascii>, n: nat, di: nat, p: seq<Ascii>, s: State, e: seq<Ascii>) {
    && s.ni == 11 && n < di <= s.si <= |name| && e == name[di..s.si]
    && s.i == 8 + |Clean(e)| <= 11 && s.fn == Cut(p, 8) + Cut(e, 3)
    && s.long == s.loss && (s.loss <==> n > 0 || !Simple(p) || |p| > 8 || !Simple(e))
    && (!s.loss ==> s.b == CaseBits(p) * 4 + CaseBits(e))
  }

  /** The end of the loop. */
  ghost predicate Filled(n: nat, p: seq<Ascii>, e: seq<Ascii>, r: State) {
    && r.fn == Cut(p, 8) + Cut(e, 3) && r.long == r.loss && (r.loss <==> !Fits(n, p, e))
    && (!r.loss ==> (if r.ni == 8 then r.b * 4 else r.b) == CaseBits(p) * 4 + CaseBits(e))
  }

  lemma EmptyCut(n: nat)
    ensures Cut([], n) == Blanks(n) && Clean([]) == [] && Simple([]) && CaseBits([]) == 0
  {}

  lemma SetInFront(a: Sector, b: Sector, i: nat, w: Byte)
    requires i < |a|
    ensures SetByte(a + b, i, w) == SetByte(a, i, w) + b
  {}

  lemma SetBehind(a: Sector, b: Sector, i: nat, w: Byte)
    requires i < |b|
    ensures SetByte(a + b, |a| + i, w) == a + SetByte(b, i, w)
  {}

  /** What storing a character changes. */
  lemma StoreFields(s: State, w: Ascii)
    requires s.i < |s.fn|
    ensures
      var t := Store(s, w);
      && t.si == s.si && t.i == s.i + 1 && t.ni == s.ni && t.fn == SetByte(s.fn, s.i, Stored(w))
      && t.loss == (s.loss || Replaced(w)) && (s.long == s.loss ==> t.long == t.loss)
      && (!t.loss ==> t.b == if IsUpper(w) then OrCase(s.b, 2) else if IsLower(w) then OrCase(s.b, 1) else s.b)
  {}

  lemma StoreInBody(name: seq<Ascii>, n: nat, di: nat, s: State, p: seq<Ascii>)
    requires InBody(name, n, di, s, p) && s.si < |name| && s.i < 8 && s.si + 1 != di
    requires name[s.si] > BLANK && name[s.si] != DOT
    ensures InBody(name, n, di, Store(s.(si := s.si + 1), name[s.si]), p + [name[s.si]])
  {
    hide Cut, Clean, Simple, CaseBits, Blanks, SetByte, OrCase, Up, Replaced, Store, IsUpper, IsLower, Stored;
    var w := name[s.si];
    StoreFields(s.(si := s.si + 1), w);
    CutGrows(p, w, 8);
    SimpleStep(p, w);
    CaseBitsStep(p, w);
    SetInFront(Cut(p, 8), Blanks(3), s.i, Stored(w));
  }

  lemma SkipInBody(name: seq<Ascii>, n: nat, di: nat, s: State, p: seq<Ascii>)
    requires InBody(name, n, di, s, p) && s.si < |name| && s.si + 1 != di && Skipped(name[s.si])
    ensures InBody(name, n, di, Lossy(s.(si := s.si + 1)), p + [name[s.si]])
  {
    hide Cut, Clean, Simple, CaseBits, Skipped;
    CutSkips(p, name[s.si], 8);
  }

  lemma StoreInExtension(name: seq<Ascii>, n: nat, di: nat, p: seq<Ascii>, s: State, e: seq<Ascii>)
    requires InExtension(name, n, di, p, s, e) && s.si < |name| && s.i < 11
    requires name[s.si] > BLANK && name[s.si] != DOT
    ensures InExtension(name, n, di, p, Store(s.(si := s.si + 1), name[s.si]), e + [name[s.si]])
  {
    hide Cut, Clean, Simple, CaseBits, Blanks, SetByte, OrCase, Up, Replaced, Store, IsUpper, IsLower, Stored;
    var w := name[s.si];
    StoreFields(s.(si := s.si + 1), w);
    CutGrows(e, w, 3);
    SimpleStep(e, w);
    CaseBitsStep(e, w);
    CaseBitsAdd(CaseBits(p), CaseBits(e), w);
    SetBehind(Cut(p, 8), Cut(e, 3), |Clean(e)|, Stored(w));
  }

  lemma SkipInExtension(name: seq<Ascii>, n: nat, di: nat, p: seq<Ascii>, s: State, e: seq<Ascii>)
    requires InExtension(name, n, di, p, s, e) && s.si < |name| && Skipped(name[s.si])
    ensures InExtension(name, n, di, p, Lossy(s.(si := s.si + 1)), e + [name[s.si]])
  {
    hide Cut, Clean, Simple, CaseBits, Skipped;
    CutSkips(e, name[s.si], 3);
  }

  /** More characters than fit. */
  lemma LongExtension(name: seq<Ascii>, n: nat, di: nat, p: seq<Ascii>, s: State, e: seq<Ascii>, x: seq<Ascii>)
    requires InExtension(name, n, di, p, s, e) && s.si < |name| && s.i == 11 && !Skipped(name[s.si])
    requires Parts(name, n, di, p, x)
    ensures Filled(n, p, x, Lossy(s.(si := s.si + 1)))
  {
    hide Cut, Clean, Simple, CaseBits, Blanks, Skipped;
    assert x[..|e|] == e && x[|e|] == name[s.si];
    CutFull(x, |e|, 3);
  }

  lemma ExtensionEnds(name: seq<Ascii>, n: nat, di: nat, p: seq<Ascii>, s: State, e: seq<Ascii>)
    requires InExtension(name, n, di, p, s, e) && s.si == |name|
    ensures Filled(n, p, name[di..], s)
  {
    hide Cut, Clean, Simple, CaseBits;
    assert e == name[di..];
    if Simple(e) {
      CleanSimple(e);
    }
  }

  lemma ExtensionFacts(name: seq<Ascii>, n: nat, di: nat, p: seq<Ascii>, s: State, e: seq<Ascii>, x: seq<Ascii>)
    requires InExtension(name, n, di, p, s, e) && Parts(name, n, di, p, x)
    ensures s.ni == 11 && 0 < di <= s.si <= |name| && |s.fn| == 11 && s.i <= 11 && x == name[di..]
    ensures s.si < |name| ==> name[s.si] != DOT
  {}

  lemma {:induction false} FillExtension(
    name: seq<Ascii>, n: nat, di: nat, p: seq<Ascii>, x: seq<Ascii>, s: State, e: seq<Ascii>)
    requires Printable(name) && Parts(name, n, di, p, x) && InExtension(name, n, di, p, s, e)
    ensures |s.fn| == 11 && s.ni <= 11 && Filled(n, p, x, Fill(name, di, s))
    decreases |name| - s.si
  {
    ExtensionFacts(name, n, di, p, s, e, x);
    hide InExtension, Filled, Fill, Store, Parts;
    if s.si == |name| {
      FillEnd(name, di, s);
      ExtensionEnds(name, n, di, p, s, e);
    } else {
      FillStep(name, di, s);
      if name[s.si] == BLANK {
        SkipInExtension(name, n, di, p, s, e);
        FillExtension(name, n, di, p, x, Lossy(s.(si := s.si + 1)), e + [name[s.si]]);
      } else if s.i == 11 {
        LongExtension(name, n, di, p, s, e, x);
      } else {
        StoreInExtension(name, n, di, p, s, e);
        FillExtension(name, n, di, p, x, Store(s.(si := s.si + 1), name[s.si]), e + [name[s.si]]);
      }
    }
  }

  /** More characters of the body than fit. */
  lemma LeaveBody(name: seq<Ascii>, n: nat, di: nat, s: State, p: seq<Ascii>, q: seq<Ascii>, x: seq<Ascii>)
    requires InBody(name, n, di, s, q) && s.si < |name| && s.i == 8 && !Skipped(name[s.si])
    requires s.si + 1 != di && Parts(name, n, di, p, x)
    ensures Cut(p, 8) == Cut(q, 8) && |p| > 8
  {
    hide Cut, Clean, Simple, CaseBits, Blanks, Skipped;
    assert p[..|q|] == q && p[|q|] == name[s.si];
    CutFull(p, |q|, 8);
  }

  lemma LongBody(name: seq<Ascii>, n: nat, di: nat, s: State, p: seq<Ascii>, q: seq<Ascii>, x: seq<Ascii>)
    requires InBody(name, n, di, s, q) && s.si < |name| && s.i == 8 && !Skipped(name[s.si])
    requires s.si + 1 > di && Parts(name, n, di, p, x)
    ensures Filled(n, p, x, Lossy(s.(si := s.si + 1)))
  {
    hide Cut, Clean, Simple, CaseBits, Skipped;
    LeaveBody(name, n, di, s, p, q, x);
    EmptyCut(3);
  }

  /** More characters of the body than fit, and an extension. */
  lemma CutToExtension(name: seq<Ascii>, n: nat, di: nat, s: State, p: seq<Ascii>, q: seq<Ascii>, x: seq<Ascii>)
    requires InBody(name, n, di, s, q) && s.si < |name| && s.i == 8 && !Skipped(name[s.si])
    requires s.si + 1 < di && Parts(name, n, di, p, x)
    ensures InExtension(name, n, di, p, Lossy(s.(si := s.si + 1)).(si := di, i := 8, ni := 11, b := s.b * 4), [])
  {
    hide Cut, Clean, Simple, CaseBits, Skipped;
    LeaveBody(name, n, di, s, p, q, x);
    EmptyCut(3);
  }

  /** The dot in front of the extension. */
  lemma EnterExtension(name: seq<Ascii>, n: nat, di: nat, s: State, p: seq<Ascii>, q: seq<Ascii>, x: seq<Ascii>)
    requires InBody(name, n, di, s, q) && s.si + 1 == di && Parts(name, n, di, p, x)
    ensures InExtension(name, n, di, p, s.(si := di, i := 8, ni := 11, b := s.b * 4), [])
  {
    hide Cut, Clean, Simple, CaseBits;
    assert q == p;
    EmptyCut(3);
    if Simple(p) {
      CleanSimple(p);
    }
  }

  lemma BodyEnds(name: seq<Ascii>, n: nat, di: nat, s: State, p: seq<Ascii>, q: seq<Ascii>, x: seq<Ascii>)
    requires InBody(name, n, di, s, q) && s.si == |name| && Parts(name, n, di, p, x)
    ensures Filled(n, p, x, s)
  {
    hide Cut, Clean, Simple, CaseBits;
    assert q == p;
    EmptyCut(3);
    if Simple(p) {
      CleanSimple(p);
    }
  }

  lemma BodyFacts(name: seq<Ascii>, n: nat, di: nat, s: State, p: seq<Ascii>, q: seq<Ascii>, x: seq<Ascii>)
    requires InBody(name, n, di, s, q) && Parts(name, n, di, p, x)
    ensures s.ni == 8 && s.i <= 8 && |s.fn| == 11 && s.si <= |name|
    ensures s.si + 1 == di ==> name[s.si] == DOT
  {}

  lemma {:induction false} FillBody(
    name: seq<Ascii>, n: nat, di: nat, p: seq<Ascii>, x: seq<Ascii>, s: State, q: seq<Ascii>)
    requires Printable(name) && Parts(name, n, di, p, x) && InBody(name, n, di, s, q)
    ensures |s.fn| == 11 && s.ni <= 11 && Filled(n, p, x, Fill(name, di, s))
    decreases |name| - s.si
  {
    BodyFacts(name, n, di, s, p, q, x);
    hide InBody, InExtension, Filled, Fill, Store, Parts;
    if s.si == |name| {
      FillEnd(name, di, s);
      BodyEnds(name, n, di, s, p, q, x);
    } else {
      FillStep(name, di, s);
      var t := s.(si := s.si + 1);
      if t.si == di {
        EnterExtension(name, n, di, s, p, q, x);
        FillExtension(name, n, di, p, x, t.(si := di, i := 8, ni := 11, b := t.b * 4), []);
      } else if Skipped(name[s.si]) {
        SkipInBody(name, n, di, s, q);
        FillBody(name, n, di, p, x, Lossy(t), q + [name[s.si]]);
      } else if s.i == 8 {
        if t.si > di {
          LongBody(name, n, di, s, p, q, x);
        } else {
          CutToExtension(name, n, di, s, p, q, x);
          FillExtension(name, n, di, p, x, Lossy(t).(si := di, i := 8, ni := 11, b := t.b * 4), []);
        }
      } else {
        StoreInBody(name, n, di, s, q);
        FillBody(name, n, di, p, x, Store(t, name[s.si]), q + [name[s.si]]);
      }
    }
  }

  lemma BeginInBody(name: seq<Ascii>, di: nat)
    requires di <= |name| && (di > 0 ==> name[di - 1] == DOT)
    ensures InBody(name, Leading(name, 0), di, Begin(name), [])
  {
    EmptyCut(8);
    hide Cut, Clean, CaseBits;
    assert Blanks(8) + Blanks(3) == Blanks(11);
  }

  /** Small letters occur. */
  predicate SomeLower(s: seq<Ascii>) {
    exists i :: 0 <= i < |s| && IsLower(s[i])
  }

  predicate SomeUpper(s: seq<Ascii>) {
    exists i :: 0 <= i < |s| && IsUpper(s[i])
  }

  lemma {:induction false} CaseBitsMean(s: seq<Ascii>)
    ensures CaseBits(s) == (if SomeLower(s) then 1 else 0) + (if SomeUpper(s) then 2 else 0)
  {
    if s == [] {
    } else {
      var k := |s| - 1;
      CaseBitsMean(s[..k]);
      assert SomeLower(s) <==> SomeLower(s[..k]) || IsLower(s[k]) by {
        if SomeLower(s[..k]) {
          var i :| 0 <= i < k && IsLower(s[..k][i]);
          assert IsLower(s[i]);
        }
        if SomeLower(s) {
          var i :| 0 <= i < |s| && IsLower(s[i]);
          assert i < k ==> IsLower(s[..k][i]);
        }
      }
      assert SomeUpper(s) <==> SomeUpper(s[..k]) || IsUpper(s[k]) by {
        if SomeUpper(s[..k]) {
          var i :| 0 <= i < k && IsUpper(s[..k][i]);
          assert IsUpper(s[i]);
        }
        if SomeUpper(s) {
          var i :| 0 <= i < |s| && IsUpper(s[i]);
          assert i < k ==> IsUpper(s[..k][i]);
        }
      }
    }
  }

  predicate Mixed(s: seq<Ascii>) {
    SomeLower(s) && SomeUpper(s)
  }

  /** What create_name makes of a name: at most eight characters of the body and three of the extension in capitals,
      without blanks and dots and with "_" for what a short name may not hold. The name is lossy unless it is of the
      form 8.3, it needs a long-name entry if it is lossy or mixes cases within a part, and otherwise one flag for each
      part tells small letters. */
  lemma MakeMeans(name: seq<Ascii>)
    requires Printable(name)
    ensures
      var m, p, e := Make(name), BodyOf(name), ExtensionOf(name);
      && m.fn == Cut(p, 8) + Cut(e, 3)
      && (m.loss <==> !Fits(Leading(name, 0), p, e)) && (m.long <==> m.loss || Mixed(p) || Mixed(e))
      && (m.body <==> !m.long && SomeLower(p)) && (m.ext <==> !m.long && SomeLower(e))
  {
    hide Fill, Begin, Cut, CaseBits, SomeLower, SomeUpper, InBody, Fits, Leading, Extension;
    var n, di := Leading(name, 0), Extension(name, |name|);
    BeginInBody(name, di);
    FillBody(name, n, di, BodyOf(name), ExtensionOf(name), Begin(name), []);
    CaseBitsMean(BodyOf(name));
    CaseBitsMean(ExtensionOf(name));
  }

  /** The case flag of a field whose letters all have the same case. */
  predicate Flagged(s: seq<Ascii>, lower: bool) {
    !Mixed(s) && (lower <==> SomeLower(s))
  }

  lemma PrintStep(fn: Sector, k: nat, body: bool, ext: bool)
    requires |fn| == 11 && k < 11
    ensures Print(fn, k, body, ext) == PrintByte(fn, k, body, ext) + Print(fn, k + 1, body, ext)
  {
    hide PrintByte;
  }

  lemma PrintEnd(fn: Sector, body: bool, ext: bool)
    requires |fn| == 11
    ensures Print(fn, 11, body, ext) == []
  {}

  lemma FieldByte(s: seq<Ascii>, n: nat, k: nat)
    requires |s| <= n && k < n
    ensures Field(s, n)[k] == if k < |s| then Up(s[k]) else BLANK
  {}

  /** A stored character prints as it was, a blank prints as nothing. */
  lemma FieldPrints(fn: Sector, k: nat, s: seq<Ascii>, n: nat, j: nat, body: bool, ext: bool)
    requires |fn| == 11 && k < 11 && |s| <= n && j < n && fn[k] == Field(s, n)[j]
    requires Simple(s) && Flagged(s, if k >= 8 then ext else body)
    ensures PrintByte(fn, k, body, ext) ==
      if j >= |s| then [] else if k == 8 then [DOT, s[j]] else [s[j]]
  {
    FieldByte(s, n, j);
    hide Field;
    if j < |s| {
      assert IsLower(s[j]) ==> SomeLower(s);
      assert IsUpper(s[j]) ==> SomeUpper(s);
    }
  }

  /** What is left of a field from position `k` on. */
  function Tail(s: seq<Ascii>, k: nat): seq<Byte> {
    if k < |s| then s[k..] else []
  }

  lemma TailStep(s: seq<Ascii>, k: nat)
    ensures Tail(s, k) == (if k < |s| then [s[k]] else []) + Tail(s, k + 1)
  {}

  lemma {:induction false} PrintBody(fn: Sector, s: seq<Ascii>, k: nat, body: bool, ext: bool)
    requires |fn| == 11 && |s| <= 8 && fn[..8] == Field(s, 8) && Simple(s) && Flagged(s, body) && k <= 8
    ensures Print(fn, k, body, ext) == Tail(s, k) + Print(fn, 8, body, ext)
    decreases 8 - k
  {
    hide Print, PrintByte, Field, CaseBits, Simple, Flagged, Tail;
    if k == 8 {
      NoTail(s, k);
    } else {
      PrintBody(fn, s, k + 1, body, ext);
      PrintStep(fn, k, body, ext);
      assert fn[k] == fn[..8][k];
      FieldPrints(fn, k, s, 8, k, body, ext);
      TailStep(s, k);
    }
  }

  lemma NoTail(s: seq<Ascii>, k: nat)
    requires k >= |s|
    ensures Tail(s, k) == []
  {}

  lemma {:induction false} PrintExtension(fn: Sector, s: seq<Ascii>, k: nat, body: bool, ext: bool)
    requires |fn| == 11 && |s| <= 3 && fn[8..] == Field(s, 3) && Simple(s) && Flagged(s, ext) && 9 <= k <= 11
    ensures Print(fn, k, body, ext) == Tail(s, k - 8)
    decreases 11 - k
  {
    hide Print, PrintByte, Field, CaseBits, Simple, Flagged, Tail;
    if k == 11 {
      PrintEnd(fn, body, ext);
      NoTail(s, k - 8);
    } else {
      PrintExtension(fn, s, k + 1, body, ext);
      PrintStep(fn, k, body, ext);
      assert fn[k] == fn[8..][k - 8];
      FieldPrints(fn, k, s, 3, k - 8, body, ext);
      TailStep(s, k - 8);
    }
  }

  /** Body and extension print one after the other, with a dot between them if there is an extension. */
  lemma PrintBoth(fn: Sector, s: seq<Ascii>, e: seq<Ascii>, body: bool, ext: bool)
    requires |fn| == 11 && |s| <= 8 && |e| <= 3 && fn[..8] == Field(s, 8) && fn[8..] == Field(e, 3)
    requires Simple(s) && Simple(e) && Flagged(s, body) && Flagged(e, ext)
    ensures Print(fn, 0, body, ext) == s + (if e == [] then [] else [DOT] + e)
  {
    hide Print, PrintByte, Field, CaseBits, Simple, Flagged, Tail;
    PrintBody(fn, s, 0, body, ext);
    PrintExtension(fn, e, 9, body, ext);
    PrintStep(fn, 8, body, ext);
    assert fn[8] == fn[8..][0];
    FieldPrints(fn, 8, e, 3, 0, body, ext);
    WholeTail(s);
    WholeTail(e);
    TailStep(e, 0);
  }

  lemma WholeTail(s: seq<Ascii>)
    ensures Tail(s, 0) == s
  {}

  /** A name that create_name accepts without asking for a long-name entry is printed back with its original case. */
  lemma PrintsBack(name: seq<Ascii>)
    requires Printable(name) && name != [] && name[|name| - 1] != DOT && name[|name| - 1] != BLANK
    requires !Make(name).long
    ensures Print(Make(name).fn, 0, Make(name).body, Make(name).ext) == name
  {
    hide Make, Print, Cut, Simple, SomeLower, SomeUpper;
    var p, e := BodyOf(name), ExtensionOf(name);
    MakeMeans(name);
    CutSimple(p, 8);
    CutSimple(e, 3);
    PrintBoth(Make(name).fn, p, e, Make(name).body, Make(name).ext);
  }

  /** A first byte of 0x05 stands for the deletion mark 0xE5. */
  lemma FirstPrinted(fn: Sector, body: bool, ext: bool)
    requires |fn| == 11 && fn[0] != BLANK
    ensures
      var s := Print(fn, 0, body, ext);
      && s != []
      && s[0] ==
           if fn[0] == 0x05 then 0xE5 else if body && 'A' as nat <= fn[0] <= 'Z' as nat then fn[0] + 0x20 else fn[0]
  {
    PrintStep(fn, 0, body, ext);
  }

  // ---------------------------------------------------------------- the code

  /** The second half of create_name: the short name of an ASCII name. */
  method CreateShort(lfn: seq<Ascii>) returns (r: Short)
    ensures r == Make(lfn)
  {
    hide Fill, Finish;
    var si := SkipLeading(lfn);
    var di := FindExtension(lfn);
    var s := FillShort(lfn, di, State(si, 0, 8, 0, Blanks(11), si > 0, si > 0));
    var b := if s.ni == 8 then s.b * 4 else s.b;
    var long := s.long;
    if b / 4 % 4 == 3 || b % 4 == 3 {
      long := true;
    }
    var body, ext := false, false;
    if !long {
      ext := b % 4 == 1;
      body := b / 4 % 4 == 1;
    }
    r := Short(s.fn, s.loss, long, body, ext);
    FinishIs(s, r);
  }

  lemma FinishIs(s: State, r: Short)
    requires r.fn == s.fn && r.loss == s.loss
    requires
      var b := if s.ni == 8 then s.b * 4 else s.b;
      && r.long == (s.long || b / 4 % 4 == 3 || b % 4 == 3)
      && r.body == (!r.long && b / 4 % 4 == 1) && r.ext == (!r.long && b % 4 == 1)
    ensures r == Finish(s)
  {}

  method SkipLeading(lfn: seq<Ascii>) returns (si: nat)
    ensures si == Leading(lfn, 0)
  {
    si := 0;
    while si < |lfn| && (lfn[si] == BLANK || lfn[si] == DOT)
      invariant si <= |lfn| && Leading(lfn, si) == Leading(lfn, 0)
    {
      si := si + 1;
    }
  }

  method FindExtension(lfn: seq<Ascii>) returns (di: nat)
    ensures di == Extension(lfn, |lfn|)
  {
    di := |lfn|;
    while di > 0 && lfn[di - 1] != DOT
      invariant di <= |lfn| && Extension(lfn, di) == Extension(lfn, |lfn|)
    {
      di := di - 1;
    }
  }

  /** The filling loop. */
  method FillShort(lfn: seq<Ascii>, di: nat, s0: State) returns (s: State)
    requires s0.ni <= |s0.fn| == 11
    ensures s == Fill(lfn, di, s0)
  {
    hide Store, Lossy;
    s := s0;
    while s.si < |lfn|
      invariant s.ni <= |s.fn| == 11 && Fill(lfn, di, s) == Fill(lfn, di, s0)
      decreases |lfn| - s.si
    {
      FillStep(lfn, di, s);
      var w := lfn[s.si];
      s := s.(si := s.si + 1);
      if w == BLANK || (w == DOT && s.si != di) {
        s := Lossy(s);
      } else if s.i >= s.ni || s.si == di {
        if s.ni == 11 {
          s := Lossy(s);
          return;
        }
        if s.si != di {
          s := Lossy(s);
        }
        if s.si > di {
          return;
        }
        s := s.(si := di, i := 8, ni := 11, b := s.b * 4);
      } else {
        s := Store(s, w);
      }
    }
  }

  lemma FillEnd(name: seq<Ascii>, di: nat, s: State)
    requires s.ni <= |s.fn| == 11 && s.si >= |name|
    ensures Fill(name, di, s) == s
  {}

  /** One round of the loop, and what the two helpers keep. */
  lemma FillStep(name: seq<Ascii>, di: nat, s: State)
    requires s.ni <= |s.fn| == 11 && s.si < |name|
    ensures forall t {:trigger Lossy(t)} :: Lossy(t) == t.(loss := true, long := true)
    ensures
      var w := name[s.si];
      var t := s.(si := s.si + 1);
      if w == BLANK || (w == DOT && t.si != di) then Fill(name, di, s) == Fill(name, di, Lossy(t))
      else if t.i >= t.ni || t.si == di then
        Fill(name, di, s) ==
          if t.ni == 11 || t.si > di then Lossy(t)
          else Fill(name, di, (if t.si != di then Lossy(t) else t).(si := di, i := 8, ni := 11, b := t.b * 4))
      else
        && Fill(name, di, s) == Fill(name, di, Store(t, w))
        && Store(t, w).si == t.si && Store(t, w).ni == t.ni && |Store(t, w).fn| == 11
  {}

  /** get_fileinfo's loop over the name bytes of a directory entry; byte 12 holds the case flags. */
  method PrintName(dir: Sector) returns (p: seq<Byte>)
    requires |dir| == 32
    ensures p == Print(dir[..11], 0, dir[12] / 0x08 % 2 == 1, dir[12] / 0x10 % 2 == 1)
  {
    hide Print, PrintByte;
    p := [];
    ghost var fn := dir[..11];
    var body, ext := dir[12] / NS_BODY % 2 == 1, dir[12] / NS_EXT % 2 == 1;
    var i: nat := 0;
    while i < 11
      invariant i <= 11 && p + Print(fn, i, body, ext) == Print(fn, 0, body, ext)
    {
      PrintStep(fn, i, body, ext);
      var s := PrintOne(dir[..11], i, body, ext);
      Regroup(p, s, Print(fn, i + 1, body, ext));
      p := p + s;
      i := i + 1;
    }
    PrintEnd(fn, body, ext);
    assert p + [] == p;
  }

  lemma Regroup(a: seq<Byte>, b: seq<Byte>, c: seq<Byte>)
    ensures a + (b + c) == (a + b) + c
  {}

  /** What one byte of the name prints as. */
  method PrintOne(fn: Sector, k: nat, body: bool, ext: bool) returns (p: seq<Byte>)
    requires |fn| == 11 && k < 11
    ensures p == PrintByte(fn, k, body, ext)
  {
    p := [];
    var c := fn[k];
    if c == BLANK {
      return;
    }
    if c == 0x05 {
      c := 0xE5;
    }
    if k == 8 {
      p := p + [DOT];
    }
    if IsUpper(c) && (if k >= 8 then ext else body) {
      c := c + 0x20;
    }
    p := p + [c];
  }
}
