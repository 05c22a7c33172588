/** Long file names in directory slots (cmp_lfn, pick_lfn, fit_lfn). */
module Lfn {
  import opened Bytes

  const MAX_LFN: nat := 255  // _MAX_LFN
  const LLE: nat := 0x40
  const AM_LFN: nat := 0x0F

  /** A UTF-16 code unit (WCHAR). */
  type Unit = w: nat | w < 0x1_0000

  type Name = seq<Unit>

  /** A 32-byte directory entry. */
  type Slot = s: Sector | |s| == 32 witness Zeros(32)

  /** ff_wtoupper: any function that maps 0, and only 0, to 0. */
  type Folding = Unit -> Unit

  ghost predicate Folds(up: Folding) {
    forall w :: up(w) == 0 <==> w == 0
  }

  /** The long-name working buffer (dp->lfn) holds `name`; behind the terminator it may hold anything. */
  predicate Holds(buf: seq<Unit>, name: Name) {
    && |buf| == MAX_LFN + 1 && |name| <= MAX_LFN
    && buf[..|name|] == name && buf[|name|] == 0 && 0 !in name
  }

  /** Where the 13 units of a slot lie. */
  function LfnOfs(s: nat): (o: nat)
    requires s < 13
    ensures o + 2 <= 32
  {
    [1, 3, 5, 7, 9, 14, 16, 18, 20, 22, 24, 28, 30][s]
  }

  function SlotUnit(slot: Slot, s: nat): Unit
    requires s < 13
  {
    LdWord(slot, LfnOfs(s))
  }

  /** The unit at position `p` of a name as slots store it: the name, its terminator, then filler. */
  function StoredUnit(name: Name, p: nat): Unit {
    if p < |name| then name[p] else if p == |name| then 0 else 0xFFFF
  }

  /** Number of slots a name needs. */
  function SlotCount(name: Name): nat {
    (|name| + 12) / 13
  }

  predicate IsLast(slot: Slot) {
    slot[0] / LLE % 2 == 1
  }

  /** `LDIR_Ord & ~LLE` */
  function Order(c: Byte): Byte {
    if c / LLE % 2 == 1 then c - LLE else c
  }

  /** The buffer offset `(ord - 1) * 13`, on unsigned words. */
  function Offset(ord: Byte): nat {
    if ord == 0 then DWORD_MOD - 13 else (ord - 1) * 13
  }

  // ---------------------------------------------------------------- storing

  /** `LfnOfs` in closed form: three runs of words. */
  lemma LfnOfsIs(s: nat)
    requires s < 13
    ensures LfnOfs(s) == 2 * s + (if s < 5 then 1 else if s < 11 then 4 else 6)
  {}

  /** The unit to which byte `o` of a slot belongs, or 13. */
  function UnitAt(o: nat): nat {
    if 1 <= o < 11 then (o - 1) / 2 else if 14 <= o < 26 then (o - 4) / 2 else if 28 <= o < 32 then (o - 6) / 2 else 13
  }

  lemma UnitAtOfs(s: nat)
    requires s < 13
    ensures UnitAt(LfnOfs(s)) == s && UnitAt(LfnOfs(s) + 1) == s
  {
    LfnOfsIs(s);
  }

  lemma OfsOfUnit(o: nat)
    requires o < 32 && UnitAt(o) < 13
    ensures o == LfnOfs(UnitAt(o)) || o == LfnOfs(UnitAt(o)) + 1
  {
    LfnOfsIs(UnitAt(o));
  }

  /** Byte `o` of the slot that holds part `ord` of a name. */
  function SlotByte(name: Name, ord: nat, sum: Byte, o: nat): Byte
    requires 1 <= ord < LLE && o < 32
  {
    var s := UnitAt(o);
    if s < 13 then
      var u := StoredUnit(name, 13 * (ord - 1) + s);
      if o == LfnOfs(s) then u % 0x100 else u / 0x100
    else if o == 0 then (if 13 * ord >= |name| then ord + LLE else ord)
    else if o == 11 then AM_LFN
    else if o == 13 then sum
    else 0
  }

  /** The slot that holds part `ord` of a name: all 32 bytes. */
  function MakeSlot(name: Name, ord: nat, sum: Byte): Slot
    requires 1 <= ord < LLE
  {
    seq(32, o requires 0 <= o < 32 => SlotByte(name, ord, sum, o))
  }

  lemma SlotHolds(name: Name, ord: nat, sum: Byte, s: nat)
    requires 1 <= ord < LLE && s < 13
    ensures SlotUnit(MakeSlot(name, ord, sum), s) == StoredUnit(name, 13 * (ord - 1) + s)
  {
    UnitAtOfs(s);
    hide UnitAt, LfnOfs;
  }

  /** The fields of a long-name slot beside its units. */
  lemma SlotFields(name: Name, ord: nat, sum: Byte)
    requires 1 <= ord < LLE
    ensures
      var e := MakeSlot(name, ord, sum);
      && e[11] == 0x0F && e[12] == 0 && e[13] == sum && e[26] == 0 && e[27] == 0
      && Order(e[0]) == ord && 1 <= e[0] < 0x80
      && e[0] == (if 13 * ord >= |name| then 0x40 + ord else ord) && (IsLast(e) <==> 13 * ord >= |name|)
  {}

  /** A slot is determined by its order byte, its fixed fields and its 13 units. */
  lemma SlotDetermined(a: Slot, b: Slot)
    requires a[0] == b[0] && a[11] == b[11] && a[12] == b[12] && a[13] == b[13] && a[26] == b[26] && a[27] == b[27]
    requires forall s :: 0 <= s < 13 ==> SlotUnit(a, s) == SlotUnit(b, s)
    ensures a == b
  {
    forall o | 0 <= o < 32
      ensures a[o] == b[o]
    {
      if UnitAt(o) < 13 {
        OfsOfUnit(o);
        assert SlotUnit(a, UnitAt(o)) == SlotUnit(b, UnitAt(o));
        hide UnitAt, LfnOfs;
      }
    }
  }

  /** Two units do not overlap, and no unit overlaps the fixed fields. */
  lemma UnitsApart(s: nat, t: nat)
    requires s < 13 && t < 13 && s != t
    ensures LfnOfs(s) + 2 <= LfnOfs(t) || LfnOfs(t) + 2 <= LfnOfs(s)
  {
    LfnOfsIs(s);
    LfnOfsIs(t);
  }

  /** Neither 0 nor the filler 0xFFFF occurs. */
  predicate Plain(name: Name) {
    0 !in name && 0xFFFF !in name
  }

  // ---------------------------------------------------------------- comparing

  /** The loop of cmp_lfn from unit `s` on, at buffer index `i`; `wc` is the last folded unit. */
  predicate CmpFrom(up: Folding, buf: seq<Unit>, slot: Slot, i: nat, s: nat, wc: Unit)
    requires |buf| == MAX_LFN + 1 && s <= 13
    decreases 13 - s
  {
    if s == 13 then !(IsLast(slot) && wc != 0 && i <= MAX_LFN && buf[i] != 0)
    else
      var uc := SlotUnit(slot, s);
      if wc != 0 then i < MAX_LFN && up(uc) == up(buf[i]) && CmpFrom(up, buf, slot, i + 1, s + 1, up(uc))
      else uc == 0xFFFF && CmpFrom(up, buf, slot, i, s + 1, 0)
  }

  predicate Cmp(up: Folding, buf: seq<Unit>, slot: Slot)
    requires |buf| == MAX_LFN + 1
  {
    CmpFrom(up, buf, slot, Offset(Order(slot[0])), 0, 1)
  }

  /** The stored name and the buffer agree at position `p`, up to case. */
  predicate Agrees(up: Folding, buf: seq<Unit>, name: Name, p: nat)
    requires |buf| == MAX_LFN + 1
  {
    p <= |name| ==> p < MAX_LFN && up(StoredUnit(name, p)) == up(buf[p])
  }

  /** What the loop tests from position `p` of the name on. */
  ghost predicate Rest(up: Folding, buf: seq<Unit>, name: Name, p: nat, ord: nat)
    requires |buf| == MAX_LFN + 1 && |name| <= MAX_LFN
  {
    && (forall q: nat :: p <= q < 13 * ord ==> Agrees(up, buf, name, q))
    && (13 * ord == |name| ==> buf[|name|] == 0)
  }

  lemma RestStep(up: Folding, buf: seq<Unit>, name: Name, p: nat, ord: nat)
    requires |buf| == MAX_LFN + 1 && |name| <= MAX_LFN && p < 13 * ord
    ensures Rest(up, buf, name, p, ord) <==> Agrees(up, buf, name, p) && Rest(up, buf, name, p + 1, ord)
  {
    hide Agrees;
  }

  lemma {:induction false} CmpFromMeans(
    up: Folding, buf: seq<Unit>, name: Name, ord: nat, sum: Byte, i: nat, s: nat, wc: Unit)
    requires Folds(up) && |buf| == MAX_LFN + 1 && |name| <= MAX_LFN && 0 !in name
    requires 1 <= ord <= SlotCount(name) && s <= 13
    requires wc == 0 <==> 13 * (ord - 1) + s > |name|
    requires i == if wc == 0 then |name| + 1 else 13 * (ord - 1) + s
    ensures CmpFrom(up, buf, MakeSlot(name, ord, sum), i, s, wc) <==> Rest(up, buf, name, 13 * (ord - 1) + s, ord)
    decreases 13 - s
  {
    hide MakeSlot, SlotUnit, Rest, IsLast;
    var p := 13 * (ord - 1) + s;
    var e := MakeSlot(name, ord, sum);
    if s == 13 {
      SlotFields(name, ord, sum);
      RestEnd(up, buf, name, ord);
    } else {
      SlotHolds(name, ord, sum, s);
      RestStep(up, buf, name, p, ord);
      var uc := StoredUnit(name, p);
      if wc != 0 {
        CmpFromMeans(up, buf, name, ord, sum, i + 1, s + 1, up(uc));
      } else {
        CmpFromMeans(up, buf, name, ord, sum, i, s + 1, 0);
      }
    }
  }

  lemma RestEnd(up: Folding, buf: seq<Unit>, name: Name, ord: nat)
    requires |buf| == MAX_LFN + 1 && |name| <= MAX_LFN
    ensures Rest(up, buf, name, 13 * ord, ord) <==> (13 * ord == |name| ==> buf[|name|] == 0)
  {}

  /** Every slot of the stored name is accepted. */
  ghost predicate AllAccepted(up: Folding, buf: seq<Unit>, name: Name, sum: Byte)
    requires |buf| == MAX_LFN + 1 && |name| <= MAX_LFN
  {
    forall ord :: 1 <= ord <= SlotCount(name) ==> Cmp(up, buf, MakeSlot(name, ord, sum))
  }

  predicate SameFolded(up: Folding, a: Name, b: Name) {
    |a| == |b| && forall p :: 0 <= p < |a| ==> up(a[p]) == up(b[p])
  }

  /** Names that dir_find can match again: at 255 units the terminator lies beyond what cmp_lfn reads. */
  predicate Findable(name: Name) {
    |name| < MAX_LFN
  }

  /** cmp_lfn accepts every slot of a stored name exactly when the name equals the query up to case, whatever stale
      characters lie behind the query's terminator. */
  lemma CmpIsEquality(up: Folding, buf: seq<Unit>, q: Name, name: Name, sum: Byte)
    requires Folds(up) && Holds(buf, q) && 1 <= |name| <= MAX_LFN && 0 !in name
    ensures AllAccepted(up, buf, name, sum) <==> SameFolded(up, name, q) && Findable(name)
  {
    AcceptedAgree(up, buf, name, sum);
    var n := |name|;
    if AllAccepted(up, buf, name, sum) {
      forall p | 0 <= p < n
        ensures buf[p] != 0 && up(name[p]) == up(buf[p])
      {
        assert Agrees(up, buf, name, p);
        assert name[p] in name;
      }
      assert n % 13 != 0 ==> Agrees(up, buf, name, n);
      HeldLength(buf, q, n);
      assert forall p :: 0 <= p < n ==> q[p] == buf[..|q|][p];
    }
    forall p: nat | SameFolded(up, name, q) && Findable(name) && p < 13 * SlotCount(name)
      ensures Agrees(up, buf, name, p)
    {
      SameAgree(up, buf, q, name, p);
    }
  }

  /** The first 0 in the buffer ends the name it holds. */
  lemma HeldLength(buf: seq<Unit>, q: Name, n: nat)
    requires Holds(buf, q) && n <= MAX_LFN && buf[n] == 0 && forall p :: 0 <= p < n ==> buf[p] != 0
    ensures |q| == n
  {
    forall k | 0 <= k < |q|
      ensures buf[k] != 0
    {
      assert q[k] == buf[..|q|][k];
      assert q[k] in q;
    }
  }

  lemma SameAgree(up: Folding, buf: seq<Unit>, q: Name, name: Name, p: nat)
    requires Folds(up) && Holds(buf, q) && SameFolded(up, name, q) && Findable(name)
    ensures p < 13 * SlotCount(name) ==> Agrees(up, buf, name, p)
  {
    if p < |name| {
      assert q[p] == buf[..|q|][p];
    }
  }

  /** All slots together test every position of the name and its terminator. */
  lemma AcceptedAgree(up: Folding, buf: seq<Unit>, name: Name, sum: Byte)
    requires Folds(up) && |buf| == MAX_LFN + 1 && 1 <= |name| <= MAX_LFN && 0 !in name
    ensures AllAccepted(up, buf, name, sum) <==>
      && (forall q: nat :: q < 13 * SlotCount(name) ==> Agrees(up, buf, name, q))
      && (|name| % 13 == 0 ==> buf[|name|] == 0)
  {
    hide Agrees, MakeSlot, CmpFrom;
    forall ord | 1 <= ord <= SlotCount(name)
      ensures Cmp(up, buf, MakeSlot(name, ord, sum)) <==> Rest(up, buf, name, 13 * (ord - 1), ord)
    {
      SlotFields(name, ord, sum);
      CmpFromMeans(up, buf, name, ord, sum, 13 * (ord - 1), 0, 1);
    }
    if AllAccepted(up, buf, name, sum) {
      forall q: nat | q < 13 * SlotCount(name)
        ensures Agrees(up, buf, name, q)
      {
        assert Cmp(up, buf, MakeSlot(name, q / 13 + 1, sum));
        assert Rest(up, buf, name, 13 * (q / 13), q / 13 + 1);
      }
      assert Cmp(up, buf, MakeSlot(name, SlotCount(name), sum));
    }
  }

  // ---------------------------------------------------------------- gathering

  /** The loop of pick_lfn from unit `s` on; None is a buffer overflow or a bad filler. */
  function PickFrom(buf: seq<Unit>, slot: Slot, i: nat, s: nat, wc: Unit): (r: Option<seq<Unit>>)
    requires |buf| == MAX_LFN + 1 && s <= 13
    ensures r.Some? ==> |r.value| == MAX_LFN + 1
    decreases 13 - s
  {
    if s == 13 then
      if !IsLast(slot) then Some(buf) else if i >= MAX_LFN then None else Some(Put(buf, i, 0))
    else
      var uc := SlotUnit(slot, s);
      if wc != 0 then
        if i >= MAX_LFN then None else PickFrom(Put(buf, i, uc), slot, i + 1, s + 1, uc)
      else if uc != 0xFFFF then None
      else PickFrom(buf, slot, i, s + 1, 0)
  }

  function Put(buf: seq<Unit>, i: nat, u: Unit): seq<Unit>
    requires i < |buf|
  {
    buf[i := u]
  }

  function Pick(buf: seq<Unit>, slot: Slot): (r: Option<seq<Unit>>)
    requires |buf| == MAX_LFN + 1
    ensures r.Some? ==> |r.value| == MAX_LFN + 1
  {
    PickFrom(buf, slot, Offset(slot[0] % LLE), 0, 1)
  }

  /** Names that dir_read can return: pick_lfn needs room for the terminator it reads and the one it adds. */
  predicate Readable(name: Name) {
    |name| + 2 <= MAX_LFN
  }

  lemma {:induction false} PickFromMeans(buf: seq<Unit>, name: Name, ord: nat, sum: Byte, i: nat, s: nat, wc: Unit)
    requires |buf| == MAX_LFN + 1 && |name| <= MAX_LFN && 0 !in name && 1 <= ord <= SlotCount(name) && s <= 13
    requires wc == 0 <==> 13 * (ord - 1) + s > |name|
    requires i == if wc == 0 then |name| + 1 else 13 * (ord - 1) + s
    requires i <= MAX_LFN + 1
    ensures
      var r := PickFrom(buf, MakeSlot(name, ord, sum), i, s, wc);
      && (r.None? <==> ord == SlotCount(name) && !Readable(name))
      && (r.Some? ==>
            && (forall j :: 13 * (ord - 1) + s <= j < 13 * ord && j <= |name| ==> r.value[j] == StoredUnit(name, j))
            && (forall j :: 0 <= j < 13 * (ord - 1) + s && j <= |name| ==> r.value[j] == buf[j])
            && (ord < SlotCount(name) ==> forall j :: 13 * ord <= j <= MAX_LFN ==> r.value[j] == buf[j])
            && (13 * ord == |name| ==> r.value[|name|] == 0))
    decreases 13 - s
  {
    hide MakeSlot, SlotUnit, IsLast;
    if s == 13 {
      SlotFields(name, ord, sum);
    } else {
      SlotHolds(name, ord, sum, s);
      var uc := StoredUnit(name, 13 * (ord - 1) + s);
      if wc != 0 {
        if i < MAX_LFN {
          PickFromMeans(Put(buf, i, uc), name, ord, sum, i + 1, s + 1, uc);
        }
      } else {
        PickFromMeans(buf, name, ord, sum, i, s + 1, 0);
      }
    }
  }

  /** Picking parts `ord`, `ord - 1`, ..., 1 of a name, the order in which they are stored. */
  function Gather(buf: seq<Unit>, name: Name, ord: nat, sum: Byte): (r: Option<seq<Unit>>)
    requires |buf| == MAX_LFN + 1 && ord < LLE
    ensures r.Some? ==> |r.value| == MAX_LFN + 1
    decreases ord
  {
    if ord == 0 then Some(buf)
    else
      match Pick(buf, MakeSlot(name, ord, sum))
      case None => None
      case Some(b) => Gather(b, name, ord - 1, sum)
  }

  /** The buffer holds the name from position `k` on. */
  ghost predicate HoldsFrom(buf: seq<Unit>, name: Name, k: nat)
    requires |buf| == MAX_LFN + 1 && |name| <= MAX_LFN
  {
    forall j :: k <= j <= |name| ==> buf[j] == StoredUnit(name, j)
  }

  lemma PickPart(buf: seq<Unit>, name: Name, ord: nat, sum: Byte)
    requires |buf| == MAX_LFN + 1 && |name| <= MAX_LFN && 0 !in name && 1 <= ord < SlotCount(name)
    requires HoldsFrom(buf, name, 13 * ord)
    ensures Pick(buf, MakeSlot(name, ord, sum)).Some?
    ensures HoldsFrom(Pick(buf, MakeSlot(name, ord, sum)).value, name, 13 * (ord - 1))
  {
    hide MakeSlot, PickFrom;
    SlotFields(name, ord, sum);
    PickFromMeans(buf, name, ord, sum, 13 * (ord - 1), 0, 1);
  }

  lemma {:induction false} GatherRest(buf: seq<Unit>, name: Name, ord: nat, sum: Byte)
    requires |buf| == MAX_LFN + 1 && |name| <= MAX_LFN && 0 !in name && ord < SlotCount(name)
    requires HoldsFrom(buf, name, 13 * ord)
    ensures Gather(buf, name, ord, sum).Some? && HoldsFrom(Gather(buf, name, ord, sum).value, name, 0)
    decreases ord
  {
    hide MakeSlot, Pick, HoldsFrom;
    if ord == 0 {
    } else {
      PickPart(buf, name, ord, sum);
      GatherRest(Pick(buf, MakeSlot(name, ord, sum)).value, name, ord - 1, sum);
    }
  }

  /** Splitting a name into slots and gathering them returns the name, from any buffer; a name too close to the buffer's
      end is rejected. */
  lemma RoundTrip(buf: seq<Unit>, name: Name, sum: Byte)
    requires |buf| == MAX_LFN + 1 && 1 <= |name| <= MAX_LFN && 0 !in name
    ensures Gather(buf, name, SlotCount(name), sum).Some? <==> Readable(name)
    ensures Readable(name) ==> Holds(Gather(buf, name, SlotCount(name), sum).value, name)
  {
    hide MakeSlot, PickFrom;
    var m := SlotCount(name);
    SlotFields(name, m, sum);
    PickFromMeans(buf, name, m, sum, 13 * (m - 1), 0, 1);
    if Readable(name) {
      var b := Pick(buf, MakeSlot(name, m, sum)).value;
      GatherRest(b, name, m - 1, sum);
      var r := Gather(b, name, m - 1, sum).value;
      assert r[|name|] == StoredUnit(name, |name|);
      assert forall j :: 0 <= j < |name| ==> r[..|name|][j] == name[j];
    }
  }

  /** The last-slot flag is set on exactly one of a name's slots, the one stored first. */
  lemma LastSlotUnique(name: Name, ord: nat, sum: Byte)
    requires 1 <= |name| <= MAX_LFN && 1 <= ord <= SlotCount(name)
    ensures IsLast(MakeSlot(name, ord, sum)) <==> ord == SlotCount(name)
  {
    SlotFields(name, ord, sum);
  }

  // ---------------------------------------------------------------- the code

  method FitLfn(lfnbuf: seq<Unit>, dir: array<Byte>, ord0: Byte, sum: Byte, ghost name: Name)
    requires Holds(lfnbuf, name) && Plain(name) && dir.Length == 32 && 1 <= ord0 <= SlotCount(name)
    modifies dir
    ensures dir[..] == MakeSlot(name, ord0, sum)
  {
    hide UnitAt;
    var ord := ord0;
    dir[13] := sum;
    dir[11] := AM_LFN;
    dir[12] := 0;
    dir[26], dir[27] := 0, 0;
    var i: nat := (ord as nat - 1) * 13;
    var s: nat := 0;
    var wc: Unit := 0;
    ghost var p0 := i;
    while true
      invariant s < 13 && dir.Length == 32
      invariant wc == 0xFFFF <==> p0 + s > |name|
      invariant i == if wc == 0xFFFF then |name| + 1 else p0 + s
      invariant dir[11] == AM_LFN && dir[12] == 0 && dir[13] == sum && dir[26] == 0 && dir[27] == 0
      invariant forall t :: 0 <= t < s ==> SlotUnit(dir[..], t) == StoredUnit(name, p0 + t)
      decreases 13 - s
    {
      if wc != 0xFFFF {
        wc := lfnbuf[i];
        i := i + 1;
      }
      assert wc == StoredUnit(name, p0 + s);
      StoreUnit(dir, s, wc);
      if wc == 0 {
        wc := 0xFFFF;
      }
      s := s + 1;
      if s >= 13 {
        break;
      }
    }
    if wc == 0xFFFF || lfnbuf[i] == 0 {
      ord := if ord / LLE % 2 == 1 then ord else ord + LLE;
    }
    ghost var d := dir[..];
    dir[0] := ord;
    assert dir[1..] == d[1..];
    UnitsMakeSlot(d, dir[..], name, ord0, sum);
  }

  /** Once the units are in place, storing the order byte completes the slot. */
  lemma UnitsMakeSlot(d: Slot, e: Slot, name: Name, ord: nat, sum: Byte)
    requires 1 <= ord < LLE && e[1..] == d[1..]
    requires e[0] == if 13 * ord >= |name| then ord + LLE else ord
    requires d[11] == AM_LFN && d[12] == 0 && d[13] == sum && d[26] == 0 && d[27] == 0
    requires forall t :: 0 <= t < 13 ==> SlotUnit(d, t) == StoredUnit(name, 13 * (ord - 1) + t)
    ensures e == MakeSlot(name, ord, sum)
  {
    hide StoredUnit;
    assert forall i :: 1 <= i < 32 ==> e[i] == e[1..][i - 1] && d[i] == d[1..][i - 1];
    SlotFields(name, ord, sum);
    forall t | 0 <= t < 13
      ensures SlotUnit(e, t) == SlotUnit(MakeSlot(name, ord, sum), t)
    {
      hide MakeSlot;
      LfnOfsIs(t);
      assert SlotUnit(d, t) == SlotUnit(e, t);
      SlotHolds(name, ord, sum, t);
    }
    SlotDetermined(e, MakeSlot(name, ord, sum));
  }

  /** ST_WORD at unit `s`. */
  method StoreUnit(dir: array<Byte>, s: nat, wc: Unit)
    requires dir.Length == 32 && s < 13
    modifies dir
    ensures SlotUnit(dir[..], s) == wc
    ensures forall t :: 0 <= t < 13 && t != s ==> SlotUnit(dir[..], t) == old(SlotUnit(dir[..], t))
    ensures forall o :: o in [0, 11, 12, 13, 26, 27] ==> dir[o] == old(dir[o])
  {
    dir[LfnOfs(s)], dir[LfnOfs(s) + 1] := wc % 0x100, wc / 0x100;
    forall t | 0 <= t < 13 && t != s
      ensures SlotUnit(dir[..], t) == old(SlotUnit(dir[..], t))
    {
      UnitsApart(s, t);
    }
  }

  method CmpLfn(up: Folding, lfnbuf: seq<Unit>, dir: Slot) returns (r: bool)
    requires |lfnbuf| == MAX_LFN + 1
    ensures r == Cmp(up, lfnbuf, dir)
  {
    var i: nat := Offset(Order(dir[0]));
    var s: nat := 0;
    var wc: Unit := 1;
    while s < 13
      invariant s <= 13 && (s == 0 ==> wc == 1) && (s > 0 ==> i <= MAX_LFN)
      invariant Cmp(up, lfnbuf, dir) == CmpFrom(up, lfnbuf, dir, i, s, wc)
    {
      var uc := SlotUnit(dir, s);
      if wc != 0 {
        wc := up(uc);
        if i >= MAX_LFN || wc != up(lfnbuf[i]) {
          return false;
        }
        i := i + 1;
      } else if uc != 0xFFFF {
        return false;
      }
      s := s + 1;
    }
    if IsLast(dir) && wc != 0 && lfnbuf[i] != 0 {
      return false;
    }
    r := true;
  }

  /** What a rejected slot may leave in the buffer: some of its units at their places, and everything else as it was. */
  ghost predicate PartlyPicked(buf: seq<Unit>, buf': seq<Unit>, slot: Slot) {
    && |buf'| == |buf|
    && forall j: nat :: j < |buf| ==>
         buf'[j] == buf[j]
         || (Offset(slot[0] % LLE) <= j < Offset(slot[0] % LLE) + 13
             && buf'[j] == SlotUnit(slot, j - Offset(slot[0] % LLE)))
  }

  lemma PickedNothing(buf: seq<Unit>, slot: Slot)
    ensures PartlyPicked(buf, buf, slot)
  {}

  lemma PickedOne(buf: seq<Unit>, buf': seq<Unit>, slot: Slot, s: nat)
    requires PartlyPicked(buf, buf', slot) && s < 13 && Offset(slot[0] % LLE) + s < |buf|
    ensures PartlyPicked(buf, Put(buf', Offset(slot[0] % LLE) + s, SlotUnit(slot, s)), slot)
  {
    hide SlotUnit, Offset;
  }

  method PickLfn(lfnbuf: array<Unit>, dir: Slot) returns (ok: bool)
    requires lfnbuf.Length == MAX_LFN + 1
    modifies lfnbuf
    ensures ok <==> Pick(old(lfnbuf[..]), dir).Some?
    ensures ok ==> Some(lfnbuf[..]) == Pick(old(lfnbuf[..]), dir)
    ensures !ok ==> PartlyPicked(old(lfnbuf[..]), lfnbuf[..], dir)
  {
    hide SlotUnit, IsLast, Offset, PartlyPicked;
    PickedNothing(lfnbuf[..], dir);
    var i: nat := Offset(dir[0] % LLE);
    var s: nat := 0;
    var wc: Unit := 1;
    while s < 13
      invariant s <= 13
      invariant Pick(old(lfnbuf[..]), dir) == PickFrom(lfnbuf[..], dir, i, s, wc)
      invariant PartlyPicked(old(lfnbuf[..]), lfnbuf[..], dir)
      invariant wc != 0 ==> i == Offset(dir[0] % LLE) + s
    {
      var uc := SlotUnit(dir, s);
      if wc != 0 {
        if i >= MAX_LFN {
          return false;
        }
        ghost var b := lfnbuf[..];
        PickedOne(old(lfnbuf[..]), b, dir, s);
        lfnbuf[i] := uc;
        assert lfnbuf[..] == Put(b, i, uc);
        wc := uc;
        i := i + 1;
      } else if uc != 0xFFFF {
        return false;
      }
      s := s + 1;
    }
    if IsLast(dir) {
      if i >= MAX_LFN {
        return false;
      }
      ghost var b := lfnbuf[..];
      lfnbuf[i] := 0;
      assert lfnbuf[..] == Put(b, i, 0);
    }
    ok := true;
  }

  // ---------------------------------------------------------------- the checksum

  /** One round of sum_sfn: rotate right, add. */
  function Rotate(sum: Byte, b: Byte): Byte {
    (sum / 2 + sum * 0x80 % 0x100 + b) % 0x100
  }

  /** sum_sfn over the first `n` bytes of a short name. */
  function SumOf(s: Sector, n: nat): Byte
    requires n <= |s|
  {
    if n == 0 then 0 else Rotate(SumOf(s, n - 1), s[n - 1])
  }

  /** Each round adds a byte to the sum rotated right by one bit: `r` rotated left is the sum before. */
  lemma SumRotates(s: Sector, n: nat) returns (r: Byte)
    requires n < |s|
    ensures SumOf(s, 0) == 0
    ensures 2 * (r % 0x80) + r / 0x80 == SumOf(s, n) && SumOf(s, n + 1) == (r + s[n]) % 0x100
  {
    var sum: nat := SumOf(s, n);
    var k, b := sum / 2, sum % 2;
    RotatedBits(k, b);
    r := k + 0x80 * b;
    assert sum == 2 * k + b;
    assert SumOf(s, n + 1) == Rotate(sum, s[n]);
  }

  /** A byte of seven high bits `k` and a low bit `b`, rotated. */
  lemma RotatedBits(k: nat, b: nat)
    requires k < 0x80 && b < 2
    ensures (2 * k + b) * 0x80 % 0x100 == 0x80 * b
    ensures (k + 0x80 * b) % 0x80 == k && (k + 0x80 * b) / 0x80 == b
  {
    if b == 0 {
      assert 2 * k * 0x80 == 0x100 * k;
    } else {
      assert (2 * k + 1) * 0x80 == 0x100 * k + 0x80;
    }
  }

  /** The checksum of the short name "LONGFI~1TXT" is 0xD4. */
  lemma SumOfLongfile(s: Sector)
    requires |s| >= 11 && forall i :: 0 <= i < 11 ==> s[i] == "LONGFI~1TXT"[i] as int
    ensures SumOf(s, 11) == 0xD4
  {
    hide SumOf;
    SumNothing(s);
    SumStep(s, 0, 0x00, 0x4C);
    SumStep(s, 1, 0x4C, 0x4F);
    SumStep(s, 2, 0x75, 0x4E);
    SumStep(s, 3, 0x08, 0x47);
    SumStep(s, 4, 0x4B, 0x46);
    SumStep(s, 5, 0xEB, 0x49);
    SumStep(s, 6, 0x3E, 0x7E);
    SumStep(s, 7, 0x9D, 0x31);
    SumStep(s, 8, 0xFF, 0x54);
    SumStep(s, 9, 0x53, 0x58);
    SumStep(s, 10, 0x01, 0x54);
  }

  lemma SumNothing(s: Sector)
    ensures SumOf(s, 0) == 0
  {}

  lemma SumStep(s: Sector, n: nat, sum: Byte, b: Byte)
    requires n < |s| && SumOf(s, n) == sum && s[n] == b
    ensures SumOf(s, n + 1) == Rotate(sum, b)
  {}

  method SumSfn(dir: Sector) returns (sum: Byte)
    requires |dir| >= 11
    ensures sum == SumOf(dir, 11)
  {
    sum := 0;
    var n := 11;
    while n > 0
      invariant 0 <= n <= 11 && sum == SumOf(dir, 11 - n)
    {
      sum := (sum / 2 + sum as nat * 0x80 % 0x100 + dir[11 - n]) % 0x100;
      n := n - 1;
    }
  }

  /** The checksum depends on the short name only. */
  lemma {:induction false} SumLocal(a: Sector, b: Sector, n: nat)
    requires n <= |a| && n <= |b| && a[..n] == b[..n]
    ensures SumOf(a, n) == SumOf(b, n)
  {
    if n == 0 {
    } else {
      assert a[..n - 1] == a[..n][..n - 1] && b[..n - 1] == b[..n][..n - 1];
      assert a[n - 1] == a[..n][n - 1] && b[n - 1] == b[..n][n - 1];
      SumLocal(a, b, n - 1);
    }
  }
}
