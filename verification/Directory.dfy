/** Directory tables as sequences of 32-byte slots, and the abstract directory of named objects they represent. */
module Directory {
  import opened Bytes
  import opened Lfn

  const DDE: Byte := 0xE5
  const NO_LFN: nat := 0xFFFF

  type Table = seq<Slot>

  predicate IsBlank(e: Slot): (r: bool)
    ensures r <==> e[0] == 0 || e[0] == 0xE5
  {
    e[0] == 0 || e[0] == DDE
  }

  predicate IsLong(e: Slot): (r: bool)
    ensures r <==> e[11] % 0x40 == 0x0F
  {
    e[11] % 0x40 == AM_LFN
  }

  /** A volume label. */
  predicate IsLabel(e: Slot) {
    e[11] / 8 % 2 == 1 && !IsLong(e)
  }

  /** What dir_find looks for: the long-name buffer (None: only short names), the name in it, the short name and its
      NS_LOSS flag. */
  datatype Query = Query(lfn: Option<seq<Unit>>, name: Name, fn: Sector, loss: bool)

  ghost predicate QueryOk(q: Query) {
    && |q.fn| == 11
    && (q.lfn.Some? ==> Holds(q.lfn.value, q.name))
  }

  // ---------------------------------------------------------------- the slot automaton

  datatype Scan = Scan(ord: Byte, sum: Byte, lfnIdx: nat)

  /** Where an object was found: its short-name slot, and its first long-name slot or NO_LFN. */
  datatype Hit = Hit(index: nat, lfnIdx: nat)

  /** dir_find on a long-name slot at index `i`. */
  function LongStep(up: Folding, q: Query, e: Slot, i: nat, s: Scan): Scan
    requires q.lfn.Some? ==> |q.lfn.value| == MAX_LFN + 1
  {
    if q.lfn.None? then s
    else
      var c := Order(e[0]);
      var s1 := if IsLast(e) then Scan(c, e[13], i) else s;
      var ok := c == s1.ord && s1.sum == e[13] && Cmp(up, q.lfn.value, e);
      s1.(ord := if ok then (s1.ord + 0xFF) % 0x100 else 0xFF)
  }

  /** The loop of dir_find from index `i` on. */
  function FindFrom(up: Folding, table: Table, q: Query, i: nat, s: Scan): Option<Hit>
    requires (q.lfn.Some? ==> |q.lfn.value| == MAX_LFN + 1) && i <= |table|
    decreases |table| - i
  {
    if i == |table| then None
    else
      var e := table[i];
      if e[0] == 0 then None
      else if e[0] == DDE || IsLabel(e) then FindFrom(up, table, q, i + 1, s.(ord := 0xFF))
      else if IsLong(e) then FindFrom(up, table, q, i + 1, LongStep(up, q, e, i, s))
      else if s.ord == 0 && s.sum == SumOf(e, 11) then Some(Hit(i, s.lfnIdx))
      else if !q.loss && e[..11] == q.fn then Some(Hit(i, NO_LFN))
      else FindFrom(up, table, q, i + 1, Scan(0xFF, s.sum, NO_LFN))
  }

  function Find(up: Folding, table: Table, q: Query): Option<Hit>
    requires q.lfn.Some? ==> |q.lfn.value| == MAX_LFN + 1
  {
    FindFrom(up, table, q, 0, Scan(0xFF, 0xFF, 0))
  }

  // ---------------------------------------------------------------- the abstract directory

  /** What a well-formed table is made of. An object without a long name has the empty `name`. */
  datatype Item = Blank(e: Slot) | Label(e: Slot) | Object(name: Name, sfn: Slot)

  predicate ItemOk(x: Item) {
    match x
    case Blank(e) => e[0] == DDE
    case Label(e) => !IsBlank(e) && IsLabel(e)
    case Object(name, sfn) => !IsBlank(sfn) && sfn[11] / 8 % 2 == 0 && |name| <= MAX_LFN && 0 !in name
  }

  /** The long-name slots of a name, last part first. */
  function LongSlots(name: Name, sum: Byte): (t: Table)
    requires |name| <= MAX_LFN
    ensures |t| == SlotCount(name)
  {
    seq(SlotCount(name), k requires 0 <= k < SlotCount(name) => MakeSlot(name, SlotCount(name) - k, sum))
  }

  function Slots(x: Item): (t: Table)
    requires ItemOk(x)
    ensures |t| == Width(x)
  {
    match x
    case Blank(e) => [e]
    case Label(e) => [e]
    case Object(name, sfn) => LongSlots(name, SumOf(sfn, 11)) + [sfn]
  }

  /** Number of slots an item takes. */
  function Width(x: Item): (n: nat)
    ensures n >= 1
  {
    if x.Object? then SlotCount(x.name) + 1 else 1
  }

  predicate ItemsOk(items: seq<Item>) {
    forall i :: 0 <= i < |items| ==> ItemOk(items[i])
  }

  function Render(items: seq<Item>): Table
    requires ItemsOk(items)
  {
    if items == [] then [] else Slots(items[0]) + Render(items[1..])
  }

  /** Slots that were never used: their first byte ends every search. */
  predicate Unused(t: Table) {
    forall i :: 0 <= i < |t| ==> t[i][0] == 0
  }

  /** The table holds exactly these items, with only unused slots behind them. */
  ghost predicate Represents(table: Table, items: seq<Item>) {
    && ItemsOk(items) && |Render(items)| <= |table|
    && table[..|Render(items)|] == Render(items) && Unused(table[|Render(items)|..])
  }

  ghost predicate WellFormed(table: Table) {
    exists items :: Represents(table, items)
  }

  // ---------------------------------------------------------------- lookup by name

  predicate LongMatch(up: Folding, x: Item, q: Query) {
    x.Object? && x.name != [] && q.lfn.Some? && SameFolded(up, x.name, q.name) && Findable(x.name)
  }

  predicate ShortMatch(x: Item, q: Query) {
    x.Object? && !q.loss && x.sfn[..11] == q.fn
  }

  /** How an item at slot `p` answers the query. */
  function Answer(up: Folding, x: Item, q: Query, p: nat): Option<Hit> {
    if LongMatch(up, x, q) then Some(Hit(p + Width(x) - 1, p))
    else if ShortMatch(x, q) then Some(Hit(p + Width(x) - 1, NO_LFN))
    else None
  }

  /** The first object that answers; the items start at slot `p`. */
  function Lookup(up: Folding, items: seq<Item>, q: Query, p: nat): Option<Hit> {
    if items == [] then None
    else if Answer(up, items[0], q, p).Some? then Answer(up, items[0], q, p)
    else Lookup(up, items[1..], q, p + Width(items[0]))
  }

  // ---------------------------------------------------------------- the automaton computes the lookup

  /** The parts above `k` of a stored name are accepted. */
  ghost predicate AcceptedAbove(up: Folding, buf: seq<Unit>, name: Name, sum: Byte, k: nat)
    requires |buf| == MAX_LFN + 1 && |name| <= MAX_LFN
  {
    forall ord :: k < ord <= SlotCount(name) ==> Cmp(up, buf, MakeSlot(name, ord, sum))
  }

  /** The long-name slots of an object lie at `p` and its short-name slot behind them. */
  ghost predicate ObjectAt(table: Table, name: Name, sfn: Slot, p: nat) {
    var m := SlotCount(name);
    && |name| <= MAX_LFN && p + m < |table| && table[p + m] == sfn
    && forall k {:trigger MakeSlot(name, k, SumOf(sfn, 11))} ::
         1 <= k <= m ==> table[p + m - k] == MakeSlot(name, k, SumOf(sfn, 11))
  }

  lemma LongSlotKind(name: Name, ord: nat, sum: Byte)
    requires 1 <= ord < LLE
    ensures
      var e := MakeSlot(name, ord, sum);
      !IsBlank(e) && IsLong(e) && !IsLabel(e)
  {
    SlotFields(name, ord, sum);
  }

  /** Running the automaton over the parts `k`, `k - 1`, ..., 1 of a long name reaches the short-name slot with order 0
      exactly if all parts were accepted. */
  lemma {:induction false} LongRun(up: Folding, table: Table, q: Query, name: Name, sfn: Slot, p: nat, k: nat, s: Scan)
    returns (s': Scan)
    requires QueryOk(q) && q.lfn.Some? && ObjectAt(table, name, sfn, p) && k <= SlotCount(name)
    requires k < SlotCount(name) ==>
      var ok := AcceptedAbove(up, q.lfn.value, name, SumOf(sfn, 11), k);
      s.ord == (if ok then k else 0xFF) && (ok ==> s.sum == SumOf(sfn, 11) && s.lfnIdx == p)
    requires k == SlotCount(name) ==> s.ord == 0xFF
    ensures
      var ok := name != [] && AcceptedAbove(up, q.lfn.value, name, SumOf(sfn, 11), 0);
      && s'.ord == (if ok then 0 else 0xFF) && (ok ==> s'.sum == SumOf(sfn, 11) && s'.lfnIdx == p)
      && FindFrom(up, table, q, p + SlotCount(name) - k, s) == FindFrom(up, table, q, p + SlotCount(name), s')
    decreases k
  {
    hide Cmp, MakeSlot, SumOf;
    s' := s;
    if k == 0 {
    } else {
      var sum := SumOf(sfn, 11);
      var e := MakeSlot(name, k, sum);
      LongSlotKind(name, k, sum);
      SlotFields(name, k, sum);
      LastSlotUnique(name, k, sum);
      var i := p + SlotCount(name) - k;
      assert table[i] == e;
      var s1 := LongStep(up, q, e, i, s);
      assert AcceptedAbove(up, q.lfn.value, name, sum, k - 1) <==>
        AcceptedAbove(up, q.lfn.value, name, sum, k) && Cmp(up, q.lfn.value, e);
      s' := LongRun(up, table, q, name, sfn, p, k - 1, s1);
    }
  }

  /** A search for short names only passes over long-name slots. */
  lemma {:induction false} LongSkip(up: Folding, table: Table, q: Query, name: Name, sfn: Slot, p: nat, k: nat, s: Scan)
    requires q.lfn.None? && ObjectAt(table, name, sfn, p) && k <= SlotCount(name)
    ensures FindFrom(up, table, q, p + SlotCount(name) - k, s) == FindFrom(up, table, q, p + SlotCount(name), s)
    decreases k
  {
    hide MakeSlot, SumOf;
    if k == 0 {
    } else {
      LongSlotKind(name, k, SumOf(sfn, 11));
      assert table[p + SlotCount(name) - k] == MakeSlot(name, k, SumOf(sfn, 11));
      LongSkip(up, table, q, name, sfn, p, k - 1, s);
    }
  }

  /** The item's slots lie at `p`. */
  ghost predicate ItemAt(table: Table, x: Item, p: nat) {
    ItemOk(x) && p + Width(x) <= |table| && table[p..p + Width(x)] == Slots(x)
  }

  /** What the slots of an object are, by position. */
  lemma ObjectSlots(x: Item, k: nat)
    requires ItemOk(x) && x.Object? && k <= SlotCount(x.name)
    ensures Slots(x)[SlotCount(x.name) - k] == if k == 0 then x.sfn else MakeSlot(x.name, k, SumOf(x.sfn, 11))
  {
    hide SlotByte, SumOf;
    if k > 0 {
      assert LongSlots(x.name, SumOf(x.sfn, 11))[SlotCount(x.name) - k] == MakeSlot(x.name, k, SumOf(x.sfn, 11));
    }
  }

  lemma SlotOfItem(table: Table, x: Item, p: nat, j: nat)
    requires ItemAt(table, x, p) && j < Width(x)
    ensures table[p + j] == Slots(x)[j]
  {
    hide Slots, ItemOk;
    assert table[p + j] == table[p..p + Width(x)][j];
  }

  lemma ItemIsObject(table: Table, x: Item, p: nat)
    requires ItemAt(table, x, p) && x.Object?
    ensures ObjectAt(table, x.name, x.sfn, p)
  {
    var m := SlotCount(x.name);
    var sum := SumOf(x.sfn, 11);
    ItemAtFits(table, x, p);
    hide MakeSlot, SumOf, ItemAt, Slots, ItemOk;
    SlotOfItem(table, x, p, m);
    ObjectSlots(x, 0);
    forall k {:trigger MakeSlot(x.name, k, sum)} | 1 <= k <= m
      ensures table[p + m - k] == MakeSlot(x.name, k, sum)
    {
      SlotOfItem(table, x, p, m - k);
      ObjectSlots(x, k);
    }
  }

  lemma ItemAtFits(table: Table, x: Item, p: nat)
    requires ItemAt(table, x, p)
    ensures ItemOk(x) && p + Width(x) <= |table|
  {}

  /** From an item boundary the automaton gives the item's answer or reaches the next boundary in a start state. */
  lemma ItemRun(up: Folding, table: Table, q: Query, x: Item, p: nat, s: Scan) returns (s': Scan)
    requires Folds(up) && QueryOk(q) && ItemAt(table, x, p) && s.ord == 0xFF
    ensures Answer(up, x, q, p).Some? ==> FindFrom(up, table, q, p, s) == Answer(up, x, q, p)
    ensures Answer(up, x, q, p).None? ==>
      s'.ord == 0xFF && FindFrom(up, table, q, p, s) == FindFrom(up, table, q, p + Width(x), s')
  {
    s' := s;
    if x.Object? {
      s' := ObjectRun(up, table, q, x, p, s);
    } else {
      assert table[p] == table[p..p + 1][0] == x.e;
    }
  }

  lemma ObjectRun(up: Folding, table: Table, q: Query, x: Item, p: nat, s: Scan) returns (s': Scan)
    requires Folds(up) && QueryOk(q) && ItemAt(table, x, p) && s.ord == 0xFF && x.Object?
    ensures Answer(up, x, q, p).Some? ==> FindFrom(up, table, q, p, s) == Answer(up, x, q, p)
    ensures Answer(up, x, q, p).None? ==>
      s'.ord == 0xFF && FindFrom(up, table, q, p, s) == FindFrom(up, table, q, p + Width(x), s')
  {
    hide MakeSlot, SumOf, Cmp, SameFolded, Holds, LongStep, ItemAt, FindFrom, Slots, ObjectAt;
    ItemAtFits(table, x, p);
    ItemIsObject(table, x, p);
    var m := SlotCount(x.name);
    var s1 := s;
    if q.lfn.Some? {
      s1 := LongRun(up, table, q, x.name, x.sfn, p, m, s);
      if x.name != [] {
        CmpIsEquality(up, q.lfn.value, q.name, x.name, SumOf(x.sfn, 11));
      }
    } else {
      LongSkip(up, table, q, x.name, x.sfn, p, m, s);
    }
    ShortRun(up, table, q, x, p, s1);
    s' := Scan(0xFF, s1.sum, NO_LFN);
  }

  /** The automaton at the short-name slot. */
  lemma ShortRun(up: Folding, table: Table, q: Query, x: Item, p: nat, s: Scan)
    requires QueryOk(q) && ItemOk(x) && x.Object? && ObjectAt(table, x.name, x.sfn, p)
    ensures FindFrom(up, table, q, p + SlotCount(x.name), s) ==
      if s.ord == 0 && s.sum == SumOf(x.sfn, 11) then Some(Hit(p + SlotCount(x.name), s.lfnIdx))
      else if ShortMatch(x, q) then Some(Hit(p + SlotCount(x.name), NO_LFN))
      else FindFrom(up, table, q, p + Width(x), Scan(0xFF, s.sum, NO_LFN))
  {
    hide MakeSlot, SumOf, Cmp, LongStep;
  }

  /** The items are rendered from `p` on, and only unused slots follow. */
  ghost predicate RenderedAt(table: Table, items: seq<Item>, p: nat) {
    && ItemsOk(items) && p + |Render(items)| <= |table|
    && table[p..p + |Render(items)|] == Render(items) && Unused(table[p + |Render(items)|..])
  }

  lemma RenderedSplit(table: Table, items: seq<Item>, p: nat)
    requires RenderedAt(table, items, p) && items != []
    ensures ItemAt(table, items[0], p) && RenderedAt(table, items[1..], p + Width(items[0]))
  {
    hide Slots, Unused;
    var r := Render(items);
    var w := Width(items[0]);
    assert r == Slots(items[0]) + Render(items[1..]);
    assert table[p..p + w] == r[..w];
    assert table[p + w..p + |r|] == r[w..];
  }

  lemma UnusedEnd(up: Folding, table: Table, q: Query, p: nat, s: Scan)
    requires QueryOk(q) && RenderedAt(table, [], p)
    ensures FindFrom(up, table, q, p, s) == None
  {
    assert p < |table| ==> table[p] == table[p..][0];
  }

  lemma {:induction false} ItemsRun(up: Folding, table: Table, q: Query, items: seq<Item>, p: nat, s: Scan)
    requires Folds(up) && QueryOk(q) && RenderedAt(table, items, p) && s.ord == 0xFF
    ensures FindFrom(up, table, q, p, s) == Lookup(up, items, q, p)
    decreases |items|
  {
    hide RenderedAt, ItemAt, Answer, FindFrom, QueryOk, Folds;
    if items == [] {
      UnusedEnd(up, table, q, p, s);
    } else {
      RenderedSplit(table, items, p);
      var s' := ItemRun(up, table, q, items[0], p, s);
      if Answer(up, items[0], q, p).None? {
        ItemsRun(up, table, q, items[1..], p + Width(items[0]), s');
      }
    }
  }

  /** dir_find over the slots of a well-formed directory is lookup by name over its objects: the first object whose long
      name equals the query up to case, or whose short name is the query's. */
  lemma FindIsLookup(up: Folding, table: Table, items: seq<Item>, q: Query)
    requires Folds(up) && QueryOk(q) && Represents(table, items)
    ensures Find(up, table, q) == Lookup(up, items, q, 0)
  {
    hide Render, FindFrom, Lookup, Unused;
    assert RenderedAt(table, items, 0);
    ItemsRun(up, table, q, items, 0, Scan(0xFF, 0xFF, 0));
  }

  lemma OneItem(x: Item)
    requires ItemOk(x)
    ensures Represents(Slots(x), [x])
  {
    hide Slots;
    assert Render([x]) == Slots(x) + Render([]);
  }

  /** Long names that another system stored in front of the short name "LONGFI~1TXT" carry the checksum 0xD4, and are
      found. */
  lemma StoredElsewhereIsFound(up: Folding, name: Name, sfn: Slot, q: Query)
    requires Folds(up) && QueryOk(q) && q.lfn.Some? && SameFolded(up, name, q.name)
    requires 1 <= |name| < 255 && 0 !in name
    requires (forall i :: 0 <= i < 11 ==> sfn[i] == "LONGFI~1TXT"[i] as int) && sfn[11] / 8 % 2 == 0
    ensures Find(up, LongSlots(name, 0xD4) + [sfn], q) == Some(Hit((|name| + 12) / 13, 0))
  {
    hide Find, LongSlots, SumOf;
    SumOfLongfile(sfn);
    var x := Object(name, sfn);
    OneItem(x);
    FindIsLookup(up, LongSlots(name, 0xD4) + [sfn], [x], q);
  }

  /** The search passes over a volume label, archived or not, whatever its name. */
  lemma LabelIsPassed(up: Folding, table: Table, items: seq<Item>, q: Query, e: Slot)
    requires Folds(up) && QueryOk(q) && Represents(table, items)
    requires e[0] != 0 && e[0] != 0xE5 && (e[11] == 0x08 || e[11] == 0x28)
    ensures Represents([e] + table, [Label(e)] + items) && Find(up, [e] + table, q) == Lookup(up, items, q, 1)
  {
    hide Find;
    var t, r := [e] + table, Render(items);
    assert ([Label(e)] + items)[1..] == items;
    assert Render([Label(e)] + items) == [e] + r;
    assert t[..1 + |r|] == [e] + table[..|r|];
    assert t[1 + |r|..] == table[|r|..];
    FindIsLookup(up, t, [Label(e)] + items, q);
  }

  /** A file or a directory is found by its short name, with its attributes as they may be. */
  lemma ShortIsFound(up: Folding, q: Query, e: Slot)
    requires Folds(up) && QueryOk(q) && !q.loss && e[..11] == q.fn
    requires e[0] != 0 && e[0] != 0xE5 && e[11] / 0x08 % 2 == 0
    ensures Find(up, [e], q) == Some(Hit(0, 0xFFFF))
  {
    hide Find, SumOf;
    OneItem(Object([], e));
    assert Slots(Object([], e)) == [e];
    FindIsLookup(up, [e], [Object([], e)], q);
  }

  /** Outside a long-name sequence the remembered index does not matter. */
  lemma {:induction false} IndexForgotten(up: Folding, table: Table, q: Query, i: nat, s: Scan, l: nat)
    requires (q.lfn.Some? ==> |q.lfn.value| == MAX_LFN + 1) && i <= |table| && s.ord == 0xFF
    ensures FindFrom(up, table, q, i, s) == FindFrom(up, table, q, i, s.(lfnIdx := l))
    decreases |table| - i
  {
    hide Cmp;
    if i == |table| || table[i][0] == 0 {
    } else {
      var e := table[i];
      if e[0] == DDE || IsLabel(e) {
        IndexForgotten(up, table, q, i + 1, s, l);
      } else if IsLong(e) {
        if q.lfn.None? || !IsLast(e) {
          IndexForgotten(up, table, q, i + 1, LongStep(up, q, e, i, s), l);
        }
      }
    }
  }
}
