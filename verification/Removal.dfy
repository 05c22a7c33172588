/** Removing a name (dir_remove): when it keeps the directory well formed, and when it leaves orphan slots behind. */
module Removal {
  import opened Bytes
  import opened Lfn
  import opened Directory
  import opened Registry

  /** A deleted slot: all zero but for the deletion mark. */
  function Deleted(): (e: Slot)
    ensures e[0] == 0xE5 && forall i :: 1 <= i < 32 ==> e[i] == 0
  {
    SetByte(Zeros(32), 0, DDE)
  }

  function DeletedSlots(n: nat): (t: Table)
    ensures |t| == n
  {
    if n == 0 then [] else [Deleted()] + DeletedSlots(n - 1)
  }

  /** The table with the slots [lo, hi) deleted. */
  function Erased(table: Table, lo: nat, hi: nat): (t: Table)
    requires lo <= hi <= |table|
    ensures |t| == |table|
  {
    table[..lo] + DeletedSlots(hi - lo) + table[hi..]
  }

  /** The first slot dir_remove deletes: the first long-name slot, if dir_find reported one. */
  function Top(h: Hit): nat {
    if h.lfnIdx == NO_LFN then h.index else h.lfnIdx
  }

  /** The table dir_remove leaves for an object found as `h`. */
  function Removed(table: Table, h: Hit): Table
    requires Top(h) <= h.index < |table|
  {
    Erased(table, Top(h), h.index + 1)
  }

  // ---------------------------------------------------------------- where objects lie

  /** The item whose last slot is at distance `d` from the first one. */
  function ItemEnding(items: seq<Item>, d: nat): Option<Item> {
    if items == [] then None
    else if d < Width(items[0]) then (if d == Width(items[0]) - 1 then Some(items[0]) else None)
    else ItemEnding(items[1..], d - Width(items[0]))
  }

  /** The items with that item replaced by blank ones. */
  function Without(items: seq<Item>, d: nat): seq<Item> {
    if items == [] then []
    else if d < Width(items[0]) then BlankItems(Width(items[0])) + items[1..]
    else [items[0]] + Without(items[1..], d - Width(items[0]))
  }

  function BlankItems(n: nat): seq<Item> {
    if n == 0 then [] else [Blank(Deleted())] + BlankItems(n - 1)
  }

  /** A hit names the short-name slot of an object, and its first long-name slot if the long name matched. */
  lemma {:induction false} HitIsObject(up: Folding, items: seq<Item>, q: Query, p: nat)
    requires Lookup(up, items, q, p).Some?
    ensures
      var h := Lookup(up, items, q, p).value;
      && h.index >= p && ItemEnding(items, h.index - p).Some?
      && var x := ItemEnding(items, h.index - p).value;
         && x.Object?
         && (LongMatch(up, x, q) ==> h.lfnIdx == h.index - SlotCount(x.name))
         && (!LongMatch(up, x, q) ==> ShortMatch(x, q) && h.lfnIdx == 0xFFFF == NO_LFN)
    decreases |items|
  {
    hide LongMatch, ShortMatch;
    MatchIsObject(up, items[0], q);
    if Answer(up, items[0], q, p).Some? {
    } else {
      HitIsObject(up, items[1..], q, p + Width(items[0]));
    }
  }

  lemma MatchIsObject(up: Folding, x: Item, q: Query)
    ensures LongMatch(up, x, q) || ShortMatch(x, q) ==> x.Object?
  {}

  // ---------------------------------------------------------------- removal of a whole object

  lemma {:induction false} PutBlanks(table: Table, items: seq<Item>, n: nat)
    requires Represents(table, items)
    ensures Represents(DeletedSlots(n) + table, BlankItems(n) + items)
  {
    hide Represents;
    if n == 0 {
      assert DeletedSlots(0) + table == table && BlankItems(0) + items == items;
    } else {
      PutBlanks(table, items, n - 1);
      PutFirst(DeletedSlots(n - 1) + table, BlankItems(n - 1) + items, Blank(Deleted()));
      assert DeletedSlots(n) + table == Slots(Blank(Deleted())) + (DeletedSlots(n - 1) + table);
      assert BlankItems(n) + items == [Blank(Deleted())] + (BlankItems(n - 1) + items);
    }
  }

  /** Deleting all slots of an object removes exactly that object. */
  lemma {:induction false} EraseRepresents(table: Table, items: seq<Item>, d: nat)
    requires Represents(table, items) && ItemEnding(items, d).Some?
    ensures
      var w := Width(ItemEnding(items, d).value);
      && d < |table| && w <= d + 1
      && Represents(Erased(table, d + 1 - w, d + 1), Without(items, d))
    decreases |items|
  {
    hide Represents, Slots, ItemOk, Width;
    FirstItem(table, items);
    var v := Width(items[0]);
    if d < v {
      PutBlanks(table[v..], items[1..], v);
      assert table[..0] == [];
      assert Erased(table, 0, v) == DeletedSlots(v) + table[v..];
    } else {
      var w := Width(ItemEnding(items, d).value);
      EraseRepresents(table[v..], items[1..], d - v);
      var t := Erased(table[v..], d - v + 1 - w, d - v + 1);
      PutFirst(t, Without(items[1..], d - v), items[0]);
      ErasedBehind(table, v, d + 1 - w, d + 1);
    }
  }

  lemma ErasedBehind(table: Table, v: nat, lo: nat, hi: nat)
    requires v <= lo <= hi <= |table|
    ensures Erased(table, lo, hi) == table[..v] + Erased(table[v..], lo - v, hi - v)
  {
    assert table[..lo] == table[..v] + table[v..][..lo - v];
    assert table[hi..] == table[v..][hi - v..];
  }

  /** Queries that another object answered are answered as before. */
  lemma {:induction false} WithoutLookup(up: Folding, items: seq<Item>, d: nat, q: Query, p: nat)
    requires ItemEnding(items, d).Some?
    requires Lookup(up, items, q, p) == None || Lookup(up, items, q, p).value.index != p + d
    ensures Lookup(up, Without(items, d), q, p) == Lookup(up, items, q, p)
    decreases |items|
  {
    hide Answer, Width;
    var v := Width(items[0]);
    FirstAnswer(up, items[0], q, p);
    if d < v {
      BlanksAnswerNothing(up, v, items[1..], q, p);
    } else {
      if Answer(up, items[0], q, p).None? {
        WithoutLookup(up, items[1..], d - v, q, p + v);
      }
      assert Without(items, d)[1..] == Without(items[1..], d - v);
    }
  }

  lemma {:induction false} BlanksAnswerNothing(up: Folding, n: nat, items: seq<Item>, q: Query, p: nat)
    ensures Lookup(up, BlankItems(n) + items, q, p) == Lookup(up, items, q, p + n)
  {
    if n == 0 {
      assert BlankItems(0) + items == items;
    } else {
      BlanksAnswerNothing(up, n - 1, items, q, p + 1);
      assert (BlankItems(n) + items)[1..] == BlankItems(n - 1) + items;
    }
  }

  // ---------------------------------------------------------------- orphans

  /** Every live long-name slot is followed by a live slot. */
  ghost predicate NoOrphans(table: Table) {
    forall k :: 0 <= k < |table| && IsLong(table[k]) && !IsBlank(table[k]) ==> k + 1 < |table| && !IsBlank(table[k + 1])
  }

  lemma {:induction false} RepresentsNoOrphans(table: Table, items: seq<Item>)
    requires Represents(table, items)
    ensures NoOrphans(table)
    decreases |items|
  {
    if items == [] {
      forall k | 0 <= k < |table|
        ensures IsBlank(table[k])
      {
        UnusedAreBlank(table, k);
      }
    } else {
      hide Represents, Slots, ItemOk;
      FirstItem(table, items);
      var v := Width(items[0]);
      RepresentsNoOrphans(table[v..], items[1..]);
      forall k | 0 <= k < |table| && IsLong(table[k]) && !IsBlank(table[k])
        ensures k + 1 < |table| && !IsBlank(table[k + 1])
      {
        if k < v {
          assert table[k] == table[..v][k];
          LongInItem(items[0], k);
          assert table[k + 1] == table[..v][k + 1];
        } else {
          assert table[k] == table[v..][k - v];
          assert table[k + 1] == table[v..][k - v + 1];
        }
      }
    }
  }

  /** Within an item a live long-name slot has a live successor. */
  lemma LongInItem(x: Item, j: nat)
    requires ItemOk(x) && j < Width(x) && IsLong(Slots(x)[j]) && !IsBlank(Slots(x)[j])
    ensures j + 1 < Width(x) && !IsBlank(Slots(x)[j + 1])
  {
    hide MakeSlot, SumOf;
    if x.Object? {
      ObjectSlots(x, 0);
      if j + 1 < Width(x) {
        LiveSlots(x, j + 1);
      }
    }
  }

  /** The live long-name slot in front of an object's short-name slot. */
  lemma {:induction false} LongBefore(table: Table, items: seq<Item>, d: nat)
    requires Represents(table, items) && ItemEnding(items, d).Some?
    requires ItemEnding(items, d).value.Object? && ItemEnding(items, d).value.name != []
    ensures 0 < d < |table| && IsLong(table[d - 1]) && !IsBlank(table[d - 1])
    decreases |items|
  {
    hide Represents, Slots, ItemOk;
    FirstItem(table, items);
    var v := Width(items[0]);
    if d < v {
      LongInFront(items[0]);
      assert table[d - 1] == table[..v][d - 1];
    } else {
      LongBefore(table[v..], items[1..], d - v);
      assert table[d - 1] == table[v..][d - v - 1];
    }
  }

  lemma LongInFront(x: Item)
    requires ItemOk(x) && x.Object? && x.name != []
    ensures Width(x) >= 2 && IsLong(Slots(x)[Width(x) - 2]) && !IsBlank(Slots(x)[Width(x) - 2])
  {
    hide MakeSlot, SumOf;
    ObjectSlots(x, 1);
    LongSlotKind(x.name, 1, SumOf(x.sfn, 11));
  }

  // ---------------------------------------------------------------- the result

  /** dir_remove on an object that dir_find returned: the directory stays well formed exactly when the object has no
      long name or was found by it. An object found by its short alias loses its short-name slot only, and its
      long-name slots stay behind without an owner. */
  lemma RemoveExact(up: Folding, table: Table, items: seq<Item>, q: Query)
    requires Folds(up) && QueryOk(q) && Represents(table, items) && Find(up, table, q).Some? && |table| <= NO_LFN + 1
    ensures
      var h := Find(up, table, q).value;
      && Top(h) <= h.index < |table| && ItemEnding(items, h.index).Some? && ItemEnding(items, h.index).value.Object?
      && var x := ItemEnding(items, h.index).value;
         && (WellFormed(Removed(table, h)) <==> x.name == [] || LongMatch(up, x, q))
         && (x.name == [] || LongMatch(up, x, q) ==> Represents(Removed(table, h), Without(items, h.index)))
  {
    hide Find, Represents, Lookup, LongMatch, ShortMatch, Erased, ItemEnding, Folds, IsBlank, IsLong;
    FindIsLookup(up, table, items, q);
    HitIsObject(up, items, q, 0);
    var h := Find(up, table, q).value;
    var x := ItemEnding(items, h.index).value;
    MatchHasName(up, x, q);
    EraseRepresents(table, items, h.index);
    if x.name != [] && !LongMatch(up, x, q) {
      LongBefore(table, items, h.index);
      ErasedAt(table, h.index);
      forall its | Represents(Removed(table, h), its)
        ensures false
      {
        RepresentsNoOrphans(Removed(table, h), its);
      }
    }
  }

  lemma MatchHasName(up: Folding, x: Item, q: Query)
    ensures LongMatch(up, x, q) ==> x.Object? && x.name != []
  {}

  lemma ErasedAt(table: Table, i: nat)
    requires 0 < i < |table|
    ensures Erased(table, i, i + 1)[i - 1] == table[i - 1] && IsBlank(Erased(table, i, i + 1)[i])
  {
    assert DeletedSlots(1) == [Deleted()];
  }

  /** After a clean removal every other object resolves as before. */
  lemma RemoveKeepsOthers(up: Folding, table: Table, items: seq<Item>, q: Query, q': Query)
    requires Folds(up) && QueryOk(q) && QueryOk(q') && Represents(table, items) && Find(up, table, q).Some?
    requires |table| <= NO_LFN + 1
    requires
      var h := Find(up, table, q).value;
      && Top(h) <= h.index < |table| && WellFormed(Removed(table, h))
      && (Find(up, table, q').Some? ==> Find(up, table, q').value.index != h.index)
    ensures Find(up, Removed(table, Find(up, table, q).value), q') == Find(up, table, q')
  {
    hide Find, Represents, Lookup, LongMatch, ShortMatch, Erased, ItemEnding, Folds, WellFormed;
    var h := Find(up, table, q).value;
    RemoveExact(up, table, items, q);
    FindIsLookup(up, table, items, q');
    WithoutLookup(up, items, h.index, q', 0);
    FindIsLookup(up, Removed(table, h), Without(items, h.index), q');
  }

  lemma {:induction false} WithoutKeepsNoShort(items: seq<Item>, d: nat, fn: Sector)
    requires NoShort(items, fn)
    ensures NoShort(Without(items, d), fn)
    decreases |items|
  {
    if items == [] {
    } else {
      var t := items[1..];
      assert forall i :: 0 <= i < |t| ==> t[i] == items[i + 1];
      if d < Width(items[0]) {
        BlankItemsBlank(Width(items[0]));
      } else {
        WithoutKeepsNoShort(t, d - Width(items[0]), fn);
      }
    }
  }

  lemma {:induction false} BlankItemsBlank(n: nat)
    ensures forall i :: 0 <= i < |BlankItems(n)| ==> BlankItems(n)[i].Blank?
  {
    if n == 0 {
    } else {
      BlankItemsBlank(n - 1);
    }
  }

  /** Removing an object keeps short names distinct. */
  lemma {:induction false} WithoutKeepsDistinct(items: seq<Item>, d: nat)
    requires ShortsDistinct(items)
    ensures ShortsDistinct(Without(items, d))
    decreases |items|
  {
    if items == [] {
    } else {
      var t := items[1..];
      assert forall i :: 0 <= i < |t| ==> t[i] == items[i + 1];
      if d < Width(items[0]) {
        BlankItemsBlank(Width(items[0]));
      } else {
        WithoutKeepsDistinct(t, d - Width(items[0]));
        if items[0].Object? {
          WithoutKeepsNoShort(t, d - Width(items[0]), items[0].sfn[..11]);
        }
      }
    }
  }

  // ---------------------------------------------------------------- inputs

  /** A directory with the one object "+", whose numbered short name is "_~1". */
  const PLUS: Item := Object([0x2B], [0x5F, 0x7E, 0x31] + PAD + Zeros(21))

  const PAD: Sector := [0x20, 0x20, 0x20, 0x20, 0x20, 0x20, 0x20, 0x20]

  /** The query for "_~1". */
  const ALIAS: Query :=
    Query(Some([0x5F, 0x7E, 0x31] + seq(253, i => 0)), [0x5F, 0x7E, 0x31], [0x5F, 0x7E, 0x31] + PAD, false)

  /** f_unlink("_~1") succeeds on that directory and leaves it ill formed: the slot with "+" stays without an owner. */
  lemma AliasLeavesOrphan(up: Folding)
    requires Folds(up)
    ensures ItemOk(PLUS) && QueryOk(ALIAS) && Represents(Slots(PLUS), [PLUS])
    ensures Find(up, Slots(PLUS), ALIAS) == Some(Hit(1, NO_LFN))
    ensures |Slots(PLUS)| == 2 && !WellFormed(Removed(Slots(PLUS), Hit(1, NO_LFN)))
  {
    hide Find, WellFormed, Removed, SumOf, MakeSlot;
    var t := Slots(PLUS);
    OneItem(PLUS);
    FindIsLookup(up, t, [PLUS], ALIAS);
    assert Lookup(up, [PLUS], ALIAS, 0) == Some(Hit(1, NO_LFN)) by {
      assert PLUS.sfn[..11] == ALIAS.fn;
    }
    RemoveExact(up, t, [PLUS], ALIAS);
  }

  /** A name of 255 units that does not fit 8.3. */
  const LONGEST: Name := seq(255, i => 0x2B)

  /** Once stored, such a name is not found again under the very name that create_name made it from. */
  lemma LongestIsLost(up: Folding, sfn: Slot, q: Query)
    requires Folds(up) && QueryOk(q) && q.lfn.Some? && q.name == LONGEST && q.loss
    requires !IsBlank(sfn) && sfn[11] / 8 % 2 == 0
    ensures ItemOk(Object(LONGEST, sfn)) && Represents(Slots(Object(LONGEST, sfn)), [Object(LONGEST, sfn)])
    ensures SameFolded(up, LONGEST, q.name) && Find(up, Slots(Object(LONGEST, sfn)), q) == None
  {
    hide Find, SumOf, MakeSlot, Slots, QueryOk;
    var x := Object(LONGEST, sfn);
    OneItem(x);
    FindIsLookup(up, Slots(x), [x], q);
    MissMeans(up, [x], q, 0);
  }
}
