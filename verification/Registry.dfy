/** Registering and removing names (dir_alloc, dir_register, dir_remove) on directory tables. */
module Registry {
  import opened Bytes
  import opened Lfn
  import opened Directory

  // ---------------------------------------------------------------- finding room

  /** The loop of dir_alloc from index `i` on, `n` blank slots into a run: the last slot of the first run of `nent`. */
  function AllocFrom(table: Table, nent: nat, i: nat, n: nat): Option<nat>
    requires i <= |table|
    decreases |table| - i
  {
    if i == |table| then None
    else if !IsBlank(table[i]) then AllocFrom(table, nent, i + 1, 0)
    else if n + 1 == nent then Some(i)
    else AllocFrom(table, nent, i + 1, n + 1)
  }

  /** The slots [k, k + n) are blank. */
  ghost predicate Room(table: Table, k: nat, n: nat) {
    k + n <= |table| && forall j :: k <= j < k + n ==> IsBlank(table[j])
  }

  /** A blank run cannot be extended downwards. */
  ghost predicate RunStart(table: Table, k: nat) {
    k <= |table| && (k > 0 ==> !IsBlank(table[k - 1]))
  }

  lemma {:induction false} AllocFromMeans(table: Table, nent: nat, i: nat, n: nat)
    requires n < nent && n <= i <= |table| && RunStart(table, i - n) && Room(table, i - n, n)
    ensures AllocFrom(table, nent, i, n).Some? ==>
      var r := AllocFrom(table, nent, i, n).value;
      r + 1 >= nent && Room(table, r + 1 - nent, nent) && RunStart(table, r + 1 - nent)
    ensures AllocFrom(table, nent, i, n).Some? ==>
      forall k: nat :: i - n <= k && k + nent <= AllocFrom(table, nent, i, n).value ==> !Room(table, k, nent)
    ensures AllocFrom(table, nent, i, n).None? ==> forall k: nat :: i - n <= k ==> !Room(table, k, nent)
    decreases |table| - i
  {
    if i == |table| {
    } else if !IsBlank(table[i]) {
      AllocFromMeans(table, nent, i + 1, 0);
      forall k: nat | i - n <= k <= i
        ensures !Room(table, k, nent)
      {}
    } else if n + 1 < nent {
      AllocFromMeans(table, nent, i + 1, n + 1);
    }
  }

  /** dir_alloc takes the start of the first run of blank slots that is long enough, and fails only if there is none. */
  lemma AllocIsFirstRoom(table: Table, nent: nat)
    requires nent > 0
    ensures AllocFrom(table, nent, 0, 0).Some? <==> exists k: nat :: Room(table, k, nent)
    ensures AllocFrom(table, nent, 0, 0).Some? ==>
      var r := AllocFrom(table, nent, 0, 0).value;
      && r + 1 >= nent && Room(table, r + 1 - nent, nent) && RunStart(table, r + 1 - nent)
      && forall k: nat :: k < r + 1 - nent ==> !Room(table, k, nent)
  {
    AllocFromMeans(table, nent, 0, 0);
  }

  /** Number of blank slots right in front of index `i`. */
  function RunLen(table: Table, i: nat): (n: nat)
    requires i <= |table|
    ensures n <= i
  {
    if i == 0 || !IsBlank(table[i - 1]) then 0 else RunLen(table, i - 1) + 1
  }

  /** No run of `nent` blank slots ends at or before index `i`. */
  ghost predicate NoRunYet(table: Table, nent: nat, i: nat)
    requires i <= |table|
  {
    forall j :: 0 <= j <= i ==> RunLen(table, j) < nent
  }

  lemma {:induction false} RunReached(table: Table, nent: nat, i: nat)
    requires i <= |table| && NoRunYet(table, nent, i)
    ensures AllocFrom(table, nent, 0, 0) == AllocFrom(table, nent, i, RunLen(table, i))
  {
    if i == 0 {
    } else {
      RunReached(table, nent, i - 1);
      assert RunLen(table, i) < nent;
    }
  }

  /** Runs depend on the slots in front only. */
  lemma {:induction false} RunPrefix(a: Table, b: Table, i: nat)
    requires i <= |a| && i <= |b| && a[..i] == b[..i]
    ensures RunLen(a, i) == RunLen(b, i)
  {
    if i == 0 {
    } else {
      assert a[..i - 1] == a[..i][..i - 1] && b[..i - 1] == b[..i][..i - 1];
      assert a[i - 1] == a[..i][i - 1] && b[i - 1] == b[..i][i - 1];
      RunPrefix(a, b, i - 1);
    }
  }

  lemma NoRunPrefix(a: Table, b: Table, nent: nat, i: nat)
    requires i <= |a| && i <= |b| && a[..i] == b[..i] && NoRunYet(a, nent, i)
    ensures NoRunYet(b, nent, i)
  {
    forall j | 0 <= j <= i
      ensures RunLen(b, j) < nent
    {
      assert a[..j] == a[..i][..j] && b[..j] == b[..i][..j];
      RunPrefix(a, b, j);
    }
  }

  // ---------------------------------------------------------------- storing an object

  /** The table with the slots of `x` stored from `k` on. */
  function Stored(table: Table, k: nat, x: Item): Table
    requires ItemOk(x) && k + Width(x) <= |table|
  {
    table[..k] + Slots(x) + table[k + Width(x)..]
  }

  /** The items after storing `x` at slot `k` in place of blank ones. */
  function Insert(items: seq<Item>, k: nat, x: Item): seq<Item> {
    if items == [] then [x]
    else if k == 0 then [x] + (if Width(x) <= |items| then items[Width(x)..] else [])
    else [items[0]] + Insert(items[1..], if k < Width(items[0]) then 0 else k - Width(items[0]), x)
  }

  /** No slot of a live object or label is blank. */
  lemma LiveSlots(x: Item, j: nat)
    requires ItemOk(x) && !x.Blank? && j < Width(x)
    ensures !IsBlank(Slots(x)[j])
  {
    if x.Object? {
      hide MakeSlot, SumOf, Slots;
      var k := SlotCount(x.name) - j;
      ObjectSlots(x, k);
      if k > 0 {
        LongSlotKind(x.name, k, SumOf(x.sfn, 11));
      }
    }
  }

  lemma FirstIsBlank(table: Table, x: Item)
    requires ItemOk(x) && Width(x) <= |table| && table[..Width(x)] == Slots(x) && Room(table, 0, 1)
    ensures x.Blank?
  {
    hide Slots;
    assert table[0] == table[..Width(x)][0];
    if !x.Blank? {
      LiveSlots(x, 0);
    }
  }

  /** Blank slots at an item boundary are blank items, or lie behind the last item. */
  lemma {:induction false} BlankPrefix(table: Table, items: seq<Item>, n: nat)
    requires Represents(table, items) && Room(table, 0, n)
    ensures
      var rest := if n <= |items| then items[n..] else [];
      && (n <= |items| ==> forall i :: 0 <= i < n ==> items[i].Blank?)
      && (n > |items| ==> forall i :: 0 <= i < |items| ==> items[i].Blank?)
      && Represents(table[n..], rest)
    decreases n
  {
    hide Slots, ItemOk, Represents, IsBlank;
    if n == 0 {
      assert table[0..] == table && items[0..] == items;
    } else if items == [] {
      UnusedBehind(table, n);
    } else {
      FirstItem(table, items);
      var x := items[0];
      FirstIsBlank(table, x);
      assert forall j :: 0 <= j < n - 1 ==> table[1..][j] == table[j + 1];
      BlankPrefix(table[1..], items[1..], n - 1);
      assert table[1..][n - 1..] == table[n..];
      if n <= |items| {
        assert items[1..][n - 1..] == items[n..];
        assert forall i :: 1 <= i < n ==> items[i] == items[1..][i - 1];
      } else {
        assert forall i :: 1 <= i < |items| ==> items[i] == items[1..][i - 1];
      }
    }
  }

  lemma UnusedBehind(table: Table, n: nat)
    requires Represents(table, []) && n <= |table|
    ensures Represents(table[n..], [])
  {
    assert forall j :: 0 <= j < |table| ==> table[0..][j] == table[j];
  }

  /** Splits the first item off. */
  lemma FirstItem(table: Table, items: seq<Item>)
    requires Represents(table, items) && items != []
    ensures ItemOk(items[0]) && Width(items[0]) <= |table| && table[..Width(items[0])] == Slots(items[0])
    ensures Represents(table[Width(items[0])..], items[1..])
  {
    hide Slots, Unused;
    var r := Render(items);
    var w := Width(items[0]);
    assert r == Slots(items[0]) + Render(items[1..]);
    assert table[..w] == r[..w];
    assert table[w..][..|r| - w] == r[w..];
    assert table[w..][|r| - w..] == table[|r|..];
  }

  /** Puts an item in front. */
  lemma PutFirst(table: Table, items: seq<Item>, x: Item)
    requires Represents(table, items) && ItemOk(x)
    ensures Represents(Slots(x) + table, [x] + items)
  {
    hide Slots, Unused;
    assert ([x] + items)[1..] == items;
    var r := Render(items);
    var t := Slots(x) + table;
    assert Render([x] + items) == Slots(x) + r;
    assert t[..|Slots(x) + r|] == Slots(x) + table[..|r|];
    assert t[|Slots(x) + r|..] == table[|r|..];
  }

  /** Storing an object where dir_alloc found room keeps the directory well formed and inserts exactly that object. */
  lemma {:induction false} StoreRepresents(table: Table, items: seq<Item>, k: nat, x: Item)
    requires Represents(table, items) && ItemOk(x) && Room(table, k, Width(x)) && RunStart(table, k)
    ensures Represents(Stored(table, k, x), Insert(items, k, x))
    decreases |items|
  {
    hide Slots, Represents, ItemOk, IsBlank;
    var w := Width(x);
    if k == 0 {
      BlankPrefix(table, items, w);
      assert table[..0] == [];
      var rest := if w <= |items| then items[w..] else [];
      PutFirst(table[w..], rest, x);
      assert Insert(items, 0, x) == [x] + rest;
      assert Stored(table, 0, x) == Slots(x) + table[w..];
    } else if items == [] {
      UnusedAreBlank(table, k - 1);
      assert false;
    } else {
      FirstItem(table, items);
      var v := Width(items[0]);
      RunBehindItem(table, items[0], k);
      RoomBehind(table, v, k, w);
      StoreRepresents(table[v..], items[1..], k - v, x);
      PutFirst(Stored(table[v..], k - v, x), Insert(items[1..], k - v, x), items[0]);
      StoredBehind(table, v, k, x);
    }
  }

  lemma UnusedAreBlank(table: Table, j: nat)
    requires Represents(table, []) && j < |table|
    ensures IsBlank(table[j])
  {
    assert table[j] == table[0..][j];
  }

  /** A run of blank slots that starts behind slot 0 starts behind the first item. */
  lemma RunBehindItem(table: Table, x: Item, k: nat)
    requires ItemOk(x) && Width(x) <= |table| && table[..Width(x)] == Slots(x)
    requires 0 < k && Room(table, k, 1) && RunStart(table, k)
    ensures k >= Width(x)
  {
    hide Slots;
    assert IsBlank(table[k]);
    if !x.Blank? {
      forall j | 0 <= j < Width(x)
        ensures !IsBlank(table[j])
      {
        LiveSlots(x, j);
        assert table[j] == table[..Width(x)][j];
      }
    }
  }

  lemma RoomBehind(table: Table, v: nat, k: nat, n: nat)
    requires v <= k && Room(table, k, n) && RunStart(table, k) && n > 0
    ensures Room(table[v..], k - v, n) && RunStart(table[v..], k - v) && Room(table, k, 1)
  {
    assert forall j :: 0 <= j < |table| - v ==> table[v..][j] == table[v + j];
  }

  lemma StoredBehind(table: Table, v: nat, k: nat, x: Item)
    requires ItemOk(x) && v <= k && k + Width(x) <= |table|
    ensures Stored(table, k, x) == table[..v] + Stored(table[v..], k - v, x)
  {
    hide Slots;
    var t := table[v..];
    assert table[..k] == table[..v] + t[..k - v];
    assert table[k + Width(x)..] == t[k - v + Width(x)..];
  }

  // ---------------------------------------------------------------- lookups after storing

  /** Slot `k` is an item boundary and the `n` slots from there on are blank items or lie behind the last item. */
  ghost predicate Vacant(items: seq<Item>, k: nat, n: nat) {
    if k == 0 then forall i :: 0 <= i < n && i < |items| ==> items[i].Blank?
    else items != [] && k >= Width(items[0]) && Vacant(items[1..], k - Width(items[0]), n)
  }

  lemma {:induction false} RoomIsVacant(table: Table, items: seq<Item>, k: nat, n: nat)
    requires Represents(table, items) && Room(table, k, n) && n > 0 && RunStart(table, k)
    ensures Vacant(items, k, n)
    decreases |items|
  {
    hide Slots, Represents, ItemOk, IsBlank;
    if k == 0 {
      BlankPrefix(table, items, n);
    } else if items == [] {
      UnusedAreBlank(table, k - 1);
      assert false;
    } else {
      FirstItem(table, items);
      var v := Width(items[0]);
      assert Room(table, k, 1);
      RunBehindItem(table, items[0], k);
      RoomBehind(table, v, k, n);
      RoomIsVacant(table[v..], items[1..], k - v, n);
    }
  }

  lemma {:induction false} BlankSkip(up: Folding, items: seq<Item>, q: Query, p: nat, n: nat)
    requires n <= |items| && forall i :: 0 <= i < n ==> items[i].Blank?
    ensures Lookup(up, items, q, p) == Lookup(up, items[n..], q, p + n)
    decreases n
  {
    if n == 0 {
      assert items[0..] == items;
    } else {
      BlankSkip(up, items[1..], q, p + 1, n - 1);
      assert items[1..][n - 1..] == items[n..];
    }
  }

  lemma {:induction false} HitBehind(up: Folding, items: seq<Item>, q: Query, p: nat)
    ensures Lookup(up, items, q, p).Some? ==> Lookup(up, items, q, p).value.index >= p
  {
    hide LongMatch, ShortMatch;
    if items == [] {
    } else {
      HitBehind(up, items[1..], q, p + Width(items[0]));
    }
  }

  /** The answer of the directory after `x` was stored at slot `k`, from the answer before. */
  function After(up: Folding, was: Option<Hit>, x: Item, q: Query, k: nat): Option<Hit> {
    if was.Some? && was.value.index < k then was
    else if Answer(up, x, q, k).Some? then Answer(up, x, q, k)
    else was
  }

  lemma {:induction false} InsertLookup(up: Folding, items: seq<Item>, k: nat, x: Item, q: Query, p: nat)
    requires Vacant(items, k, Width(x))
    ensures Lookup(up, Insert(items, k, x), q, p) == After(up, Lookup(up, items, q, p), x, q, p + k)
    decreases |items|
  {
    hide Answer, Width;
    HitBehind(up, items, q, p);
    var n := Width(x);
    if k == 0 {
      var rest := if n <= |items| then items[n..] else [];
      assert Insert(items, 0, x) == [x] + rest;
      assert ([x] + rest)[1..] == rest;
      if n <= |items| {
        BlankSkip(up, items, q, p, n);
      } else {
        BlankSkip(up, items, q, p, |items|);
        assert items[|items|..] == [];
      }
    } else {
      var v := Width(items[0]);
      InsertLookup(up, items[1..], k - v, x, q, p + v);
      InsertBehind(items, k, x);
      FirstAnswer(up, items[0], q, p);
    }
  }

  lemma InsertBehind(items: seq<Item>, k: nat, x: Item)
    requires items != [] && k > 0 && k >= Width(items[0])
    ensures
      var r := Insert(items, k, x);
      r != [] && r[0] == items[0] && r[1..] == Insert(items[1..], k - Width(items[0]), x)
  {}

  lemma FirstAnswer(up: Folding, x: Item, q: Query, p: nat)
    ensures Answer(up, x, q, p).Some? ==> Answer(up, x, q, p).value.index == p + Width(x) - 1
  {}

  /** Every query after registration: objects before the new one answer first, then the new one, then the rest, at the
      slots where they were. */
  lemma RegisterLookup(up: Folding, table: Table, items: seq<Item>, k: nat, x: Item, q: Query)
    requires Folds(up) && QueryOk(q) && Represents(table, items) && ItemOk(x)
    requires Room(table, k, Width(x)) && RunStart(table, k)
    ensures Find(up, Stored(table, k, x), q) == After(up, Find(up, table, q), x, q, k)
  {
    hide Find, Lookup, After, Represents, RunStart, ItemOk, Slots, QueryOk, IsBlank;
    StoreRepresents(table, items, k, x);
    RoomIsVacant(table, items, k, Width(x));
    InsertLookup(up, items, k, x, q, 0);
    FindIsLookup(up, table, items, q);
    FindIsLookup(up, Stored(table, k, x), Insert(items, k, x), q);
  }

  // ---------------------------------------------------------------- what registration achieves

  /** No live object has the short name `fn`. */
  ghost predicate NoShort(items: seq<Item>, fn: Sector) {
    forall i :: 0 <= i < |items| && items[i].Object? ==> items[i].sfn[..11] != fn
  }

  /** Live short names are pairwise distinct. */
  ghost predicate ShortsDistinct(items: seq<Item>) {
    forall i, j :: 0 <= i < j < |items| && items[i].Object? && items[j].Object? ==>
      items[i].sfn[..11] != items[j].sfn[..11]
  }

  /** A query misses exactly when no object answers to its long or short name. */
  lemma {:induction false} MissMeans(up: Folding, items: seq<Item>, q: Query, p: nat)
    ensures Lookup(up, items, q, p) == None <==>
      forall i :: 0 <= i < |items| ==> !LongMatch(up, items[i], q) && !ShortMatch(items[i], q)
    decreases |items|
  {
    hide LongMatch, ShortMatch;
    if items == [] {
    } else {
      MissMeans(up, items[1..], q, p + Width(items[0]));
      assert forall i :: 1 <= i < |items| ==> items[i] == items[1..][i - 1];
      assert forall i :: 0 <= i < |items| - 1 ==> items[1..][i] == items[i + 1];
    }
  }

  /** A miss of a short name that is in 8.3 format rules out any live object with that short name. */
  lemma MissIsNoShort(up: Folding, items: seq<Item>, q: Query, p: nat)
    requires !q.loss && Lookup(up, items, q, p) == None
    ensures NoShort(items, q.fn)
  {
    hide LongMatch, Lookup;
    MissMeans(up, items, q, p);
    assert forall i :: 0 <= i < |items| ==> !ShortMatch(items[i], q);
  }

  lemma {:induction false} InsertKeepsNoShort(items: seq<Item>, k: nat, x: Item, fn: Sector)
    requires NoShort(items, fn) && (x.Object? ==> x.sfn[..11] != fn)
    ensures NoShort(Insert(items, k, x), fn)
    decreases |items|
  {
    if items == [] || k == 0 {
    } else {
      var k' := if k < Width(items[0]) then 0 else k - Width(items[0]);
      InsertKeepsNoShort(items[1..], k', x, fn);
      assert Insert(items, k, x) == [items[0]] + Insert(items[1..], k', x);
    }
  }

  lemma {:induction false} InsertKeepsDistinct(items: seq<Item>, k: nat, x: Item)
    requires ShortsDistinct(items) && (x.Object? ==> NoShort(items, x.sfn[..11]))
    ensures ShortsDistinct(Insert(items, k, x))
    decreases |items|
  {
    if items == [] || k == 0 {
    } else {
      var k' := if k < Width(items[0]) then 0 else k - Width(items[0]);
      var t := items[1..];
      InsertKeepsDistinct(t, k', x);
      if items[0].Object? {
        InsertKeepsNoShort(t, k', x, items[0].sfn[..11]);
      }
      assert Insert(items, k, x) == [items[0]] + Insert(t, k', x);
    }
  }

  /** The object dir_register stores for the missed query `q`: the short name may have been numbered if `q.loss`. */
  ghost predicate NewFor(x: Item, q: Query) {
    && x.Object? && ItemOk(x)
    && (x.name == [] || (q.lfn.Some? && x.name == q.name))
    && (!q.loss ==> x.sfn[..11] == q.fn)
    && (q.loss ==> x.name != [])
  }

  /** Registering a missed name: afterwards the name is found at the new short-name slot, unless it is a lossy name of
      exactly 255 units, which is never found; the directory stays well formed and short names stay distinct. */
  lemma RegisteredIsFound(up: Folding, table: Table, items: seq<Item>, k: nat, x: Item, q: Query)
    requires Folds(up) && QueryOk(q) && Represents(table, items) && NewFor(x, q)
    requires Room(table, k, Width(x)) && RunStart(table, k)
    requires Find(up, table, q) == None
    ensures
      var t := Stored(table, k, x);
      && Find(up, t, q) == (if x.name != [] && Findable(x.name) then Some(Hit(k + Width(x) - 1, k))
                            else if !q.loss then Some(Hit(k + Width(x) - 1, NO_LFN))
                            else None)
  {
    hide Find, Represents, Room, RunStart, Slots, Findable;
    RegisterLookup(up, table, items, k, x, q);
  }

  lemma RegisterKeepsDirectory(up: Folding, table: Table, items: seq<Item>, k: nat, x: Item)
    requires Represents(table, items) && x.Object? && ItemOk(x)
    requires Room(table, k, Width(x)) && RunStart(table, k)
    requires ShortsDistinct(items) && NoShort(items, x.sfn[..11])
    ensures Represents(Stored(table, k, x), Insert(items, k, x)) && ShortsDistinct(Insert(items, k, x))
  {
    hide Represents, Slots, ItemOk;
    StoreRepresents(table, items, k, x);
    InsertKeepsDistinct(items, k, x);
  }

  /** The query create_name makes for the name under which `y` is stored. */
  ghost predicate NameOf(up: Folding, y: Item, q: Query) {
    && y.Object? && (!q.loss ==> y.sfn[..11] == q.fn)
    && (if y.name != [] then LongMatch(up, y, q) else ShortMatch(y, q))
  }

  /** Every other live object still resolves to the slot it was at: the new object does not answer to its name. Names
      that differ in case only have the same short form. */
  lemma OthersResolve(up: Folding, table: Table, items: seq<Item>, k: nat, x: Item, q: Query, j: nat, q': Query)
    requires Folds(up) && QueryOk(q) && QueryOk(q') && Represents(table, items) && NewFor(x, q)
    requires Room(table, k, Width(x)) && RunStart(table, k)
    requires Find(up, table, q) == None && NoShort(items, x.sfn[..11])
    requires j < |items| && NameOf(up, items[j], q')
    requires SameFolded(up, q.name, q'.name) ==> q.fn == q'.fn && q.loss == q'.loss
    ensures Find(up, Stored(table, k, x), q') == Find(up, table, q')
  {
    hide Find, Represents, Room, RunStart, Slots, ItemOk, QueryOk, Lookup;
    RegisterLookup(up, table, items, k, x, q');
    FindIsLookup(up, table, items, q);
    MissMeans(up, items, q, 0);
    assert !LongMatch(up, items[j], q) && !ShortMatch(items[j], q);
  }
}
