/** Creating and deleting names in a directory. */
module DirRun {
  import opened Results
  import opened Bytes
  import opened Fat
  import opened Window
  import opened Lfn
  import opened Directory
  import opened Registry
  import opened Removal
  import opened DirImage
  import opened DirWalk
  import opened NumName

  lemma GrowthRepresents(t: Table, t': Table, items: seq<Item>)
    requires Represents(t, items) && GrowsByZeros(t, t')
    ensures Represents(t', items)
  {
    var n := |Render(items)|;
    assert t'[..n] == t'[..|t|][..n];
    forall i | 0 <= i < |t'| - n
      ensures t'[n..][i][0] == 0
    {
      if n + i < |t| {
        assert t'[n + i] == t'[..|t|][n + i] == t[n..][i];
      } else {
        assert t'[n + i] == t'[|t|..][n + i - |t|];
      }
    }
  }

  /** Two tables that hold the same objects answer every query alike. */
  lemma SameItemsSameAnswers(up: Folding, t: Table, t': Table, items: seq<Item>, q: Query)
    requires Folds(up) && QueryOk(q) && Represents(t, items) && Represents(t', items)
    ensures Find(up, t, q) == Find(up, t', q)
  {
    hide Find, Represents;
    FindIsLookup(up, t, items, q);
    FindIsLookup(up, t', items, q);
  }

  /** A name was registered: what every query finds afterwards. */
  lemma Registered(up: Folding, t: Table, room: Table, items: seq<Item>, k: nat, x: Item, q: Query)
    requires Folds(up) && QueryOk(q) && Represents(t, items) && ShortsDistinct(items) && GrowsByZeros(t, room)
    requires NewFor(x, q) && Room(room, k, Width(x)) && RunStart(room, k) && Find(up, t, q) == None
    requires q.loss ==> Find(up, t, Query(None, q.name, x.sfn[..11], false)) == None
    ensures Represents(Stored(room, k, x), Insert(items, k, x)) && ShortsDistinct(Insert(items, k, x))
    ensures Find(up, Stored(room, k, x), q) ==
      if x.name != [] && Findable(x.name) then Some(Hit(k + Width(x) - 1, k))
      else if !q.loss then Some(Hit(k + Width(x) - 1, NO_LFN))
      else None
    ensures NoShort(items, x.sfn[..11])
  {
    hide Find, Represents, Room, RunStart, Findable, ShortsDistinct, Insert, Stored, NoShort;
    GrowthRepresents(t, room, items);
    SameItemsSameAnswers(up, t, room, items, q);
    RegisteredIsFound(up, room, items, k, x, q);
    var s := Query(None, q.name, x.sfn[..11], false);
    FindIsLookup(up, t, items, if q.loss then s else q);
    MissIsNoShort(up, items, if q.loss then s else q, 0);
    RegisterKeepsDirectory(up, room, items, k, x);
  }

  /** One object that `q` may create was put into room, with its last slot at `at`. */
  ghost predicate Added(items: seq<Item>, q: Query, items': seq<Item>, at: nat) {
    exists k: nat, x: Item ::
      && NewFor(x, q) && Vacant(items, k, Directory.Width(x)) && NoShort(items, x.sfn[..11])
      && items' == Insert(items, k, x) && at == k + Directory.Width(x) - 1
  }

  /** What creating the name of query `q` does to a directory `t` with these items. If it succeeds, the name resolves to
      slot `at`, unless it was new, lossy and 255 units long; a name that existed stays where it was; every other name
      resolves as before; short names stay distinct. */
  ghost predicate Created(
    up: Folding, t: Table, items: seq<Item>, q: Query, ok: bool, t': Table, items': seq<Item>, at: nat)
    requires QueryOk(q)
  {
    && Represents(t', items') && ShortsDistinct(items')
    && (!ok ==> items' == items)
    && (ok && Find(up, t, q).Some? ==> t' == t && items' == items && Find(up, t, q).value.index == at)
    && (ok && Find(up, t, q).None? && (Findable(q.name) || !q.loss) ==>
          Find(up, t', q).Some? && Find(up, t', q).value.index == at)
    && (ok && Find(up, t, q).None? ==> Added(items, q, items', at))
    && (ok && Find(up, t, q).None? && !Findable(q.name) && q.loss ==> Find(up, t', q) == None)
    && (forall j, q' :: 0 <= j < |items| && OtherName(up, items[j], q, q') ==> Find(up, t', q') == Find(up, t, q'))
  }

  /** A directory entry as registered: the case flags, and zeros behind the name. */
  predicate NewSlot(e: Slot, ntres: Byte) {
    e[12] == ntres && forall i :: 11 <= i < 32 && i != 12 ==> e[i] == 0
  }

  /** The parts of a long name lie in front of slot `i`, the first one next to it. */
  ghost predicate LongStored(t: Table, i: nat, name: Name) {
    && |name| <= MAX_LFN && (|name| + 12) / 13 <= i < |t|
    && forall ord {:trigger MakeSlot(name, ord, SumOf(t[i], 11))} ::
         1 <= ord <= (|name| + 12) / 13 ==> t[i - ord] == MakeSlot(name, ord, SumOf(t[i], 11))
  }

  lemma NewEntrySlot(d: Dir, t: Table, k: nat)
    requires d.Named() && ItemOk(d.Entry()) && Room(t, k, Directory.Width(d.Entry()))
    ensures
      var s, i := Stored(t, k, d.Entry()), k + Directory.Width(d.Entry()) - 1;
      && i < |s| && NewSlot(s[i], d.ntres) && s[i][..11] == d.fn
      && (d.long ==> LongStored(s, i, d.name))
  {
    hide MakeSlot, SumOf, SfnSlot;
    var x := d.Entry();
    EntrySlots(t, k, x);
  }

  lemma EntrySlots(t: Table, k: nat, x: Item)
    requires ItemOk(x) && x.Object? && Room(t, k, Directory.Width(x))
    ensures
      var s, i := Stored(t, k, x), k + Directory.Width(x) - 1;
      i < |s| && s[i] == x.sfn && LongStored(s, i, x.name)
  {
    var s, m := Stored(t, k, x), SlotCount(x.name);
    hide MakeSlot, SumOf, ItemOk, Slots;
    assert forall j :: 0 <= j <= m ==> s[k + j] == Slots(x)[j];
    forall ord | 0 <= ord <= m
      ensures s[k + m - ord] == if ord == 0 then x.sfn else MakeSlot(x.name, ord, SumOf(x.sfn, 11))
    {
      ObjectSlots(x, ord);
    }
  }

  /** f_open with a create flag, as far as the directory goes: search, and register what was not found. */
  method Create(d: Dir, up: Folding, ghost items: seq<Item>) returns (res: Status, ghost items': seq<Item>)
    requires d.Valid() && d.Named() && Folds(up) && Represents(d.T(), items) && ShortsDistinct(items)
    modifies d, d.fs`disk, d.fs`wflag, d.fs`winsect, d.fs`img, d.fs`lastClust, d.fs`freeClust, d.fs`fsiDirty, d.fs.win
    ensures d.Valid() && Created(up, old(d.T()), items, old(d.Q()), res == Ok, d.T(), items', d.index)
    ensures res == Ok ==> d.At(d.index)
    ensures unchanged(d`name, d`long, d`ntres)
    ensures res == Ok && Find(up, old(d.T()), old(d.Q())) == None ==>
      && d.index < |d.T()| && NewSlot(d.T()[d.index], d.ntres)
      && (!old(d.loss) ==> d.T()[d.index][..11] == old(d.fn)) && (d.long ==> LongStored(d.T(), d.index, d.name))
    ensures res != Ok ==> Refused(up, old(d.T()), old(d.Q()), d)
    ensures DirStep(d.fs.g, old(d.fs.Table()), old(d.fs.img), old(d.chain), d.fs.Table(), d.fs.img, d.chain)
  {
    hide Find, Represents, Room, RunStart, Findable, ShortsDistinct, Insert, Stored, NoShort, DirStep;
    hide GrowsByZeros, Created;
    hide WindowOk, FatMap, TableOn, TableOf, Exists, PlaceOf, QueryOk, ItemOk, Plain, SfnSlot, Directory.Width;
    items' := items;
    ghost var t, q := d.T(), d.Q();
    NameHeld(d);
    d.StepSelf();
    res := d.DirFind(up);
    NothingCreated(up, t, items, q, d.index);
    if res == NoFile {
      ghost var room, k;
      res, room, k := d.DirRegister(up);
      if res == Ok {
        ghost var x := d.Entry();
        EntryIsNew(d, q);
        NewEntrySlot(d, room, k);
        NewCreated(up, t, room, items, k, x, q);
        items' := Insert(items, k, x);
      } else {
        RoomCreated(up, t, room, items, q, d.index);
      }
    }
  }

  /** Why a name cannot be created: it was not there, and the table has no room for it and cannot grow, or each of the
      99 numbered aliases of a lossy name is taken. */
  ghost predicate Refused(up: Folding, t: Table, q: Query, d: Dir)
    requires d.Valid() && QueryOk(q)
    reads d, d.fs, d.fs.win
  {
    && Find(up, t, q) == None
    && (d.NoSpace(d.EntryWidth()) || (q.loss && AliasesTaken(up, d.T(), q.fn, q.name)))
  }

  lemma NameHeld(d: Dir)
    requires d.Named()
    ensures d.lfn.Some?
  {}

  lemma NothingCreated(up: Folding, t: Table, items: seq<Item>, q: Query, at: nat)
    requires Represents(t, items) && ShortsDistinct(items) && QueryOk(q)
    ensures Created(up, t, items, q, false, t, items, at)
    ensures Find(up, t, q).Some? && Find(up, t, q).value.index == at ==> Created(up, t, items, q, true, t, items, at)
  {
    hide Find, Represents, OtherName, ShortsDistinct;
  }

  /** Only zero slots were added. */
  lemma RoomCreated(up: Folding, t: Table, room: Table, items: seq<Item>, q: Query, at: nat)
    requires Folds(up) && QueryOk(q) && Represents(t, items) && ShortsDistinct(items) && GrowsByZeros(t, room)
    ensures Created(up, t, items, q, false, room, items, at)
  {
    hide Find, Represents, OtherName, ShortsDistinct, GrowsByZeros;
    GrowthRepresents(t, room, items);
    OthersSame(up, t, room, items, q);
  }

  lemma NewCreated(up: Folding, t: Table, room: Table, items: seq<Item>, k: nat, x: Item, q: Query)
    requires Folds(up) && QueryOk(q) && Represents(t, items) && ShortsDistinct(items) && GrowsByZeros(t, room)
    requires NewFor(x, q) && Room(room, k, Width(x)) && RunStart(room, k) && Find(up, t, q) == None
    requires q.loss ==> Find(up, t, Query(None, q.name, x.sfn[..11], false)) == None
    ensures Created(up, t, items, q, true, Stored(room, k, x), Insert(items, k, x), k + Width(x) - 1)
  {
    hide Find, Represents, OtherName, ShortsDistinct, GrowsByZeros, IsBlank, RunStart, Stored, Insert, NoShort;
    hide Findable, ItemOk;
    Registered(up, t, room, items, k, x, q);
    OthersAfter(up, t, room, items, k, x, q);
    IsAdded(t, room, items, k, x, q);
  }

  lemma IsAdded(t: Table, room: Table, items: seq<Item>, k: nat, x: Item, q: Query)
    requires Represents(t, items) && GrowsByZeros(t, room) && NewFor(x, q) && NoShort(items, x.sfn[..11])
    requires Room(room, k, Width(x)) && RunStart(room, k)
    ensures Added(items, q, Insert(items, k, x), k + Width(x) - 1)
  {
    hide Represents, GrowsByZeros, NewFor, NoShort, Room, RunStart, Vacant, Insert;
    GrowthRepresents(t, room, items);
    RoomIsVacant(room, items, k, Width(x));
  }

  lemma RegisteredFits(room: Table, k: nat, x: Item, q: Query)
    requires NewFor(x, q) && Room(room, k, Width(x))
    ensures ItemOk(x) && k + Width(x) <= |room|
  {}

  lemma EntryIsNew(d: Dir, q: Query)
    requires d.Named() && q.lfn.Some? && q.name == d.name && q.loss == d.loss && (!q.loss ==> q.fn == d.fn)
    requires ItemOk(d.Entry())
    ensures NewFor(d.Entry(), q) && d.Entry().sfn[..11] == d.fn
  {}

  lemma OthersAfter(up: Folding, t: Table, room: Table, items: seq<Item>, k: nat, x: Item, q: Query)
    requires Folds(up) && QueryOk(q) && Represents(t, items) && GrowsByZeros(t, room)
    requires NewFor(x, q) && Room(room, k, Width(x)) && RunStart(room, k) && Find(up, t, q) == None
    requires NoShort(items, x.sfn[..11])
    ensures forall j, q' :: 0 <= j < |items| && OtherName(up, items[j], q, q') ==>
      Find(up, Stored(room, k, x), q') == Find(up, t, q')
  {
    hide Find, Represents, IsBlank, RunStart, Stored, NoShort, GrowsByZeros, NameOf, ItemOk;
    GrowthRepresents(t, room, items);
    SameItemsSameAnswers(up, t, room, items, q);
    RegisteredFits(room, k, x, q);
    forall j, q' | 0 <= j < |items| && OtherName(up, items[j], q, q')
      ensures Find(up, Stored(room, k, x), q') == Find(up, t, q')
    {
      OthersResolve(up, room, items, k, x, q, j, q');
      SameItemsSameAnswers(up, t, room, items, q');
    }
  }

  lemma OthersSame(up: Folding, t: Table, room: Table, items: seq<Item>, q: Query)
    requires Folds(up) && Represents(t, items) && GrowsByZeros(t, room)
    ensures forall j, q' :: 0 <= j < |items| && OtherName(up, items[j], q, q') ==> Find(up, room, q') == Find(up, t, q')
  {
    hide Find, Represents, GrowsByZeros, NameOf;
    GrowthRepresents(t, room, items);
    forall j, q' | 0 <= j < |items| && OtherName(up, items[j], q, q')
      ensures Find(up, room, q') == Find(up, t, q')
    {
      SameItemsSameAnswers(up, t, room, items, q');
    }
  }

  /** `q'` is the name of the live object `y`, and case does not change short names. */
  ghost predicate OtherName(up: Folding, y: Item, q: Query, q': Query) {
    && QueryOk(q') && NameOf(up, y, q')
    && (SameFolded(up, q.name, q'.name) ==> q.fn == q'.fn && q.loss == q'.loss)
  }

  /** What deleting the name of query `q` does. An object without a long name, or one found by it, goes as a whole and
      nothing else changes; an object found by its short alias leaves its long-name slots behind, and the directory is
      no longer well formed. */
  ghost predicate Deletes(up: Folding, t: Table, items: seq<Item>, q: Query, ok: bool, t': Table, items': seq<Item>)
    requires QueryOk(q)
  {
    && (!ok ==> t' == t && items' == items && Find(up, t, q) == None)
    && (ok ==>
          Find(up, t, q).Some?
          && var h := Find(up, t, q).value;
             ItemEnding(items, h.index).Some?
             && ItemEnding(items, h.index).value.Object?
             && var x := ItemEnding(items, h.index).value;
                var clean := x.name == [] || LongMatch(up, x, q);
                && (WellFormed(t') <==> clean)
                && (clean ==> items' == Without(items, h.index) && Represents(t', items') && ShortsDistinct(items'))
                && (clean ==> forall q' :: QueryOk(q') && !Hits(up, t, q', h.index) ==>
                  Find(up, t', q') == Find(up, t, q')))
  }

  /** The query resolves to slot `i`. */
  ghost predicate Hits(up: Folding, t: Table, q: Query, i: nat)
    requires QueryOk(q)
  {
    Find(up, t, q).Some? && Find(up, t, q).value.index == i
  }

  /** f_unlink, as far as the directory goes: search, and remove what was found. */
  method Delete(d: Dir, up: Folding, ghost items: seq<Item>) returns (res: Status, ghost items': seq<Item>)
    requires d.Valid() && Folds(up) && Represents(d.T(), items) && ShortsDistinct(items)
    modifies d, d.fs`disk, d.fs`wflag, d.fs`winsect, d.fs`img, d.fs`lastClust, d.fs`freeClust, d.fs`fsiDirty, d.fs.win
    ensures d.Valid() && Deletes(up, old(d.T()), items, old(d.Q()), res == Ok, d.T(), items')
    ensures DirStep(d.fs.g, old(d.fs.Table()), old(d.fs.img), old(d.chain), d.fs.Table(), d.fs.img, d.chain)
  {
    hide Find, Represents, Findable, ShortsDistinct, DirStep, GrowsByZeros, Deletes, Removed, Top, WellFormed;
    hide WindowOk, FatMap, TableOn, TableOf, Exists, PlaceOf, QueryOk, Directory.Width;
    items' := items;
    ghost var t, q := d.T(), d.Q();
    d.StepSelf();
    res := d.DirFind(up);
    if res == Ok {
      FoundCanGo(up, t, items, q);
      RemoveDeletes(up, t, items, q);
      items' := Without(items, d.index);
      res := d.DirRemove();
    } else {
      NothingDeleted(up, t, items, q);
    }
  }

  lemma FoundCanGo(up: Folding, t: Table, items: seq<Item>, q: Query)
    requires Folds(up) && QueryOk(q) && Represents(t, items) && Find(up, t, q).Some?
    ensures
      var h := Find(up, t, q).value;
      h.lfnIdx == NO_LFN || h.lfnIdx <= h.index
  {
    hide Find, Represents;
    FindIsLookup(up, t, items, q);
    HitIsObject(up, items, q, 0);
  }

  lemma NothingDeleted(up: Folding, t: Table, items: seq<Item>, q: Query)
    requires QueryOk(q) && Find(up, t, q) == None
    ensures Deletes(up, t, items, q, false, t, items)
  {}

  lemma RemoveDeletes(up: Folding, t: Table, items: seq<Item>, q: Query)
    requires Folds(up) && QueryOk(q) && Represents(t, items) && ShortsDistinct(items) && Find(up, t, q).Some?
    requires |t| <= NO_LFN + 1
    ensures
      var h := Find(up, t, q).value;
      && Top(h) <= h.index < |t|
      && Deletes(up, t, items, q, true, Removed(t, h), Without(items, h.index))
  {
    hide Find, Represents, ShortsDistinct, Erased, Removed, ItemEnding, Without, LongMatch, WellFormed;
    RemoveExact(up, t, items, q);
    var h := Find(up, t, q).value;
    var x := ItemEnding(items, h.index).value;
    if x.name == [] || LongMatch(up, x, q) {
      WithoutKeepsDistinct(items, h.index);
      forall q' | QueryOk(q') && !Hits(up, t, q', h.index)
        ensures Find(up, Removed(t, h), q') == Find(up, t, q')
      {
        RemoveKeepsOthers(up, t, items, q, q');
      }
    }
  }
}
