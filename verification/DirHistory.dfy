/** Creating and deleting ASCII names in one directory, over any run. */
module DirHistory {
  import opened Results
  import opened Bytes
  import opened Fat
  import opened Window
  import opened Lfn
  import opened Directory
  import opened Registry
  import opened Removal
  import opened DirImage
  import opened DirWalk
  import opened DirRun
  import opened Naming
  import ShortName

  // ---------------------------------------------------------------- where objects stay

  lemma {:induction false} BlankEnding(items: seq<Item>, n: nat, i: nat)
    requires n <= |items| && forall j :: 0 <= j < n ==> items[j].Blank?
    requires ItemEnding(items, i).Some? && ItemEnding(items, i).value.Object?
    ensures i >= n && ItemEnding(items[n..], i - n) == ItemEnding(items, i)
    decreases n
  {
    if n == 0 {
      assert items[0..] == items;
    } else {
      assert i >= 1;
      BlankEnding(items[1..], n - 1, i - 1);
      assert items[1..][n - 1..] == items[n..];
    }
  }

  /** Storing an object moves no other one. */
  lemma {:induction false} InsertEnding(items: seq<Item>, k: nat, x: Item, i: nat)
    requires Vacant(items, k, Width(x)) && ItemEnding(items, i).Some? && ItemEnding(items, i).value.Object?
    ensures ItemEnding(Insert(items, k, x), i) == ItemEnding(items, i)
    decreases |items|
  {
    var w := Width(x);
    if k == 0 {
      var n := if w <= |items| then w else |items|;
      BlankEnding(items, n, i);
      var rest := if w <= |items| then items[w..] else [];
      assert rest == items[n..];
      assert n == w;
      assert ([x] + rest)[1..] == rest;
      assert Insert(items, 0, x) == [x] + rest;
    } else {
      var v := Width(items[0]);
      InsertBehind(items, k, x);
      if i >= v {
        InsertEnding(items[1..], k - v, x, i - v);
      }
    }
  }

  lemma {:induction false} InsertedEnding(items: seq<Item>, k: nat, x: Item)
    requires Vacant(items, k, Width(x))
    ensures ItemEnding(Insert(items, k, x), k + Width(x) - 1) == Some(x)
    decreases |items|
  {
    if k == 0 {
      assert Insert(items, 0, x)[0] == x;
    } else {
      InsertBehind(items, k, x);
      InsertedEnding(items[1..], k - Width(items[0]), x);
    }
  }

  lemma {:induction false} BlanksInFront(n: nat, items: seq<Item>, i: nat)
    ensures ItemEnding(BlankItems(n) + items, n + i) == ItemEnding(items, i)
  {
    if n == 0 {
      assert BlankItems(0) + items == items;
    } else {
      BlanksInFront(n - 1, items, i);
      assert (BlankItems(n) + items)[1..] == BlankItems(n - 1) + items;
    }
  }

  /** Removing an object moves no other one. */
  lemma {:induction false} WithoutEnding(items: seq<Item>, d: nat, i: nat)
    requires ItemEnding(items, d).Some? && ItemEnding(items, i).Some? && i != d
    ensures ItemEnding(Without(items, d), i) == ItemEnding(items, i)
    decreases |items|
  {
    var v := Width(items[0]);
    if d < v {
      BlanksInFront(v, items[1..], i - v);
    } else {
      assert Without(items, d)[1..] == Without(items[1..], d - v);
      if i >= v {
        WithoutEnding(items[1..], d - v, i - v);
      }
    }
  }

  lemma {:induction false} EndingIsItem(items: seq<Item>, i: nat) returns (j: nat)
    requires ItemEnding(items, i).Some?
    ensures j < |items| && ItemEnding(items, i) == Some(items[j])
    decreases |items|
  {
    if i < Width(items[0]) {
      j := 0;
    } else {
      j := EndingIsItem(items[1..], i - Width(items[0]));
      j := j + 1;
    }
  }

  // ---------------------------------------------------------------- the items after a change

  lemma SplicedBehind(items: seq<Item>, n: nat, m: nat, b: seq<Item>)
    requires 0 < n <= m <= |items|
    ensures [items[0]] + (items[1..][..n - 1] + b + items[1..][m - 1..]) == items[..n] + b + items[m..]
  {
    assert items[..n] == [items[0]] + items[1..][..n - 1] && items[1..][m - 1..] == items[m..];
  }

  lemma {:induction false} InsertIs(items: seq<Item>, k: nat, x: Item) returns (n: nat, m: nat)
    ensures n <= m <= |items| && Insert(items, k, x) == items[..n] + [x] + items[m..]
    decreases |items|
  {
    hide Width;
    if items == [] {
      n, m := 0, 0;
    } else if k == 0 {
      n, m := 0, if Width(x) <= |items| then Width(x) else |items|;
    } else {
      n, m := InsertIs(items[1..], if k < Width(items[0]) then 0 else k - Width(items[0]), x);
      SplicedBehind(items, n + 1, m + 1, [x]);
      n, m := n + 1, m + 1;
    }
  }

  lemma {:induction false} WithoutIs(items: seq<Item>, d: nat) returns (n: nat)
    requires ItemEnding(items, d).Some?
    ensures n < |items| && items[n] == ItemEnding(items, d).value
    ensures Without(items, d) == items[..n] + BlankItems(Width(items[n])) + items[n + 1..]
    decreases |items|
  {
    hide Width, BlankItems;
    if d < Width(items[0]) {
      n := 0;
      assert items[..0] == [];
    } else {
      n := WithoutIs(items[1..], d - Width(items[0]));
      SplicedBehind(items, n + 1, n + 2, BlankItems(Width(items[n + 1])));
      n := n + 1;
    }
  }

  // ---------------------------------------------------------------- tidy directories

  /** Two objects stored under long names that dir_find cannot tell apart. */
  ghost predicate Clash(up: Folding, x: Item, y: Item) {
    x.Object? && y.Object? && x.name != [] && Findable(x.name) && SameFolded(up, x.name, y.name)
  }

  ghost predicate LongsDistinct(up: Folding, items: seq<Item>) {
    forall i, j :: 0 <= i < j < |items| ==> !Clash(up, items[i], items[j])
  }

  function AsAscii(name: Name): seq<Ascii> {
    seq(|name|, i requires 0 <= i < |name| => if name[i] < 0x80 then name[i] else 0)
  }

  /** What create_name makes of the object's long name gave it its short name, if that fits 8.3. */
  ghost predicate Derived(x: Item) {
    x.Object? && x.name != [] ==>
      var a := AsAscii(x.name);
      x.name == Units(a) && (!ShortName.Make(a).loss ==> x.sfn[..11] == ShortName.Make(a).fn)
  }

  ghost predicate AllDerived(items: seq<Item>) {
    forall i :: 0 <= i < |items| ==> Derived(items[i])
  }

  /** No two objects share a short or a long name, and short names come from long ones where they can. */
  ghost predicate Tidy(up: Folding, items: seq<Item>) {
    ShortsDistinct(items) && LongsDistinct(up, items) && AllDerived(items)
  }

  lemma UnitsBack(a: seq<Ascii>)
    ensures AsAscii(Units(a)) == a
  {}

  lemma NewIsDerived(a: seq<Ascii>, q: Query, x: Item)
    requires Names(q, a) && NewFor(x, q)
    ensures Derived(x)
  {
    hide ShortName.Make, QueryOk, ItemOk;
    UnitsBack(a);
  }

  /** A name that was missed clashes with no object. */
  lemma MissedIsNew(up: Folding, items: seq<Item>, q: Query, x: Item)
    requires Lookup(up, items, q, 0) == None && NewFor(x, q)
    ensures forall i :: 0 <= i < |items| ==> !Clash(up, items[i], x) && !Clash(up, x, items[i])
  {
    hide Lookup, ShortMatch;
    MissMeans(up, items, q, 0);
    forall i | 0 <= i < |items|
      ensures !Clash(up, items[i], x) && !Clash(up, x, items[i])
    {
      assert !LongMatch(up, items[i], q);
    }
  }

  lemma InsertKeepsLongs(up: Folding, items: seq<Item>, k: nat, x: Item)
    requires LongsDistinct(up, items) && AllDerived(items) && Derived(x)
    requires forall i :: 0 <= i < |items| ==> !Clash(up, items[i], x) && !Clash(up, x, items[i])
    ensures LongsDistinct(up, Insert(items, k, x)) && AllDerived(Insert(items, k, x))
  {
    hide Clash, Derived, Insert;
    var n, m := InsertIs(items, k, x);
  }

  lemma WithoutKeepsLongs(up: Folding, items: seq<Item>, d: nat)
    requires LongsDistinct(up, items) && AllDerived(items) && ItemEnding(items, d).Some?
    ensures LongsDistinct(up, Without(items, d)) && AllDerived(Without(items, d))
  {
    hide SameFolded, ShortName.Make, Without, ItemEnding, BlankItems;
    var n := WithoutIs(items, d);
    BlankItemsBlank(Width(items[n]));
  }

  // ---------------------------------------------------------------- runs

  /** One step, with the directory after it: f_open with a create flag (`at` is the slot of the entry), or f_unlink. */
  datatype Act = Act(create: bool, name: seq<Ascii>, q: Query, ok: bool, t: Table, items: seq<Item>, at: nat)

  /** What the query finds, if anything, is an object whose own name it is. */
  ghost predicate OwnName(up: Folding, t: Table, items: seq<Item>, q: Query)
    requires QueryOk(q)
  {
    Find(up, t, q).Some? ==>
      var e := ItemEnding(items, Find(up, t, q).value.index);
      e.Some? && e.value.Object? && (e.value.name == [] || LongMatch(up, e.value, q))
  }

  ghost predicate Stepped(up: Folding, t: Table, items: seq<Item>, s: Act) {
    && Segment(s.name) && Names(s.q, s.name)
    && (if s.create then Created(up, t, items, s.q, s.ok, s.t, s.items, s.at)
        else Deletes(up, t, items, s.q, s.ok, s.t, s.items) && OwnName(up, t, items, s.q))
  }

  ghost predicate History(up: Folding, t: Table, items: seq<Item>, acts: seq<Act>)
    decreases acts
  {
    acts == [] || (Stepped(up, t, items, acts[0]) && History(up, acts[0].t, acts[0].items, acts[1..]))
  }

  function LastTable(t: Table, acts: seq<Act>): Table {
    if acts == [] then t else acts[|acts| - 1].t
  }

  function LastItems(items: seq<Item>, acts: seq<Act>): seq<Item> {
    if acts == [] then items else acts[|acts| - 1].items
  }

  /** The object of this name ends at slot `i`, and the name resolves to it. */
  ghost predicate Resides(up: Folding, t: Table, items: seq<Item>, q: Query, i: nat) {
    QueryOk(q) && ItemEnding(items, i).Some? && NameOf(up, ItemEnding(items, i).value, q) && Hits(up, t, q, i)
  }

  /** No deletion of the run finds slot `i`. */
  ghost predicate Spares(up: Folding, t: Table, acts: seq<Act>, i: nat)
    decreases acts
  {
    acts == []
    || (QueryOk(acts[0].q) && (acts[0].create || !Hits(up, t, acts[0].q, i)) && Spares(up, acts[0].t, acts[1..], i))
  }

  lemma AddedObject(items: seq<Item>, q: Query, items': seq<Item>, at: nat) returns (k: nat, x: Item)
    requires Added(items, q, items', at)
    ensures NewFor(x, q) && Vacant(items, k, Width(x)) && NoShort(items, x.sfn[..11])
    ensures items' == Insert(items, k, x) && at == k + Width(x) - 1
  {
    k, x :|
      && NewFor(x, q) && Vacant(items, k, Width(x)) && NoShort(items, x.sfn[..11])
      && items' == Insert(items, k, x) && at == k + Width(x) - 1;
  }

  lemma AddedIsTidy(up: Folding, t: Table, items: seq<Item>, s: Act)
    requires Folds(up) && Represents(t, items) && Tidy(up, items) && Names(s.q, s.name) && QueryOk(s.q)
    requires Find(up, t, s.q) == None && Added(items, s.q, s.items, s.at)
    ensures LongsDistinct(up, s.items) && AllDerived(s.items)
  {
    hide Find, Represents, Lookup, ShortsDistinct, LongsDistinct, AllDerived, Names, NewFor, Vacant, Insert, NoShort;
    hide Derived, Clash;
    var k, x := AddedObject(items, s.q, s.items, s.at);
    FindIsLookup(up, t, items, s.q);
    NewIsDerived(s.name, s.q, x);
    MissedIsNew(up, items, s.q, x);
    InsertKeepsLongs(up, items, k, x);
  }

  lemma CreateKeepsTidy(up: Folding, t: Table, items: seq<Item>, s: Act)
    requires Folds(up) && Represents(t, items) && Tidy(up, items) && Stepped(up, t, items, s) && s.create
    ensures Represents(s.t, s.items) && Tidy(up, s.items)
  {
    hide Find, Represents, ShortsDistinct, LongsDistinct, AllDerived, Names, Added, OtherName, Findable;
    NamesOk(s.q, s.name);
    if s.ok && Find(up, t, s.q).None? {
      AddedIsTidy(up, t, items, s);
    }
  }

  lemma DeleteKeepsTidy(up: Folding, t: Table, items: seq<Item>, s: Act)
    requires Folds(up) && Represents(t, items) && Tidy(up, items) && Stepped(up, t, items, s) && !s.create
    ensures Represents(s.t, s.items) && Tidy(up, s.items)
  {
    hide Find, Represents, ShortsDistinct, LongsDistinct, AllDerived, Names, LongMatch, ItemEnding, Without, WellFormed;
    NamesOk(s.q, s.name);
    if s.ok {
      WithoutKeepsLongs(up, items, Find(up, t, s.q).value.index);
    }
  }

  /** Over any run the directory stays well formed, and no two objects share a short or a long name. */
  lemma {:induction false} RunIsTidy(up: Folding, t: Table, items: seq<Item>, acts: seq<Act>)
    requires Folds(up) && Represents(t, items) && Tidy(up, items) && History(up, t, items, acts)
    ensures Represents(LastTable(t, acts), LastItems(items, acts)) && Tidy(up, LastItems(items, acts))
    decreases acts
  {
    hide Represents, Tidy, Stepped, Folds;
    if acts == [] {
    } else {
      var s := acts[0];
      if s.create {
        CreateKeepsTidy(up, t, items, s);
      } else {
        DeleteKeepsTidy(up, t, items, s);
      }
      RunIsTidy(up, s.t, s.items, acts[1..]);
    }
  }

  // ---------------------------------------------------------------- a name over a run

  lemma AddedKeepsPlace(items: seq<Item>, q: Query, items': seq<Item>, at: nat, i: nat)
    requires Added(items, q, items', at) && ItemEnding(items, i).Some? && ItemEnding(items, i).value.Object?
    ensures ItemEnding(items', i) == ItemEnding(items, i)
  {
    hide NewFor, Vacant, Insert, NoShort, Width, ItemEnding;
    var k, x := AddedObject(items, q, items', at);
    InsertEnding(items, k, x, i);
  }

  lemma CreateKeepsName(up: Folding, t: Table, items: seq<Item>, s: Act, b: seq<Ascii>, q': Query, i: nat)
    requires FoldsAscii(up) && Stepped(up, t, items, s) && s.create && Names(q', b) && Resides(up, t, items, q', i)
    ensures Resides(up, s.t, s.items, q', i)
  {
    hide Find, Represents, ShortsDistinct, Names, Added, OtherName, Findable, NameOf, ItemEnding;
    NamesOk(s.q, s.name);
    var j := EndingIsItem(items, i);
    CreatedKeepsNames(up, t, items, s.name, s.q, s.ok, s.t, s.items, s.at, j, b, q');
    if s.ok && Find(up, t, s.q).None? {
      NameIsObject(up, items[j], q');
      AddedKeepsPlace(items, s.q, s.items, s.at, i);
    }
  }

  lemma NameIsObject(up: Folding, y: Item, q: Query)
    requires NameOf(up, y, q)
    ensures y.Object?
  {}

  lemma DeleteKeepsName(up: Folding, t: Table, items: seq<Item>, s: Act, q': Query, i: nat)
    requires Stepped(up, t, items, s) && !s.create && Resides(up, t, items, q', i)
    requires QueryOk(s.q) && !Hits(up, t, s.q, i)
    ensures Resides(up, s.t, s.items, q', i)
  {
    hide Find, Represents, ShortsDistinct, Names, LongMatch, NameOf, ItemEnding, Without, WellFormed;
    if s.ok {
      WithoutEnding(items, Find(up, t, s.q).value.index, i);
    }
  }

  /** Over any run a name resolves to the slot where its object is, until a deletion finds that slot. */
  lemma {:induction false} RunKeepsName(
    up: Folding, t: Table, items: seq<Item>, acts: seq<Act>, b: seq<Ascii>, q: Query, i: nat)
    requires FoldsAscii(up) && History(up, t, items, acts) && Spares(up, t, acts, i)
    requires Names(q, b) && Resides(up, t, items, q, i)
    ensures Resides(up, LastTable(t, acts), LastItems(items, acts), q, i)
    decreases acts
  {
    hide Stepped, Resides, Names, FoldsAscii, Hits;
    if acts == [] {
    } else {
      var s := acts[0];
      if s.create {
        CreateKeepsName(up, t, items, s, b, q, i);
      } else {
        DeleteKeepsName(up, t, items, s, q, i);
      }
      RunKeepsName(up, s.t, s.items, acts[1..], b, q, i);
    }
  }

  /** A name of fewer than 255 units resides where it was created. */
  lemma CreatedResides(up: Folding, t: Table, items: seq<Item>, s: Act)
    requires Stepped(up, t, items, s) && s.create && s.ok && QueryOk(s.q) && Find(up, t, s.q) == None
    requires Findable(s.q.name)
    ensures Resides(up, s.t, s.items, s.q, s.at)
  {
    hide Find, Represents, ShortsDistinct, Names, OtherName, Vacant, NoShort, Insert, ItemEnding, QueryOk, ItemOk;
    var k, x := AddedObject(items, s.q, s.items, s.at);
    InsertedEnding(items, k, x);
  }

  // ---------------------------------------------------------------- a deleted name is gone

  /** Names that differ in case only are derived alike. */
  lemma SameShort(up: Folding, a: seq<Ascii>, q: Query, x: Item)
    requires FoldsAscii(up) && Names(q, a) && LongMatch(up, x, q) && Derived(x) && !q.loss
    ensures x.sfn[..11] == q.fn
  {
    hide ShortName.Make, QueryOk;
    var b := AsAscii(x.name);
    forall i | 0 <= i < |a|
      ensures ShortName.Up(a[i]) == ShortName.Up(b[i])
    {
      assert up(q.name[i]) == up(x.name[i]);
    }
    ShortName.CaseDoesNotMatter(a, b);
  }

  lemma ShortsApart(items: seq<Item>, i: nat, j: nat)
    requires ShortsDistinct(items) && i < |items| && j < |items| && items[i].Object? && items[j].Object?
    requires items[i].sfn[..11] == items[j].sfn[..11]
    ensures i == j
  {}

  lemma LongsApart(up: Folding, items: seq<Item>, i: nat, j: nat)
    requires LongsDistinct(up, items) && i < |items| && j < |items|
    requires Clash(up, items[i], items[j]) && Clash(up, items[j], items[i])
    ensures i == j
  {}

  /** In a tidy directory at most one object goes by an ASCII name, long or short. */
  lemma OneAnswer(up: Folding, items: seq<Item>, a: seq<Ascii>, q: Query, i: nat, j: nat)
    requires FoldsAscii(up) && Names(q, a) && Tidy(up, items) && i < |items| && j < |items|
    requires LongMatch(up, items[i], q) || ShortMatch(items[i], q)
    requires LongMatch(up, items[j], q) || ShortMatch(items[j], q)
    requires items[i].name == [] || LongMatch(up, items[i], q)
    ensures i == j
  {
    hide Names, Derived, FoldsAscii, ShortsDistinct, LongsDistinct;
    if LongMatch(up, items[i], q) && LongMatch(up, items[j], q) {
      LongsApart(up, items, i, j);
    } else {
      if LongMatch(up, items[i], q) {
        SameShort(up, a, q, items[i]);
      }
      if LongMatch(up, items[j], q) {
        SameShort(up, a, q, items[j]);
      }
      ShortsApart(items, i, j);
    }
  }

  /** A name that was deleted is not found any more. */
  lemma DeletedIsGone(up: Folding, t: Table, items: seq<Item>, s: Act)
    requires FoldsAscii(up) && Represents(t, items) && Tidy(up, items) && Stepped(up, t, items, s)
    requires !s.create && s.ok
    ensures QueryOk(s.q) && Find(up, s.t, s.q) == None
  {
    hide Find, Represents, Tidy, Names, LongMatch, ShortMatch, ItemEnding, Without, WellFormed, Lookup;
    hide BlankItems, ShortsDistinct;
    NamesOk(s.q, s.name);
    var d := Find(up, t, s.q).value.index;
    FindIsLookup(up, t, items, s.q);
    FindIsLookup(up, s.t, s.items, s.q);
    HitIsObject(up, items, s.q, 0);
    var n := WithoutIs(items, d);
    MissMeans(up, s.items, s.q, 0);
    forall i | 0 <= i < |s.items|
      ensures !LongMatch(up, s.items[i], s.q) && !ShortMatch(s.items[i], s.q)
    {
      MatchIsObject(up, s.items[i], s.q);
      if s.items[i].Object? && (LongMatch(up, s.items[i], s.q) || ShortMatch(s.items[i], s.q)) {
        BlankItemsBlank(Width(items[n]));
        var j := if i < n then i else i - |BlankItems(Width(items[n]))| + 1;
        OneAnswer(up, items, s.name, s.q, n, j);
      }
    }
  }

  // ---------------------------------------------------------------- the code

  /** The long-name buffer: the segment, a terminator, and what was there before. */
  method Buffer(lfn: Option<seq<Unit>>, a: seq<Ascii>) returns (buf: seq<Unit>)
    requires Segment(a) && (lfn.Some? ==> |lfn.value| == MAX_LFN + 1)
    ensures Holds(buf, Units(a)) && (lfn.Some? ==> buf[|a| + 1..] == lfn.value[|a| + 1..])
  {
    var stale := if lfn.Some? then lfn.value else seq(MAX_LFN + 1, i => 0);
    buf := Units(a) + [0] + stale[|a| + 1..];
    assert buf[..|a|] == Units(a);
  }

  lemma BufferSize(d: Dir)
    requires d.Valid()
    ensures |d.fn| == 11 && (d.lfn.Some? ==> |d.lfn.value| == MAX_LFN + 1)
  {}

  /** create_name for a segment without its trailing blanks and dots: the long-name buffer, the short name and the
      flags. */
  method SetName(d: Dir, a: seq<Ascii>)
    requires d.Valid() && Segment(a)
    modifies d`lfn, d`name, d`fn, d`loss, d`long, d`ntres
    ensures d.Valid() && d.Named() && Names(d.Q(), a) && d.T() == old(d.T())
    ensures d.long == ShortName.Make(a).long && d.name == Units(a)
    ensures d.ntres / 0x08 % 2 == 1 <==> ShortName.Make(a).body
    ensures d.ntres / 0x10 % 2 == 1 <==> ShortName.Make(a).ext
  {
    hide ShortName.Make, WindowOk, FatMap, TableOn, TableOf, Exists, Holds, Units;
    var r := ShortName.CreateShort(a);
    BufferSize(d);
    var buf := Buffer(d.lfn, a);
    d.lfn := Some(buf);
    d.name, d.fn, d.loss, d.long := Units(a), r.fn, r.loss, r.long;
    d.ntres := (if r.body then ShortName.NS_BODY else 0) + (if r.ext then ShortName.NS_EXT else 0);
    SegmentIsNamed(d, a);
  }

  /** A segment that needs no long name prints back from its short name and flags. */
  lemma SegmentPrints(a: seq<Ascii>, q: Query)
    requires Segment(a) && Names(q, a)
    ensures q.loss ==> ShortName.Make(a).long
    ensures
      var m := ShortName.Make(a);
      |q.fn| == 11 && (!m.long ==> ShortName.Print(q.fn, 0, m.body, m.ext) == a)
  {
    hide ShortName.Make, ShortName.Print;
    FirstByte(a);
    if !ShortName.Make(a).long {
      ShortName.PrintsBack(a);
    }
  }

  lemma NewSlotFlags(e: Slot, ntres: Byte)
    requires NewSlot(e, ntres)
    ensures e[12] == ntres
  {}

  /** A step as f_open and f_unlink take it in the directory that the path leads to. */
  method Perform(d: Dir, up: Folding, create: bool, a: seq<Ascii>, ghost items: seq<Item>)
    returns (res: Status, ghost s: Act)
    requires d.Valid() && Segment(a) && FoldsAscii(up) && Represents(d.T(), items) && ShortsDistinct(items)
    modifies d, d.fs`disk, d.fs`wflag, d.fs`winsect, d.fs`img, d.fs`lastClust, d.fs`freeClust, d.fs`fsiDirty, d.fs.win
    ensures d.Valid() && s.create == create && s.name == a && s.ok == (res == Ok) && s.t == d.T()
    ensures QueryOk(s.q) && (create || OwnName(up, old(d.T()), items, s.q) ==> Stepped(up, old(d.T()), items, s))
    ensures create && s.ok && Find(up, old(d.T()), s.q) == None && !ShortName.Make(a).long ==>
      s.at < |s.t|
      && var e := s.t[s.at];
         ShortName.Print(e[..11], 0, e[12] / 0x08 % 2 == 1, e[12] / 0x10 % 2 == 1) == a
    ensures create && s.ok && Find(up, old(d.T()), s.q) == None && ShortName.Make(a).long ==>
      LongStored(s.t, s.at, Units(a))
  {
    hide WindowOk, FatMap, TableOn, TableOf, Exists, Find, Represents, ShortsDistinct, Created, Deletes, OwnName, Names;
    hide ShortName.Make, ShortName.Print, NewSlot, LongStored, Units;
    SetName(d, a);
    SegmentPrints(a, d.Q());
    ghost var flags := d.ntres;
    ghost var q := d.Q();
    ghost var items';
    if create {
      res, items' := Create(d, up, items);
      if res == Ok && Find(up, old(d.T()), q) == None {
        NewSlotFlags(d.T()[d.index], flags);
      }
    } else {
      res, items' := Delete(d, up, items);
    }
    s := Act(create, a, q, res == Ok, d.T(), items', d.index);
  }
}
