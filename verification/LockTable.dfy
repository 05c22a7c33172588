/** The open-file lock table (chk_lock, enq_lock, inc_lock, dec_lock, clear_lock) against the set of open handles. */
module LockTable {
  import opened Results

  /** An object on a mounted volume; volume 0 is the null pointer. */
  datatype Key = Key(fs: nat, clu: nat, idx: nat)

  datatype Row = Row(fs: nat, clu: nat, idx: nat, ctr: nat)

  /** One successful open. */
  datatype Handle = Handle(key: Key, write: bool)

  const WRITER: nat := 0x100

  predicate IsRow(r: Row, key: Key) {
    r.fs == key.fs && r.clu == key.clu && r.idx == key.idx
  }

  function KeyOf(r: Row): Key {
    Key(r.fs, r.clu, r.idx)
  }

  /** The first row of the object from `i` on, or the table size. */
  function FindRow(rows: seq<Row>, key: Key, i: nat): (r: nat)
    requires i <= |rows|
    ensures i <= r <= |rows| && (r < |rows| ==> IsRow(rows[r], key))
    ensures forall j :: i <= j < r ==> !IsRow(rows[j], key)
    decreases |rows| - i
  {
    if i == |rows| || IsRow(rows[i], key) then i else FindRow(rows, key, i + 1)
  }

  /** The first blank row from `i` on, or the table size. */
  function FindBlank(rows: seq<Row>, i: nat): (r: nat)
    requires i <= |rows|
    ensures i <= r <= |rows| && (r < |rows| ==> rows[r].fs == 0)
    ensures forall j :: i <= j < r ==> rows[j].fs != 0
    decreases |rows| - i
  {
    if i == |rows| || rows[i].fs == 0 then i else FindBlank(rows, i + 1)
  }

  /** chk_lock; `acc` is 0 to read, 1 to write, 2 to delete or rename. */
  function Chk(rows: seq<Row>, key: Key, acc: nat): Status {
    var i := FindRow(rows, key, 0);
    if i == |rows| then (if FindBlank(rows, 0) < |rows| || acc == 2 then Ok else TooManyOpenFiles)
    else if acc != 0 || rows[i].ctr == WRITER then Locked
    else Ok
  }

  datatype Entered = Entered(rows: seq<Row>, id: nat)

  /** inc_lock; id 0 is its error return. */
  function Inc(rows: seq<Row>, key: Key, acc: nat): (r: Entered)
    ensures |r.rows| == |rows|
  {
    var f := FindRow(rows, key, 0);
    var i := if f == |rows| then FindBlank(rows, 0) else f;
    if i == |rows| then Entered(rows, 0)
    else
      var row := if f == |rows| then Row(key.fs, key.clu, key.idx, 0) else rows[i];
      if acc != 0 && row.ctr != 0 then Entered(rows[i := row], 0)
      else Entered(rows[i := row.(ctr := if acc != 0 then WRITER else row.ctr + 1)], i + 1)
  }

  /** dec_lock on a lock id in range. */
  function Dec(rows: seq<Row>, id: nat): (r: seq<Row>)
    requires 1 <= id <= |rows|
    ensures |r| == |rows|
  {
    var row := rows[id - 1];
    var n := if row.ctr == WRITER || row.ctr == 0 then 0 else row.ctr - 1;
    rows[id - 1 := if n == 0 then row.(ctr := 0, fs := 0) else row.(ctr := n)]
  }

  /** clear_lock. */
  function DropRows(rows: seq<Row>, fs: nat): (r: seq<Row>)
    ensures |r| == |rows|
  {
    seq(|rows|, i requires 0 <= i < |rows| => if rows[i].fs == fs then rows[i].(fs := 0) else rows[i])
  }

  // ---------------------------------------------------------------- the table and the handles

  function Readers(hs: multiset<Handle>, k: Key): nat {
    hs[Handle(k, false)]
  }

  function Writers(hs: multiset<Handle>, k: Key): nat {
    hs[Handle(k, true)]
  }

  /** No object has a writer together with any other opener. */
  ghost predicate Exclusive(hs: multiset<Handle>) {
    forall k :: Writers(hs, k) <= 1 && (Writers(hs, k) == 1 ==> Readers(hs, k) == 0)
  }

  /** The counter of an object's row. */
  function Code(hs: multiset<Handle>, k: Key): nat {
    if Writers(hs, k) > 0 then WRITER else Readers(hs, k)
  }

  /** No object has two rows. */
  ghost predicate RowsDistinct(rows: seq<Row>) {
    forall i, j :: 0 <= i < j < |rows| && rows[i].fs != 0 ==> KeyOf(rows[i]) != KeyOf(rows[j])
  }

  /** Each live row's counter is 0x100 for one writer or else the number of readers. */
  ghost predicate RowsCount(rows: seq<Row>, hs: multiset<Handle>) {
    forall i :: 0 <= i < |rows| && rows[i].fs != 0 ==> rows[i].ctr == Code(hs, KeyOf(rows[i])) > 0
  }

  /** Every open object has a row. */
  ghost predicate AllFound(rows: seq<Row>, hs: multiset<Handle>) {
    forall h :: h in hs ==> h.key.fs != 0 && FindRow(rows, h.key, 0) < |rows|
  }

  ghost predicate FewReaders(hs: multiset<Handle>) {
    forall k :: Readers(hs, k) < WRITER
  }

  /** The table describes the open handles. */
  ghost predicate Agrees(rows: seq<Row>, hs: multiset<Handle>) {
    RowsDistinct(rows) && RowsCount(rows, hs) && AllFound(rows, hs) && Exclusive(hs) && FewReaders(hs)
  }

  /** chk_lock in terms of the handles: refuses a writer beside anybody and anybody beside a writer. */
  lemma ChkMeans(rows: seq<Row>, hs: multiset<Handle>, key: Key, acc: nat)
    requires Agrees(rows, hs) && key.fs != 0
    ensures Chk(rows, key, acc) == Locked <==> (Code(hs, key) > 0 && (acc != 0 || Writers(hs, key) > 0))
    ensures Chk(rows, key, acc) == TooManyOpenFiles <==>
      Code(hs, key) == 0 && acc != 2 && forall i :: 0 <= i < |rows| ==> rows[i].fs != 0
  {
    var i := FindRow(rows, key, 0);
    if i < |rows| {
      assert KeyOf(rows[i]) == key;
    } else {
      assert Handle(key, true) !in hs && Handle(key, false) !in hs;
    }
  }

  /** The row the object gets or has. */
  lemma RowAfter(rows: seq<Row>, hs: multiset<Handle>, key: Key, acc: nat)
    requires Agrees(rows, hs) && key.fs != 0 && acc < 2 && Chk(rows, key, acc) == Ok
    ensures
      var e := Inc(rows, key, acc);
      && 1 <= e.id <= |rows|
      && (rows[e.id - 1].fs == 0 || KeyOf(rows[e.id - 1]) == key)
      && e.rows == rows[e.id - 1 := Row(key.fs, key.clu, key.idx, if acc != 0 then WRITER else Code(hs, key) + 1)]
      && (acc != 0 ==> Code(hs, key) == 0) && Writers(hs, key) == 0
      && (forall j :: 0 <= j < |rows| && j != e.id - 1 ==> !IsRow(rows[j], key))
  {
    ChkMeans(rows, hs, key, acc);
    var i := FindRow(rows, key, 0);
    if i < |rows| {
      assert KeyOf(rows[i]) == key;
      forall j | 0 <= j < |rows| && j != i
        ensures !IsRow(rows[j], key)
      {
        assert KeyOf(rows[i]) == key && (IsRow(rows[j], key) ==> KeyOf(rows[j]) == key);
      }
    } else {
      assert Handle(key, true) !in hs && Handle(key, false) !in hs;
    }
  }

  /** A permitted open keeps the table in agreement with the handles, but for the 256th reader. */
  lemma OpenAgrees(rows: seq<Row>, hs: multiset<Handle>, key: Key, acc: nat)
    requires Agrees(rows, hs) && key.fs != 0 && acc < 2 && Chk(rows, key, acc) == Ok
    ensures Inc(rows, key, acc).id > 0
    ensures Agrees(Inc(rows, key, acc).rows, hs + multiset{Handle(key, acc != 0)}) <==>
      acc != 0 || Readers(hs, key) < WRITER - 1
  {
    RowAfter(rows, hs, key, acc);
    hide Inc, Chk;
    var e := Inc(rows, key, acc);
    var hs' := hs + multiset{Handle(key, acc != 0)};
    assert forall k :: Readers(hs', k) == Readers(hs, k) + (if k == key && acc == 0 then 1 else 0);
    assert forall k :: Writers(hs', k) == Writers(hs, k) + (if k == key && acc != 0 then 1 else 0);
    if acc == 0 && Readers(hs, key) == WRITER - 1 {
      assert Readers(hs', key) == WRITER;
    } else {
      EnteredAgrees(rows, hs, e.rows, hs', key, e.id - 1, if acc != 0 then WRITER else Readers(hs', key));
    }
  }

  /** chk_lock locks out a reader exactly beside a writer. */
  ghost predicate ReadersAnswered(rows: seq<Row>, hs: multiset<Handle>) {
    forall k: Key :: k.fs != 0 ==> (Chk(rows, k, 0) == Locked <==> Writers(hs, k) > 0)
  }

  /** chk_lock locks out a writer exactly beside anybody. */
  ghost predicate WritersAnswered(rows: seq<Row>, hs: multiset<Handle>) {
    forall k: Key :: k.fs != 0 ==> (Chk(rows, k, 1) == Locked <==> Writers(hs, k) > 0 || Readers(hs, k) > 0)
  }

  /** After a permitted open the table still locks out whom it should exactly if it is not the 256th reader: that one
      locks out further readers, although there is no writer. */
  lemma OpenAnswers(rows: seq<Row>, hs: multiset<Handle>, key: Key, acc: nat)
    requires Agrees(rows, hs) && key.fs != 0 && acc < 2 && Chk(rows, key, acc) == Ok
    ensures
      var rows' := Inc(rows, key, acc).rows;
      var hs' := hs + multiset{Handle(key, acc != 0)};
      && (ReadersAnswered(rows', hs') <==> acc != 0 || Readers(hs, key) < 255)
      && ((Chk(rows', key, 0) == Locked <==> Writers(hs', key) > 0) <==> acc != 0 || Readers(hs, key) < 255)
      && (acc != 0 || Readers(hs, key) < 255 ==> WritersAnswered(rows', hs'))
  {
    var rows' := Inc(rows, key, acc).rows;
    var hs' := hs + multiset{Handle(key, acc != 0)};
    OpenAgrees(rows, hs, key, acc);
    if acc != 0 || Readers(hs, key) < WRITER - 1 {
      AgreeingAnswers(rows', hs');
    } else {
      LastReader(rows, hs, key);
    }
  }

  lemma AgreeingAnswers(rows: seq<Row>, hs: multiset<Handle>)
    requires Agrees(rows, hs)
    ensures ReadersAnswered(rows, hs) && WritersAnswered(rows, hs)
  {
    hide Agrees, Chk;
    forall k: Key | k.fs != 0
      ensures Chk(rows, k, 0) == Locked <==> Writers(hs, k) > 0
      ensures Chk(rows, k, 1) == Locked <==> Writers(hs, k) > 0 || Readers(hs, k) > 0
    {
      ChkMeans(rows, hs, k, 0);
      ChkMeans(rows, hs, k, 1);
    }
  }

  /** The 256th reader of an object turns its row into that of a writer. */
  lemma LastReader(rows: seq<Row>, hs: multiset<Handle>, key: Key)
    requires Agrees(rows, hs) && key.fs != 0 && Chk(rows, key, 0) == Ok && Readers(hs, key) == WRITER - 1
    ensures Chk(Inc(rows, key, 0).rows, key, 0) == Locked && Writers(hs + multiset{Handle(key, false)}, key) == 0
  {
    RowAfter(rows, hs, key, 0);
    hide Inc, Agrees;
    var e := Inc(rows, key, 0);
    assert IsRow(e.rows[e.id - 1], key);
    assert forall j :: 0 <= j < |rows| && j != e.id - 1 ==> !IsRow(e.rows[j], key);
  }

  /** Only the object `key` gained or lost handles. */
  ghost predicate OthersSame(hs: multiset<Handle>, hs': multiset<Handle>, key: Key) {
    forall k :: k != key ==> Readers(hs', k) == Readers(hs, k) && Writers(hs', k) == Writers(hs, k)
  }

  /** The handles of one object are a lone writer or fewer than 256 readers. */
  predicate KeySafe(hs: multiset<Handle>, key: Key) {
    Readers(hs, key) < WRITER && Writers(hs, key) <= 1 && (Writers(hs, key) == 1 ==> Readers(hs, key) == 0)
  }

  lemma StaySafe(hs: multiset<Handle>, hs': multiset<Handle>, key: Key)
    requires Exclusive(hs) && FewReaders(hs) && OthersSame(hs, hs', key) && KeySafe(hs', key)
    ensures Exclusive(hs') && FewReaders(hs')
  {}

  /** Row `i`, blank or the object's own, becomes the row of the object. */
  lemma EnteredAgrees(
    rows: seq<Row>, hs: multiset<Handle>, rows': seq<Row>, hs': multiset<Handle>, key: Key, i: nat, c: nat)
    requires Agrees(rows, hs) && key.fs != 0 && i < |rows|
    requires rows' == rows[i := Row(key.fs, key.clu, key.idx, c)]
    requires rows[i].fs == 0 || KeyOf(rows[i]) == key
    requires forall j :: 0 <= j < |rows| && j != i ==> !IsRow(rows[j], key)
    requires OthersSame(hs, hs', key) && KeySafe(hs', key) && c == Code(hs', key) > 0
    ensures Agrees(rows', hs')
  {
    StaySafe(hs, hs', key);
    EnteredFound(rows, hs, rows', hs', key, i);
    hide Exclusive, FewReaders, AllFound, KeySafe, Code, OthersSame;
    forall j | 0 <= j < |rows| && rows'[j].fs != 0
      ensures rows'[j].ctr == Code(hs', KeyOf(rows'[j])) > 0
    {
      if j == i {
        assert KeyOf(rows'[j]) == key;
      } else {
        SameCode(hs, hs', key, KeyOf(rows[j]));
      }
    }
  }

  lemma EnteredFound(rows: seq<Row>, hs: multiset<Handle>, rows': seq<Row>, hs': multiset<Handle>, key: Key, i: nat)
    requires Agrees(rows, hs) && key.fs != 0 && i < |rows| == |rows'|
    requires IsRow(rows'[i], key) && forall j :: 0 <= j < |rows| && j != i ==> rows'[j] == rows[j]
    requires rows[i].fs == 0 || KeyOf(rows[i]) == key
    requires OthersSame(hs, hs', key)
    ensures AllFound(rows', hs')
  {
    hide Exclusive, FewReaders, RowsCount, RowsDistinct, OthersSame;
    forall h | h in hs'
      ensures h.key.fs != 0 && FindRow(rows', h.key, 0) < |rows'|
    {
      if h.key == key {
        assert IsRow(rows'[i], key);
      } else {
        OtherRow(rows, hs, hs', h, key);
        var f := FindRow(rows, h.key, 0);
        assert IsRow(rows'[f], h.key);
      }
    }
  }

  lemma OtherRow(rows: seq<Row>, hs: multiset<Handle>, hs': multiset<Handle>, h: Handle, key: Key)
    requires Agrees(rows, hs) && h in hs' && h.key != key
    requires OthersSame(hs, hs', key)
    ensures h in hs
  {
    assert hs'[h] == if h.write then Writers(hs', h.key) else Readers(hs', h.key);
    assert hs[h] == if h.write then Writers(hs, h.key) else Readers(hs, h.key);
  }

  /** Closing a handle through its lock id keeps the agreement. */
  lemma CloseAgrees(rows: seq<Row>, hs: multiset<Handle>, h: Handle)
    requires Agrees(rows, hs) && h in hs
    ensures FindRow(rows, h.key, 0) < |rows|
    ensures Agrees(Dec(rows, FindRow(rows, h.key, 0) + 1), hs - multiset{h})
  {
    hide Dec, RowsCount, RowsDistinct, OthersSame, KeySafe, Code, FindRow;
    var i := FindRow(rows, h.key, 0);
    var hs' := hs - multiset{h};
    HandlesLess(hs, h);
    StaySafe(hs, hs', h.key);
    ClosedCounts(rows, hs, h, i);
    ClosedFound(rows, hs, Dec(rows, i + 1), hs', h, i);
  }

  lemma ClosedFound(rows: seq<Row>, hs: multiset<Handle>, rows': seq<Row>, hs': multiset<Handle>, h: Handle, i: nat)
    requires AllFound(rows, hs) && h in hs && i == FindRow(rows, h.key, 0) && |rows'| == |rows|
    requires hs' == hs - multiset{h} && forall j :: 0 <= j < |rows| && j != i ==> rows'[j] == rows[j]
    requires i < |rows| && (Code(hs', h.key) > 0 ==> KeyOf(rows'[i]) == h.key)
    ensures AllFound(rows', hs')
  {
    hide FindRow;
    forall g | g in hs'
      ensures g.key.fs != 0 && FindRow(rows', g.key, 0) < |rows'|
    {
      var f := FindRow(rows, g.key, 0);
      OpenRow(hs', g);
      assert g in hs && KeyOf(rows[i]) == h.key;
      assert IsRow(rows'[f], g.key);
    }
  }

  lemma OpenRow(hs: multiset<Handle>, g: Handle)
    requires g in hs
    ensures Code(hs, g.key) > 0
  {
    assert hs[g] == if g.write then Writers(hs, g.key) else Readers(hs, g.key);
  }

  /** The handles of `h`'s object after closing it. */
  lemma HandlesLess(hs: multiset<Handle>, h: Handle)
    requires h in hs && Exclusive(hs) && FewReaders(hs)
    ensures OthersSame(hs, hs - multiset{h}, h.key) && KeySafe(hs - multiset{h}, h.key)
    ensures Code(hs - multiset{h}, h.key) == if Code(hs, h.key) == WRITER then 0 else Code(hs, h.key) - 1
    ensures 0 < Code(hs, h.key) <= WRITER
  {
    var hs' := hs - multiset{h};
    assert hs'[h] == hs[h] - 1;
    assert forall g :: g != h ==> hs'[g] == hs[g];
    assert KeySafe(hs, h.key);
    assert Readers(hs', h.key) == Readers(hs, h.key) - (if h.write then 0 else 1);
    assert Writers(hs', h.key) == Writers(hs, h.key) - (if h.write then 1 else 0);
  }

  lemma ClosedCounts(rows: seq<Row>, hs: multiset<Handle>, h: Handle, i: nat)
    requires Agrees(rows, hs) && h in hs && i < |rows| && KeyOf(rows[i]) == h.key && h.key.fs != 0
    ensures
      var rows' := Dec(rows, i + 1);
      var hs' := hs - multiset{h};
      && RowsDistinct(rows') && RowsCount(rows', hs')
      && (forall j :: 0 <= j < |rows| && j != i ==> rows'[j] == rows[j])
      && (Code(hs', h.key) > 0 ==> KeyOf(rows'[i]) == h.key)
  {
    HandlesLess(hs, h);
    hide Code, Exclusive, FewReaders, AllFound;
    var hs' := hs - multiset{h};
    forall j | 0 <= j < |rows| && j != i && rows[j].fs != 0
      ensures Code(hs', KeyOf(rows[j])) == Code(hs, KeyOf(rows[j]))
    {
      assert KeyOf(rows[j]) != h.key;
      SameCode(hs, hs', h.key, KeyOf(rows[j]));
    }
  }

  lemma SameCode(hs: multiset<Handle>, hs': multiset<Handle>, key: Key, k: Key)
    requires OthersSame(hs, hs', key) && k != key
    ensures Code(hs', k) == Code(hs, k)
  {}

  /** The handles left when those of one volume are gone. */
  ghost predicate Dropped(hs: multiset<Handle>, fs: nat, hs': multiset<Handle>) {
    forall h :: hs'[h] == if h.key.fs == fs then 0 else hs[h]
  }

  /** Mounting or unmounting a volume drops its rows along with all its handles. */
  lemma ClearAgrees(rows: seq<Row>, hs: multiset<Handle>, fs: nat, hs': multiset<Handle>)
    requires Agrees(rows, hs) && fs != 0
    requires Dropped(hs, fs, hs')
    ensures Agrees(DropRows(rows, fs), hs')
  {
    var rows' := DropRows(rows, fs);
    ClearCounts(rows, hs, fs, hs');
    hide Exclusive, FewReaders, RowsCount, RowsDistinct;
    forall h | h in hs'
      ensures h.key.fs != 0 && FindRow(rows', h.key, 0) < |rows'|
    {
      assert h in hs;
      assert IsRow(rows'[FindRow(rows, h.key, 0)], h.key);
    }
  }

  lemma ClearCounts(rows: seq<Row>, hs: multiset<Handle>, fs: nat, hs': multiset<Handle>)
    requires Agrees(rows, hs) && fs != 0
    requires Dropped(hs, fs, hs')
    ensures RowsDistinct(DropRows(rows, fs)) && RowsCount(DropRows(rows, fs), hs') && Exclusive(hs') && FewReaders(hs')
  {
    hide AllFound;
    assert forall k :: Code(hs', k) == if k.fs == fs then 0 else Code(hs, k);
  }

  /** An open object keeps its row, and so its lock id, for as long as it is open. */
  lemma IdsAreStable(
    rows: seq<Row>, hs: multiset<Handle>, rows': seq<Row>, hs': multiset<Handle>, i: nat, row: Row, h: Handle)
    requires Agrees(rows, hs) && Agrees(rows', hs') && i < |rows| && rows' == rows[i := row]
    requires h in hs && h in hs' && (rows[i].fs == 0 || IsRow(rows[i], KeyOf(row)) || row.fs == 0)
    ensures FindRow(rows', h.key, 0) == FindRow(rows, h.key, 0)
  {
    var f, f' := FindRow(rows, h.key, 0), FindRow(rows', h.key, 0);
    assert KeyOf(rows[f]) == h.key && KeyOf(rows'[f']) == h.key;
    assert f' != i ==> KeyOf(rows[f']) == h.key;
    assert f != i ==> KeyOf(rows'[f]) == h.key;
    assert f == i ==> row.fs == 0 || KeyOf(row) == h.key;
    assert KeyOf(rows'[i]) == KeyOf(row);
  }

  /** The 256th reader looks like a writer: closing one of 256 readers frees the row, and a writer is admitted beside
      the remaining 255. */
  lemma WriterBesideReaders(rows: seq<Row>, hs: multiset<Handle>, key: Key)
    requires Agrees(rows, hs) && key.fs != 0 && Readers(hs, key) == 255
    ensures Chk(rows, key, 0) == Ok && Inc(rows, key, 0).id > 0
    ensures Chk(Dec(Inc(rows, key, 0).rows, Inc(rows, key, 0).id), key, 1) == Ok
  {
    assert Handle(key, false) in hs;
    var i := FindRow(rows, key, 0);
    assert KeyOf(rows[i]) == key;
    ChkMeans(rows, hs, key, 0);
    RowAfter(rows, hs, key, 0);
    var e := Inc(rows, key, 0);
    assert e.id - 1 == i;
    var freed := Dec(e.rows, e.id);
    assert freed[i].fs == 0;
    assert FindRow(freed, key, 0) == |rows| by {
      assert forall j :: 0 <= j < |rows| ==> !IsRow(freed[j], key);
    }
  }

  // ---------------------------------------------------------------- runs

  /** An open file: its handle, and the lock id that inc_lock returned for it. */
  datatype Opened = Opened(handle: Handle, id: nat)

  datatype Table = Table(rows: seq<Row>, files: seq<Opened>)

  /** Close and Mount name open files by position and volumes by number. */
  datatype Event = Open(key: Key, write: bool) | Close(i: nat) | Mount(fs: nat)

  function Handles(files: seq<Opened>): multiset<Handle> {
    if files == [] then multiset{} else Handles(files[1..]) + multiset{files[0].handle}
  }

  function Closed(files: seq<Opened>, i: nat): seq<Opened>
    requires i < |files|
  {
    files[..i] + files[i + 1..]
  }

  /** The files that are not on volume `fs`. */
  function Elsewhere(files: seq<Opened>, fs: nat): seq<Opened> {
    if files == [] then []
    else if files[0].handle.key.fs == fs then Elsewhere(files[1..], fs)
    else [files[0]] + Elsewhere(files[1..], fs)
  }

  lemma {:induction false} ClosedHandles(files: seq<Opened>, i: nat)
    requires i < |files|
    ensures files[i].handle in Handles(files)
    ensures Handles(Closed(files, i)) == Handles(files) - multiset{files[i].handle}
  {
    var t := files[1..];
    if i == 0 {
      assert Closed(files, 0) == t;
      TakeOut(Handles(t), files[0].handle);
    } else {
      ClosedHandles(t, i - 1);
      ClosedBehind(files, i);
      hide Closed, Handles;
      TakeOutOfMore(Handles(t), files[i].handle, files[0].handle);
    }
  }

  lemma ClosedBehind(files: seq<Opened>, i: nat)
    requires 0 < i < |files|
    ensures Handles(Closed(files, i)) == Handles(Closed(files[1..], i - 1)) + multiset{files[0].handle}
    ensures Handles(files) == Handles(files[1..]) + multiset{files[0].handle}
  {
    assert Closed(files, i)[1..] == Closed(files[1..], i - 1);
  }

  lemma TakeOut(hs: multiset<Handle>, h: Handle)
    ensures h in hs + multiset{h} && (hs + multiset{h}) - multiset{h} == hs
  {}

  lemma TakeOutOfMore(hs: multiset<Handle>, h: Handle, g: Handle)
    requires h in hs
    ensures h in hs + multiset{g} && (hs - multiset{h}) + multiset{g} == (hs + multiset{g}) - multiset{h}
  {}

  lemma {:induction false} ElsewhereDrops(files: seq<Opened>, fs: nat)
    ensures Dropped(Handles(files), fs, Handles(Elsewhere(files, fs)))
    ensures forall o :: o in Elsewhere(files, fs) <==> o in files && o.handle.key.fs != fs
  {
    if files == [] {
    } else {
      ElsewhereDrops(files[1..], fs);
      assert files == [files[0]] + files[1..];
      var r := Elsewhere(files[1..], fs);
      assert ([files[0]] + r)[1..] == r;
    }
  }

  lemma {:induction false} HeldHandle(files: seq<Opened>, o: Opened)
    requires o in files
    ensures o.handle in Handles(files)
  {
    var i :| 0 <= i < |files| && files[i] == o;
    ClosedHandles(files, i);
  }

  /** f_open (chk_lock, then inc_lock), f_close (dec_lock with the file's lock id), and mounting (clear_lock). */
  ghost function Step(t: Table, e: Event): Table {
    match e
    case Open(key, write) =>
      var acc := if write then 1 else 0;
      if key.fs == 0 || Chk(t.rows, key, acc) != Ok then t
      else
        var r := Inc(t.rows, key, acc);
        Table(r.rows, [Opened(Handle(key, write), r.id)] + t.files)
    case Close(i) =>
      if i >= |t.files| || !(1 <= t.files[i].id <= |t.rows|) then t
      else Table(Dec(t.rows, t.files[i].id), Closed(t.files, i))
    case Mount(fs) =>
      if fs == 0 then t else Table(DropRows(t.rows, fs), Elsewhere(t.files, fs))
  }

  /** The table describes the open files, and each file's lock id is that of its object's row. */
  ghost predicate Describes(t: Table) {
    && Agrees(t.rows, Handles(t.files))
    && forall o :: o in t.files ==> o.id == FindRow(t.rows, o.handle.key, 0) + 1
  }

  /** No object is opened by a 256th reader during the run. */
  ghost predicate Moderate(t: Table, es: seq<Event>)
    decreases es
  {
    es == []
    || ((es[0].Open? && !es[0].write ==> Readers(Handles(t.files), es[0].key) < 255)
      && Moderate(Step(t, es[0]), es[1..]))
  }

  ghost function RunAll(t: Table, es: seq<Event>): Table
    decreases es
  {
    if es == [] then t else RunAll(Step(t, es[0]), es[1..])
  }

  lemma OpenDescribes(t: Table, key: Key, write: bool)
    requires Describes(t) && (!write ==> Readers(Handles(t.files), key) < WRITER - 1)
    ensures Describes(Step(t, Open(key, write)))
  {
    hide Agrees, Inc, Chk, FindRow, Readers, Code;
    var acc := if write then 1 else 0;
    if key.fs != 0 && Chk(t.rows, key, acc) == Ok {
      var hs := Handles(t.files);
      var x := Inc(t.rows, key, acc);
      var o := Opened(Handle(key, write), x.id);
      OpenAgrees(t.rows, hs, key, acc);
      OpenedRow(t.rows, hs, key, acc);
      RowAfter(t.rows, hs, key, acc);
      assert ([o] + t.files)[1..] == t.files;
      forall p | p in t.files
        ensures p.id == FindRow(x.rows, p.handle.key, 0) + 1
      {
        HeldHandle(t.files, p);
        IdsAreStable(t.rows, hs, x.rows, hs + multiset{o.handle}, x.id - 1, x.rows[x.id - 1], p.handle);
      }
    }
  }

  lemma CloseDescribes(t: Table, i: nat)
    requires Describes(t) && i < |t.files|
    ensures 1 <= t.files[i].id <= |t.rows| && Describes(Step(t, Close(i)))
  {
    hide Agrees, FindRow, Handles, Closed;
    var hs, o := Handles(t.files), t.files[i];
    assert o in t.files;
    ClosedHandles(t.files, i);
    CloseAgrees(t.rows, hs, o.handle);
    ClosedInside(t.files, i);
    var rows' := Dec(t.rows, o.id);
    DecRow(t.rows, o.id);
    hide Dec;
    forall p | p in Closed(t.files, i)
      ensures p.id == FindRow(rows', p.handle.key, 0) + 1
    {
      HeldHandle(t.files, p);
      HeldHandle(Closed(t.files, i), p);
      IdsAreStable(t.rows, hs, rows', hs - multiset{o.handle}, o.id - 1, rows'[o.id - 1], p.handle);
    }
  }

  lemma ClosedInside(files: seq<Opened>, i: nat)
    requires i < |files|
    ensures forall p :: p in Closed(files, i) ==> p in files
  {}

  /** dec_lock changes one row, which stays the object's or becomes blank. */
  lemma DecRow(rows: seq<Row>, id: nat)
    requires 1 <= id <= |rows|
    ensures
      var r := Dec(rows, id);
      r == rows[id - 1 := r[id - 1]] && (r[id - 1].fs == 0 || KeyOf(r[id - 1]) == KeyOf(rows[id - 1]))
  {}

  lemma MountDescribes(t: Table, fs: nat)
    requires Describes(t)
    ensures Describes(Step(t, Mount(fs)))
  {
    if fs != 0 {
      ElsewhereDrops(t.files, fs);
      ClearAgrees(t.rows, Handles(t.files), fs, Handles(Elsewhere(t.files, fs)));
      forall o | o in Elsewhere(t.files, fs)
        ensures o.id == FindRow(DropRows(t.rows, fs), o.handle.key, 0) + 1
      {
        HeldHandle(t.files, o);
        DroppedRow(t.rows, fs, o.handle.key, 0);
      }
    }
  }

  /** Rows of other volumes are found where they were. */
  lemma {:induction false} DroppedRow(rows: seq<Row>, fs: nat, key: Key, i: nat)
    requires i <= |rows| && key.fs != fs && key.fs != 0
    ensures FindRow(DropRows(rows, fs), key, i) == FindRow(rows, key, i)
    decreases |rows| - i
  {
    if i == |rows| {
    } else {
      DroppedRow(rows, fs, key, i + 1);
    }
  }

  /** Over every such run the table describes the open files, every lock id stays the one f_close needs, and no object
      has a writer together with another opener. */
  lemma {:induction false} RunIsSafe(t: Table, es: seq<Event>)
    requires Describes(t) && Moderate(t, es)
    ensures Describes(RunAll(t, es)) && Exclusive(Handles(RunAll(t, es).files))
    decreases es
  {
    if es == [] {
    } else {
      hide Describes, Agrees, Step;
      match es[0] {
        case Open(key, write) =>
          OpenDescribes(t, key, write);
        case Close(i) =>
          StepClose(t, i);
        case Mount(fs) =>
          MountDescribes(t, fs);
      }
      RunIsSafe(Step(t, es[0]), es[1..]);
    }
  }

  lemma StepClose(t: Table, i: nat)
    requires Describes(t)
    ensures Describes(Step(t, Close(i)))
  {
    hide Describes;
    if i < |t.files| {
      CloseDescribes(t, i);
    }
  }

  // ---------------------------------------------------------------- the code

  class Locks {
    const files: array<Row>

    constructor (n: nat)
      ensures files.Length == n && forall i :: 0 <= i < n ==> files[i].fs == 0
      ensures Agrees(files[..], multiset{})
    {
      files := new Row[n](i => Row(0, 0, 0, 0));
    }

    method ChkLock(key: Key, acc: nat) returns (res: Status)
      requires key.fs != 0
      ensures res == Chk(files[..], key, acc)
    {
      var i, be := 0, false;
      ghost var rows := files[..];
      while i < files.Length
        invariant 0 <= i <= files.Length
        invariant FindRow(rows, key, i) == FindRow(rows, key, 0)
        invariant be <==> FindBlank(rows, 0) < i
      {
        if files[i].fs != 0 {
          if IsRow(files[i], key) {
            break;
          }
        } else {
          be := true;
        }
        i := i + 1;
      }
      if i == files.Length {
        return if be || acc == 2 then Ok else TooManyOpenFiles;
      }
      res := if acc != 0 || files[i].ctr == WRITER then Locked else Ok;
    }

    method EnqLock() returns (free: bool)
      ensures free <==> exists i :: 0 <= i < files.Length && files[i].fs == 0
    {
      var i := 0;
      while i < files.Length && files[i].fs != 0
        invariant 0 <= i <= files.Length && forall j :: 0 <= j < i ==> files[j].fs != 0
      {
        i := i + 1;
      }
      free := i != files.Length;
    }

    method IncLock(key: Key, acc: nat) returns (id: nat)
      modifies files
      ensures Entered(files[..], id) == Inc(old(files[..]), key, acc)
    {
      ghost var rows := files[..];
      var i := 0;
      while i < files.Length && !IsRow(files[i], key)
        invariant 0 <= i <= files.Length && FindRow(rows, key, i) == FindRow(rows, key, 0)
      {
        i := i + 1;
      }
      if i == files.Length {
        i := 0;
        while i < files.Length && files[i].fs != 0
          invariant 0 <= i <= files.Length && FindBlank(rows, i) == FindBlank(rows, 0)
        {
          i := i + 1;
        }
        if i == files.Length {
          return 0;
        }
        files[i] := Row(key.fs, key.clu, key.idx, 0);
        assert files[..] == rows[i := Row(key.fs, key.clu, key.idx, 0)];
      }
      if acc != 0 && files[i].ctr != 0 {
        assert rows[i := files[i]] == files[..];
        return 0;
      }
      files[i] := files[i].(ctr := if acc != 0 then WRITER else files[i].ctr + 1);
      assert files[..] == rows[i := files[i]];
      id := i + 1;
    }

    method DecLock(id: nat) returns (res: Status)
      modifies files
      ensures 1 <= id <= files.Length ==> res == Ok && files[..] == Dec(old(files[..]), id)
      ensures !(1 <= id <= files.Length) ==> res == IntErr && files[..] == old(files[..])
    {
      if id != 0 && id - 1 < files.Length {
        ghost var rows := files[..];
        var i := id - 1;
        var n := files[i].ctr;
        if n == WRITER {
          n := 0;
        }
        if n != 0 {
          n := n - 1;
        }
        files[i] := files[i].(ctr := n);
        if n == 0 {
          files[i] := files[i].(fs := 0);
        }
        assert files[..] == rows[i := files[i]];
        res := Ok;
      } else {
        res := IntErr;
      }
    }

    method ClearLock(fs: nat)
      modifies files
      ensures files[..] == DropRows(old(files[..]), fs)
    {
      ghost var rows := files[..];
      for i := 0 to files.Length
        invariant forall j :: 0 <= j < i ==> files[j] == DropRows(rows, fs)[j]
        invariant forall j :: i <= j < files.Length ==> files[j] == rows[j]
      {
        if files[i].fs == fs {
          files[i] := files[i].(fs := 0);
        }
      }
    }

    /** Opening as f_open does keeps the table in agreement with the handles, for fewer than 256 readers. */
    method OpenObject(key: Key, write: bool, ghost hs: multiset<Handle>) returns (res: Status, id: nat)
      requires Agrees(files[..], hs) && key.fs != 0
      requires !write ==> Readers(hs, key) < WRITER - 1
      modifies files
      ensures res == Ok ==> Agrees(files[..], hs + multiset{Handle(key, write)}) && id == FindRow(files[..], key, 0) + 1
      ensures res != Ok ==> files[..] == old(files[..])
      ensures res == Locked <==> Code(hs, key) > 0 && (write || Writers(hs, key) > 0)
    {
      hide Agrees;
      var acc := if write then 1 else 0;
      id := 0;
      res := ChkLock(key, acc);
      ChkMeans(files[..], hs, key, acc);
      if res == Ok {
        OpenAgrees(files[..], hs, key, acc);
        OpenedRow(files[..], hs, key, acc);
        id := IncLock(key, acc);
      }
    }

    /** Closing as f_close does, with the file's lock id. */
    method CloseObject(o: Opened, ghost hs: multiset<Handle>) returns (res: Status)
      requires Agrees(files[..], hs) && o.handle in hs && o.id == FindRow(files[..], o.handle.key, 0) + 1
      modifies files
      ensures res == Ok && Agrees(files[..], hs - multiset{o.handle})
    {
      hide Agrees, Dec;
      CloseAgrees(files[..], hs, o.handle);
      res := DecLock(o.id);
    }
  }

  /** inc_lock returns the lock id of the object's row. */
  lemma OpenedRow(rows: seq<Row>, hs: multiset<Handle>, key: Key, acc: nat)
    requires Agrees(rows, hs) && key.fs != 0 && acc < 2 && Chk(rows, key, acc) == Ok
    ensures FindRow(Inc(rows, key, acc).rows, key, 0) + 1 == Inc(rows, key, acc).id
  {
    RowAfter(rows, hs, key, acc);
    hide Inc, Chk, Agrees;
    var e := Inc(rows, key, acc);
    assert IsRow(e.rows[e.id - 1], key);
    assert forall j :: 0 <= j < e.id - 1 ==> e.rows[j] == rows[j];
  }
}
