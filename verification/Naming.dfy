/** From names to queries: what create_name hands to the directory functions for an ASCII name. */
module Naming {
  import opened Bytes
  import opened Lfn
  import opened Directory
  import opened Registry
  import opened DirRun
  import DirWalk
  import ShortName

  type Ascii = ShortName.Ascii

  /** A path segment that create_name accepts, without its trailing blanks and dots. */
  predicate Segment(a: seq<Ascii>) {
    && 1 <= |a| <= MAX_LFN && (forall i :: 0 <= i < |a| ==> a[i] >= 0x20)
    && a[|a| - 1] != ShortName.BLANK && a[|a| - 1] != ShortName.DOT
  }

  function Units(a: seq<Ascii>): (name: Name)
    ensures |name| == |a| && forall i :: 0 <= i < |a| ==> name[i] == a[i]
  {
    seq(|a|, i requires 0 <= i < |a| => a[i])
  }

  /** The query holds what create_name makes of the segment. */
  ghost predicate Names(q: Query, a: seq<Ascii>) {
    && QueryOk(q) && q.lfn.Some? && q.name == Units(a)
    && q.fn == ShortName.Make(a).fn && q.loss == ShortName.Make(a).loss
  }

  /** ff_wtoupper on ASCII. */
  ghost predicate FoldsAscii(up: Folding) {
    Folds(up) && forall c: Ascii :: up(c) == ShortName.Up(c)
  }

  // ---------------------------------------------------------------- the first byte

  lemma {:induction false} LeadingStops(a: seq<Ascii>, k: nat)
    requires k < |a| && a[|a| - 1] != ShortName.BLANK && a[|a| - 1] != ShortName.DOT
    ensures
      var n := ShortName.Leading(a, k);
      n < |a| && a[n] != ShortName.BLANK && a[n] != ShortName.DOT
    decreases |a| - k
  {
    if a[k] != ShortName.BLANK && a[k] != ShortName.DOT {
    } else {
      LeadingStops(a, k + 1);
    }
  }

  /** Filling never returns to the first byte, and never sets one flag of a lossy name without the other. */
  lemma {:induction false} FillKeeps(a: seq<Ascii>, di: nat, s: ShortName.State)
    requires s.ni <= |s.fn| == 11 && s.i >= 1 && (s.loss ==> s.long)
    ensures
      var r := ShortName.Fill(a, di, s);
      r.fn[0] == s.fn[0] && (r.loss ==> r.long)
    decreases |a| - s.si
  {
    if s.si >= |a| {
    } else {
      var w := a[s.si];
      var t := s.(si := s.si + 1);
      if w == ShortName.BLANK || (w == ShortName.DOT && t.si != di) {
        FillKeeps(a, di, ShortName.Lossy(t));
      } else if t.i >= t.ni || t.si == di {
        if t.ni != 11 && t.si <= di {
          FillKeeps(a, di, (if t.si != di then ShortName.Lossy(t) else t).(si := di, i := 8, ni := 11, b := t.b * 4));
        }
      } else {
        FillKeeps(a, di, ShortName.Store(t, w));
      }
    }
  }

  /** The short name of a segment begins with a character that marks neither a free nor a deleted slot. */
  lemma FirstByte(a: seq<Ascii>)
    requires Segment(a)
    ensures
      var r := ShortName.Make(a);
      r.fn[0] != 0 && r.fn[0] != DDE && (r.loss ==> r.long)
  {
    LeadingStops(a, 0);
    var di := ShortName.Extension(a, |a|);
    var s := ShortName.Begin(a);
    var t := ShortName.Store(s.(si := s.si + 1), a[s.si]);
    assert ShortName.Fill(a, di, s) == ShortName.Fill(a, di, t);
    FillKeeps(a, di, t);
  }

  /** After create_name on any segment the directory object is ready for dir_find and dir_register. */
  lemma SegmentIsNamed(d: DirWalk.Dir, a: seq<Ascii>)
    requires Segment(a) && Names(d.Q(), a) && d.long == ShortName.Make(a).long
    ensures d.Named()
  {
    hide ShortName.Make;
    FirstByte(a);
  }

  // ---------------------------------------------------------------- other names

  /** Creating one name leaves every object that was stored under another name: names that are the same but for case
      have the same short form. */
  lemma OthersKeepTheirNames(up: Folding, y: Item, a: seq<Ascii>, q: Query, b: seq<Ascii>, q': Query)
    requires FoldsAscii(up) && Names(q, a) && Names(q', b) && NameOf(up, y, q')
    ensures OtherName(up, y, q, q')
  {
    hide ShortName.Make, NameOf;
    if SameFolded(up, q.name, q'.name) {
      forall i | 0 <= i < |a|
        ensures ShortName.Up(a[i]) == ShortName.Up(b[i])
      {
        assert up(q.name[i]) == up(q'.name[i]);
      }
      ShortName.CaseDoesNotMatter(a, b);
    }
  }

  /** Whatever name is created, an object stored under an ASCII name resolves to the slot it was at. */
  lemma CreatedKeepsNames(
    up: Folding, t: Table, items: seq<Item>, a: seq<Ascii>, q: Query, ok: bool, t': Table, items': seq<Item>, at: nat,
    j: nat, b: seq<Ascii>, q': Query)
    requires FoldsAscii(up) && Names(q, a) && Names(q', b)
    requires Created(up, t, items, q, ok, t', items', at) && j < |items| && NameOf(up, items[j], q')
    ensures Find(up, t', q') == Find(up, t, q')
  {
    hide Find, Represents, OtherName, ShortsDistinct, NameOf, Names;
    NamesOk(q', b);
    OthersKeepTheirNames(up, items[j], a, q, b, q');
    assert OtherName(up, items[j], q, q');
  }

  lemma NamesOk(q: Query, a: seq<Ascii>)
    requires Names(q, a)
    ensures QueryOk(q)
  {}
}
