/** putc_bfd, f_puts and f_gets on an open file. */
module TextIO {
  import opened Bytes
  import opened Fat
  import opened Durable
  import opened Chains
  import opened Window
  import opened Lfn
  import opened FileData
  import opened FileState
  import opened FileIO
  import opened FileRun
  import opened Text

  const BUFFER_SIZE: int := 64

  class PutBuff {
    const fp: File
    const crlf: bool         // _USE_STRFUNC == 2
    const buf: array<Byte>
    var idx: int             // -1: error
    var nchr: nat
    ghost var sent: seq<Byte>  // handed to f_write so far
    ghost var out: seq<Byte>   // encoded so far
    ghost const start: View

    constructor (fp: File, crlf: bool)
      requires Ready(fp)
      ensures Valid() && this.fp == fp && this.crlf == crlf && fresh(buf) && start == ViewOf(fp)
      ensures idx == 0 && nchr == 0 && out == []
    {
      this.fp := fp;
      this.crlf := crlf;
      buf := new Byte[64];
      idx, nchr := 0, 0;
      sent, out := [], [];
      start := ViewOf(fp);
      new;
      NoPatch(start.content, start.pos);
      FileLimits(fp);
    }

    /** Between characters the index leaves room for the longest encoding, and unless a write failed, what was sent and
        what is buffered together are what was encoded. */
    ghost predicate Valid()
      reads this, buf, fp, fp.fs, fp.fs.win, fp.buf
    {
      && buf.Length == BUFFER_SIZE && buf != fp.buf && buf != fp.fs.win && Ready(fp)
      && -1 <= idx < 61
      && start.pos <= |start.content|
      && (idx >= 0 ==>
            && sent + buf[..idx] == out && Sent())
      && (idx < 0 ==> !Room(|out|))
    }

    /** What was sent so far is in the file. */
    ghost predicate Sent()
      requires Ready(fp) && start.pos <= |start.content|
      reads this, fp, fp.fs, fp.fs.win, fp.buf
    {
      && Shows(ViewOf(fp), Patch(start.content, start.pos, sent), start.pos + |sent|)
      && Conserved(ClusterBytes(fp.fs.g), start, ViewOf(fp))
    }

    /** The file may be written, and `n` bytes more would have fitted. */
    ghost predicate Room(n: nat) {
      fp.canWrite && Fits(ClusterBytes(fp.fs.g), start, n)
    }

    /** Hands the first `i` buffered bytes to f_write. */
    method Flush(i: nat) returns (bw: nat, ok: bool)
      requires buf.Length == BUFFER_SIZE && buf != fp.buf && buf != fp.fs.win && Ready(fp) && i <= BUFFER_SIZE
      requires start.pos <= |start.content| && Sent()
      modifies `sent, fp, fp.buf, fp.fs, fp.fs.win
      ensures Ready(fp) && bw <= i
      ensures bw == i && (i > 0 || ok) ==> sent == old(sent) + buf[..i] && Sent()
      ensures (ok && bw == i) <==> Room(|old(sent)| + i)
      ensures !ok ==> bw == 0
    {
      hide Step, Patch, WindowOk, FatMap, Base, Cursor, Content, Sized, FreeCount, DiskHolds, Fits, Conserved;
      var data := buf[..i];
      ghost var v := ViewOf(fp);
      var o := PerformWrite(fp, data);
      SentMore(ClusterBytes(fp.fs.g), fp.canRead, fp.canWrite, start, sent, v, data, o, ViewOf(fp));
      ok := o.Count?;
      bw := if ok then o.n else 0;
      if bw == i && ok {
        sent := sent + data;
      }
    }

    /** putc_bfd without the line end conversion. */
    method PutUnit(c: Unit)
      requires Valid()
      modifies this, buf, fp, fp.buf, fp.fs, fp.fs.win
      ensures Valid()
      ensures old(idx) < 0 ==> idx == old(idx) && nchr == old(nchr)
      ensures old(idx) >= 0 ==> nchr == old(nchr) + 1
      ensures idx >= 0 ==> old(idx) >= 0 && out == old(out) + Encode(c)
      ensures idx < 0 ==> |out| <= |old(out)| + |Encode(c)|
    {
      hide Patch, Encode, WindowOk, FatMap, Base, Cursor, Content, Sized, FreeCount, DiskHolds, Fits, Conserved;
      if idx < 0 {
        return;
      }
      ghost var pending := buf[..idx];
      var i := Buffer(c, idx);
      Joined(sent, pending, Encode(c), buf[..i]);
      out := out + Encode(c);
      if i >= BUFFER_SIZE - 3 {
        var bw, ok := Flush(i);
        if bw == i {
          idx := 0;
          assert buf[..0] == [];
        } else {
          idx := -1;
        }
      } else {
        idx := i;
      }
      nchr := nchr + 1;
    }

    /** Stores the encoding of a character at index `i0` of the buffer. */
    method Buffer(c: Unit, i0: nat) returns (i: nat)
      requires buf.Length == BUFFER_SIZE && i0 < BUFFER_SIZE - 3
      modifies buf
      ensures i == i0 + |Encode(c)| < BUFFER_SIZE
      ensures buf[..i] == old(buf[..i0]) + Encode(c)
    {
      i := i0;
      ghost var pending := buf[..i];
      if c < 0x80 {
        buf[i] := c;
        i := i + 1;
      } else {
        if c < 0x800 {
          buf[i] := 0xC0 + c / 0x40;
          i := i + 1;
        } else {
          buf[i] := 0xE0 + c / 0x1000;
          i := i + 1;
          buf[i] := 0x80 + c / 0x40 % 0x40;
          i := i + 1;
        }
        buf[i] := 0x80 + c % 0x40;
        i := i + 1;
      }
      assert buf[..i0] == pending;
      assert buf[..i] == buf[..i0] + buf[i0..i];
    }

    /** putc_bfd */
    method Putc(c: Unit)
      requires Valid()
      modifies this, buf, fp, fp.buf, fp.fs, fp.fs.win
      ensures Valid()
      ensures idx >= 0 ==> old(idx) >= 0 && out == old(out) + Written(c, crlf)
      ensures idx < 0 ==> |out| <= |old(out)| + |Written(c, crlf)|
      ensures idx >= 0 ==> nchr == old(nchr) + if crlf && c == LF then 2 else 1
    {
      hide Patch, Encode, WindowOk, FatMap, Base, Cursor, Content, Sized, FreeCount, DiskHolds, Fits, Conserved;
      if crlf && c == LF {
        PutUnit(CR);
      }
      PutUnit(c);
    }
  }

  lemma Joined(a: seq<Byte>, b: seq<Byte>, c: seq<Byte>, bc: seq<Byte>)
    requires bc == b + c
    ensures a + bc == (a + b) + c
  {}

  /** f_write behind what was sent already: either all of it arrives, or it would not have fitted from the start. */
  lemma SentMore(
    b: nat, read: bool, write: bool, start: View, sent: seq<Byte>, v: View, d: seq<Byte>, o: Outcome, v': View)
    requires Step(b, read, write, v, Op.Write(d), o, v') && start.pos <= |start.content|
    requires Shows(v, Patch(start.content, start.pos, sent), start.pos + |sent|) && Conserved(b, start, v)
    ensures o.Count? ==> write && o.n <= |d|
    ensures o.Count? && o.n == |d| ==>
      Shows(v', Patch(start.content, start.pos, sent + d), start.pos + |sent + d|) && Conserved(b, start, v')
    ensures o.Count? && o.n == |d| <==> write && Fits(b, start, |sent| + |d|)
    ensures |d| == 0 && !o.Count? ==> v'.content == v.content
  {
    if write {
      WriteIsExact(b, read, v, d, o, v');
      if o.n == |d| {
        assert d[..|d|] == d;
        PatchTwice(start.content, start.pos, sent, d);
      }
    }
  }

  lemma FileLimits(fp: File)
    requires Ready(fp)
    ensures ViewOf(fp).pos <= |ViewOf(fp).content| < DWORD_MOD
  {
    hide WindowOk, FatMap, Base, Cursor, Sized;
  }

  /** Number of characters f_puts counts. */
  function CharCount(str: Name, crlf: bool): nat {
    if str == [] then 0 else CharCount(str[..|str| - 1], crlf) + if crlf && str[|str| - 1] == LF then 2 else 1
  }

  /** f_puts: the encoding of the string is spliced in at the cursor, however the 64-byte buffer was flushed; -1 exactly
      if the file may not be written or the encoding does not fit. */
  method FPuts(fp: File, str: Name, crlf: bool) returns (n: int)
    requires Ready(fp)
    modifies fp, fp.buf, fp.fs, fp.fs.win
    ensures Ready(fp) && n >= -1
    ensures old(ViewOf(fp)).pos <= |old(ViewOf(fp)).content|
    ensures n >= 0 <==> fp.canWrite && Fits(ClusterBytes(fp.fs.g), old(ViewOf(fp)), |WrittenAll(str, crlf)|)
    ensures n >= 0 ==>
      var v := old(ViewOf(fp));
      var e := WrittenAll(str, crlf);
      Shows(ViewOf(fp), Patch(v.content, v.pos, e), v.pos + |e|) && n == CharCount(str, crlf)
  {
    hide Patch, Written, WindowOk, FatMap, Base, Cursor, Content, Sized, FreeCount, DiskHolds, Fits, Conserved;
    var pb := new PutBuff(fp, crlf);
    for k := 0 to |str|
      invariant pb.Valid() && pb.fp == fp && pb.crlf == crlf && pb.start == old(ViewOf(fp)) && fresh(pb)
        && fresh(pb.buf)
      invariant pb.idx >= 0 ==> pb.out == WrittenAll(str[..k], crlf) && pb.nchr == CharCount(str[..k], crlf)
      invariant pb.idx < 0 ==> |pb.out| <= |WrittenAll(str[..k], crlf)|
    {
      assert str[..k + 1] == str[..k] + [str[k]];
      assert str[..k + 1][..k] == str[..k];
      WrittenAppend(str[..k], str[k], crlf);
      pb.Putc(str[k]);
    }
    assert str[..|str|] == str;
    n := Finish(pb, |WrittenAll(str, crlf)|);
  }

  /** The end of f_puts: flushes what is buffered. `total` is the length of the whole encoding. */
  method Finish(pb: PutBuff, ghost total: nat) returns (n: int)
    requires pb.Valid() && if pb.idx >= 0 then |pb.out| == total else |pb.out| <= total
    modifies pb, pb.fp, pb.fp.buf, pb.fp.fs, pb.fp.fs.win
    ensures Ready(pb.fp) && (n == -1 || n == old(pb.nchr))
    ensures n >= 0 <==> pb.Room(total)
    ensures n >= 0 ==> old(pb.idx) >= 0 && pb.sent == old(pb.out) && pb.Sent()
  {
    hide Patch, WindowOk, FatMap, Base, Cursor, Content, Sized, FreeCount, DiskHolds, Fits, Conserved;
    n := -1;
    if pb.idx >= 0 {
      var bw, ok := pb.Flush(pb.idx);
      if ok && bw == pb.idx {
        n := pb.nchr;
      }
    } else if pb.Room(total) {
      FitsLess(ClusterBytes(pb.fp.fs.g), pb.start, |pb.out|, total);
    }
  }

  // ---------------------------------------------------------------- reading

  /** f_read of up to `n` bytes. */
  method ReadBytes(fp: File, n: nat) returns (s: seq<Byte>)
    requires Ready(fp) && fp.canRead
    modifies fp, fp.buf, fp.fs, fp.fs.win
    ensures Ready(fp)
    ensures old(ViewOf(fp)).pos <= |old(ViewOf(fp)).content|
    ensures
      var v := old(ViewOf(fp));
      var r := v.content[v.pos..];
      |s| == Least(n, |r|) && s == r[..|s|] && Shows(ViewOf(fp), v.content, v.pos + |s|)
  {
    hide WindowOk, FatMap, Base, Cursor, Content, Sized, FreeCount, DiskHolds, Safe;
    ghost var v := ViewOf(fp);
    var o := PerformRead(fp, n);
    s := o.bytes;
    SliceIsFront(v.content, v.pos, |s|);
  }

  lemma SliceIsFront(c: seq<Byte>, p: nat, n: nat)
    requires p + n <= |c|
    ensures c[p..p + n] == c[p..][..n]
  {}

  /** Reads the rest of a character whose first byte is `b`; None when the file ends first. */
  method ReadTail(fp: File, b: Byte) returns (c: Option<Unit>)
    requires Ready(fp) && fp.canRead && b >= 0xC0
    modifies fp, fp.buf, fp.fs, fp.fs.win
    ensures Ready(fp)
    ensures old(ViewOf(fp)).pos <= |old(ViewOf(fp)).content|
    ensures
      var v := old(ViewOf(fp));
      var s := v.content[v.pos..];
      var k := if b < 0xE0 then 1 else if b < 0xF0 then 2 else 0;
      && Shows(ViewOf(fp), v.content, v.pos + Least(k, |s|))
      && c == if |s| < k then None
              else if k == 1 then Some(Decode2(b, s[0]))
              else if k == 2 then Some(Decode3(b, s[0], s[1]))
              else Some(QUESTION)
  {
    hide WindowOk, FatMap, Base, Cursor, Content, Sized, Ready, Decode2, Decode3, FreeCount, DiskHolds, Safe;
    if b < 0xE0 {
      var t := ReadBytes(fp, 1);
      c := if |t| != 1 then None else Some(Decode2(b, t[0]));
    } else if b < 0xF0 {
      var t := ReadBytes(fp, 2);
      c := if |t| != 2 then None else Some(Decode3(b, t[0], t[1]));
    } else {
      FileLimits(fp);
      c := Some(QUESTION);
    }
  }

  /** What remains to be read when `used` bytes are consumed and `p` is delivered, against the whole result `g`. */
  ghost predicate Reached(s: seq<Byte>, room: nat, crlf: bool, g: Got, p: Name, used: nat) {
    && used <= |s|
    && var r := Gets(s[used..], room, crlf);
       g == Got(p + r.units, used + r.used)
  }

  /** One round of f_gets: at the end of the file, or a character `c` to deliver, or nothing to deliver. */
  method ReadChar(
    fp: File, crlf: bool, ghost s: seq<Byte>, ghost room: nat, ghost g: Got, ghost p: Name, ghost used: nat)
    returns (eof: bool, c: Option<Unit>, ghost used': nat)
    requires Ready(fp) && fp.canRead && room > 0 && Reached(s, room, crlf, g, p, used)
    requires ViewOf(fp).pos + |s| - used == |ViewOf(fp).content| && ViewOf(fp).pos >= used
    requires ViewOf(fp).content[ViewOf(fp).pos - used..] == s
    modifies fp, fp.buf, fp.fs, fp.fs.win
    ensures Ready(fp) && used <= used' <= |s|
    ensures Shows(ViewOf(fp), old(ViewOf(fp)).content, old(ViewOf(fp)).pos + used' - used)
    ensures RoundOver(s, room, crlf, g, p, used, eof, c, used')
  {
    hide WindowOk, FatMap, Base, Cursor, Content, Sized, Reached, Gets, Decode2, Decode3, Deliver, FreeCount, DiskHolds;
    hide Safe;
    ghost var v := ViewOf(fp);
    RestOfView(v, s, used);
    RoundStart(s, room, crlf, g, p, used);
    var b := ReadBytes(fp, 1);
    used' := used + |b|;
    if |b| != 1 {
      return true, None, used';
    }
    if 0x80 <= b[0] < 0xC0 {
      return false, None, used';
    }
    RestOfView(ViewOf(fp), s, used + 1);
    eof, c, used' := ReadUnit(fp, b[0], crlf, s, room, g, p, used);
  }

  /** What a round of f_gets leaves to do. */
  ghost predicate RoundOver(
    s: seq<Byte>, room: nat, crlf: bool, g: Got, p: Name, used: nat, eof: bool, c: Option<Unit>, used': nat) {
    && (eof ==> g == Got(p, used'))
    && (!eof && c == None ==> used' > used && Reached(s, room, crlf, g, p, used'))
    && (!eof && c == Some(LF) ==> g == Got(p + [LF], used'))
    && (!eof && c.Some? && c.value != LF ==>
      used' > used && room > 0 && Reached(s, room - 1, crlf, g, p + [c.value], used'))
  }

  /** The round once the first byte `b` of a character is read. */
  method ReadUnit(
    fp: File, b: Byte, crlf: bool, ghost s: seq<Byte>, ghost room: nat, ghost g: Got, ghost p: Name, ghost used: nat)
    returns (eof: bool, c: Option<Unit>, ghost used': nat)
    requires Ready(fp) && fp.canRead && room > 0 && Reached(s, room, crlf, g, p, used)
    requires used < |s| && s[used] == b && (b < 0x80 || b >= 0xC0)
    requires ViewOf(fp).pos <= |ViewOf(fp).content| && ViewOf(fp).content[ViewOf(fp).pos..] == s[used + 1..]
    modifies fp, fp.buf, fp.fs, fp.fs.win
    ensures Ready(fp) && used < used' <= |s|
    ensures Shows(ViewOf(fp), old(ViewOf(fp)).content, old(ViewOf(fp)).pos + used' - used - 1)
    ensures RoundOver(s, room, crlf, g, p, used, eof, c, used')
  {
    hide WindowOk, FatMap, Base, Cursor, Content, Sized, Reached, Gets, Decode2, Decode3, Deliver, FreeCount;
    hide DiskHolds, Safe;
    ghost var v := ViewOf(fp);
    RoundStart(s, room, crlf, g, p, used);
    GetsCases(s[used..], room, crlf);
    assert s[used..][1..] == s[used + 1..];
    eof, used' := false, used + 1;
    if b < 0x80 {
      c := Some(b as Unit);
    } else {
      c := ReadTail(fp, b);
      used' := used + 1 + ViewOf(fp).pos - v.pos;
      if c == None {
        return true, None, used';
      }
    }
    RoundDelivers(s, room, crlf, g, p, used, used' - used, c.value);
    if crlf && c == Some(CR) {
      c := None;
    }
  }

  /** Which character the first bytes make. */
  lemma GetsCases(r: seq<Byte>, room: nat, crlf: bool)
    requires room > 0
    ensures r != [] && r[0] < 0x80 ==> Gets(r, room, crlf) == Deliver(r, 1, r[0] as nat, room, crlf)
    ensures |r| >= 2 && 0xC0 <= r[0] < 0xE0 ==> Gets(r, room, crlf) == Deliver(r, 2, Decode2(r[0], r[1]), room, crlf)
    ensures |r| >= 3 && 0xE0 <= r[0] < 0xF0 ==>
      Gets(r, room, crlf) == Deliver(r, 3, Decode3(r[0], r[1], r[2]), room, crlf)
    ensures r != [] && r[0] >= 0xF0 ==> Gets(r, room, crlf) == Deliver(r, 1, '?' as nat, room, crlf)
  {
    hide Deliver, Decode2, Decode3;
  }

  lemma RestOfView(v: View, s: seq<Byte>, used: nat)
    requires used <= |s| && v.pos >= used && v.pos + |s| - used == |v.content| && v.content[v.pos - used..] == s
    ensures v.pos <= |v.content| && v.content[v.pos..] == s[used..]
  {}

  /** The first byte decides how the round goes on. */
  lemma RoundStart(s: seq<Byte>, room: nat, crlf: bool, g: Got, p: Name, used: nat)
    requires room > 0 && Reached(s, room, crlf, g, p, used)
    ensures
      var r := s[used..];
      && used <= |s|
      && (r == [] ==> g == Got(p, used))
      && (r != [] && 0x80 <= r[0] < 0xC0 ==> Reached(s, room, crlf, g, p, used + 1))
      && (r != [] && 0xC0 <= r[0] < 0xE0 && |r| < 2 ==> g == Got(p, |s|))
      && (r != [] && 0xE0 <= r[0] < 0xF0 && |r| < 3 ==> g == Got(p, |s|))
  {
    hide Deliver;
    assert s[used..] != [] ==> s[used..][1..] == s[used + 1..];
    assert p + [] == p;
  }

  /** What the loop does with a decoded character. */
  lemma RoundDelivers(s: seq<Byte>, room: nat, crlf: bool, g: Got, p: Name, used: nat, k: nat, u: Unit)
    requires room > 0 && Reached(s, room, crlf, g, p, used) && 1 <= k <= |s| - used
    requires Gets(s[used..], room, crlf) == Deliver(s[used..], k, u, room, crlf)
    ensures crlf && u == CR ==> Reached(s, room, crlf, g, p, used + k)
    ensures !(crlf && u == CR) && u == LF ==> g == Got(p + [LF], used + k)
    ensures !(crlf && u == CR) && u != LF ==> Reached(s, room - 1, crlf, g, p + [u], used + k)
  {
    hide Gets;
    assert s[used..][k..] == s[used + k..];
    if !(crlf && u == CR) && u != LF {
      var q := Gets(s[used + k..], room - 1, crlf);
      assert p + ([u] + q.units) == (p + [u]) + q.units;
    }
  }

  /** f_gets: decodes from the cursor on until the buffer of `len` units is full, the line ends, or the file does. */
  method FGets(fp: File, len: nat, crlf: bool) returns (p: Name)
    requires Ready(fp) && fp.canRead && len > 0
    modifies fp, fp.buf, fp.fs, fp.fs.win
    ensures Ready(fp)
    ensures old(ViewOf(fp)).pos <= |old(ViewOf(fp)).content|
    ensures
      var v := old(ViewOf(fp));
      var g := Gets(v.content[v.pos..], len - 1, crlf);
      p == g.units && Shows(ViewOf(fp), v.content, v.pos + g.used)
  {
    hide WindowOk, FatMap, Base, Cursor, Content, Sized, Gets, Reached, FreeCount, DiskHolds, Safe;
    FileLimits(fp);
    ghost var v := ViewOf(fp);
    ghost var s := v.content[v.pos..];
    ghost var g := Gets(s, len - 1, crlf);
    p := [];
    ghost var used := 0;
    ReachedStart(s, len - 1, crlf);
    while |p| < len - 1
      invariant Ready(fp) && fp.canRead && |p| <= len - 1 && used <= |s|
      invariant Shows(ViewOf(fp), v.content, v.pos + used)
      invariant Reached(s, len - 1 - |p|, crlf, g, p, used)
      decreases |s| - used
    {
      var eof, c;
      eof, c, used := ReadChar(fp, crlf, s, len - 1 - |p|, g, p, used);
      if eof {
        return;
      }
      if c.Some? {
        p := p + [c.value];
        if c.value == LF {
          return;
        }
      }
    }
    ReachedEnd(s, crlf, g, p, used);
  }

  lemma ReachedStart(s: seq<Byte>, room: nat, crlf: bool)
    ensures Reached(s, room, crlf, Gets(s, room, crlf), [], 0)
  {
    hide Gets;
    assert s[0..] == s;
  }

  lemma ReachedEnd(s: seq<Byte>, crlf: bool, g: Got, p: Name, used: nat)
    requires Reached(s, 0, crlf, g, p, used)
    ensures g == Got(p, used)
  {}

  /** Writing a line, going back, and reading it returns the line, in both line end modes; it succeeds exactly when the
      line fits. */
  method PutLineGetLine(fp: File, str: Name, len: nat, crlf: bool) returns (written: bool, p: Name)
    requires Ready(fp) && fp.canRead && fp.canWrite && Line(str) && str != [] && str[|str| - 1] == LF && |str| < len
    requires fp.fptr < DWORD_MOD
    modifies fp, fp.buf, fp.fs, fp.fs.win
    ensures Ready(fp) && (written ==> p == str)
    ensures written <==> Fits(ClusterBytes(fp.fs.g), old(ViewOf(fp)), |WrittenAll(str, crlf)|)
  {
    hide WindowOk, FatMap, Base, Cursor, Content, Sized, Gets, WrittenAll, Patch, Line, Step;
    ghost var v := ViewOf(fp);
    var at := fp.fptr;
    var n := FPuts(fp, str, crlf);
    written, p := n >= 0, [];
    if written {
      ghost var w := ViewOf(fp);
      var o := PerformSeek(fp, at);
      SeekBack(ClusterBytes(fp.fs.g), v, WrittenAll(str, crlf), w, o, ViewOf(fp));
      p := FGets(fp, len, crlf);
      PatchedTail(v, WrittenAll(str, crlf));
      ghost var e := WrittenAll(str, crlf);
      ghost var tail := if v.pos + |e| <= |v.content| then v.content[v.pos + |e|..] else [];
      LineRoundTrip(str, tail, len - 1, crlf);
    }
  }

  lemma SeekBack(b: nat, v: View, e: seq<Byte>, w: View, o: Outcome, v': View)
    requires v.pos <= |v.content| && Shows(w, Patch(v.content, v.pos, e), v.pos + |e|)
    requires Step(b, true, true, w, Op.Seek(v.pos), o, v')
    ensures Shows(v', w.content, v.pos)
  {}

  lemma PatchedTail(v: View, e: seq<Byte>)
    requires v.pos <= |v.content|
    ensures v.pos <= |Patch(v.content, v.pos, e)|
    ensures Patch(v.content, v.pos, e)[v.pos..] ==
      e + if v.pos + |e| <= |v.content| then v.content[v.pos + |e|..] else []
  {}
}
