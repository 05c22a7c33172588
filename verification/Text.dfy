/** Buffered text output (putc_bfd, f_puts) and line input (f_gets) in UTF-8. */
module Text {
  import opened Bytes
  import opened Lfn

  const CR: Unit := 0x0D
  const LF: Unit := 0x0A
  const QUESTION: Unit := 0x3F

  // ---------------------------------------------------------------- encoding

  /** UTF-8 of one 16-bit unit; surrogates are encoded singly. */
  function Encode(c: Unit): (s: seq<Byte>)
    ensures 1 <= |s| <= 3
  {
    if c < 0x80 then [c]
    else if c < 0x800 then [0xC0 + c / 0x40, 0x80 + c % 0x40]
    else [0xE0 + c / 0x1000, 0x80 + c / 0x40 % 0x40, 0x80 + c % 0x40]
  }

  /** A unit as f_puts writes it; with `crlf`, LF becomes CR LF. */
  function Written(c: Unit, crlf: bool): (s: seq<Byte>)
    ensures |s| >= 1
  {
    if crlf && c == LF then Encode(CR) + Encode(c) else Encode(c)
  }

  /** The bit distribution of UTF-8 (section 3 of RFC 3629), and the line end. */
  lemma EncodeMeans(c: Unit)
    ensures
      var s := Encode(c);
      if c < 0x80 then s == [c]
      else if c < 0x800 then
        && |s| == 2 && s[0] / 0x20 == 6 && s[1] / 0x40 == 2 && c == s[0] as nat % 0x20 * 0x40 + s[1] as nat % 0x40
      else
        && |s| == 3 && s[0] / 0x10 == 14 && s[1] / 0x40 == 2 && s[2] / 0x40 == 2
        && c == s[0] as nat % 0x10 * 0x1000 + s[1] as nat % 0x40 * 0x40 + s[2] as nat % 0x40
    ensures Written(c, false) == Encode(c)
    ensures Written(c, true) == if c == '\n' as nat then ['\r' as nat, '\n' as nat] else Encode(c)
  {
    if c >= 0x800 {
      ThreeParts(c);
    }
  }

  function WrittenAll(str: Name, crlf: bool): seq<Byte> {
    if str == [] then [] else Written(str[0], crlf) + WrittenAll(str[1..], crlf)
  }

  lemma {:induction false} WrittenAppend(a: Name, c: Unit, crlf: bool)
    ensures WrittenAll(a + [c], crlf) == WrittenAll(a, crlf) + Written(c, crlf)
  {
    if a == [] {
      assert a + [c] == [c] && [c][1..] == [];
      assert WrittenAll([c], crlf) == Written(c, crlf) + WrittenAll([], crlf);
    } else {
      WrittenAppend(a[1..], c, crlf);
      assert (a + [c])[1..] == a[1..] + [c];
    }
  }

  // ---------------------------------------------------------------- decoding

  /** The units f_gets delivers and the number of bytes it consumes. */
  datatype Got = Got(units: Name, used: nat)

  function Decode2(c: Byte, t: Byte): Unit {
    var u := c % 0x20 * 0x40 + t % 0x40;
    if u < 0x80 then QUESTION else u
  }

  /** The leading byte's low four bits survive the 16-bit shift. */
  function Decode3(c: Byte, t: Byte, v: Byte): Unit {
    var u := c % 0x10 * 0x1000 + t % 0x40 * 0x40 + v % 0x40;
    if u < 0x800 then QUESTION else u
  }

  /** The loop of f_gets on the bytes from the cursor on, with room for `room` more units. */
  function Gets(s: seq<Byte>, room: nat, crlf: bool): Got
    decreases |s|
  {
    if room == 0 || s == [] then Got([], 0)
    else if s[0] < 0x80 then Deliver(s, 1, s[0] as nat, room, crlf)
    else if s[0] < 0xC0 then
      var g := Gets(s[1..], room, crlf);
      Got(g.units, g.used + 1)
    else if s[0] < 0xE0 then
      if |s| < 2 then Got([], |s|) else Deliver(s, 2, Decode2(s[0], s[1]), room, crlf)
    else if s[0] < 0xF0 then
      if |s| < 3 then Got([], |s|) else Deliver(s, 3, Decode3(s[0], s[1], s[2]), room, crlf)
    else Deliver(s, 1, QUESTION, room, crlf)
  }

  /** Unit `u` was decoded from the first `k` bytes. */
  function Deliver(s: seq<Byte>, k: nat, u: Unit, room: nat, crlf: bool): Got
    requires 1 <= k <= |s| && room > 0
    decreases |s|, 0
  {
    if crlf && u == CR then
      var g := Gets(s[k..], room, crlf);
      Got(g.units, g.used + k)
    else if u == LF then Got([u], k)
    else
      var g := Gets(s[k..], room - 1, crlf);
      Got([u] + g.units, g.used + k)
  }

  /** Decoding the bytes of one unit gives the unit back. */
  lemma DecodeEncode(c: Unit, rest: seq<Byte>, room: nat, crlf: bool)
    requires room > 0
    ensures Gets(Encode(c) + rest, room, crlf) == Deliver(Encode(c) + rest, |Encode(c)|, c, room, crlf)
  {
    hide Deliver;
    var s := Encode(c) + rest;
    if c < 0x80 {
      assert s[0] == c;
    } else if c < 0x800 {
      assert s[0] == 0xC0 + c / 0x40 && s[1] == 0x80 + c % 0x40;
      Two(c);
    } else {
      assert s[0] == 0xE0 + c / 0x1000 && s[1] == 0x80 + c / 0x40 % 0x40 && s[2] == 0x80 + c % 0x40;
      Three(c);
    }
  }

  lemma Two(c: nat)
    requires 0x80 <= c < 0x800
    ensures 0xC0 + c / 0x40 < 0xE0 && Decode2(0xC0 + c / 0x40, 0x80 + c % 0x40) == c
  {}

  lemma Three(c: nat)
    requires 0x800 <= c < 0x1_0000
    ensures 0xE0 + c / 0x1000 < 0xF0
    ensures Decode3(0xE0 + c / 0x1000, 0x80 + c / 0x40 % 0x40, 0x80 + c % 0x40) == c
  {
    var a, b, d := c / 0x1000, c / 0x40 % 0x40, c % 0x40;
    ThreeParts(c);
    assert (0xE0 + a) % 0x10 == a && (0x80 + b) % 0x40 == b && (0x80 + d) % 0x40 == d;
  }

  lemma ThreeParts(c: nat)
    requires c < 0x1_0000
    ensures c == c / 0x1000 * 0x1000 + c / 0x40 % 0x40 * 0x40 + c % 0x40
    ensures c / 0x1000 < 0x10
  {
    assert c / 0x1000 == c / 0x40 / 0x40;
  }

  /** A line of text: no 0, no CR, and LF at most at the end. */
  predicate Line(str: Name) {
    forall i :: 0 <= i < |str| ==> str[i] != 0 && str[i] != CR && (str[i] == LF ==> i == |str| - 1)
  }

  lemma WrittenGets(c: Unit, rest: seq<Byte>, room: nat, crlf: bool)
    requires room > 0 && c != CR
    ensures
      var g := Gets(rest, room - 1, crlf);
      Gets(Written(c, crlf) + rest, room, crlf) ==
        if c == LF then Got([c], |Written(c, crlf)|) else Got([c] + g.units, |Written(c, crlf)| + g.used)
  {
    var e := Encode(c);
    DecodeEncode(c, rest, room, crlf);
    assert (e + rest)[|e|..] == rest;
    if crlf && c == LF {
      var s := Encode(CR) + (e + rest);
      DecodeEncode(CR, e + rest, room, crlf);
      assert s[|Encode(CR)|..] == e + rest;
      assert Written(c, crlf) + rest == s;
    }
  }

  lemma LineTail(str: Name)
    requires Line(str) && str != []
    ensures Line(str[1..]) && str[0] != CR && (str[0] == LF ==> |str| == 1)
  {}

  lemma GetsNothing(s: seq<Byte>, room: nat, crlf: bool)
    requires room == 0 || s == []
    ensures Gets(s, room, crlf) == Got([], 0)
  {}

  /** f_gets on what f_puts wrote returns the line and stops right behind it. The buffer must be large enough, and the
      line must end in LF or at the end of the file. */
  lemma {:induction false} LineRoundTrip(str: Name, rest: seq<Byte>, room: nat, crlf: bool)
    requires Line(str) && |str| <= room
    requires (str != [] && str[|str| - 1] == LF) || rest == [] || |str| == room
    ensures Gets(WrittenAll(str, crlf) + rest, room, crlf) == Got(str, |WrittenAll(str, crlf)|)
    decreases |str|
  {
    hide Gets, Written, Line;
    if str == [] {
      GetsNothing(rest, room, crlf);
      assert WrittenAll(str, crlf) + rest == rest;
    } else {
      var t := str[1..];
      LineTail(str);
      var w := Written(str[0], crlf);
      assert WrittenAll(str, crlf) + rest == w + (WrittenAll(t, crlf) + rest);
      WrittenGets(str[0], WrittenAll(t, crlf) + rest, room, crlf);
      if str[0] == LF {
        assert t == [];
      } else {
        assert t != [] ==> t[|t| - 1] == str[|str| - 1];
        LineRoundTrip(t, rest, room - 1, crlf);
      }
    }
  }
}
