/** The scanner byte by byte: which bytes are white space, which close a list, where comments and strings end.
    Bytes are given by their numbers, and the predicates that the scanner and the lexer share are not used. */
module Json5Laws {
  import opened Json5Scanner

  /** Tabs, line breaks, carriage returns and spaces. */
  ghost predicate White(pad: seq<byte>) {
    forall k | 0 <= k < |pad| :: pad[k] == 9 || pad[k] == 10 || pad[k] == 13 || pad[k] == 32
  }

  lemma {:induction false} LookOverWhite(pad: seq<byte>, t: seq<byte>)
    requires White(pad)
    ensures var l := LookAhead(t); LookAhead(pad + t) == Look(pad + l.out, l.rest, l.closed)
  {
    hide LookAhead;
    var l := LookAhead(t);
    if pad == [] {
      assert pad + t == t && pad + l.out == l.out;
    } else {
      assert (pad + t)[1..] == pad[1..] + t && (pad + t)[0] == pad[0];
      LookOverWhite(pad[1..], t);
      LookWhite(pad + t);
      assert [pad[0]] + (pad[1..] + l.out) == pad + l.out;
    }
  }

  lemma LookWhite(t: seq<byte>)
    requires t != [] && (t[0] == 9 || t[0] == 10 || t[0] == 13 || t[0] == 32)
    ensures var l := LookAhead(t[1..]); LookAhead(t) == Look([t[0]] + l.out, l.rest, l.closed)
  {
    hide CommentScan;
  }

  lemma LookStopsAtByte(c: byte, r: seq<byte>)
    requires c != 9 && c != 10 && c != 13 && c != 32 && c != 47
    ensures LookAhead([c] + r) == Look([], [c] + r, c == 93 || c == 125) && LookAhead([]) == Look([], [], false)
  {
    hide CommentScan;
  }

  lemma CommaOverWhite(pad: seq<byte>, t: seq<byte>)
    requires White(pad) && LookAhead(t).out == [] && LookAhead(t).rest == t
    ensures Strip([44] + pad + t) == [if LookAhead(t).closed then 32 else 44] + pad + Strip(t)
  {
    hide Strip, LookAhead, White;
    var u := [44] + pad + t;
    assert u[1..] == pad + t && u[0] == 44;
    LookOverWhite(pad, t);
    StripComma(u);
    assert pad + [] == pad;
  }

  /** A comma is blanked when, over white space, a bracket or a brace closes behind it ... */
  lemma CommaBeforeCloser(pad: seq<byte>, c: byte, r: seq<byte>)
    requires White(pad) && (c == 93 || c == 125)
    ensures Strip([44] + pad + [c] + r) == [32] + pad + [c] + Strip(r)
  {
    hide Strip, LookAhead, White;
    LookStopsAtByte(c, r);
    CommaOverWhite(pad, [c] + r);
    PlainByte(c, r);
    assert [44] + pad + [c] + r == [44] + pad + ([c] + r);
    assert [32] + pad + ([c] + Strip(r)) == [32] + pad + [c] + Strip(r);
  }

  /** ... and stays before any other byte that is neither white space nor a slash, and at the end. */
  lemma CommaBeforeOther(pad: seq<byte>, c: byte, r: seq<byte>)
    requires White(pad) && c != 9 && c != 10 && c != 13 && c != 32 && c != 47 && c != 93 && c != 125
    ensures Strip([44] + pad + [c] + r) == [44] + pad + Strip([c] + r) && Strip([44] + pad) == [44] + pad
  {
    hide Strip, LookAhead, White;
    LookStopsAtByte(c, r);
    CommaOverWhite(pad, [c] + r);
    assert [44] + pad + [c] + r == [44] + pad + ([c] + r);
    CommaOverWhite(pad, []);
    StripOther([]);
    assert [44] + pad + [] == [44] + pad;
  }

  /** A byte that opens no string and no comment and is no comma is left alone. */
  lemma PlainByte(c: byte, r: seq<byte>)
    requires c != 34 && c != 44 && c != 47
    ensures Strip([c] + r) == [c] + Strip(r)
  {
    hide Strip;
    StripOther([c] + r);
    assert ([c] + r)[1..] == r;
  }

  /** So is a slash that is followed by neither a slash nor a star. */
  lemma PlainSlash(r: seq<byte>)
    requires r == [] || (r[0] != 47 && r[0] != 42)
    ensures Strip([47] + r) == [47] + Strip(r)
  {
    hide Strip;
    var t := [47] + r;
    assert t[1..] == r;
    StripSlash(t);
  }

  lemma {:induction false} LineEndsAtBreak(body: seq<byte>, r: seq<byte>)
    requires forall k | 0 <= k < |body| :: body[k] != 10 && body[k] != 13
    requires r == [] || r[0] == 10 || r[0] == 13
    ensures LineLength(body + r) == |body|
  {
    if body == [] {
      assert body + r == r;
    } else {
      assert (body + r)[1..] == body[1..] + r;
      LineEndsAtBreak(body[1..], r);
    }
  }

  /** A line comment ends before the first line break or carriage return, or with the text. */
  lemma LineComment(body: seq<byte>, r: seq<byte>)
    requires forall k | 0 <= k < |body| :: body[k] != 10 && body[k] != 13
    requires r == [] || r[0] == 10 || r[0] == 13
    ensures Strip([47, 47] + body + r) == seq(2 + |body|, _ => 32) + Strip(r)
  {
    hide Strip, LineLength, CommentScan;
    var t := [47, 47] + body + r;
    assert t[2..] == body + r && t[2 + |body|..] == r;
    LineEndsAtBreak(body, r);
    StripSlash(t);
    LineScan(t);
  }

  lemma LineScan(t: seq<byte>)
    requires |t| > 1 && t[0] == 47 && t[1] == 47
    ensures var n := 2 + LineLength(t[2..]); CommentScan(t) == Scan(seq(n, _ => 32), t[n..])
  {
    hide LineLength;
  }

  /** A byte of a comment or string, or a star or backslash with the byte behind it. */
  datatype Piece = One(b: byte) | Two(b: byte, next: byte)

  ghost function Spell(ps: seq<Piece>): seq<byte> {
    if ps == [] then [] else (if ps[0].One? then [ps[0].b] else [ps[0].b, ps[0].next]) + Spell(ps[1..])
  }

  /** What is left of the body of a block comment: the bytes behind its stars. */
  ghost function Left(ps: seq<Piece>): seq<byte> {
    if ps == [] then [] else (if ps[0].One? then [32] else [32, ps[0].next]) + Left(ps[1..])
  }

  ghost predicate InComment(ps: seq<Piece>) {
    forall k | 0 <= k < |ps| :: if ps[k].One? then ps[k].b != 42 else ps[k].b == 42 && ps[k].next != 47
  }

  ghost predicate InString(ps: seq<Piece>) {
    forall k | 0 <= k < |ps| :: if ps[k].One? then ps[k].b != 34 && ps[k].b != 92 else ps[k].b == 92
  }

  lemma BlockOne(p: Piece, t: seq<byte>)
    requires if p.One? then p.b != 42 else p.b == 42 && p.next != 47
    ensures var r := BlockScan(t);
            BlockScan((if p.One? then [p.b] else [p.b, p.next]) + t)
              == Scan((if p.One? then [32] else [32, p.next]) + r.out, r.rest)
  {
    if p.One? {
      assert ([p.b] + t)[1..] == t;
    } else {
      assert ([p.b, p.next] + t)[2..] == t;
    }
  }

  lemma SpellOne(ps: seq<Piece>)
    ensures Spell([]) == Left([]) == []
    ensures ps != [] ==> Spell(ps) == (if ps[0].One? then [ps[0].b] else [ps[0].b, ps[0].next]) + Spell(ps[1..])
    ensures ps != [] ==> Left(ps) == (if ps[0].One? then [32] else [32, ps[0].next]) + Left(ps[1..])
  {
  }

  lemma {:induction false} BlockBody(ps: seq<Piece>, r: seq<byte>)
    requires InComment(ps)
    ensures BlockScan(Spell(ps) + [42, 47] + r) == Scan(Left(ps) + [32], [32] + r)
  {
    hide BlockScan, Spell, Left;
    SpellOne(ps);
    if ps == [] {
      var t := [42, 47] + r;
      assert Spell(ps) + [42, 47] + r == t && t[2..] == r && Left(ps) + [32] == [32];
      StarScan(t);
    } else {
      var rest := ps[1..];
      BlockBody(rest, r);
      BlockOne(ps[0], Spell(rest) + [42, 47] + r);
      var p := if ps[0].One? then [ps[0].b] else [ps[0].b, ps[0].next];
      var q := if ps[0].One? then [32] else [32, ps[0].next];
      assert Spell(ps) + [42, 47] + r == p + (Spell(rest) + [42, 47] + r);
      assert Left(ps) + [32] == q + (Left(rest) + [32]);
    }
  }

  /** A block comment ends at the first star with a slash behind it, where a star takes the byte behind it along;
      the delimiters and everything but those bytes are blanked. */
  lemma BlockComment(ps: seq<Piece>, r: seq<byte>)
    requires InComment(ps)
    ensures Strip([47, 42] + Spell(ps) + [42, 47] + r) == [32, 32] + Left(ps) + [32, 32] + Strip(r)
  {
    hide Strip, BlockScan, Spell, Left;
    var t := [47, 42] + Spell(ps) + [42, 47] + r;
    assert t[2..] == Spell(ps) + [42, 47] + r;
    BlockBody(ps, r);
    StripSlash(t);
    PlainByte(32, r);
    assert [32, 32] + (Left(ps) + [32]) + ([32] + Strip(r)) == [32, 32] + Left(ps) + [32, 32] + Strip(r);
  }

  lemma {:induction false} StringBody(ps: seq<Piece>, r: seq<byte>)
    requires InString(ps)
    ensures StringLength(Spell(ps) + [34] + r) == |Spell(ps)| + 1
  {
    var t := Spell(ps) + [34] + r;
    if ps != [] {
      var rest := ps[1..];
      StringBody(rest, r);
      assert t[if ps[0].One? then 1 else 2..] == Spell(rest) + [34] + r;
    }
  }

  /** A string ends at the first quote, where a backslash takes the byte behind it along; it is left alone. */
  lemma StringLiteral(ps: seq<Piece>, r: seq<byte>)
    requires InString(ps)
    ensures var text := [34] + Spell(ps) + [34]; Strip(text + r) == text + Strip(r)
  {
    hide Strip, StringLength, Spell;
    var text := [34] + Spell(ps) + [34];
    var t := text + r;
    assert t[1..] == Spell(ps) + [34] + r;
    StringBody(ps, r);
    StripString(t);
    assert t[..|text|] == text && t[|text|..] == r;
  }
}
