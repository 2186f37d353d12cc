/** The scanner leaves every strict JSON text (section 2 of RFC 8259) as it is, and three texts on
    which it does not do what it is for. */
module Json5Strict {
  import opened Json5Scanner
  import opened Json5Lexemes
  import opened Json5Twice

  const LBRACKET: byte := 91
  const LBRACE: byte := 123
  const COLON: byte := 58

  /** A JSON value with the white space of the text it is written as.  Every padding is white space. */
  datatype Value =
    | Scalar(text: seq<byte>)                                 // a number, true, false or null
    | Text(body: seq<byte>)                                   // a string, without its quotes
    | Array(open: seq<byte>, items: Items, close: seq<byte>)
    | Object(open: seq<byte>, items: Items, close: seq<byte>)

  datatype Key = NoKey | Key(body: seq<byte>, before: seq<byte>, after: seq<byte>)

  datatype Items =
    | None
    | One(key: Key, value: Value)
    | More(key: Key, value: Value, before: seq<byte>, after: seq<byte>, rest: Items)

  function Print(v: Value): seq<byte> {
    match v
    case Scalar(text) => text
    case Text(body) => Quoted(body)
    case Array(open, items, close) => [LBRACKET] + open + PrintItems(items) + close + [RBRACKET]
    case Object(open, items, close) => [LBRACE] + open + PrintItems(items) + close + [RBRACE]
  }

  function Quoted(body: seq<byte>): seq<byte> {
    [QUOTE] + body + [QUOTE]
  }

  function PrintKey(key: Key): seq<byte> {
    match key
    case NoKey => []
    case Key(body, before, after) => Quoted(body) + before + [COLON] + after
  }

  function PrintItems(items: Items): seq<byte> {
    match items
    case None => []
    case One(key, value) => PrintKey(key) + Print(value)
    case More(key, value, before, after, rest) =>
      PrintKey(key) + Print(value) + before + ([COMMA] + after + PrintItems(rest))
  }

  predicate IsPad(t: seq<byte>) {
    forall k :: 0 <= k < |t| ==> IsWS(t[k])
  }

  /** The bytes of numbers and of the three literal names. */
  predicate IsScalarByte(c: byte) {
    48 <= c <= 57 || 65 <= c <= 90 || 97 <= c <= 122 || c == 43 || c == 45 || c == 46
  }

  /** No bare quote, and every backslash escapes a byte. */
  predicate IsStringBody(t: seq<byte>) {
    t != [] ==>
      if t[0] == BACKSLASH then |t| > 1 && IsStringBody(t[2..]) else t[0] != QUOTE && IsStringBody(t[1..])
  }

  predicate IsKey(key: Key) {
    key.Key? ==> IsStringBody(key.body) && IsPad(key.before) && IsPad(key.after)
  }

  predicate IsValue(v: Value) {
    match v
    case Scalar(text) => text != [] && forall k :: 0 <= k < |text| ==> IsScalarByte(text[k])
    case Text(body) => IsStringBody(body)
    case Array(open, items, close) => IsPad(open) && IsPad(close) && AreItems(items, false)
    case Object(open, items, close) => IsPad(open) && IsPad(close) && AreItems(items, true)
  }

  predicate AreItems(items: Items, keyed: bool) {
    match items
    case None => true
    case One(key, value) => key.Key? == keyed && IsKey(key) && IsValue(value)
    case More(key, value, before, after, rest) =>
      key.Key? == keyed && IsKey(key) && IsValue(value) && IsPad(before) && IsPad(after) &&
      !rest.None? && AreItems(rest, keyed)
  }

  /** The scanner passes over `u` unchanged, whatever follows it. */
  ghost predicate Keeps(u: seq<byte>) {
    forall r :: Strip(u + r) == u + Strip(r)
  }

  lemma KeepsBoth(a: seq<byte>, b: seq<byte>)
    requires Keeps(a) && Keeps(b)
    ensures Keeps(a + b)
  {
    hide Strip;
    forall r ensures Strip(a + b + r) == a + b + Strip(r) {
      Assoc(a, b, r);
      assert Strip(a + (b + r)) == a + Strip(b + r);
      Assoc(a, b, Strip(r));
    }
  }

  lemma {:induction false} KeepsPlain(t: seq<byte>)
    requires forall k :: 0 <= k < |t| ==> t[k] !in {QUOTE, SLASH, COMMA}
    ensures Keeps(t)
  {
    if t == [] {
      forall r ensures Strip(t + r) == t + Strip(r) {
        assert t + r == r && t + Strip(r) == Strip(r);
      }
    } else {
      KeepsPlain(t[1..]);
      KeepsPlainByte(t[0]);
      KeepsBoth([t[0]], t[1..]);
      assert [t[0]] + t[1..] == t;
    }
  }

  lemma KeepsPlainByte(c: byte)
    requires c !in {QUOTE, SLASH, COMMA}
    ensures Keeps([c])
  {
    forall r ensures Strip([c] + r) == [c] + Strip(r) {
      assert ([c] + r)[1..] == r;
    }
  }

  lemma {:induction false} BodyLength(t: seq<byte>, r: seq<byte>)
    requires IsStringBody(t)
    ensures StringLength(t + [QUOTE] + r) == |t| + 1
    decreases |t|
  {
    var u := t + [QUOTE] + r;
    if t == [] {
    } else if t[0] == BACKSLASH {
      assert u[2..] == t[2..] + [QUOTE] + r;
      BodyLength(t[2..], r);
    } else {
      assert u[1..] == t[1..] + [QUOTE] + r;
      BodyLength(t[1..], r);
    }
  }

  lemma KeepsQuoted(body: seq<byte>)
    requires IsStringBody(body)
    ensures Keeps(Quoted(body))
  {
    forall r ensures Strip(Quoted(body) + r) == Quoted(body) + Strip(r) {
      var u := Quoted(body) + r;
      BodyLength(body, r);
      assert u[1..] == body + [QUOTE] + r;
      StripString(u);
      hide Strip;
      assert u[..|body| + 2] == Quoted(body) && u[|body| + 2..] == r;
    }
  }

  /** Not white space, not a closer, not a slash: at such a byte the look-ahead gives up. */
  predicate Starts(t: seq<byte>) {
    t != [] && !IsWS(t[0]) && !IsCloser(t[0]) && t[0] != SLASH
  }

  lemma {:induction false} LookOverPad(pad: seq<byte>, t: seq<byte>)
    requires IsPad(pad) && Starts(t)
    ensures LookAhead(pad + t) == Look(pad, t, false)
  {
    if pad == [] {
      assert pad + t == t;
    } else {
      assert (pad + t)[1..] == pad[1..] + t;
      LookOverPad(pad[1..], t);
    }
  }

  lemma StartsOn(t: seq<byte>, r: seq<byte>)
    requires Starts(t)
    ensures Starts(t + r)
  {
  }

  lemma StripOverPad(pad: seq<byte>, t: seq<byte>, r: seq<byte>)
    requires IsPad(pad) && Starts(t) && Strip(t + r) == t + Strip(r)
    ensures Strip([COMMA] + pad + t + r) == [COMMA] + pad + t + Strip(r)
  {
    hide *;
    var u := [COMMA] + pad + t + r;
    StartsOn(t, r);
    LookOverPad(pad, t + r);
    assert u[1..] == pad + (t + r) && u[0] == COMMA;
    StripComma(u);
    assert Strip(u) == [COMMA] + pad + Strip(t + r);
    Assoc([COMMA] + pad, t, Strip(r));
  }

  lemma KeepsComma(pad: seq<byte>, t: seq<byte>)
    requires IsPad(pad) && Starts(t) && Keeps(t)
    ensures Keeps([COMMA] + pad + t)
  {
    hide Strip, IsPad, Starts;
    forall r ensures Strip([COMMA] + pad + t + r) == [COMMA] + pad + t + Strip(r) {
      StripOverPad(pad, t, r);
    }
  }

  lemma {:induction false} KeepsValue(v: Value)
    requires IsValue(v)
    ensures Keeps(Print(v)) && Starts(Print(v))
  {
    match v
    case Scalar(text) => KeepsPlain(text);
    case Text(body) => KeepsQuoted(body);
    case Array(open, items, close) =>
      KeepsItems(items, false);
      KeepsGroup(LBRACKET, open, items, close, RBRACKET);
    case Object(open, items, close) =>
      KeepsItems(items, true);
      KeepsGroup(LBRACE, open, items, close, RBRACE);
  }

  lemma KeepsGroup(a: byte, open: seq<byte>, items: Items, close: seq<byte>, b: byte)
    requires a !in {QUOTE, SLASH, COMMA} && b !in {QUOTE, SLASH, COMMA} && IsPad(open) && IsPad(close)
    requires Keeps(PrintItems(items))
    ensures Keeps([a] + open + PrintItems(items) + close + [b])
  {
    KeepsPlain([a] + open);
    KeepsBoth([a] + open, PrintItems(items));
    KeepsPlain(close);
    KeepsBoth([a] + open + PrintItems(items), close);
    KeepsPlain([b]);
    KeepsBoth([a] + open + PrintItems(items) + close, [b]);
  }

  lemma KeepsKey(key: Key)
    requires IsKey(key)
    ensures Keeps(PrintKey(key))
  {
    match key
    case NoKey => KeepsPlain([]);
    case Key(body, before, after) =>
      KeepsQuoted(body);
      KeepsPlain(before);
      KeepsBoth(Quoted(body), before);
      KeepsPlain([COLON]);
      KeepsBoth(Quoted(body) + before, [COLON]);
      KeepsPlain(after);
      KeepsBoth(Quoted(body) + before + [COLON], after);
  }

  lemma {:induction false} KeepsItems(items: Items, keyed: bool)
    requires AreItems(items, keyed)
    ensures Keeps(PrintItems(items))
    ensures !items.None? ==> Starts(PrintItems(items))
  {
    match items
    case None => KeepsPlain([]);
    case One(key, value) =>
      KeepsKey(key);
      KeepsValue(value);
      KeepsBoth(PrintKey(key), Print(value));
    case More(key, value, before, after, rest) =>
      KeepsItems(rest, keyed);
      KeepsKey(key);
      KeepsValue(value);
      KeepsMore(key, value, before, after, PrintItems(rest));
  }

  lemma KeepsMore(key: Key, value: Value, before: seq<byte>, after: seq<byte>, rest: seq<byte>)
    requires Keeps(PrintKey(key)) && Keeps(Print(value)) && IsPad(before) && IsPad(after)
    requires Keeps(rest) && Starts(rest)
    ensures Keeps(PrintKey(key) + Print(value) + before + ([COMMA] + after + rest))
  {
    hide Keeps, Print, PrintKey;
    KeepsBoth(PrintKey(key), Print(value));
    KeepsPlain(before);
    KeepsBoth(PrintKey(key) + Print(value), before);
    KeepsComma(after, rest);
    KeepsBoth(PrintKey(key) + Print(value) + before, [COMMA] + after + rest);
  }

  /** The scanner is the identity on every strict JSON text. */
  lemma StripKeepsJson(before: seq<byte>, v: Value, after: seq<byte>)
    requires IsPad(before) && IsPad(after) && IsValue(v)
    ensures var text := before + Print(v) + after; Strip(text) == text
  {
    KeepsPlain(before);
    KeepsValue(v);
    KeepsBoth(before, Print(v));
    KeepsPlain(after);
    KeepsBoth(before + Print(v), after);
    var text := before + Print(v) + after;
    assert Strip(text + []) == text + Strip([]);
    assert text + [] == text;
  }

  // ---- Where the scanner falls short ----

  /** A star that does not close its comment lets the next byte through: of the comment in
      slash, star, star, x, star, slash the x is left over. */
  lemma StrayStarLeavesAByte()
    ensures var t: seq<byte> := [SLASH, STAR, STAR, 120, STAR, SLASH];
            Strip(t) == [SPACE, SPACE, SPACE, 120, SPACE, SPACE] && Clean(t) == Blanks(6)
  {
    var t: seq<byte> := [SLASH, STAR, STAR, 120, STAR, SLASH];
    var b: seq<byte> := [STAR, 120, STAR, SLASH];
    assert t[2..] == b && b[2..] == [STAR, SLASH] && b[1..] == [120, STAR, SLASH] && b[1..][1..] == [STAR, SLASH];
    assert BlockScan(b[2..]) == Scan([SPACE], [SPACE]);
    assert BlockScan(b) == Scan([SPACE, 120, SPACE], [SPACE]);
    assert CommentScan(t) == Scan([SPACE, SPACE, SPACE, 120, SPACE], [SPACE]);
    assert Strip([SPACE]) == [SPACE];
    assert BlockLength(b[1..][1..]) == 2 && BlockLength(b[1..]) == 3 && BlockLength(b) == 4;
    assert RemarkLength(t) == 6;
    CleanRemark(t);
    assert Clean([]) == [];
  }

  /** The byte after a slash that opens no comment is not looked at when it follows a comma: the
      quote of a string can be missed, and a closer behind it be taken for one that ends the list. */
  lemma BareSlashHidesAByte()
    ensures var t: seq<byte> := [COMMA, SLASH, QUOTE, RBRACKET, QUOTE];
            Strip(t) == [SPACE, SLASH, QUOTE, RBRACKET, QUOTE] && Clean(t) == t
  {
    hide Lex, LookAhead, Strip, Clean, Strict;
    var u: seq<byte> := [QUOTE, RBRACKET, QUOTE];
    var t: seq<byte> := [COMMA, SLASH] + u;
    assert t == [COMMA, SLASH, QUOTE, RBRACKET, QUOTE] && t[1..] == [SLASH] + u;
    BareSlashLook(u);
    CommaCloses(t);
    BareSlashLex(u);
    CleanStrict(t);
  }

  /** Past such a slash and a plain byte the look-ahead can still find a closer, and takes the comma for a
      trailing one. */
  lemma BareSlashFalseCloser()
    ensures var t: seq<byte> := [COMMA, SLASH, 120, RBRACKET];
            Strip(t)[0] == SPACE && Clean(t) == t && NoHiddenQuote(Lex(t))
  {
    hide LookAhead, Strip, Clean, Lex;
    var u: seq<byte> := [SLASH, 120, RBRACKET];
    var t := [COMMA] + u;
    assert t == [COMMA, SLASH, 120, RBRACKET] && t[1..] == u && u[2..] == [RBRACKET] && u[1..] == [120, RBRACKET];
    CloserLook([RBRACKET]);
    LookHidden(u);
    CommaCloses(t);
    LexFalseCloser(t);
    CleanStrict(t);
  }

  lemma LexFalseCloser(t: seq<byte>)
    requires t == [COMMA, SLASH, 120, RBRACKET]
    ensures Strict(Lex(t)) && NoHiddenQuote(Lex(t))
  {
    hide Lex;
    LexNil();
    LexCons(RBRACKET, []);
    LexCons(120, [RBRACKET]);
    LexCons(SLASH, [120, RBRACKET]);
    LexCons(COMMA, [SLASH, 120, RBRACKET]);
    assert [COMMA] + [SLASH, 120, RBRACKET] == t && [SLASH] + [120, RBRACKET] == [SLASH, 120, RBRACKET];
    assert [120] + [RBRACKET] == [120, RBRACKET] && [RBRACKET] + [] == [RBRACKET];
    assert Lex(t) == Cons(Comma, Cons(Other(SLASH), Cons(Other(120), Cons(Closer(RBRACKET), Nil))));
  }

  lemma CloserLook(t: seq<byte>)
    requires t != [] && IsCloser(t[0])
    ensures LookAhead(t) == Look([], t, true)
  {
  }

  lemma CleanStrict(t: seq<byte>)
    requires Strict(Lex(t))
    ensures Clean(t) == t
  {
    hide Lex;
    FlattenLex(t);
    CleanedStrict(Lex(t));
  }

  lemma CommaCloses(t: seq<byte>)
    requires t != [] && t[0] == COMMA && LookAhead(t[1..]).closed
    ensures var l := LookAhead(t[1..]); Strip(t) == [SPACE] + l.out + Strip(l.rest)
  {
  }

  lemma BareSlashLook(u: seq<byte>)
    requires u == [QUOTE, RBRACKET, QUOTE]
    ensures LookAhead([SLASH] + u) == Look([SLASH, QUOTE], [RBRACKET, QUOTE], true)
    ensures Strip([RBRACKET, QUOTE]) == [RBRACKET, QUOTE]
  {
    var t := [SLASH] + u;
    assert t[1..] == u && u[1..] == [RBRACKET, QUOTE];
    assert LookAhead([RBRACKET, QUOTE]) == Look([], [RBRACKET, QUOTE], true);
    assert CommentScan(t) == Scan([SLASH], u);
    assert [RBRACKET, QUOTE][1..] == [QUOTE] && [QUOTE][1..] == [];
    assert Strip([QUOTE]) == [QUOTE];
  }

  lemma BareSlashLex(u: seq<byte>)
    requires u == [QUOTE, RBRACKET, QUOTE]
    ensures Strict(Lex([COMMA, SLASH] + u))
  {
    assert u[1..] == [RBRACKET, QUOTE] && u[1..][1..] == [QUOTE];
    assert StringLength(u[1..]) == 2;
    assert u[..3] == u && u[3..] == [];
    assert Lex(u) == Cons(Literal(u), Nil);
    LexCons(SLASH, u);
    LexCons(COMMA, [SLASH] + u);
    assert [COMMA] + ([SLASH] + u) == [COMMA, SLASH] + u;
    hide Lex;
    var slash := Cons(Other(SLASH), Cons(Literal(u), Nil));
    assert Strict(Nil);
    assert Strict(slash.tail);
    assert Strict(slash);
    assert Next(slash) == slash;
    assert Strict(Cons(Comma, slash));
  }

  /** Two commas before a closer: each pass takes one. */
  lemma DoubledCommaNeedsTwoPasses()
    ensures var t: seq<byte> := [COMMA, COMMA, RBRACKET];
            Strip(t) == [COMMA, SPACE, RBRACKET] && Strip(Strip(t)) == [SPACE, SPACE, RBRACKET]
  {
    var t: seq<byte> := [COMMA, COMMA, RBRACKET];
    assert t[1..] == [COMMA, RBRACKET] && t[1..][1..] == [RBRACKET];
    assert LookAhead([RBRACKET]) == Look([], [RBRACKET], true);
    assert Strip([RBRACKET]) == [RBRACKET];
    assert Strip([COMMA, RBRACKET]) == [SPACE, RBRACKET];
    var u: seq<byte> := [COMMA, SPACE, RBRACKET];
    assert u[1..] == [SPACE, RBRACKET] && u[1..][1..] == [RBRACKET];
    assert LookAhead(u[1..]) == Look([SPACE], [RBRACKET], true);
  }
}
