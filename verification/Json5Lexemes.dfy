/** What the scanner of Json5Scanner.dfy is for, stated without it: cut the text into lexemes, turn
    comments and trailing commas into spaces, keep everything else.  The main results say exactly
    on which texts the scanner does that, and when a second pass changes nothing. */
module Json5Lexemes {
  import opened Json5Scanner

  datatype Lexeme =
    | Space(b: byte)
    | Comma
    | Closer(b: byte)
    | Literal(text: seq<byte>)  // a string literal with its quotes
    | Remark(text: seq<byte>)   // a comment with its delimiters
    | Other(b: byte)            // any other single byte, a slash that opens no comment included

  datatype Lexemes = Nil | Cons(head: Lexeme, tail: Lexemes)

  function Bytes(x: Lexeme): seq<byte> {
    match x
    case Space(b) => [b]
    case Comma => [COMMA]
    case Closer(b) => [b]
    case Literal(text) => text
    case Remark(text) => text
    case Other(b) => [b]
  }

  function Flatten(ls: Lexemes): seq<byte> {
    match ls
    case Nil => []
    case Cons(x, tail) => Bytes(x) + Flatten(tail)
  }

  /** Number of bytes up to and including the first star-slash, or of all bytes without one. */
  function BlockLength(t: seq<byte>): (n: nat)
    ensures n <= |t|
  {
    if t == [] then 0
    else if |t| > 1 && t[0] == STAR && t[1] == SLASH then 2
    else 1 + BlockLength(t[1..])
  }

  predicate OpensRemark(t: seq<byte>) {
    |t| > 1 && t[0] == SLASH && (t[1] == SLASH || t[1] == STAR)
  }

  function RemarkLength(t: seq<byte>): (n: nat)
    requires OpensRemark(t)
    ensures 2 <= n <= |t|
  {
    2 + if t[1] == SLASH then LineLength(t[2..]) else BlockLength(t[2..])
  }

  function First(t: seq<byte>): (x: Lexeme)
    requires t != []
    ensures 0 < |Bytes(x)| <= |t| && Bytes(x) == t[..|Bytes(x)|]
  {
    if t[0] == QUOTE then Literal(t[..1 + StringLength(t[1..])])
    else if OpensRemark(t) then Remark(t[..RemarkLength(t)])
    else if t[0] == COMMA then Comma
    else if IsCloser(t[0]) then Closer(t[0])
    else if IsWS(t[0]) then Space(t[0])
    else Other(t[0])
  }

  function Lex(t: seq<byte>): Lexemes
    decreases |t|
  {
    if t == [] then Nil else Cons(First(t), Lex(t[|Bytes(First(t))|..]))
  }

  /** The lexemes from the first one on that is neither white space nor a comment. */
  function Next(ls: Lexemes): Lexemes {
    if ls.Cons? && (ls.head.Space? || ls.head.Remark?) then Next(ls.tail) else ls
  }

  predicate NextCloses(ls: Lexemes) {
    Next(ls).Cons? && Next(ls).head.Closer?
  }

  function Pad(n: nat, ls: Lexemes): Lexemes {
    if n == 0 then ls else Cons(Space(SPACE), Pad(n - 1, ls))
  }

  function Cleaned(ls: Lexemes): Lexemes {
    match ls
    case Nil => Nil
    case Cons(Remark(text), tail) => Pad(|text|, Cleaned(tail))
    case Cons(Comma, tail) => Cons(if NextCloses(tail) then Space(SPACE) else Comma, Cleaned(tail))
    case Cons(x, tail) => Cons(x, Cleaned(tail))
  }

  /** The text the scanner is meant to leave. */
  function Clean(t: seq<byte>): seq<byte> {
    Flatten(Cleaned(Lex(t)))
  }

  predicate Terminated(text: seq<byte>) {
    |text| >= 4 && text[|text| - 2..] == [STAR, SLASH]
  }

  /** In a block comment every star but the closing one is followed by a space or ends the text. */
  ghost predicate SpacedStars(text: seq<byte>) {
    |text| > 1 && text[1] == STAR ==>
      forall k :: 2 <= k < (if Terminated(text) then |text| - 2 else |text|) && text[k] == STAR ==>
        k + 1 == |text| || text[k + 1] == SPACE
  }

  ghost predicate AllSpaced(ls: Lexemes) {
    ls.Cons? ==> (ls.head.Remark? ==> SpacedStars(ls.head.text)) && AllSpaced(ls.tail)
  }

  /** A slash that opens no comment hides the lexeme behind it from the look-ahead. */
  predicate HidesByte(ls: Lexemes) {
    ls.Cons? && ls.head == Other(SLASH) && ls.tail.Cons? && !ls.tail.head.Literal? && !ls.tail.head.Remark?
  }

  /** The lexemes at which a look-ahead from here ends, as long as it hides no quote. */
  function LookEnd(ls: Lexemes): Lexemes {
    if ls.Cons? && (ls.head.Space? || ls.head.Remark?) then LookEnd(ls.tail)
    else if HidesByte(ls) then LookEnd(ls.tail.tail)
    else ls
  }

  predicate LookCloses(ls: Lexemes) {
    LookEnd(ls).Cons? && LookEnd(ls).head.Closer?
  }

  predicate HidesQuote(ls: Lexemes) {
    LookEnd(ls).Cons? && LookEnd(ls).head == Other(SLASH) && LookEnd(ls).tail.Cons?
  }

  /** Behind no comma the look-ahead passes a slash that hides the quote of a string. */
  predicate NoHiddenQuote(ls: Lexemes) {
    ls.Cons? ==> (ls.head.Comma? ==> !HidesQuote(ls.tail)) && NoHiddenQuote(ls.tail)
  }

  /** Behind no comma it gets past such a slash to a closer. */
  predicate NoFalseCloser(ls: Lexemes) {
    ls.Cons? ==> (ls.head.Comma? && LookCloses(ls.tail) ==> NextCloses(ls.tail)) && NoFalseCloser(ls.tail)
  }

  lemma {:induction false} FlattenLex(t: seq<byte>)
    ensures Flatten(Lex(t)) == t
    decreases |t|
  {
    if t != [] {
      FlattenLex(t[|Bytes(First(t))|..]);
    }
  }

  lemma {:induction false} FlattenPad(n: nat, ls: Lexemes)
    ensures Flatten(Pad(n, ls)) == Blanks(n) + Flatten(ls)
  {
    if n > 0 {
      FlattenPad(n - 1, ls);
      assert Blanks(n) == [SPACE] + Blanks(n - 1);
    }
  }

  // ---- Block comments ----

  /** `SpacedStars` for the bytes after the opening delimiter. */
  ghost predicate Spaced(t: seq<byte>) {
    var n := BlockLength(t);
    forall k :: 0 <= k < (if BlockCloses(t) then n - 2 else n) && t[k] == STAR ==>
      k + 1 == n || t[k + 1] == SPACE
  }

  predicate BlockCloses(t: seq<byte>) {
    var n := BlockLength(t); n > 1 && t[n - 2] == STAR && t[n - 1] == SLASH
  }

  /** Past a byte that is no star, and past a star with the space behind it, the block goes on. */
  lemma BlockOver(t: seq<byte>, m: nat)
    requires if m == 1 then t != [] && t[0] != STAR else m == 2 && |t| > 1 && t[0] == STAR && t[1] == SPACE
    ensures var n := BlockLength(t[m..]); BlockLength(t) == m + n && t[m..][n..] == t[m + n..]
    ensures BlockCloses(t) == BlockCloses(t[m..])
  {
    if m == 2 {
      assert t[1..][1..] == t[2..];
      assert BlockLength(t) == 1 + BlockLength(t[1..]);
    }
  }

  lemma BlockOverSpaced(t: seq<byte>, m: nat)
    requires if m == 1 then t != [] && t[0] != STAR else m == 2 && |t| > 1 && t[0] == STAR && t[1] == SPACE
    ensures Spaced(t) <==> Spaced(t[m..])
  {
    hide BlockLength, BlockCloses;
    BlockOver(t, m);
    var r := t[m..];
    assert forall k :: 0 <= k < |r| ==> r[k] == t[k + m];
    if Spaced(r) {
      var n := BlockLength(t);
      forall k | 0 <= k < (if BlockCloses(t) then n - 2 else n) && t[k] == STAR
        ensures k + 1 == n || t[k + 1] == SPACE
      {
        if k >= m {
          assert r[k - m] == t[k];
        }
      }
    }
  }

  lemma BlockOverScan(t: seq<byte>, m: nat)
    requires if m == 1 then t != [] && t[0] != STAR else m == 2 && |t| > 1 && t[0] == STAR && t[1] == SPACE
    ensures var r := BlockScan(t[m..]); BlockScan(t) == Scan(Blanks(m) + r.out, r.rest)
  {
    assert Blanks(1) == [SPACE] && Blanks(2) == [SPACE, SPACE];
  }

  /** A block that is spaced either goes on like that or is at its end. */
  lemma BlockAtEnd(t: seq<byte>)
    requires Spaced(t) && t != [] && t[0] == STAR && !(|t| > 1 && t[1] == SPACE)
    ensures var n := BlockLength(t);
            BlockScan(t) == if BlockCloses(t) then Scan(Blanks(n - 1), [SPACE] + t[n..]) else Scan(Blanks(n), [])
    ensures !BlockCloses(t) ==> BlockLength(t) == |t|
  {
    assert Blanks(1) == [SPACE];
  }

  lemma {:induction false} BlockGood(t: seq<byte>)
    requires Spaced(t)
    ensures var n := BlockLength(t);
            BlockScan(t) == if BlockCloses(t) then Scan(Blanks(n - 1), [SPACE] + t[n..]) else Scan(Blanks(n), [])
    ensures !BlockCloses(t) ==> BlockLength(t) == |t|
  {
    hide Spaced, BlockScan, BlockLength, BlockCloses;
    if t == [] {
      BlockNone();
    } else if t[0] == STAR && !(|t| > 1 && t[1] == SPACE) {
      BlockAtEnd(t);
    } else {
      var m := if t[0] == STAR then 2 else 1;
      BlockOver(t, m);
      BlockOverSpaced(t, m);
      BlockOverScan(t, m);
      BlockGood(t[m..]);
      BlanksJoin(m, BlockLength(t[m..]));
    }
  }

  lemma BlockNone()
    ensures Spaced([]) && BlockScan([]) == Scan([], []) && BlockLength([]) == 0 && !BlockCloses([]) && Blanks(0) == []
  {
  }

  lemma BlanksJoin(m: nat, n: nat)
    ensures Blanks(m) + Blanks(n) == Blanks(m + n)
    ensures n > 0 ==> Blanks(m) + Blanks(n - 1) == Blanks(m + n - 1)
  {
  }

  lemma {:induction false} BlockBad(t: seq<byte>) returns (k: nat)
    requires !Spaced(t)
    ensures k < BlockLength(t) && k < |BlockScan(t).out| && BlockScan(t).out[k] != SPACE
  {
    hide Spaced, BlockScan, BlockLength, BlockCloses;
    BlockNone();
    if t[0] == STAR && !(|t| > 1 && t[1] == SPACE) {
      BlockStray(t);
      k := 1;
    } else {
      var m := if t[0] == STAR then 2 else 1;
      BlockOver(t, m);
      BlockOverSpaced(t, m);
      BlockOverScan(t, m);
      k := BlockBad(t[m..]);
      k := m + k;
    }
  }

  lemma BlockStray(t: seq<byte>)
    requires !Spaced(t) && t != [] && t[0] == STAR && !(|t| > 1 && t[1] == SPACE)
    ensures 1 < BlockLength(t) && 1 < |BlockScan(t).out| && BlockScan(t).out[1] != SPACE
  {
  }

  // ---- One comment ----

  /** The two ways a scan of a well-behaved comment ends: before `n`, or on its blanked last byte. */
  ghost predicate RemarkScanned(t: seq<byte>, n: nat) {
    && t != [] && t[0] == SLASH && 0 < n <= |t|
    && (|| (CommentScan(t) == Scan(Blanks(n), t[n..]) && (n < |t| ==> IsNL(t[n])))
        || CommentScan(t) == Scan(Blanks(n - 1), [SPACE] + t[n..]))
  }

  lemma RemarkGood(t: seq<byte>)
    requires OpensRemark(t) && SpacedStars(t[..RemarkLength(t)])
    ensures RemarkScanned(t, RemarkLength(t))
  {
    var n := RemarkLength(t);
    if t[1] == SLASH {
      LineEnds(t[2..]);
    } else {
      RemarkSpaced(t);
      BlockGood(t[2..]);
      if BlockCloses(t[2..]) {
        assert t[2..][n - 2..] == t[n..];
        assert [SPACE, SPACE] + Blanks(n - 3) == Blanks(n - 1);
      } else {
        assert [SPACE, SPACE] + Blanks(n - 2) == Blanks(n);
      }
    }
  }

  lemma LineEnds(t: seq<byte>)
    ensures LineLength(t) < |t| ==> IsNL(t[LineLength(t)])
  {
  }

  lemma RemarkBad(t: seq<byte>) returns (k: nat)
    requires OpensRemark(t) && !SpacedStars(t[..RemarkLength(t)])
    ensures k < RemarkLength(t) && k < |CommentScan(t).out| && CommentScan(t).out[k] != SPACE
  {
    RemarkSpaced(t);
    k := BlockBad(t[2..]);
    k := k + 2;
  }

  lemma RemarkSpaced(t: seq<byte>)
    requires OpensRemark(t) && t[1] == STAR
    ensures SpacedStars(t[..RemarkLength(t)]) <==> Spaced(t[2..])
  {
    var n := RemarkLength(t);
    var text, u := t[..n], t[2..];
    assert forall k :: 2 <= k < n ==> text[k] == u[k - 2];
    assert Terminated(text) <==> BlockCloses(u) by {
      if n >= 4 {
        assert text[n - 2..] == [text[n - 2], text[n - 1]];
      }
    }
    if SpacedStars(text) {
      forall k | 0 <= k < (if BlockCloses(u) then n - 4 else n - 2) && u[k] == STAR
        ensures k + 1 == n - 2 || u[k + 1] == SPACE
      {
        assert text[k + 2] == STAR;
      }
    }
  }

  // ---- The look-ahead ----

  /** The comments that the look-ahead passes are well behaved. */
  ghost predicate SpacedToEnd(ls: Lexemes) {
    if ls.Cons? && (ls.head.Space? || ls.head.Remark?) then
      (ls.head.Remark? ==> SpacedStars(ls.head.text)) && SpacedToEnd(ls.tail)
    else if HidesByte(ls) then SpacedToEnd(ls.tail.tail)
    else true
  }

  lemma AllSpacedToEnd(ls: Lexemes)
    requires AllSpaced(ls)
    ensures SpacedToEnd(ls)
  {
  }

  /** The look-ahead ends behind the next lexeme only over a slash that opens no comment. */
  lemma {:induction false} LookEndIsNext(ls: Lexemes)
    ensures Next(ls).Cons? && Next(ls).head != Other(SLASH) ==> LookEnd(ls) == Next(ls)
  {
    if ls.Cons? && (ls.head.Space? || ls.head.Remark?) {
      LookEndIsNext(ls.tail);
    }
  }

  lemma StripWS(t: seq<byte>)
    requires t != [] && IsWS(t[0])
    ensures Strip(t) == [t[0]] + Strip(t[1..])
  {
  }

  lemma BlanksSnoc(n: nat)
    ensures Blanks(n) + [SPACE] == Blanks(n + 1)
  {
  }

  lemma StripRemark(t: seq<byte>, n: nat)
    requires RemarkScanned(t, n)
    ensures Strip(t) == Blanks(n) + Strip(t[n..])
  {
    StripSlash(t);
    hide Strip, CommentScan, Blanks;
    if CommentScan(t) == Scan(Blanks(n - 1), [SPACE] + t[n..]) {
      StripWS([SPACE] + t[n..]);
      assert ([SPACE] + t[n..])[1..] == t[n..];
      Assoc(Blanks(n - 1), [SPACE], Strip(t[n..]));
      BlanksSnoc(n - 1);
    }
  }

  /** Where the look-ahead goes on after a well-behaved comment: it skips the line break unseen. */
  ghost function After(t: seq<byte>, n: nat): (m: nat)
    requires RemarkScanned(t, n)
    ensures n <= m <= n + 1 && m <= |t| && (m > n ==> IsNL(t[n]))
  {
    if n < |t| && |CommentScan(t).out| == n then n + 1 else n
  }

  lemma LookRemark(t: seq<byte>, n: nat)
    requires RemarkScanned(t, n)
    ensures var m := After(t, n); var r := LookAhead(t[m..]);
            LookAhead(t) == Look(Blanks(n) + t[n..m] + r.out, r.rest, r.closed)
  {
    hide CommentScan, Blanks;
    var c, m := CommentScan(t), After(t, n);
    if c == Scan(Blanks(n - 1), [SPACE] + t[n..]) {
      assert m == n && c.rest[1..] == t[n..];
      assert Blanks(n) + t[n..m] == Blanks(n);
      BlanksSnoc(n - 1);
    } else if n < |t| {
      assert m == n + 1 && c.rest[1..] == t[m..];
    } else {
      assert Blanks(n) + t[n..m] + [] == Blanks(n);
    }
  }

  lemma CleanRemark(t: seq<byte>)
    requires OpensRemark(t)
    ensures Clean(t) == Blanks(RemarkLength(t)) + Clean(t[RemarkLength(t)..])
  {
    FlattenPad(RemarkLength(t), Cleaned(Lex(t[RemarkLength(t)..])));
  }

  lemma CleanWS(t: seq<byte>)
    requires t != [] && IsWS(t[0])
    ensures Clean(t) == [t[0]] + Clean(t[1..])
    ensures Lex(t) == Cons(Space(t[0]), Lex(t[1..]))
  {
  }

  /** With every comment up to the next lexeme well behaved, the look-ahead writes what the main
      loop would have written, and sees a closer exactly when one comes next. */
  ghost predicate LooksLikeStrip(t: seq<byte>) {
    var l := LookAhead(t); l.out + Strip(l.rest) == Strip(t)
  }

  lemma LookWS(t: seq<byte>)
    requires t != [] && IsWS(t[0]) && LooksLikeStrip(t[1..])
    ensures LooksLikeStrip(t) && LookAhead(t).closed == LookAhead(t[1..]).closed
  {
    StripWS(t);
    var r := LookAhead(t[1..]);
    assert LookAhead(t) == Look([t[0]] + r.out, r.rest, r.closed);
    hide Strip, LookAhead;
    Assoc([t[0]], r.out, Strip(r.rest));
  }

  lemma LookPastRemark(t: seq<byte>, n: nat)
    requires RemarkScanned(t, n) && LooksLikeStrip(t[After(t, n)..])
    ensures LooksLikeStrip(t)
  {
    hide Strip, LookAhead, CommentScan, Blanks;
    var m := After(t, n);
    var r := LookAhead(t[m..]);
    LookRemark(t, n);
    StripRemark(t, n);
    Assoc(Blanks(n) + t[n..m], r.out, Strip(r.rest));
    Assoc(Blanks(n), t[n..m], Strip(t[m..]));
    if m > n {
      StripWS(t[n..]);
      assert t[n..][1..] == t[m..] && t[n..m] == [t[n..][0]];
    } else {
      assert t[n..m] + Strip(t[m..]) == Strip(t[n..]);
    }
  }

  lemma LexRemark(t: seq<byte>)
    requires OpensRemark(t)
    ensures Lex(t) == Cons(Remark(t[..RemarkLength(t)]), Lex(t[RemarkLength(t)..]))
  {
  }

  lemma LexAfter(t: seq<byte>, n: nat)
    requires OpensRemark(t) && n == RemarkLength(t) && RemarkScanned(t, n)
    ensures var rest := Lex(t[After(t, n)..]);
            && Next(Lex(t)) == Next(rest) && LookEnd(Lex(t)) == LookEnd(rest)
            && (SpacedToEnd(Lex(t)) <==> SpacedStars(t[..n]) && SpacedToEnd(rest))
  {
    hide CommentScan, SpacedStars, Lex, RemarkLength, Blanks;
    LexRemark(t);
    if After(t, n) > n {
      CleanWS(t[n..]);
      assert t[n..][1..] == t[n + 1..];
    }
  }

  lemma CleanAfter(t: seq<byte>, n: nat)
    requires OpensRemark(t) && n == RemarkLength(t) && RemarkScanned(t, n)
    ensures var m := After(t, n); Clean(t) == Blanks(n) + t[n..m] + Clean(t[m..])
  {
    hide CommentScan, Clean, Blanks, Lex;
    CleanRemark(t);
    var m := After(t, n);
    if m > n {
      CleanWS(t[n..]);
      assert t[n..][1..] == t[m..] && t[n..m] == [t[n..][0]];
      Assoc(Blanks(n), t[n..m], Clean(t[m..]));
    } else {
      assert Blanks(n) + t[n..m] == Blanks(n);
    }
  }

  /** A slash that opens no comment, with a byte behind it that opens no string. */
  predicate HidesHere(t: seq<byte>) {
    |t| > 1 && t[0] == SLASH && !OpensRemark(t) && t[1] != QUOTE
  }

  lemma LexHidden(t: seq<byte>)
    requires HidesHere(t)
    ensures HidesByte(Lex(t)) && Lex(t) == Cons(Other(SLASH), Lex(t[1..]))
    ensures Lex(t[1..]) == Cons(First([t[1]]), Lex(t[2..]))
  {
    assert t[1..][1..] == t[2..];
  }

  lemma HiddenPasses(t: seq<byte>)
    requires HidesHere(t)
    ensures LookEnd(Lex(t)) == LookEnd(Lex(t[2..])) && !NextCloses(Lex(t))
    ensures SpacedToEnd(Lex(t)) <==> SpacedToEnd(Lex(t[2..]))
  {
    LexHidden(t);
    hide Lex;
  }

  lemma LookHidden(t: seq<byte>)
    requires HidesHere(t)
    ensures var r := LookAhead(t[2..]); LookAhead(t) == Look([SLASH, t[1]] + r.out, r.rest, r.closed)
  {
    hide CommentScan;
    BareScan(t);
    assert t[1..][1..] == t[2..];
  }

  lemma BareScan(t: seq<byte>)
    requires HidesHere(t)
    ensures CommentScan(t) == Scan([SLASH], t[1..])
  {
  }

  lemma StripHidden(t: seq<byte>)
    requires HidesHere(t) && !LookAhead(t[2..]).closed && LooksLikeStrip(t[2..])
    ensures LooksLikeStrip(t)
  {
    hide Strip, LookAhead, CommentScan;
    var u, r := t[1..], LookAhead(t[2..]);
    BareScan(t);
    assert u[1..] == t[2..];
    StripSlash(t);
    LookHidden(t);
    if t[1] == COMMA {
      StripComma(u);
      Assoc([COMMA], r.out, Strip(r.rest));
    } else {
      StripByte(u);
    }
    assert [SLASH, t[1]] + r.out + Strip(r.rest) == [SLASH] + ([t[1]] + (r.out + Strip(r.rest)));
  }

  /** The look-ahead sees a closer exactly where the lexemes say so, and writes what the main loop would have
      written unless that closer is not the next lexeme. */
  lemma {:induction false} LookGood(t: seq<byte>)
    requires SpacedToEnd(Lex(t)) && !HidesQuote(Lex(t))
    ensures LookAhead(t).closed == LookCloses(Lex(t))
    ensures (LookCloses(Lex(t)) ==> NextCloses(Lex(t))) ==> LooksLikeStrip(t)
    decreases |t|
  {
    hide *;
    if OpensRemark(t) {
      var n := RemarkLength(t);
      RemarkStart(t);
      RemarkGood(t);
      LexAfter(t, n);
      SameLook(Lex(t), Lex(t[After(t, n)..]));
      LookGood(t[After(t, n)..]);
      if LooksLikeStrip(t[After(t, n)..]) { LookPastRemark(t, n); }
      LookRemark(t, n);
    } else if t != [] && IsWS(t[0]) {
      LexOverWS(t);
      SameLook(Lex(t), Lex(t[1..]));
      LookGood(t[1..]);
      if LooksLikeStrip(t[1..]) { LookWS(t); }
      LookWSOut(t);
    } else if HidesHere(t) {
      HiddenFirst(t);
      HiddenPasses(t);
      SameEnd(Lex(t), Lex(t[2..]));
      LookGood(t[2..]);
      LookHidden(t);
      if LooksLikeStrip(t[2..]) && !LookAhead(t[2..]).closed { StripHidden(t); }
    } else {
      LookStops(t);
    }
  }

  lemma RemarkStart(t: seq<byte>)
    requires OpensRemark(t)
    ensures t != [] && t[0] == SLASH && 0 < RemarkLength(t)
    ensures SpacedToEnd(Lex(t)) ==> SpacedStars(t[..RemarkLength(t)])
  {
    LexRemark(t);
    hide Lex, RemarkLength;
  }

  lemma SameEnd(a: Lexemes, b: Lexemes)
    requires LookEnd(a) == LookEnd(b)
    ensures LookCloses(a) == LookCloses(b) && HidesQuote(a) == HidesQuote(b)
  {
  }

  lemma SameLook(a: Lexemes, b: Lexemes)
    requires Next(a) == Next(b) && LookEnd(a) == LookEnd(b)
    ensures NextCloses(a) == NextCloses(b) && LookCloses(a) == LookCloses(b) && HidesQuote(a) == HidesQuote(b)
  {
  }

  lemma LexOverWS(t: seq<byte>)
    requires t != [] && IsWS(t[0])
    ensures Next(Lex(t)) == Next(Lex(t[1..])) && LookEnd(Lex(t)) == LookEnd(Lex(t[1..]))
    ensures SpacedToEnd(Lex(t)) <==> SpacedToEnd(Lex(t[1..]))
  {
    CleanWS(t);
    hide Lex;
  }

  /** Anywhere else the look-ahead stops at once. */
  lemma LookStops(t: seq<byte>)
    requires !OpensRemark(t) && !HidesHere(t) && (t == [] || !IsWS(t[0])) && !HidesQuote(Lex(t))
    ensures LookAhead(t).closed == LookCloses(Lex(t)) && LooksLikeStrip(t)
  {
    hide Lex, LookAhead, Strip, LooksLikeStrip, LookCloses, HidesQuote;
    if t != [] && t[0] == SLASH {
      if |t| > 1 { QuoteHidden(t); }
      LoneSlash(t);
    } else {
      LookStopsAt(t);
    }
  }

  lemma QuoteHidden(t: seq<byte>)
    requires |t| > 1 && t[0] == SLASH && t[1] == QUOTE
    ensures HidesQuote(Lex(t))
  {
    hide StringLength;
    assert Lex(t) == Cons(Other(SLASH), Lex(t[1..]));
  }

  lemma LoneSlash(t: seq<byte>)
    requires t == [SLASH]
    ensures LookAhead(t).closed == LookCloses(Lex(t)) && LooksLikeStrip(t)
  {
    assert CommentScan(t) == Scan([SLASH], []);
    assert LookAhead(t) == Look([SLASH], [], false);
    assert Lex(t) == Cons(Other(SLASH), Nil);
  }

  lemma LookStopsAt(t: seq<byte>)
    requires !OpensRemark(t) && (t == [] || (t[0] != SLASH && !IsWS(t[0])))
    ensures LookAhead(t).closed == LookCloses(Lex(t)) && LooksLikeStrip(t)
  {
    hide StringLength, CommentScan, Strip;
    if t != [] {
      assert LookAhead(t) == Look([], t, IsCloser(t[0]));
      LexHead(t);
      assert [] + Strip(t) == Strip(t);
    }
  }

  lemma LexHead(t: seq<byte>)
    requires t != [] && !OpensRemark(t) && t[0] != SLASH && !IsWS(t[0])
    ensures LookCloses(Lex(t)) == IsCloser(t[0])
  {
    hide StringLength;
    assert Lex(t).head == First(t);
  }

  /** Otherwise the first ill-behaved comment leaves a byte behind that should be a space. */
  lemma {:induction false} LookBad(t: seq<byte>) returns (k: nat)
    requires !SpacedToEnd(Lex(t))
    ensures k < |LookAhead(t).out| && k < |Clean(t)| && LookAhead(t).out[k] != Clean(t)[k]
    decreases |t|
  {
    hide *;
    if HidesHere(t) {
      HiddenPasses(t);
      LookHidden(t);
      CleanHidden(t);
      k := LookBad(t[2..]);
      k := k + 2;
    } else if !OpensRemark(t) {
      LookOverWS(t);
      k := LookBad(t[1..]);
      k := k + 1;
    } else if SpacedStars(t[..RemarkLength(t)]) {
      k := LookBadLater(t);
    } else {
      k := LookBadNow(t);
    }
  }

  lemma LookBadNow(t: seq<byte>) returns (k: nat)
    requires OpensRemark(t) && !SpacedStars(t[..RemarkLength(t)])
    ensures k < |LookAhead(t).out| && k < |Clean(t)| && LookAhead(t).out[k] != Clean(t)[k]
  {
    hide Clean, CommentScan, SpacedStars, RemarkLength, Strip;
    CleanRemark(t);
    k := RemarkBad(t);
  }

  lemma CleanHidden(t: seq<byte>)
    requires HidesHere(t)
    ensures |Clean(t)| == 2 + |Clean(t[2..])| && Clean(t)[2..] == Clean(t[2..])
  {
    hide *;
    HiddenFirst(t);
    var u := t[1..];
    assert u[1..] == t[2..];
    KeptHeadClean(t, 1);
    if t[1] == COMMA { CleanComma(u); } else { KeptHeadClean(u, 1); }
  }

  lemma HiddenFirst(t: seq<byte>)
    requires HidesHere(t)
    ensures |t| > 1 && t[0] != COMMA && !OpensRemark(t) && !OpensRemark(t[1..])
    ensures |Bytes(First(t))| == 1 == |Bytes(First(t[1..]))|
  {
  }

  lemma LookOverWS(t: seq<byte>)
    requires !SpacedToEnd(Lex(t)) && !OpensRemark(t) && !HidesHere(t)
    ensures t != [] && !SpacedToEnd(Lex(t[1..]))
    ensures LookAhead(t).out == [t[0]] + LookAhead(t[1..]).out && Clean(t) == [t[0]] + Clean(t[1..])
  {
    hide Clean, Strip, CommentScan, Lex, LookAhead;
    if t == [] || !IsWS(t[0]) {
      NoBlankFirst(t);
    } else {
      CleanWS(t);
      LookWSOut(t);
    }
  }

  lemma NoBlankFirst(t: seq<byte>)
    requires !OpensRemark(t) && !HidesHere(t) && (t == [] || !IsWS(t[0]))
    ensures SpacedToEnd(Lex(t))
  {
    hide StringLength;
  }

  lemma LookWSOut(t: seq<byte>)
    requires t != [] && IsWS(t[0])
    ensures LookAhead(t).out == [t[0]] + LookAhead(t[1..]).out && LookAhead(t).closed == LookAhead(t[1..]).closed
  {
    hide CommentScan;
  }

  lemma {:induction false} LookBadLater(t: seq<byte>) returns (k: nat)
    requires !SpacedToEnd(Lex(t)) && OpensRemark(t) && SpacedStars(t[..RemarkLength(t)])
    ensures k < |LookAhead(t).out| && k < |Clean(t)| && LookAhead(t).out[k] != Clean(t)[k]
    decreases |t|, 0
  {
    hide CommentScan, LookAhead, Clean, Lex, SpacedStars, SpacedToEnd, RemarkLength;
    var n := RemarkLength(t);
    RemarkGood(t);
    var m := After(t, n);
    LookRemark(t, n);
    LexAfter(t, n);
    CleanAfter(t, n);
    k := LookBad(t[m..]);
    k := m + k;
  }

  // ---- The whole text ----

  lemma Cancel(a: seq<byte>, x: seq<byte>, y: seq<byte>)
    ensures a + x == a + y <==> x == y
  {
    assert (a + x)[|a|..] == x && (a + y)[|a|..] == y;
  }

  /** The main result.  Where no quote is hidden behind a comma, the scanner leaves exactly the cleaned text if
      and only if every star in the body of a block comment is followed by a space, and no comma is taken for a
      trailing one because the look-ahead got past a slash that opens no comment. */
  lemma {:induction false} StripCleansExactly(t: seq<byte>)
    requires NoHiddenQuote(Lex(t))
    ensures Strip(t) == Clean(t) <==> AllSpaced(Lex(t)) && NoFalseCloser(Lex(t))
    decreases |t|
  {
    hide Strip, Clean, SpacedStars;
    if t == [] {
      CleanNil();
    } else if OpensRemark(t) {
      var n := RemarkLength(t);
      StripCleansExactly(t[n..]);
      RemarkCleansExactly(t, n);
    } else if t[0] == COMMA {
      StripCleansExactly(t[1..]);
      CommaCleansExactly(t);
    } else {
      var n := |Bytes(First(t))|;
      StripCleansExactly(t[n..]);
      KeptHead(t, n);
      Cancel(t[..n], Strip(t[n..]), Clean(t[n..]));
    }
  }

  /** Every slash outside strings opens a comment. */
  predicate NoLoneSlash(ls: Lexemes) {
    ls.Cons? ==> ls.head != Other(SLASH) && NoLoneSlash(ls.tail)
  }

  lemma {:induction false} LoneSlashNext(ls: Lexemes)
    requires NoLoneSlash(ls)
    ensures LookEnd(ls) == Next(ls) && !HidesQuote(ls)
  {
    if ls.Cons? && (ls.head.Space? || ls.head.Remark?) {
      LoneSlashNext(ls.tail);
    }
  }

  lemma {:induction false} NoLoneSlashHidesNothing(ls: Lexemes)
    requires NoLoneSlash(ls)
    ensures NoHiddenQuote(ls) && NoFalseCloser(ls)
  {
    if ls.Cons? {
      LoneSlashNext(ls.tail);
      NoLoneSlashHidesNothing(ls.tail);
    }
  }

  /** On the texts the stripper is meant for, in which every slash outside strings opens a comment, it does
      what it is meant to do if and only if the stars in block comments are spaced. */
  lemma StripCleansComments(t: seq<byte>)
    requires NoLoneSlash(Lex(t))
    ensures Strip(t) == Clean(t) <==> AllSpaced(Lex(t))
  {
    NoLoneSlashHidesNothing(Lex(t));
    StripCleansExactly(t);
  }

  lemma CleanNil()
    ensures Strip([]) == [] && Clean([]) == []
  {
  }

  lemma KeptHead(t: seq<byte>, n: nat)
    requires t != [] && !OpensRemark(t) && t[0] != COMMA && n == |Bytes(First(t))|
    ensures Strip(t) == t[..n] + Strip(t[n..]) && Clean(t) == t[..n] + Clean(t[n..])
  {
    hide *;
    KeptHeadClean(t, n);
    FirstLength(t);
    if t[0] == QUOTE {
      StripString(t);
    } else {
      StripByte(t);
      assert t[..1] == [t[0]];
    }
  }

  lemma FirstLength(t: seq<byte>)
    requires t != []
    ensures t[0] == QUOTE ==> |Bytes(First(t))| == 1 + StringLength(t[1..])
    ensures t[0] != QUOTE && !OpensRemark(t) ==> |Bytes(First(t))| == 1
  {
    hide StringLength;
  }

  lemma StripByte(t: seq<byte>)
    requires t != [] && t[0] != QUOTE && !OpensRemark(t) && t[0] != COMMA
    ensures Strip(t) == [t[0]] + Strip(t[1..])
  {
  }

  lemma KeptHeadClean(t: seq<byte>, n: nat)
    requires t != [] && !OpensRemark(t) && t[0] != COMMA && n == |Bytes(First(t))|
    ensures Clean(t) == t[..n] + Clean(t[n..])
  {
    hide StringLength;
    assert Cleaned(Lex(t)) == Cons(First(t), Cleaned(Lex(t[n..])));
  }

  lemma BlankAt(n: nat, k: nat)
    requires k < n
    ensures |Blanks(n)| == n && Blanks(n)[k] == SPACE
  {
  }

  lemma CleanComma(t: seq<byte>)
    requires t != [] && t[0] == COMMA
    ensures Clean(t) == [if NextCloses(Lex(t[1..])) then SPACE else COMMA] + Clean(t[1..])
  {
  }

  lemma RemarkCleansExactly(t: seq<byte>, n: nat)
    requires OpensRemark(t) && n == RemarkLength(t)
    ensures Strip(t) == Clean(t) <==> SpacedStars(t[..n]) && Strip(t[n..]) == Clean(t[n..])
  {
    hide Strip, Clean, CommentScan, LookAhead, Lex, SpacedStars, Blanks, RemarkLength;
    CleanRemark(t);
    if SpacedStars(t[..n]) {
      RemarkGood(t);
      StripRemark(t, n);
      Cancel(Blanks(n), Strip(t[n..]), Clean(t[n..]));
    } else {
      var k := RemarkBad(t);
      StripSlash(t);
      BlankAt(RemarkLength(t), k);
      assert Strip(t)[k] != Clean(t)[k];
    }
  }

  lemma CommaCleansExactly(t: seq<byte>)
    requires t != [] && t[0] == COMMA && NoHiddenQuote(Lex(t))
    requires Strip(t[1..]) == Clean(t[1..]) <==> AllSpaced(Lex(t[1..])) && NoFalseCloser(Lex(t[1..]))
    ensures Strip(t) == Clean(t) <==> AllSpaced(Lex(t)) && NoFalseCloser(Lex(t))
  {
    var u := t[1..];
    assert Lex(t) == Cons(Comma, Lex(u));
    if SpacedToEnd(Lex(u)) {
      CommaGood(t, u);
    } else {
      if AllSpaced(Lex(u)) { AllSpacedToEnd(Lex(u)); }
      CommaBad(t, u);
    }
  }

  lemma LooksMeans(t: seq<byte>)
    requires LooksLikeStrip(t)
    ensures var l := LookAhead(t); l.out + Strip(l.rest) == Strip(t)
  {
  }

  lemma CommaBad(t: seq<byte>, u: seq<byte>)
    requires t != [] && t[0] == COMMA && u == t[1..] && !SpacedToEnd(Lex(u))
    ensures Strip(t) != Clean(t)
  {
    hide *;
    var k := LookBad(u);
    var l := LookAhead(u);
    StripComma(t);
    CleanComma(t);
    assert Strip(t)[k + 1] == l.out[k] && Clean(t)[k + 1] == Clean(u)[k];
  }

  lemma CommaGood(t: seq<byte>, u: seq<byte>)
    requires t != [] && t[0] == COMMA && u == t[1..]
    requires SpacedToEnd(Lex(u)) && !HidesQuote(Lex(u))
    ensures Strip(t) == Clean(t) <==> Strip(u) == Clean(u) && (LookCloses(Lex(u)) ==> NextCloses(Lex(u)))
  {
    hide *;
    LookGood(u);
    var l := LookAhead(u);
    var c := [if l.closed then SPACE else COMMA];
    StripComma(t);
    CleanComma(t);
    if LookCloses(Lex(u)) && !NextCloses(Lex(u)) {
      FalseCloser(t, u);
    } else {
      NextClosesLook(Lex(u));
      LooksMeans(u);
      Assoc(c, l.out, Strip(l.rest));
      Cancel(c, Strip(u), Clean(u));
    }
  }

  lemma FalseCloser(t: seq<byte>, u: seq<byte>)
    requires t != [] && t[0] == COMMA && u == t[1..] && LookAhead(u).closed && !NextCloses(Lex(u))
    ensures Strip(t) != Clean(t)
  {
    hide Strip, Clean, Lex, LookAhead, NextCloses;
    StripComma(t);
    CleanComma(t);
    assert Strip(t)[0] == SPACE && Clean(t)[0] == COMMA;
  }

  lemma NextClosesLook(ls: Lexemes)
    ensures NextCloses(ls) ==> LookCloses(ls)
  {
    LookEndIsNext(ls);
  }
}
