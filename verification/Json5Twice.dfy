/** What survives a pass of the scanner, and what a second pass changes. */
module Json5Twice {
  import opened Json5Scanner
  import opened Json5Lexemes

  function Tokens(ls: Lexemes): Lexemes {
    match ls
    case Nil => Nil
    case Cons(x, tail) => if x.Space? then Tokens(tail) else Cons(x, Tokens(tail))
  }

  /** The tokens that are neither comments nor commas before a closer. */
  function Significant(ls: Lexemes): Lexemes {
    match ls
    case Nil => Nil
    case Cons(x, tail) =>
      if x.Space? || x.Remark? || (x.Comma? && NextCloses(tail)) then Significant(tail)
      else Cons(x, Significant(tail))
  }

  lemma {:induction false} TokensOfPad(n: nat, ls: Lexemes)
    ensures Tokens(Pad(n, ls)) == Tokens(ls) && Next(Pad(n, ls)) == Next(ls) && LookEnd(Pad(n, ls)) == LookEnd(ls)
    ensures Cleaned(Pad(n, ls)) == Pad(n, Cleaned(ls))
    ensures NoHiddenQuote(Pad(n, ls)) == NoHiddenQuote(ls) && NoFalseCloser(Pad(n, ls)) == NoFalseCloser(ls)
    ensures AllSpaced(Pad(n, ls)) == AllSpaced(ls) && Strict(Pad(n, ls)) == Strict(ls)
  {
    if n > 0 { TokensOfPad(n - 1, ls); }
  }

  lemma {:induction false} TokensOfCleaned(ls: Lexemes)
    ensures Tokens(Cleaned(ls)) == Significant(ls)
  {
    if ls.Cons? {
      TokensOfCleaned(ls.tail);
      if ls.head.Remark? { TokensOfPad(|ls.head.text|, Cleaned(ls.tail)); }
    }
  }

  // ---- Cutting the cleaned text into lexemes again ----

  lemma BlanksCons(n: nat)
    requires n > 0
    ensures Blanks(n) == [SPACE] + Blanks(n - 1)
  {
  }

  lemma LexSpace(f: seq<byte>, n: nat, ls: Lexemes)
    ensures Lex([SPACE] + f) == Cons(Space(SPACE), Lex(f))
    ensures n > 0 ==> Pad(n, ls) == Cons(Space(SPACE), Pad(n - 1, ls))
    ensures Pad(0, ls) == ls && Blanks(0) == []
  {
    hide Lex;
    LexCons(SPACE, f);
  }

  lemma {:induction false} LexBlanks(n: nat, t: seq<byte>)
    ensures Lex(Blanks(n) + t) == Pad(n, Lex(t))
  {
    hide *;
    if n == 0 {
      LexSpace([], 0, Lex(t));
      assert [] + t == t;
    } else {
      LexBlanks(n - 1, t);
      BlanksCons(n);
      Assoc([SPACE], Blanks(n - 1), t);
      LexSpace(Blanks(n - 1) + t, n, Lex(t));
    }
  }

  lemma PrefixShift(t: seq<byte>, n: nat, m: nat, f: seq<byte>)
    requires m <= n <= |t|
    ensures (t[..n] + f)[m..] == t[m..][..n - m] + f && forall k | 0 <= k < n :: (t[..n] + f)[k] == t[k]
  {
  }

  lemma {:induction false} StringLengthPrefix(t: seq<byte>, f: seq<byte>)
    requires StringLength(t) < |t| || f == []
    ensures var n := StringLength(t); StringLength(t[..n] + f) == n
    decreases |t|
  {
    var n := StringLength(t);
    var u := t[..n] + f;
    if t == [] || t[0] == QUOTE {
    } else if t[0] != BACKSLASH {
      StringLengthPrefix(t[1..], f);
      PrefixShift(t, n, 1, f);
    } else if |t| > 1 {
      StringLengthPrefix(t[2..], f);
      PrefixShift(t, n, 2, f);
    }
  }

  lemma LexLiteral(t: seq<byte>, f: seq<byte>)
    requires t != [] && t[0] == QUOTE
    requires 1 + StringLength(t[1..]) < |t| || f == []
    ensures var text := t[..1 + StringLength(t[1..])]; Lex(text + f) == Cons(Literal(text), Lex(f))
  {
    var n := 1 + StringLength(t[1..]);
    var text := t[..n];
    StringLengthPrefix(t[1..], f);
    assert (text + f)[1..] == t[1..][..n - 1] + f;
    assert (text + f)[..n] == text && (text + f)[n..] == f;
  }

  lemma CleanFirst(t: seq<byte>)
    requires t != []
    ensures Clean(t) != [] && (Clean(t)[0] == t[0] || Clean(t)[0] == SPACE)
  {
    if OpensRemark(t) { CleanRemark(t); }
  }

  lemma LexNil()
    ensures Lex([]) == Nil == Cleaned(Nil) && Clean([]) == []
  {
  }

  lemma CleanedRemark(t: seq<byte>)
    requires OpensRemark(t)
    ensures Cleaned(Lex(t)) == Pad(RemarkLength(t), Cleaned(Lex(t[RemarkLength(t)..])))
  {
    hide RemarkLength;
  }

  lemma {:induction false} LexOfClean(t: seq<byte>)
    ensures Lex(Clean(t)) == Cleaned(Lex(t))
    decreases |t|
  {
    hide Lex, Clean, Cleaned, StringLength, Blanks;
    if t == [] {
      LexNil();
    } else if OpensRemark(t) {
      var n := RemarkLength(t);
      LexOfClean(t[n..]);
      CleanRemark(t);
      LexBlanks(n, Clean(t[n..]));
      CleanedRemark(t);
    } else if t[0] == QUOTE {
      LexOfClean(t[1 + StringLength(t[1..])..]);
      LexQuoted(t);
    } else {
      LexOfClean(t[1..]);
      LexByte(t);
    }
  }

  lemma CleanQuoted(t: seq<byte>, n: nat)
    requires t != [] && t[0] == QUOTE && n == 1 + StringLength(t[1..])
    ensures n <= |t| && Clean(t) == t[..n] + Clean(t[n..])
    ensures Cleaned(Lex(t)) == Cons(Literal(t[..n]), Cleaned(Lex(t[n..])))
  {
    hide Clean, StringLength;
    KeptHeadClean(t, n);
    assert First(t) == Literal(t[..n]);
  }

  lemma LexQuoted(t: seq<byte>)
    requires t != [] && t[0] == QUOTE
    requires var u := t[1 + StringLength(t[1..])..]; Lex(Clean(u)) == Cleaned(Lex(u))
    ensures Lex(Clean(t)) == Cleaned(Lex(t))
  {
    hide *;
    var n := 1 + StringLength(t[1..]);
    CleanQuoted(t, n);
    CleanNil();
    assert n == |t| ==> t[n..] == [];
    LexLiteral(t, Clean(t[n..]));
  }

  lemma LexCons(c: byte, f: seq<byte>)
    requires c != QUOTE && (c == SLASH && f != [] ==> f[0] != SLASH && f[0] != STAR)
    ensures Lex([c] + f) == Cons(First([c]), Lex(f))
  {
    assert ([c] + f)[1..] == f;
  }

  lemma CleanByte(t: seq<byte>, c: byte)
    requires t != [] && t[0] != QUOTE && !OpensRemark(t)
    requires c == if t[0] == COMMA && NextCloses(Lex(t[1..])) then SPACE else t[0]
    ensures Cleaned(Lex(t)) == Cons(First([c]), Cleaned(Lex(t[1..])))
    ensures Clean(t) == [c] + Clean(t[1..])
  {
    assert Lex(t) == Cons(First([t[0]]), Lex(t[1..]));
  }

  lemma LexByte(t: seq<byte>)
    requires t != [] && t[0] != QUOTE && !OpensRemark(t)
    requires Lex(Clean(t[1..])) == Cleaned(Lex(t[1..]))
    ensures Lex(Clean(t)) == Cleaned(Lex(t))
  {
    var u := t[1..];
    if u != [] { CleanFirst(u); } else { CleanNil(); }
    var c := if t[0] == COMMA && NextCloses(Lex(u)) then SPACE else t[0];
    CleanByte(t, c);
    hide Clean, Lex, Cleaned;
    LexCons(c, Clean(u));
  }

  /** On a text the scanner cleans, the tokens of its result are the tokens of the text without
      comments and trailing commas. */
  lemma TokensOfStrip(t: seq<byte>)
    requires NoHiddenQuote(Lex(t)) && AllSpaced(Lex(t)) && NoFalseCloser(Lex(t))
    ensures Tokens(Lex(Strip(t))) == Significant(Lex(t))
  {
    StripCleansExactly(t);
    LexOfClean(t);
    TokensOfCleaned(Lex(t));
  }

  // ---- A second pass ----

  /** The look-ahead from here ends at a trailing comma. */
  predicate LookTrails(ls: Lexemes) {
    LookEnd(ls).Cons? && LookEnd(ls).head.Comma? && NextCloses(LookEnd(ls).tail)
  }

  /** Behind some comma that stays the look-ahead ends at a trailing comma. */
  predicate DoubledComma(ls: Lexemes) {
    ls.Cons? &&
    ((ls.head.Comma? && !NextCloses(ls.tail) && LookTrails(ls.tail)) || DoubledComma(ls.tail))
  }

  /** No comment and no trailing comma. */
  predicate Strict(ls: Lexemes) {
    ls.Cons? ==> !ls.head.Remark? && (ls.head.Comma? ==> !NextCloses(ls.tail)) && Strict(ls.tail)
  }

  lemma {:induction false} NextOfCleaned(ls: Lexemes)
    ensures NextCloses(ls) ==> NextCloses(Cleaned(ls))
  {
    if ls.Cons? {
      NextOfCleaned(ls.tail);
      if ls.head.Remark? { TokensOfPad(|ls.head.text|, Cleaned(ls.tail)); }
    }
  }

  lemma {:induction false} LookOfCleaned(ls: Lexemes)
    requires !HidesQuote(ls)
    ensures LookCloses(Cleaned(ls)) <==> LookCloses(ls) || LookTrails(ls)
    ensures !HidesQuote(Cleaned(ls))
  {
    if ls.Cons? {
      if ls.head.Remark? {
        LookOfCleaned(ls.tail);
        TokensOfPad(|ls.head.text|, Cleaned(ls.tail));
      } else if ls.head.Space? {
        LookOfCleaned(ls.tail);
      } else if HidesByte(ls) {
        LookOfCleaned(ls.tail.tail);
        HiddenOfCleaned(ls);
      } else if ls.head.Comma? && NextCloses(ls.tail) {
        NextOfCleaned(ls.tail);
        NextClosesLook(Cleaned(ls.tail));
      }
    }
  }

  lemma HiddenOfCleaned(ls: Lexemes)
    requires HidesByte(ls)
    ensures HidesByte(Cleaned(ls)) && Cleaned(ls).tail.tail == Cleaned(ls.tail.tail)
  {
  }

  lemma {:induction false} CleanedKeepsPremises(ls: Lexemes)
    requires NoHiddenQuote(ls)
    ensures NoHiddenQuote(Cleaned(ls)) && AllSpaced(Cleaned(ls))
  {
    if ls.Cons? {
      CleanedKeepsPremises(ls.tail);
      if ls.head.Comma? { LookOfCleaned(ls.tail); }
      if ls.head.Remark? { TokensOfPad(|ls.head.text|, Cleaned(ls.tail)); }
    }
  }

  lemma {:induction false} CleanedStays(ls: Lexemes)
    requires NoHiddenQuote(ls) && NoFalseCloser(ls)
    ensures Strict(Cleaned(ls)) && NoFalseCloser(Cleaned(ls)) <==> !DoubledComma(ls)
  {
    if ls.Cons? {
      CleanedStays(ls.tail);
      if ls.head.Comma? {
        LookOfCleaned(ls.tail);
        NextClosesLook(ls.tail);
        NextClosesLook(Cleaned(ls.tail));
      }
      if ls.head.Remark? { TokensOfPad(|ls.head.text|, Cleaned(ls.tail)); }
    }
  }

  /** On a text the scanner cleans, a second pass changes nothing if and only if behind no comma that stays the
      look-ahead ends at a trailing comma. */
  lemma StripTwiceExactly(t: seq<byte>)
    requires NoHiddenQuote(Lex(t)) && AllSpaced(Lex(t)) && NoFalseCloser(Lex(t))
    ensures Strip(Strip(t)) == Strip(t) <==> !DoubledComma(Lex(t))
  {
    hide *;
    StripCleansExactly(t);
    LexOfClean(t);
    CleanedKeepsPremises(Lex(t));
    StripKeepsExactly(Clean(t));
    CleanedStays(Lex(t));
  }

  // ---- Texts the scanner leaves alone ----

  lemma {:induction false} CleanedStrict(ls: Lexemes)
    ensures Strict(ls) ==> Cleaned(ls) == ls && AllSpaced(ls)
  {
    if ls.Cons? { CleanedStrict(ls.tail); }
  }

  /** Where no quote is hidden behind a comma, the scanner changes nothing if and only if there is nothing to
      take out, and nothing to take for a trailing comma. */
  lemma StripKeepsExactly(t: seq<byte>)
    requires NoHiddenQuote(Lex(t))
    ensures Strip(t) == t <==> Strict(Lex(t)) && NoFalseCloser(Lex(t))
  {
    var ls := Lex(t);
    StripCleansExactly(t);
    FlattenLex(t);
    CleanedStrict(ls);
    if Strip(t) == t { StripStrict(t); }
  }

  lemma {:induction false} StripStrict(t: seq<byte>)
    requires NoHiddenQuote(Lex(t)) && Strip(t) == t
    ensures Strict(Lex(t)) && NoFalseCloser(Lex(t))
    decreases |t|
  {
    if t == [] {
    } else if t[0] == QUOTE {
      var n := 1 + StringLength(t[1..]);
      assert t == t[..n] + t[n..];
      Cancel(t[..n], Strip(t[n..]), t[n..]);
      StripStrict(t[n..]);
    } else if OpensRemark(t) {
      RemarkBlanksSlash(t);
    } else if t[0] == COMMA {
      StripStrictComma(t);
      StripStrict(t[1..]);
    } else {
      StripByte(t);
      assert t == [t[0]] + t[1..];
      Cancel([t[0]], Strip(t[1..]), t[1..]);
      StripStrict(t[1..]);
    }
  }

  lemma RemarkBlanksSlash(t: seq<byte>)
    requires OpensRemark(t)
    ensures Strip(t)[0] == SPACE
  {
  }

  lemma StripStrictComma(t: seq<byte>)
    requires t != [] && t[0] == COMMA && NoHiddenQuote(Lex(t)) && Strip(t) == t
    ensures Strip(t[1..]) == t[1..] && !NextCloses(Lex(t[1..])) && !LookCloses(Lex(t[1..]))
  {
    var u := t[1..];
    var l := LookAhead(u);
    assert Lex(t) == Cons(Comma, Lex(u));
    assert Strip(t) == [if l.closed then SPACE else COMMA] + l.out + Strip(l.rest);
    assert !l.closed by { assert Strip(t)[0] == COMMA; }
    hide Strip;
    Assoc([COMMA], l.out, Strip(l.rest));
    assert t == [COMMA] + u;
    Cancel([COMMA], l.out + Strip(l.rest), u);
    assert l.out == (l.out + Strip(l.rest))[..|l.out|];
    LookKeeps(u);
    LookGood(u);
    NextClosesLook(Lex(u));
  }

  lemma RemarkLooksDifferent(t: seq<byte>)
    requires OpensRemark(t)
    ensures LookAhead(t).out != t[..|LookAhead(t).out|]
  {
    assert LookAhead(t).out[0] == SPACE;
  }

  lemma KeptSuffix(t: seq<byte>, m: nat, out: seq<byte>, rest: seq<byte>)
    requires m <= |out| <= |t| && out == t[..|out|] && out[m..] == rest
    ensures rest == t[m..][..|rest|]
  {
  }

  lemma {:induction false} LookKeeps(t: seq<byte>)
    requires var l := LookAhead(t); l.out == t[..|l.out|]
    ensures SpacedToEnd(Lex(t))
    decreases |t|
  {
    hide *;
    if OpensRemark(t) {
      RemarkLooksDifferent(t);
    } else if HidesHere(t) {
      HiddenFirst(t);
      LookHidden(t);
      HiddenPasses(t);
      KeptSuffix(t, 2, LookAhead(t).out, LookAhead(t[2..]).out);
      LookKeeps(t[2..]);
    } else if t != [] && IsWS(t[0]) {
      LookWSOut(t);
      LexOverWS(t);
      KeptSuffix(t, 1, LookAhead(t).out, LookAhead(t[1..]).out);
      LookKeeps(t[1..]);
    } else {
      NoBlankFirst(t);
    }
  }
}
