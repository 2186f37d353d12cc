/** The in-place scanner of common/json5/json5.go: it overwrites comments and trailing commas with spaces.

    `Strip` says what the scanner leaves in the buffer, byte for byte and for every input, the
    malformed ones included.  The methods are proved against it; what the scanner is for is proved
    about it in Json5Lexemes.dfy and Json5Strict.dfy. */
module Json5Scanner {

  newtype byte = n: int | 0 <= n < 0x100

  const TAB: byte := 9
  const LF: byte := 10
  const CR: byte := 13
  const SPACE: byte := 32
  const QUOTE: byte := 34
  const STAR: byte := 42
  const COMMA: byte := 44
  const SLASH: byte := 47
  const BACKSLASH: byte := 92
  const RBRACKET: byte := 93
  const RBRACE: byte := 125

  predicate IsNL(c: byte) {
    c == LF || c == CR
  }

  predicate IsWS(c: byte) {
    c == SPACE || c == TAB || IsNL(c)
  }

  predicate IsCloser(c: byte) {
    c == RBRACE || c == RBRACKET
  }

  function Blanks(n: nat): (r: seq<byte>)
    ensures |r| == n && forall k :: 0 <= k < n ==> r[k] == SPACE
  {
    seq(n, _ => SPACE)
  }

  /** What one sub-scan writes (`out`) and what it leaves for the caller to look at (`rest`). */
  datatype Scan = Scan(out: seq<byte>, rest: seq<byte>)

  /** Number of bytes before the first line break. */
  function LineLength(t: seq<byte>): (n: nat)
    ensures n <= |t|
  {
    if t == [] || IsNL(t[0]) then 0 else 1 + LineLength(t[1..])
  }

  /** Number of bytes a string literal takes after its opening quote. */
  function StringLength(t: seq<byte>): (n: nat)
    ensures n <= |t|
  {
    if t == [] then 0
    else if t[0] == QUOTE then 1
    else if t[0] != BACKSLASH then 1 + StringLength(t[1..])
    else if |t| == 1 then 1
    else 2 + StringLength(t[2..])
  }

  /** The block-comment loop.  A star that does not close the comment lets the byte after it
      through unexamined; the closing slash is blanked but left in `rest`. */
  function BlockScan(t: seq<byte>): (r: Scan)
    ensures |r.out| + |r.rest| == |t|
  {
    if t == [] then Scan([], [])
    else if t[0] != STAR then
      var r := BlockScan(t[1..]);
      Scan([SPACE] + r.out, r.rest)
    else if |t| == 1 then Scan([SPACE], [])
    else if t[1] == SLASH then Scan([SPACE], [SPACE] + t[2..])
    else
      var r := BlockScan(t[2..]);
      Scan([SPACE, t[1]] + r.out, r.rest)
  }

  function CommentScan(t: seq<byte>): (r: Scan)
    requires t != [] && t[0] == SLASH
    ensures |r.out| + |r.rest| == |t| && |r.out| > 0
  {
    if |t| > 1 && t[1] == SLASH then
      var n := 2 + LineLength(t[2..]);
      Scan(Blanks(n), t[n..])
    else if |t| > 1 && t[1] == STAR then
      var r := BlockScan(t[2..]);
      Scan([SPACE, SPACE] + r.out, r.rest)
    else
      Scan([SLASH], t[1..])
  }

  datatype Look = Look(out: seq<byte>, rest: seq<byte>, closed: bool)

  /** The look-ahead after a comma.  The byte at which a comment scan stops is skipped unseen. */
  function LookAhead(t: seq<byte>): (r: Look)
    ensures |r.out| + |r.rest| == |t|
    decreases |t|
  {
    if t == [] then Look([], [], false)
    else if IsCloser(t[0]) then Look([], t, true)
    else if t[0] == SLASH then
      var c := CommentScan(t);
      if c.rest == [] then Look(c.out, [], false)
      else
        var r := LookAhead(c.rest[1..]);
        Look(c.out + [c.rest[0]] + r.out, r.rest, r.closed)
    else if IsWS(t[0]) then
      var r := LookAhead(t[1..]);
      Look([t[0]] + r.out, r.rest, r.closed)
    else Look([], t, false)
  }

  /** The whole scanner. */
  function Strip(t: seq<byte>): (r: seq<byte>)
    ensures |r| == |t|
    decreases |t|
  {
    if t == [] then []
    else if t[0] == QUOTE then
      var n := 1 + StringLength(t[1..]);
      t[..n] + Strip(t[n..])
    else if t[0] == SLASH then
      var c := CommentScan(t);
      c.out + Strip(c.rest)
    else if t[0] == COMMA then
      var l := LookAhead(t[1..]);
      [if l.closed then SPACE else COMMA] + l.out + Strip(l.rest)
    else
      [t[0]] + Strip(t[1..])
  }

  function Min(a: int, b: int): int {
    if a < b then a else b
  }

  /** The buffer as it will end up, when the loop stands at `m` with buffer `s`. */
  ghost function Final(s: seq<byte>, m: nat): (r: seq<byte>)
    requires m <= |s|
    ensures m == |s| ==> r == s
    ensures m == 0 ==> r == Strip(s)
  {
    assert s[0..] == s;
    s[..m] + Strip(s[m..])
  }

  lemma FinalStep(s: seq<byte>, i: nat, s': seq<byte>, m: nat)
    requires i <= m <= |s| == |s'|
    requires s'[..i] == s[..i] && Strip(s[i..]) == s'[i..m] + Strip(s'[m..])
    ensures Final(s', m) == Final(s, i)
  {
    hide Strip;
    assert s'[..m] == s[..i] + s'[i..m];
  }

  /** The buffer once the block comment being blanked is done, with the loop at `m`. */
  ghost function BlockFinal(s: seq<byte>, m: nat): (r: seq<byte>)
    requires m <= |s|
    ensures |r| == |s| && (m == |s| ==> r == s)
  {
    s[..m] + BlockScan(s[m..]).out + BlockScan(s[m..]).rest
  }

  ghost function BlockEnd(s: seq<byte>, m: nat): (n: nat)
    requires m <= |s|
    ensures m <= n <= |s|
  {
    m + |BlockScan(s[m..]).out|
  }

  lemma BlockStep(s: seq<byte>, i: nat)
    requires i < |s| && s[i] != STAR
    ensures BlockFinal(s[i := SPACE], i + 1) == BlockFinal(s, i)
    ensures BlockEnd(s[i := SPACE], i + 1) == BlockEnd(s, i)
  {
    var s' := s[i := SPACE];
    assert s'[i + 1..] == s[i..][1..];
    assert s'[..i + 1] == s[..i] + [SPACE];
  }

  lemma StarScan(t: seq<byte>)
    requires t != [] && t[0] == STAR
    ensures BlockScan(t) ==
      if |t| == 1 then Scan([SPACE], [])
      else if t[1] == SLASH then Scan([SPACE], [SPACE] + t[2..])
      else Scan([SPACE, t[1]] + BlockScan(t[2..]).out, BlockScan(t[2..]).rest)
    ensures BlockScan([]) == Scan([], [])
  {
  }

  lemma StarStep(s: seq<byte>, i: nat)
    requires i < |s| && s[i] == STAR
    ensures var s' := s[i := SPACE];
            if i + 1 == |s| then BlockFinal(s', i + 1) == BlockFinal(s, i) && BlockEnd(s', i + 1) == BlockEnd(s, i)
            else if s[i + 1] == SLASH then s'[i + 1 := SPACE] == BlockFinal(s, i) && i + 1 == BlockEnd(s, i)
            else BlockFinal(s', i + 2) == BlockFinal(s, i) && BlockEnd(s', i + 2) == BlockEnd(s, i)
  {
    hide BlockScan;
    StarScan(s[i..]);
    var s' := s[i := SPACE];
    if i + 1 < |s| {
      if s[i + 1] == SLASH {
        assert s'[i + 1 := SPACE] == s[..i] + [SPACE] + ([SPACE] + s[i..][2..]);
      } else {
        assert s'[i + 2..] == s[i..][2..];
        assert s'[..i + 2] == s[..i] + [SPACE, s[i + 1]];
      }
    }
  }

  method BlankLine(s: array<byte>, start: nat) returns (i: nat)
    requires 1 <= start < s.Length && s[start - 1] == SLASH && s[start] == SLASH
    modifies s
    ensures i == start + LineLength(old(s[start..]))
    ensures start < i <= s.Length && (i < s.Length ==> IsNL(s[i]))
    ensures forall k :: 0 <= k < s.Length ==> s[k] == if start - 1 <= k < i then SPACE else old(s[k])
  {
    i := start;
    s[i - 1] := SPACE;
    while i < s.Length && !IsNL(s[i])
      invariant start <= i <= s.Length
      invariant forall k :: 0 <= k < s.Length ==> s[k] == if start - 1 <= k < i then SPACE else old(s[k])
      invariant i + LineLength(old(s[..])[i..]) == start + LineLength(old(s[start..]))
    {
      assert old(s[..])[i..][1..] == old(s[..])[i + 1..];
      s[i] := SPACE;
      i := i + 1;
    }
  }

  /** The result may point one past the end of the buffer. */
  method BlankBlock(s: array<byte>, start: nat) returns (i: nat)
    requires 1 <= start < s.Length && s[start - 1] == SLASH && s[start] == STAR
    modifies s
    ensures start <= i <= s.Length + 1
    ensures var was := old(s[..])[start - 1 := SPACE][start := SPACE];
            s[..] == BlockFinal(was, start) && Min(i, s.Length) == BlockEnd(was, start)
  {
    hide BlockFinal, BlockEnd;
    i := start;
    s[i - 1] := SPACE;
    s[i] := SPACE;
    ghost var was := s[..];
    assert was == old(s[..])[start - 1 := SPACE][start := SPACE];
    while i < s.Length
      invariant start <= i <= s.Length + 1
      invariant BlockFinal(s[..], Min(i, s.Length)) == BlockFinal(was, start)
      invariant BlockEnd(s[..], Min(i, s.Length)) == BlockEnd(was, start)
      decreases s.Length + 1 - i
    {
      ghost var before := s[..];
      if s[i] != STAR {
        BlockStep(before, i);
        s[i] := SPACE;
        assert s[..] == before[i := SPACE];
      } else {
        StarStep(before, i);
        s[i] := SPACE;
        assert s[..] == before[i := SPACE];
        i := i + 1;
        if i < s.Length {
          if s[i] == SLASH {
            s[i] := SPACE;
            assert s[..] == before[i - 1 := SPACE][i := SPACE];
            return;
          }
        }
      }
      i := i + 1;
    }
  }

  /** `s'` is `s` after the scan of the comment at `p`, which stopped at `m`. */
  ghost predicate Scanned(s: seq<byte>, p: nat, s': seq<byte>, m: nat) {
    && p <= m <= |s| == |s'| && p < |s| && s[p] == SLASH
    && var c := CommentScan(s[p..]);
       s'[..p] == s[..p] && s'[p..m] == c.out && s'[m..] == c.rest
  }

  /** Called with `start` one past a slash.  Each of the two loops of the source runs for its own
      kind of comment only: the first stops at a line break or at the end. */
  method ConsumeComment(s: array<byte>, start: nat) returns (i: nat)
    requires 1 <= start <= s.Length && s[start - 1] == SLASH
    modifies s
    ensures start <= i <= s.Length + 1
    ensures Scanned(old(s[..]), start - 1, s[..], Min(i, s.Length))
  {
    i := start;
    ghost var was := s[..];
    if i < s.Length && s[i] == SLASH {
      i := BlankLine(s, i);
      LineScan(was, start, s[..], i);
    } else if i < s.Length && s[i] == STAR {
      i := BlankBlock(s, i);
      BlockCommentScan(was, start);
    }
  }

  lemma LineScan(s: seq<byte>, start: nat, s': seq<byte>, i: nat)
    requires 1 <= start < |s| == |s'| && s[start - 1] == SLASH && s[start] == SLASH
    requires start < i <= |s| && i == start + LineLength(s[start..])
    requires forall k :: 0 <= k < |s| ==> s'[k] == if start - 1 <= k < i then SPACE else s[k]
    ensures Scanned(s, start - 1, s', i)
  {
    assert s[start - 1..][2..] == s[start..][1..];
    var c := CommentScan(s[start - 1..]);
    assert |c.out| == i - (start - 1);
    assert s'[i..] == s[i..] == s[start - 1..][|c.out|..];
  }

  lemma BlockCommentScan(s: seq<byte>, start: nat)
    requires 1 <= start < |s| && s[start - 1] == SLASH && s[start] == STAR
    ensures var s1 := s[start - 1 := SPACE][start := SPACE];
            Scanned(s, start - 1, BlockFinal(s1, start), BlockEnd(s1, start))
  {
    var s1 := s[start - 1 := SPACE][start := SPACE];
    assert s1[start..][1..] == s[start - 1..][2..];
    assert s1[..start] == s[..start - 1] + [SPACE];
  }

  /** The string case of the scanner's loop; the result may point one past the end. */
  method SkipString(s: array<byte>, start: nat) returns (i: nat)
    requires start < s.Length && s[start] == QUOTE
    ensures start < i <= s.Length + 1
    ensures Min(i, s.Length) == start + 1 + StringLength(s[start + 1..])
  {
    hide StringLength;
    i := start + 1;
    while i < s.Length
      invariant start < i <= s.Length + 1
      invariant var m := Min(i, s.Length); m + StringLength(s[m..]) == start + 1 + StringLength(s[start + 1..])
      decreases s.Length + 1 - i
    {
      StringLengthStep(s[..], i);
      if s[i] == QUOTE {
        i := i + 1;
        break;
      } else if s[i] == BACKSLASH {
        i := i + 1;
      }
      i := i + 1;
    }
    StringLengthEnd(s[..]);
  }

  lemma StringLengthStep(s: seq<byte>, i: nat)
    requires i < |s|
    ensures StringLength(s[i..]) == if s[i] == QUOTE then 1
      else if s[i] != BACKSLASH then 1 + StringLength(s[i + 1..])
      else Min(i + 2, |s|) - i + StringLength(s[Min(i + 2, |s|)..])
  {
    assert s[i..][1..] == s[i + 1..];
    assert i + 1 < |s| ==> s[i..][2..] == s[i + 2..];
  }

  lemma StringLengthEnd(s: seq<byte>)
    ensures StringLength(s[|s|..]) == 0
  {
  }

  /** The buffer between two look-ahead steps: the comma at `j` is undecided, `p` is looked at next. */
  ghost function CommaFinal(s: seq<byte>, j: nat, p: nat): seq<byte>
    requires j < p <= |s|
  {
    var l := LookAhead(s[p..]);
    s[..j] + [if l.closed then SPACE else COMMA] + (s[j + 1..p] + (l.out + Strip(l.rest)))
  }

  lemma CommaStart(s: seq<byte>, j: nat)
    requires j < |s| && s[j] == COMMA
    ensures CommaFinal(s, j, j + 1) == Final(s, j)
  {
    assert s[j..][1..] == s[j + 1..];
    assert s[j + 1..j + 1] == [];
  }

  lemma CommaStep(s: seq<byte>, j: nat, p: nat, s': seq<byte>, q: nat)
    requires j < p <= q <= |s| == |s'| && s'[..p] == s[..p]
    requires var l, r := LookAhead(s[p..]), LookAhead(s'[q..]);
             l.closed == r.closed && l.out == s'[p..q] + r.out && l.rest == r.rest
    ensures CommaFinal(s', j, q) == CommaFinal(s, j, p)
  {
    var r := LookAhead(s'[q..]);
    assert s'[..j] == s'[..p][..j] == s[..j];
    assert s'[j + 1..p] == s'[..p][j + 1..] == s[j + 1..p];
    SplitTail(s', j + 1, p, q, r.out, Strip(r.rest));
  }

  lemma SplitTail(s: seq<byte>, a: nat, b: nat, c: nat, x: seq<byte>, y: seq<byte>)
    requires a <= b <= c <= |s|
    ensures s[a..c] + (x + y) == s[a..b] + ((s[b..c] + x) + y)
  {
    assert s[a..c] == s[a..b] + s[b..c];
  }

  lemma CommaDone(s: seq<byte>, j: nat, p: nat)
    requires j < p <= |s| && s[j] == COMMA
    requires p < |s| ==> !IsCloser(s[p]) && s[p] != SLASH && !IsWS(s[p])
    ensures CommaFinal(s, j, p) == Final(s, p)
  {
    assert s[..p] == s[..j] + [COMMA] + s[j + 1..p];
  }

  lemma CommaSpace(s: seq<byte>, j: nat, p: nat)
    requires j < p < |s| && IsWS(s[p])
    ensures CommaFinal(s, j, p + 1) == CommaFinal(s, j, p)
  {
    assert s[p..][1..] == s[p + 1..];
    assert s[p..p + 1] == [s[p]];
    CommaStep(s, j, p, s, p + 1);
  }

  lemma CommaClosed(s: seq<byte>, j: nat, p: nat)
    requires j < p < |s| && IsCloser(s[p])
    ensures CommaFinal(s, j, p) == Final(s[j := SPACE], p)
  {
    var s' := s[j := SPACE];
    assert s'[p..] == s[p..];
    assert s'[..p] == s[..j] + [SPACE] + s[j + 1..p];
  }

  /** A comment inside the look-ahead; `m` is where its scan stopped. */
  lemma CommaComment(s: seq<byte>, j: nat, p: nat, s': seq<byte>, m: nat)
    requires j < p && Scanned(s, p, s', m)
    ensures CommaFinal(s', j, Min(m + 1, |s|)) == CommaFinal(s, j, p)
  {
    hide LookAhead, CommentScan, Strip, CommaFinal;
    var q := Min(m + 1, |s|);
    ScannedLook(s[p..], s'[p..], q - p);
    assert s'[p..][..q - p] == s'[p..q];
    assert s'[p..][q - p..] == s'[q..];
    CommaStep(s, j, p, s', q);
  }

  lemma ScannedLook(t: seq<byte>, t': seq<byte>, q: nat)
    requires t != [] && t[0] == SLASH && |t| == |t'|
    requires var c := CommentScan(t); t'[..|c.out|] == c.out && t'[|c.out|..] == c.rest && q == Min(|c.out| + 1, |t|)
    ensures var l, r := LookAhead(t), LookAhead(t'[q..]);
            l.closed == r.closed && l.out == t'[..q] + r.out && l.rest == r.rest
  {
    var c := CommentScan(t);
    if c.rest == [] {
      assert t'[..q] == c.out;
    } else {
      assert c.rest[1..] == t'[q..];
      assert c.out + [c.rest[0]] == t'[..q];
    }
  }

  /** The comma case of the scanner's loop.  A comment that ends in a star stops one past the end,
      and the next step of the look-ahead adds one more. */
  method SkipComma(s: array<byte>, j: nat) returns (i: nat)
    requires j < s.Length && s[j] == COMMA
    modifies s
    ensures j < i <= s.Length + 2
    ensures Final(s[..], Min(i, s.Length)) == Final(old(s[..]), j)
  {
    hide CommaFinal, Final, Scanned;
    i := j;
    ghost var g := s[..];
    CommaStart(g, j);
    while true
      invariant j <= i <= s.Length + 1
      invariant s[..] == g && g[j] == COMMA
      invariant CommaFinal(g, j, Min(i + 1, s.Length)) == Final(old(s[..]), j)
      decreases s.Length + 2 - i
    {
      i := i + 1;
      if i >= s.Length {
        CommaDone(g, j, s.Length);
        break;
      } else if s[i] == RBRACE || s[i] == RBRACKET {
        CommaClosed(g, j, i);
        s[j] := SPACE;
        assert s[..] == g[j := SPACE];
        break;
      } else if s[i] == SLASH {
        ghost var p := i;
        i := ConsumeComment(s, i + 1);
        CommaComment(g, j, p, s[..], Min(i, s.Length));
        g := s[..];
      } else if !IsWS(s[i]) {
        CommaDone(g, j, i);
        break;
      } else {
        CommaSpace(g, j, i);
      }
    }
  }

  method Prep(s: array<byte>)
    modifies s
    ensures s[..] == Strip(old(s[..]))
  {
    hide Final, Scanned, Strip, StringLength;
    var i := 0;
    while i < s.Length
      invariant 0 <= i <= s.Length + 2
      invariant Final(s[..], Min(i, s.Length)) == Strip(old(s[..]))
      decreases s.Length + 2 - i
    {
      ghost var start, before := i, s[..];
      match s[i] {
        case 34 =>
          i := SkipString(s, i);
          FinalString(before, start);
        case 47 =>
          i := ConsumeComment(s, i + 1);
          FinalComment(before, start, s[..], Min(i, s.Length));
        case 44 =>
          i := SkipComma(s, i);
        case _ =>
          i := i + 1;
          FinalByte(before, start);
      }
    }
  }

  lemma FinalString(s: seq<byte>, i: nat)
    requires i < |s| && s[i] == QUOTE
    ensures Final(s, i + 1 + StringLength(s[i + 1..])) == Final(s, i)
  {
    hide Strip, StringLength;
    var t, n := s[i..], 1 + StringLength(s[i + 1..]);
    assert t[1..] == s[i + 1..];
    StripString(t);
    SliceOfSlice(s, i, n);
    FinalStep(s, i, s, i + n);
  }

  lemma StripString(t: seq<byte>)
    requires t != [] && t[0] == QUOTE
    ensures var n := 1 + StringLength(t[1..]); Strip(t) == t[..n] + Strip(t[n..])
  {
  }

  lemma StripSlash(t: seq<byte>)
    requires t != [] && t[0] == SLASH
    ensures Strip(t) == CommentScan(t).out + Strip(CommentScan(t).rest)
  {
  }

  lemma StripComma(t: seq<byte>)
    requires t != [] && t[0] == COMMA
    ensures var l := LookAhead(t[1..]); Strip(t) == [if l.closed then SPACE else COMMA] + l.out + Strip(l.rest)
  {
  }

  lemma FinalComment(s: seq<byte>, i: nat, s': seq<byte>, m: nat)
    requires Scanned(s, i, s', m)
    ensures Final(s', m) == Final(s, i)
  {
    FinalStep(s, i, s', m);
  }

  lemma FinalByte(s: seq<byte>, i: nat)
    requires i < |s| && s[i] !in {QUOTE, SLASH, COMMA}
    ensures Final(s, i + 1) == Final(s, i)
  {
    assert s[i..][1..] == s[i + 1..];
    FinalStep(s, i, s, i + 1);
  }

  lemma SliceOfSlice(s: seq<byte>, i: nat, n: nat)
    requires i + n <= |s|
    ensures s[i..][..n] == s[i..i + n] && s[i..][n..] == s[i + n..]
  {
  }

  /** Every byte of `r` is the byte of `t` from `at` on, or a space. */
  ghost predicate Blanked(t: seq<byte>, at: nat, r: seq<byte>) {
    at + |r| <= |t| && forall k :: 0 <= k < |r| ==> r[k] == t[at + k] || r[k] == SPACE
  }

  lemma BlankedShift(t: seq<byte>, at: nat, c: seq<byte>, at': nat, r: seq<byte>)
    requires at + |c| <= |t| && at' + |r| <= |c|
    requires Blanked(t, at, c) && Blanked(c, at', r)
    ensures Blanked(t, at + at', r)
  {
    forall k | 0 <= k < |r| ensures r[k] == t[at + at' + k] || r[k] == SPACE {
      assert c[at' + k] == t[at + (at' + k)] || c[at' + k] == SPACE;
    }
  }

  /** Whatever the input, the scanner only ever replaces bytes by spaces. */
  lemma {:induction false} StripOnlyBlanks(t: seq<byte>)
    ensures |Strip(t)| == |t| && forall k :: 0 <= k < |t| ==> Strip(t)[k] == t[k] || Strip(t)[k] == SPACE
    decreases |t|
  {
    StripBlanked(t);
    assert forall k :: 0 <= k < |t| ==> t[0 + k] == t[k];
  }

  lemma Assoc(a: seq<byte>, b: seq<byte>, c: seq<byte>)
    ensures a + b + c == a + (b + c)
  {
  }

  lemma StripOther(t: seq<byte>)
    ensures t == [] ==> Strip(t) == []
    ensures t != [] && t[0] != QUOTE && t[0] != SLASH && t[0] != COMMA ==> Strip(t) == [t[0]] + Strip(t[1..])
  {
  }

  /** Blanked parts of adjoining parts of a text. */
  lemma BlankedBoth(t: seq<byte>, a: seq<byte>, b: seq<byte>, c: seq<byte>)
    requires |a| + |b| <= |t| && Blanked(t, 0, a) && Blanked(t, |a|, b) && |c| <= |b| && Blanked(b, 0, c)
    ensures Blanked(t, 0, a + c)
  {
    BlankedShift(t, |a|, b, 0, c);
  }

  lemma BlankedParts(t: seq<byte>, n: nat)
    requires n <= |t|
    ensures Blanked(t, 0, t[..n]) && Blanked(t, n, t[n..]) && Blanked(t, 0, [])
    ensures n == 1 ==> Blanked(t, 0, [SPACE]) && Blanked(t, 0, [t[0]])
  {
  }

  lemma {:induction false} StripBlanked(t: seq<byte>)
    ensures Blanked(t, 0, Strip(t))
    decreases |t|
  {
    hide *;
    StripOther(t);
    if t == [] {
      BlankedParts(t, 0);
    } else if t[0] == QUOTE {
      var n := 1 + StringLength(t[1..]);
      StripBlanked(t[n..]);
      StripString(t);
      BlankedParts(t, n);
      BlankedBoth(t, t[..n], t[n..], Strip(t[n..]));
    } else if t[0] == SLASH {
      var c := CommentScan(t);
      StripSlash(t);
      CommentBlanked(t);
      StripBlanked(c.rest);
      BlankedBoth(t, c.out, c.rest, Strip(c.rest));
    } else if t[0] == COMMA {
      var l := LookAhead(t[1..]);
      StripComma(t);
      Assoc([if l.closed then SPACE else COMMA], l.out, Strip(l.rest));
      LookBlanked(t[1..]);
      StripBlanked(l.rest);
      BlankedBoth(t[1..], l.out, l.rest, Strip(l.rest));
      BlankedParts(t, 1);
      BlankedBoth(t, [if l.closed then SPACE else COMMA], t[1..], l.out + Strip(l.rest));
    } else {
      StripBlanked(t[1..]);
      BlankedParts(t, 1);
      BlankedBoth(t, [t[0]], t[1..], Strip(t[1..]));
    }
  }

  lemma {:induction false} BlockBlanked(t: seq<byte>)
    ensures var b := BlockScan(t); Blanked(t, 0, b.out) && Blanked(t, |b.out|, b.rest)
  {
    if t == [] || (t[0] == STAR && |t| == 1) {
    } else if t[0] != STAR {
      BlockBlanked(t[1..]);
    } else if t[1] != SLASH {
      BlockBlanked(t[2..]);
    }
  }

  lemma CommentBlanked(t: seq<byte>)
    requires t != [] && t[0] == SLASH
    ensures var c := CommentScan(t); Blanked(t, 0, c.out) && Blanked(t, |c.out|, c.rest)
  {
    if |t| > 1 && t[1] == STAR {
      BlockBlanked(t[2..]);
    }
  }

  lemma BlankedJoin(t: seq<byte>, a: seq<byte>, b: seq<byte>, c: seq<byte>, d: seq<byte>)
    requires b != [] && |a| + |b| == |t| && 1 + |c| + |d| == |b|
    requires Blanked(t, 0, a) && Blanked(t, |a|, b) && Blanked(b[1..], 0, c) && Blanked(b[1..], |c|, d)
    ensures Blanked(t, 0, a + [b[0]] + c) && Blanked(t, |a| + 1 + |c|, d)
  {
    assert Blanked(t, |a| + 1, b[1..]);
    BlankedShift(t, |a| + 1, b[1..], |c|, d);
    BlankedShift(t, |a| + 1, b[1..], 0, c);
    var o := a + [b[0]] + c;
    forall k | 0 <= k < |o| ensures o[k] == t[k] || o[k] == SPACE {
      if k < |a| {
        assert o[k] == a[k] && t[0 + k] == t[k];
      } else if k > |a| {
        assert o[k] == c[k - |a| - 1] && t[|a| + 1 + (k - |a| - 1)] == t[k];
      } else {
        assert o[k] == b[0] && t[|a| + 0] == t[k];
      }
    }
  }

  lemma {:induction false} LookBlanked(t: seq<byte>)
    ensures var l := LookAhead(t); Blanked(t, 0, l.out) && Blanked(t, |l.out|, l.rest)
    decreases |t|
  {
    hide CommentScan;
    if t == [] || IsCloser(t[0]) {
    } else if t[0] == SLASH {
      hide Blanked;
      var c := CommentScan(t);
      CommentBlanked(t);
      if c.rest != [] {
        var l := LookAhead(c.rest[1..]);
        LookBlanked(c.rest[1..]);
        BlankedJoin(t, c.out, c.rest, l.out, l.rest);
      }
    } else if IsWS(t[0]) {
      LookBlanked(t[1..]);
    }
  }
}
