/** The tokenizer of the expression language (src/expr/parser.rs). */
module Lexer {

  datatype Token = LParen | RParen | Atom(text: string)

  /** Unicode White_Space, the property behind `char::is_whitespace`, as code point ranges. */
  const WHITE_SPACE: seq<(int, int)> := [
    (0x09, 0x0D), (0x20, 0x20), (0x85, 0x85), (0xA0, 0xA0), (0x1680, 0x1680), (0x2000, 0x200A),
    (0x2028, 0x2029), (0x202F, 0x202F), (0x205F, 0x205F), (0x3000, 0x3000)
  ]

  predicate InRanges(n: int, ranges: seq<(int, int)>) {
    ranges != [] && (ranges[0].0 <= n <= ranges[0].1 || InRanges(n, ranges[1..]))
  }

  datatype CharKind = Open | Close | Space | Other

  /** The arms of the tokenizer's `match`, in order. */
  function Kind(c: char): CharKind {
    if c == '(' then Open
    else if c == ')' then Close
    else if InRanges(c as int, WHITE_SPACE) then Space
    else Other
  }

  lemma AsciiKind(c: char)
    ensures c == ' ' ==> Kind(c) == Space
    ensures '!' <= c <= '~' && c != '(' && c != ')' ==> Kind(c) == Other
  {
    var n, w := c as int, WHITE_SPACE;
    assert InRanges(n, w) == (w[0].0 <= n <= w[0].1 || InRanges(n, w[1..]));
    assert InRanges(n, w[1..]) == (w[1].0 <= n <= w[1].1 || InRanges(n, w[1..][1..]));
    if n <= 0x7E {
      NotInHigherRanges(n, w[1..][1..]);
    }
  }

  /** The white space characters, one by one: tab to carriage return, space, next line, no-break space, Ogham
      space mark, en quad to hair space, line and paragraph separator, narrow no-break space, medium
      mathematical space, ideographic space. */
  predicate IsWhiteSpace(n: int) {
    || n == 9 || n == 10 || n == 11 || n == 12 || n == 13 || n == 32 || n == 133 || n == 160 || n == 5760
    || 8192 <= n <= 8202 || n == 8232 || n == 8233 || n == 8239 || n == 8287 || n == 12288
  }

  lemma KindMeaning(c: char)
    ensures Kind(c) == Open <==> c == '('
    ensures Kind(c) == Close <==> c == ')'
    ensures Kind(c) == Space <==> IsWhiteSpace(c as int)
  {
    var n, w := c as int, WHITE_SPACE;
    RangesMeaning(n, w);
    assert |w| == 10;
    assert (exists i :: 0 <= i < |w| && w[i].0 <= n <= w[i].1) <==>
      || w[0].0 <= n <= w[0].1 || w[1].0 <= n <= w[1].1 || w[2].0 <= n <= w[2].1 || w[3].0 <= n <= w[3].1
      || w[4].0 <= n <= w[4].1 || w[5].0 <= n <= w[5].1 || w[6].0 <= n <= w[6].1 || w[7].0 <= n <= w[7].1
      || w[8].0 <= n <= w[8].1 || w[9].0 <= n <= w[9].1;
  }

  lemma {:induction false} RangesMeaning(n: int, ranges: seq<(int, int)>)
    ensures InRanges(n, ranges) <==> exists i :: 0 <= i < |ranges| && ranges[i].0 <= n <= ranges[i].1
  {
    if ranges != [] {
      RangesMeaning(n, ranges[1..]);
      assert forall i :: 0 < i < |ranges| ==> ranges[i] == ranges[1..][i - 1];
    }
  }

  lemma {:induction false} NotInHigherRanges(n: int, ranges: seq<(int, int)>)
    requires forall i :: 0 <= i < |ranges| ==> n < ranges[i].0
    ensures !InRanges(n, ranges)
  {
    if ranges != [] {
      NotInHigherRanges(n, ranges[1..]);
    }
  }

  predicate IsAtomChar(c: char) {
    Kind(c) == Other
  }

  predicate AllAtomChars(s: string) {
    forall i {:trigger Kind(s[i])} :: 0 <= i < |s| ==> Kind(s[i]) == Other
  }

  predicate AllSpaces(s: string) {
    forall i {:trigger Kind(s[i])} :: 0 <= i < |s| ==> Kind(s[i]) == Space
  }

  /** Length of the longest prefix made of atom characters. */
  function RunLength(s: string): (n: nat)
    ensures n <= |s| && AllAtomChars(s[..n])
    ensures n < |s| ==> !IsAtomChar(s[n])
  {
    if s == [] || !IsAtomChar(s[0]) then
      0
    else
      var n := RunLength(s[1..]);
      assert s[..n + 1] == [s[0]] + s[1..][..n];
      n + 1
  }

  /** Maximal munch: what the buffered loop of `Tokenize` computes. */
  function Lex(s: string): seq<Token>
    decreases |s|
  {
    if s == "" then []
    else
      match Kind(s[0])
      case Open => [LParen] + Lex(s[1..])
      case Close => [RParen] + Lex(s[1..])
      case Space => Lex(s[1..])
      case Other => var n := RunLength(s); [Atom(s[..n])] + Lex(s[n..])
  }

  function Flush(tokens: seq<Token>, buf: string): seq<Token> {
    if buf == "" then tokens else tokens + [Atom(buf)]
  }

  lemma RunLengthOfRun(buf: string, rest: string)
    requires AllAtomChars(buf)
    requires rest == "" || !IsAtomChar(rest[0])
    ensures RunLength(buf + rest) == |buf|
  {
    if buf == "" {
      assert buf + rest == rest;
    } else {
      assert (buf + rest)[1..] == buf[1..] + rest;
      RunLengthOfRun(buf[1..], rest);
    }
  }

  /** A pending buffer becomes exactly one atom once a delimiter follows it. */
  lemma LexFlush(buf: string, rest: string)
    requires AllAtomChars(buf)
    requires rest == "" || !IsAtomChar(rest[0])
    ensures Lex(buf + rest) == Flush([], buf) + Lex(rest)
  {
    if buf == "" {
      assert buf + rest == rest;
    } else {
      RunLengthOfRun(buf, rest);
      assert (buf + rest)[..|buf|] == buf && (buf + rest)[|buf|..] == rest;
      assert (buf + rest)[0] == buf[0];
    }
  }

  function Delimiter(ch: char): seq<Token> {
    match Kind(ch)
    case Open => [LParen]
    case Close => [RParen]
    case _ => []
  }

  /** The state of the tokenizer loop run to the end of `s`. */
  function Scan(tokens: seq<Token>, buf: string, s: string): seq<Token>
    decreases |s|
  {
    if s == "" then Flush(tokens, buf)
    else if IsAtomChar(s[0]) then Scan(tokens, buf + [s[0]], s[1..])
    else Scan(Flush(tokens, buf) + Delimiter(s[0]), "", s[1..])
  }

  lemma Regroup(tokens: seq<Token>, a: seq<Token>, b: seq<Token>, c: seq<Token>)
    ensures tokens + (a + (b + c)) == (tokens + a) + b + c
  {
  }

  lemma LexOneDelimiter(s: string)
    requires s != "" && !IsAtomChar(s[0])
    ensures Lex(s) == Delimiter(s[0]) + Lex(s[1..])
  {
  }

  /** One delimiter after a pending buffer: the three flushing branches of the loop. */
  lemma LexDelimiter(tokens: seq<Token>, buf: string, s: string)
    requires AllAtomChars(buf) && s != "" && !IsAtomChar(s[0])
    ensures Flush(tokens, buf) + Delimiter(s[0]) + Lex(s[1..]) == tokens + Lex(buf + s)
  {
    var f, d, l := Flush([], buf), Delimiter(s[0]), Lex(s[1..]);
    assert Flush(tokens, buf) == tokens + f;
    Regroup(tokens, f, d, l);
    assert Lex(buf + s) == f + (d + l) by {
      LexFlush(buf, s);
      LexOneDelimiter(s);
    }
  }

  lemma {:induction false} ScanLexes(tokens: seq<Token>, buf: string, s: string)
    requires AllAtomChars(buf)
    ensures Scan(tokens, buf, s) == tokens + Lex(buf + s)
    decreases |s|
  {
    if s == "" {
      LexFlush(buf, s);
    } else if IsAtomChar(s[0]) {
      assert buf + s == (buf + [s[0]]) + s[1..];
      ScanLexes(tokens, buf + [s[0]], s[1..]);
    } else {
      var flushed := Flush(tokens, buf) + Delimiter(s[0]);
      ScanLexes(flushed, "", s[1..]);
      assert "" + s[1..] == s[1..];
      LexDelimiter(tokens, buf, s);
      assert Scan(tokens, buf, s) == flushed + Lex(s[1..]);
    }
  }

  method Tokenize(expr: string) returns (tokens: seq<Token>)
    ensures tokens == Lex(expr)
  {
    tokens := [];
    var buf := "";
    for i := 0 to |expr|
      invariant Scan(tokens, buf, expr[i..]) == Scan([], "", expr)
    {
      var ch := expr[i];
      assert expr[i..][1..] == expr[i + 1..];
      match Kind(ch) {
        case Open =>
          tokens := Flush(tokens, buf) + [LParen];
          buf := "";
        case Close =>
          tokens := Flush(tokens, buf) + [RParen];
          buf := "";
        case Space =>
          tokens := Flush(tokens, buf) + [];
          buf := "";
        case Other =>
          buf := buf + [ch];
      }
    }
    ScanLexes([], "", expr);
    assert "" + expr == expr;
    tokens := Flush(tokens, buf);
  }

  // ----- layouts: an independent description of the texts of a token list -----

  function TokenText(t: Token): string {
    match t
    case LParen => "("
    case RParen => ")"
    case Atom(text) => text
  }

  predicate ValidToken(t: Token) {
    t.Atom? ==> t.text != "" && AllAtomChars(t.text)
  }

  /** `gaps` is white space around the tokens, with some between two adjacent atoms. */
  predicate ValidGaps(ts: seq<Token>, gaps: seq<string>) {
    && |gaps| == |ts| + 1
    && (forall i :: 0 <= i < |ts| ==> ValidToken(ts[i]))
    && (forall i :: 0 <= i < |gaps| ==> AllSpaces(gaps[i]))
    && (forall i :: 0 < i < |ts| && ts[i - 1].Atom? && ts[i].Atom? ==> gaps[i] != "")
  }

  function Render(ts: seq<Token>, gaps: seq<string>): string
    requires |gaps| == |ts| + 1
  {
    if ts == [] then gaps[0]
    else gaps[0] + TokenText(ts[0]) + Render(ts[1..], gaps[1..])
  }

  ghost predicate IsLayout(s: string, ts: seq<Token>) {
    exists gaps :: ValidGaps(ts, gaps) && s == Render(ts, gaps)
  }

  lemma LexSkip(w: string, s: string)
    requires AllSpaces(w)
    ensures Lex(w + s) == Lex(s)
  {
    if w == "" {
      assert w + s == s;
    } else {
      assert (w + s)[1..] == w[1..] + s;
      LexSkip(w[1..], s);
    }
  }

  /** What follows an atom does not continue it. */
  lemma AtomEnds(ts: seq<Token>, gaps: seq<string>)
    requires ValidGaps(ts, gaps) && ts != [] && ts[0].Atom?
    ensures
      var rest := Render(ts[1..], gaps[1..]);
      rest == "" || !IsAtomChar(rest[0])
  {
    assert gaps[1..][0] == gaps[1];
    if |ts| > 1 {
      assert ts[1..][0] == ts[1];
      if gaps[1] == "" {
        assert !ts[1].Atom?;
      } else {
        assert Kind(gaps[1][0]) == Space;
      }
    } else if gaps[1] != "" {
      assert Kind(gaps[1][0]) == Space;
    }
  }

  lemma {:induction false} LexRender(ts: seq<Token>, gaps: seq<string>)
    requires ValidGaps(ts, gaps)
    ensures Lex(Render(ts, gaps)) == ts
  {
    if ts == [] {
      assert gaps[0] + "" == gaps[0];
      LexSkip(gaps[0], "");
    } else {
      var rest := Render(ts[1..], gaps[1..]);
      var text := TokenText(ts[0]);
      LexRender(ts[1..], gaps[1..]);
      assert gaps[0] + text + rest == gaps[0] + (text + rest);
      LexSkip(gaps[0], text + rest);
      if ts[0].Atom? {
        AtomEnds(ts, gaps);
        LexFlush(text, rest);
      } else {
        assert (text + rest)[1..] == rest;
      }
    }
  }

  /** Reads the white space back off a text. */
  function GapsOf(s: string): (gaps: seq<string>)
    ensures |gaps| == |Lex(s)| + 1
    decreases |s|
  {
    if s == "" then [""]
    else
      match Kind(s[0])
      case Open => [""] + GapsOf(s[1..])
      case Close => [""] + GapsOf(s[1..])
      case Space => var g := GapsOf(s[1..]); [[s[0]] + g[0]] + g[1..]
      case Other => [""] + GapsOf(s[RunLength(s)..])
  }

  lemma GapsCons(t: Token, gap: string, ts: seq<Token>, gaps: seq<string>)
    requires ValidGaps(ts, gaps) && ValidToken(t) && AllSpaces(gap)
    requires ts != [] && t.Atom? && ts[0].Atom? ==> gaps[0] != ""
    ensures ValidGaps([t] + ts, [gap] + gaps)
    ensures Render([t] + ts, [gap] + gaps) == gap + TokenText(t) + Render(ts, gaps)
  {
    var us, hs := [t] + ts, [gap] + gaps;
    assert us[1..] == ts && hs[1..] == gaps;
    forall i | 0 < i < |us| && us[i - 1].Atom? && us[i].Atom?
      ensures hs[i] != ""
    {
      assert us[i] == ts[i - 1] && hs[i] == gaps[i - 1];
      if i > 1 { assert us[i - 1] == ts[i - 2]; }
    }
  }

  lemma GapsWiden(c: char, ts: seq<Token>, gaps: seq<string>)
    requires ValidGaps(ts, gaps) && Kind(c) == Space
    ensures ValidGaps(ts, [[c] + gaps[0]] + gaps[1..])
    ensures Render(ts, [[c] + gaps[0]] + gaps[1..]) == [c] + Render(ts, gaps)
  {
    var hs := [[c] + gaps[0]] + gaps[1..];
    assert hs[1..] == gaps[1..];
    if ts != [] {
      var tail := TokenText(ts[0]) + Render(ts[1..], gaps[1..]);
      assert Render(ts, gaps) == gaps[0] + tail;
      assert Render(ts, hs) == ([c] + gaps[0]) + tail;
      assert ([c] + gaps[0]) + tail == [c] + (gaps[0] + tail);
    }
  }

  /** The text is the layout that `GapsOf` reads off it. */
  predicate GapsFit(s: string) {
    && ValidGaps(Lex(s), GapsOf(s))
    && Render(Lex(s), GapsOf(s)) == s
    && (s != "" && !IsAtomChar(s[0]) && Lex(s) != [] && Lex(s)[0].Atom? ==> GapsOf(s)[0] != "")
  }

  lemma {:induction false} GapsOfValid(s: string)
    ensures GapsFit(s)
    decreases |s|
  {
    if s != "" {
      match Kind(s[0])
      case Open => GapsOfValid(s[1..]); GapsAtParen(s);
      case Close => GapsOfValid(s[1..]); GapsAtParen(s);
      case Space => GapsOfValid(s[1..]); GapsAtSpace(s);
      case Other => GapsOfValid(s[RunLength(s)..]); GapsAtAtom(s);
    }
  }

  lemma GapsAtParen(s: string)
    requires s != "" && (Kind(s[0]) == Open || Kind(s[0]) == Close) && GapsFit(s[1..])
    ensures GapsFit(s)
  {
    GapsFront(s, 1, if Kind(s[0]) == Open then LParen else RParen, Lex(s[1..]), GapsOf(s[1..]));
  }

  lemma GapsAtSpace(s: string)
    requires s != "" && Kind(s[0]) == Space && GapsFit(s[1..])
    ensures GapsFit(s)
  {
    GapsWiden(s[0], Lex(s[1..]), GapsOf(s[1..]));
    assert s == [s[0]] + s[1..];
  }

  lemma GapsAtAtom(s: string)
    requires s != "" && Kind(s[0]) == Other && GapsFit(s[RunLength(s)..])
    ensures GapsFit(s)
  {
    var n := RunLength(s);
    GapsFront(s, n, Atom(s[..n]), Lex(s[n..]), GapsOf(s[n..]));
  }

  lemma GapsFront(s: string, n: nat, t: Token, ts: seq<Token>, gaps: seq<string>)
    requires 0 < n <= |s| && ValidToken(t)
    requires s[..n] == TokenText(t)
    requires ValidGaps(ts, gaps) && Render(ts, gaps) == s[n..]
    requires ts != [] && t.Atom? && ts[0].Atom? ==> gaps[0] != ""
    ensures ValidGaps([t] + ts, [""] + gaps)
    ensures Render([t] + ts, [""] + gaps) == s
  {
    GapsCons(t, "", ts, gaps);
    assert "" + s[..n] + s[n..] == s;
  }

  /** The tokenizer returns `ts` exactly on the layouts of `ts`. */
  lemma LexExact(s: string, ts: seq<Token>)
    ensures Lex(s) == ts <==> IsLayout(s, ts)
  {
    if Lex(s) == ts {
      GapsOfValid(s);
    }
    if IsLayout(s, ts) {
      var gaps :| ValidGaps(ts, gaps) && s == Render(ts, gaps);
      LexRender(ts, gaps);
    }
  }

  /** One layout that always works: a space around every token. */
  function Spaced(ts: seq<Token>): string {
    Render(ts, seq(|ts| + 1, _ => " "))
  }

  lemma LexSpaced(ts: seq<Token>)
    requires forall i :: 0 <= i < |ts| ==> ValidToken(ts[i])
    ensures Lex(Spaced(ts)) == ts
  {
    AsciiKind(' ');
    LexRender(ts, seq(|ts| + 1, _ => " "));
  }
}
