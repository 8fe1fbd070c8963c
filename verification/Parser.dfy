/** The S-expression parser (src/expr/parser.rs) and `parse` (src/expr/mod.rs). */
module Parser {
  import opened Common
  import opened Lexer

  datatype RawSexpr = Sym(text: string) | List(items: seq<RawSexpr>)

  datatype ParseError = UnexpectedEof | UnexpectedToken(text: string) | UnbalancedParen

  type Parsed<T> = Result<(T, nat), ParseError>

  /** `parse_at`: the expression at `index` and the index after it. */
  function ParseAt(tokens: seq<Token>, index: nat): (r: Parsed<RawSexpr>)
    ensures r.Success? ==> index < r.value.1 <= |tokens|
    decreases if index < |tokens| then |tokens| - index else 0, 0
  {
    if index >= |tokens| then
      Failure(UnexpectedEof)
    else
      match tokens[index]
      case LParen =>
        var (items, used) :- ParseItems(tokens, index + 1);
        Success((List(items), used))
      case RParen => Failure(UnexpectedToken(")"))
      case Atom(text) => Success((Sym(text), index + 1))
  }

  /** The items up to and including the closing parenthesis. */
  function ParseItems(tokens: seq<Token>, index: nat): (r: Parsed<seq<RawSexpr>>)
    ensures r.Success? ==> index < r.value.1 <= |tokens|
    decreases if index < |tokens| then |tokens| - index else 0, 1
  {
    if index >= |tokens| then
      Failure(UnexpectedEof)
    else if tokens[index].RParen? then
      Success(([], index + 1))
    else
      var (item, next) :- ParseAt(tokens, index);
      var (items, used) :- ParseItems(tokens, next);
      Success(([item] + items, used))
  }

  function Prepend(done: seq<RawSexpr>, r: Parsed<seq<RawSexpr>>): Parsed<seq<RawSexpr>> {
    match r
    case Success(p) => Success((done + p.0, p.1))
    case Failure(e) => Failure(e)
  }

  /** The parser as written: recursion for nested lists, a loop over the items of one list. */
  method ParseFrom(index: nat, tokens: seq<Token>) returns (r: Parsed<RawSexpr>)
    ensures r == ParseAt(tokens, index)
    decreases if index < |tokens| then |tokens| - index else 0
  {
    if index >= |tokens| {
      return Failure(UnexpectedEof);
    }
    match tokens[index]
    case LParen =>
      var inlineTokens: seq<RawSexpr> := [];
      var inlineIndex := index + 1;
      assert forall p: seq<RawSexpr> :: [] + p == p;
      while true
        invariant index < inlineIndex <= |tokens|
        invariant ParseItems(tokens, index + 1) == Prepend(inlineTokens, ParseItems(tokens, inlineIndex))
        decreases |tokens| - inlineIndex
      {
        if inlineIndex >= |tokens| {
          return Failure(UnexpectedEof);
        }
        if tokens[inlineIndex].RParen? {
          assert inlineTokens + [] == inlineTokens;
          return Success((List(inlineTokens), inlineIndex + 1));
        }
        var inner := ParseFrom(inlineIndex, tokens);
        if inner.Failure? {
          return Failure(inner.error);
        }
        ghost var rest := ParseItems(tokens, inner.value.1);
        assert rest.Success? ==>
          inlineTokens + ([inner.value.0] + rest.value.0) == (inlineTokens + [inner.value.0]) + rest.value.0;
        inlineTokens := inlineTokens + [inner.value.0];
        inlineIndex := inner.value.1;
      }
    case RParen => return Failure(UnexpectedToken(")"));
    case Atom(text) => return Success((Sym(text), index + 1));
  }

  // ----- printing, and the exact relation between the two -----

  function Print(e: RawSexpr): (ts: seq<Token>)
    ensures ts != []
    decreases e, 1
  {
    match e
    case Sym(text) => [Atom(text)]
    case List(items) => [LParen] + PrintAll(items) + [RParen]
  }

  function PrintAll(es: seq<RawSexpr>): seq<Token>
    decreases es, 0
  {
    if es == [] then [] else Print(es[0]) + PrintAll(es[1..])
  }

  lemma PrintHead(e: RawSexpr)
    ensures !Print(e)[0].RParen?
  {
  }

  /** ts holds `part` at position i. */
  predicate At(ts: seq<Token>, i: nat, part: seq<Token>) {
    i + |part| <= |ts| && forall k :: 0 <= k < |part| ==> ts[i + k] == part[k]
  }

  lemma AtSplit(ts: seq<Token>, i: nat, a: seq<Token>, b: seq<Token>)
    ensures At(ts, i, a + b) <==> At(ts, i, a) && At(ts, i + |a|, b)
  {
    if At(ts, i, a + b) {
      forall k | 0 <= k < |a| ensures ts[i + k] == a[k] { assert (a + b)[k] == a[k]; }
      forall k | 0 <= k < |b| ensures ts[i + |a| + k] == b[k] { assert (a + b)[|a| + k] == b[k]; }
    }
    if At(ts, i, a) && At(ts, i + |a|, b) {
      forall k | 0 <= k < |a| + |b| ensures ts[i + k] == (a + b)[k] {
        if k >= |a| { assert ts[i + |a| + (k - |a|)] == b[k - |a|]; }
      }
    }
  }

  lemma AtHead(ts: seq<Token>, i: nat, part: seq<Token>)
    requires At(ts, i, part) && part != []
    ensures i < |ts| && ts[i] == part[0]
  {
    assert ts[i + 0] == part[0];
  }

  lemma {:induction false} PrintParses(ts: seq<Token>, i: nat, e: RawSexpr)
    requires At(ts, i, Print(e))
    ensures ParseAt(ts, i) == Success((e, i + |Print(e)|))
    decreases e, 1
  {
    match e
    case Sym(text) =>
      AtHead(ts, i, [Atom(text)]);
    case List(items) =>
      AtSplit(ts, i, [LParen] + PrintAll(items), [RParen]);
      AtSplit(ts, i, [LParen], PrintAll(items));
      AtHead(ts, i, [LParen]);
      var j := i + 1 + |PrintAll(items)|;
      AtHead(ts, j, [RParen]);
      PrintAllParses(ts, i + 1, items);
  }

  /** A part at a position, cut in two. */
  lemma AtParts(ts: seq<Token>, i: nat, p: seq<Token>, q: seq<Token>)
    requires At(ts, i, p + q) && p != []
    ensures At(ts, i, p) && At(ts, i + |p|, q)
    ensures i < |ts| && ts[i] == p[0]
  {
    AtSplit(ts, i, p, q);
    AtHead(ts, i, p);
  }

  /** One more item in front of a list. */
  lemma ItemInFront(ts: seq<Token>, i: nat, e: RawSexpr, next: nat, es: seq<RawSexpr>, used: nat)
    requires i < |ts| && !ts[i].RParen? && ParseAt(ts, i) == Success((e, next))
    ensures ParseItems(ts, next) == Success((es, used)) ==> ParseItems(ts, i) == Success(([e] + es, used))
    ensures ParseItems(ts, i).Success? ==>
      && ParseItems(ts, next).Success?
      && ParseItems(ts, i).value == ([e] + ParseItems(ts, next).value.0, ParseItems(ts, next).value.1)
  {
  }

  lemma {:induction false} PrintAllParses(ts: seq<Token>, i: nat, es: seq<RawSexpr>)
    requires At(ts, i, PrintAll(es))
    requires i + |PrintAll(es)| < |ts| && ts[i + |PrintAll(es)|].RParen?
    ensures ParseItems(ts, i) == Success((es, i + |PrintAll(es)| + 1))
    decreases es, 0
  {
    if es != [] {
      var next := i + |Print(es[0])|;
      AtParts(ts, i, Print(es[0]), PrintAll(es[1..]));
      PrintHead(es[0]);
      PrintParses(ts, i, es[0]);
      PrintAllParses(ts, next, es[1..]);
      ListParsed(ts, i, es, next, i + |PrintAll(es)| + 1);
    }
  }

  lemma ListParsed(ts: seq<Token>, i: nat, es: seq<RawSexpr>, next: nat, used: nat)
    requires es != [] && i < |ts| && !ts[i].RParen?
    requires ParseAt(ts, i) == Success((es[0], next)) && ParseItems(ts, next) == Success((es[1..], used))
    ensures ParseItems(ts, i) == Success((es, used))
  {
    ItemInFront(ts, i, es[0], next, es[1..], used);
    assert es == [es[0]] + es[1..];
  }

  lemma PrintedInFront(ts: seq<Token>, i: nat, e: RawSexpr, next: nat, es: seq<RawSexpr>)
    requires At(ts, i, Print(e)) && next == i + |Print(e)| && At(ts, next, PrintAll(es))
    ensures At(ts, i, PrintAll([e] + es)) && i + |PrintAll([e] + es)| == next + |PrintAll(es)|
  {
    PrintFront(e, es);
    AtSplit(ts, i, Print(e), PrintAll(es));
  }

  lemma PrintFront(e: RawSexpr, es: seq<RawSexpr>)
    ensures PrintAll([e] + es) == Print(e) + PrintAll(es)
  {
    assert ([e] + es)[1..] == es;
  }

  lemma {:induction false} ParseConsumes(ts: seq<Token>, i: nat)
    ensures ParseAt(ts, i).Success? ==>
      var (e, used) := ParseAt(ts, i).value; At(ts, i, Print(e)) && used == i + |Print(e)|
    decreases if i < |ts| then |ts| - i else 0, 0
  {
    var r := ParseAt(ts, i);
    if r.Success? && ts[i].LParen? {
      ParseItemsConsume(ts, i + 1);
      var items := r.value.0.items;
      AtSplit(ts, i, [LParen], PrintAll(items));
      AtSplit(ts, i, [LParen] + PrintAll(items), [RParen]);
    }
  }

  lemma {:induction false} ParseItemsConsume(ts: seq<Token>, i: nat)
    ensures ParseItems(ts, i).Success? ==>
      var (es, used) := ParseItems(ts, i).value;
      && At(ts, i, PrintAll(es)) && used == i + |PrintAll(es)| + 1 <= |ts| && ts[used - 1].RParen?
    decreases if i < |ts| then |ts| - i else 0, 1
  {
    var r := ParseItems(ts, i);
    if r.Success? && !ts[i].RParen? {
      ParseConsumes(ts, i);
      var (e, next) := ParseAt(ts, i).value;
      ParseItemsConsume(ts, next);
      ItemInFront(ts, i, e, next, [], 0);
      var es := ParseItems(ts, next).value.0;
      PrintedInFront(ts, i, e, next, es);
    }
  }

  /** A parse succeeds with `e` exactly where the printed form of `e` stands, and uses exactly it. */
  lemma ParseExact(ts: seq<Token>, i: nat, e: RawSexpr, used: nat)
    ensures ParseAt(ts, i) == Success((e, used)) <==> At(ts, i, Print(e)) && used == i + |Print(e)|
  {
    ParseConsumes(ts, i);
    if At(ts, i, Print(e)) {
      PrintParses(ts, i, e);
    }
  }

  // ----- when parsing succeeds: the running depth -----

  function DepthOf(t: Token): int {
    match t
    case LParen => 1
    case RParen => -1
    case Atom(_) => 0
  }

  /** Open minus closed parentheses in ts[i..j]. */
  function Depth(ts: seq<Token>, i: nat, j: nat): int
    requires i <= j <= |ts|
    decreases j - i
  {
    if i == j then 0 else DepthOf(ts[i]) + Depth(ts, i + 1, j)
  }

  lemma {:induction false} DepthSplit(ts: seq<Token>, i: nat, m: nat, j: nat)
    requires i <= m <= j <= |ts|
    ensures Depth(ts, i, j) == Depth(ts, i, m) + Depth(ts, m, j)
    decreases m - i
  {
    if i < m {
      DepthSplit(ts, i + 1, m, j);
    }
  }

  /** j is the first index after i at which the depth counted from i is zero, and it was never below. */
  predicate FirstClosed(ts: seq<Token>, i: nat, j: nat) {
    && i < j <= |ts|
    && Depth(ts, i, j) == 0
    && forall k :: i < k < j ==> Depth(ts, i, k) > 0
  }

  lemma {:induction false} SuccessCloses(ts: seq<Token>, i: nat)
    ensures ParseAt(ts, i).Success? ==> FirstClosed(ts, i, ParseAt(ts, i).value.1)
    decreases if i < |ts| then |ts| - i else 0, 0
  {
    var r := ParseAt(ts, i);
    if r.Success? {
      if ts[i].LParen? {
        ItemsClose(ts, i + 1);
        assert forall k :: i < k <= |ts| ==> Depth(ts, i, k) == 1 + Depth(ts, i + 1, k);
      } else {
        assert Depth(ts, i, i + 1) == 0 + Depth(ts, i + 1, i + 1);
      }
    }
  }

  lemma {:induction false} ItemsClose(ts: seq<Token>, i: nat)
    ensures ParseItems(ts, i).Success? ==>
      var used := ParseItems(ts, i).value.1;
      Depth(ts, i, used) == -1 && forall k :: i <= k < used ==> Depth(ts, i, k) >= 0
    decreases if i < |ts| then |ts| - i else 0, 1
  {
    var r := ParseItems(ts, i);
    if r.Success? {
      if ts[i].RParen? {
        assert Depth(ts, i, i + 1) == -1 + Depth(ts, i + 1, i + 1);
      } else {
        SuccessCloses(ts, i);
        var next := ParseAt(ts, i).value.1;
        ItemsClose(ts, next);
        forall k | next <= k <= r.value.1
          ensures Depth(ts, i, k) == Depth(ts, next, k)
        {
          DepthSplit(ts, i, next, k);
        }
      }
    }
  }

  lemma {:induction false} FailureNeverCloses(ts: seq<Token>, i: nat)
    requires i < |ts| && ParseAt(ts, i).Failure?
    ensures ts[i].RParen? ==> ParseAt(ts, i).error == UnexpectedToken(")")
    ensures !ts[i].RParen? ==> ParseAt(ts, i).error == UnexpectedEof
    ensures !ts[i].RParen? ==> forall k :: i < k <= |ts| ==> Depth(ts, i, k) > 0
    decreases |ts| - i, 0
  {
    if ts[i].LParen? {
      ItemsNeverClose(ts, i + 1);
      assert forall k :: i < k <= |ts| ==> Depth(ts, i, k) == 1 + Depth(ts, i + 1, k);
    }
  }

  lemma {:induction false} ItemsNeverClose(ts: seq<Token>, i: nat)
    requires i <= |ts| && ParseItems(ts, i).Failure?
    ensures ParseItems(ts, i).error == UnexpectedEof
    ensures forall k :: i <= k <= |ts| ==> Depth(ts, i, k) >= 0
    decreases |ts| - i, 1
  {
    if i < |ts| {
      if ParseAt(ts, i).Failure? {
        FailureNeverCloses(ts, i);
      } else {
        SuccessCloses(ts, i);
        var next := ParseAt(ts, i).value.1;
        ItemsNeverClose(ts, next);
        forall k | next <= k <= |ts|
          ensures Depth(ts, i, k) == Depth(ts, next, k)
        {
          DepthSplit(ts, i, next, k);
        }
      }
    }
  }

  /** Parsing succeeds exactly when the depth returns to zero, at the first such index; otherwise
      the error is `UnexpectedToken` for a leading `)` and `UnexpectedEof` in every other case. */
  lemma ParseSucceedsIff(ts: seq<Token>)
    ensures forall used: nat ::
      (ParseAt(ts, 0).Success? && ParseAt(ts, 0).value.1 == used) <==> FirstClosed(ts, 0, used)
    ensures ParseAt(ts, 0).Failure? ==>
      ParseAt(ts, 0).error ==
        if ts != [] && ts[0].RParen? then UnexpectedToken(")") else UnexpectedEof
  {
    SuccessCloses(ts, 0);
    if ParseAt(ts, 0).Failure? && ts != [] {
      FailureNeverCloses(ts, 0);
      assert Depth(ts, 0, 1) == DepthOf(ts[0]) + Depth(ts, 1, 1);
    }
  }

  // ----- text to expression -----

  datatype SyntaxError = Parse(error: ParseError) | TrailingTokens

  function ParseTokens(ts: seq<Token>): Result<RawSexpr, SyntaxError> {
    match ParseAt(ts, 0)
    case Failure(e) => Failure(Parse(e))
    case Success(p) => if p.1 != |ts| then Failure(TrailingTokens) else Success(p.0)
  }

  /** `parse` of src/expr/mod.rs. */
  function ParseText(s: string): Result<RawSexpr, SyntaxError> {
    ParseTokens(Lex(s))
  }

  method ParseSource(s: string) returns (r: Result<RawSexpr, SyntaxError>)
    ensures r == ParseText(s)
  {
    var tokens := Tokenize(s);
    var parsed := ParseFrom(0, tokens);
    match parsed
    case Failure(e) => r := Failure(Parse(e));
    case Success(p) => r := if p.1 != |tokens| then Failure(TrailingTokens) else Success(p.0);
  }

  /** A text parses to `e` exactly when it is a layout of the printed tokens of `e`. */
  lemma ParseTextExact(s: string, e: RawSexpr)
    ensures ParseText(s) == Success(e) <==> IsLayout(s, Print(e))
  {
    var ts := Lex(s);
    LexExact(s, Print(e));
    ParseExact(ts, 0, e, |Print(e)|);
    ParseConsumes(ts, 0);
    if ParseText(s) == Success(e) {
      assert |ts| == |Print(e)|;
    }
  }

  /** Distinct expressions never print alike. */
  lemma PrintInjective(a: RawSexpr, b: RawSexpr)
    requires Print(a) == Print(b)
    ensures a == b
  {
    var ts := Print(a);
    assert ts[0..|ts|] == ts;
    PrintParses(ts, 0, a);
    PrintParses(ts, 0, b);
  }

  /** Atoms that the tokenizer can return. */
  predicate Printable(e: RawSexpr) {
    match e
    case Sym(text) => text != "" && AllAtomChars(text)
    case List(items) => forall i :: 0 <= i < |items| ==> Printable(items[i])
  }

  lemma {:induction false} PrintableTokens(e: RawSexpr)
    requires Printable(e)
    ensures forall i :: 0 <= i < |Print(e)| ==> ValidToken(Print(e)[i])
    decreases e, 1
  {
    if e.List? {
      PrintableAllTokens(e.items);
    }
  }

  lemma {:induction false} PrintableAllTokens(es: seq<RawSexpr>)
    requires forall i :: 0 <= i < |es| ==> Printable(es[i])
    ensures forall i :: 0 <= i < |PrintAll(es)| ==> ValidToken(PrintAll(es)[i])
    decreases es, 0
  {
    if es != [] {
      PrintableTokens(es[0]);
      PrintableAllTokens(es[1..]);
    }
  }

  /** Round trip through text, for every printable expression and every layout of it. */
  lemma TextRoundTrip(e: RawSexpr, gaps: seq<string>)
    requires Printable(e)
    ensures ParseText(Spaced(Print(e))) == Success(e)
    ensures ValidGaps(Print(e), gaps) ==> ParseText(Render(Print(e), gaps)) == Success(e)
  {
    PrintableTokens(e);
    LexSpaced(Print(e));
    LexExact(Spaced(Print(e)), Print(e));
    ParseTextExact(Spaced(Print(e)), e);
    if ValidGaps(Print(e), gaps) {
      ParseTextExact(Render(Print(e), gaps), e);
    }
  }
}
