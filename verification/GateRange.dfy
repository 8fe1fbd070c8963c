/** Which gates the compiler can return, and a text for each of them. */
module GateRange {
  import opened Common
  import opened Lexer
  import opened Parser
  import opened Gate
  import opened GateCompiler

  // ----- decimal numbers -----

  function DigitChar(d: nat): char
    requires d < 10
  {
    ('0' as int + d) as char
  }

  function Dec(n: nat): (s: string)
    ensures s != "" && AllDigits(s)
  {
    if n < 10 then [DigitChar(n)] else Dec(n / 10) + [DigitChar(n % 10)]
  }

  lemma {:induction false} DecValue(n: nat)
    ensures DigitsValue(Dec(n)) == n
  {
    var s := Dec(n);
    if n < 10 {
      assert s[..|s| - 1] == "";
    } else {
      DecValue(n / 10);
      assert s[..|s| - 1] == Dec(n / 10);
    }
  }

  lemma DecParses(n: nat, max: nat)
    ensures ParseUnsigned(Dec(n), max) == if n <= max then Some(n) else None
  {
    DecValue(n);
    assert IsDigit(Dec(n)[0]);
  }

  // ----- well-formed leaves -----

  predicate ValidAtom(s: string) {
    s != "" && AllAtomChars(s)
  }

  predicate ValidSlug(s: string) {
    ValidAtom(s) && ParseUnsigned(s, U32_MAX).None?
  }

  predicate ValidPuzzle(p: PuzzleRef) {
    match p
    case PuzzleId(id) => id <= U32_MAX
    case PuzzleSlug(slug) => ValidSlug(slug)
  }

  predicate ValidRound(r: RoundRef) {
    match r
    case RoundId(id) => id <= U32_MAX
    case RoundSlug(slug) => ValidSlug(slug)
  }

  predicate ValidSet(s: SetExpr) {
    match s
    case Puzzles(refs) => forall i :: 0 <= i < |refs| ==> ValidPuzzle(refs[i])
    case PuzzleRange(a, b) => a <= U32_MAX && b <= U32_MAX
    case Round(r) => ValidRound(r)
  }

  predicate ValidValue(v: ValueExpr) {
    match v
    case SolvedCount(s) => ValidSet(s)
    case Number(n) => n <= USIZE_MAX
  }

  /** Numbers in range, slugs that are atoms and not numbers, keys of the accepted shape. */
  predicate WellFormed(g: GateExpr) {
    match g
    case And(xs) => forall i :: 0 <= i < |xs| ==> WellFormed(xs[i])
    case Or(xs) => forall i :: 0 <= i < |xs| ==> WellFormed(xs[i])
    case Not(x) => WellFormed(x)
    case Solved(p) => ValidPuzzle(p)
    case AllSolved(s) => ValidSet(s)
    case AnySolved(s) => ValidSet(s)
    case Triggered(p, key) => ValidPuzzle(p) && ValidTriggerKey(key)
    case Cmp(_, lhs, rhs) => ValidValue(lhs) && ValidValue(rhs)
    case _ => true
  }

  // ----- an expression for every gate -----

  function Form(head: string, args: seq<RawSexpr>): RawSexpr {
    List([Sym(head)] + args)
  }

  function PuzzleWord(p: PuzzleRef): RawSexpr {
    match p
    case PuzzleId(id) => Sym(Dec(id))
    case PuzzleSlug(slug) => Sym(slug)
  }

  function RoundWord(r: RoundRef): RawSexpr {
    match r
    case RoundId(id) => Sym(Dec(id))
    case RoundSlug(slug) => Sym(slug)
  }

  function PuzzleWords(refs: seq<PuzzleRef>): (es: seq<RawSexpr>)
    ensures |es| == |refs|
    ensures forall i :: 0 <= i < |refs| ==> es[i] == PuzzleWord(refs[i])
  {
    if refs == [] then [] else [PuzzleWord(refs[0])] + PuzzleWords(refs[1..])
  }

  function SetForm(s: SetExpr): RawSexpr {
    match s
    case Puzzles(refs) => Form("puzzles", PuzzleWords(refs))
    case PuzzleRange(a, b) => Form("puzzle-range", [Sym(Dec(a)), Sym(Dec(b))])
    case Round(r) => Form("round", [RoundWord(r)])
  }

  function ValueForm(v: ValueExpr): RawSexpr {
    match v
    case SolvedCount(s) => Form("solved-count", [SetForm(s)])
    case Number(n) => Sym(Dec(n))
  }

  function CmpName(op: CmpOp): string {
    match op
    case Gt => "gt"
    case Ge => "ge"
    case Lt => "lt"
    case Le => "le"
    case Eq => "eq"
    case Ne => "ne"
  }

  function GateForm(g: GateExpr): RawSexpr
    decreases g, 1
  {
    match g
    case True => Form("true", [])
    case False => Form("false", [])
    case And(xs) => Form("and", GateForms(xs))
    case Or(xs) => Form("or", GateForms(xs))
    case Not(x) => Form("not", [GateForm(x)])
    case Solved(p) => Form("solved", [PuzzleWord(p)])
    case AllSolved(s) => Form("all-solved", [SetForm(s)])
    case AnySolved(s) => Form("any-solved", [SetForm(s)])
    case GameStarted => Form("game-started", [])
    case Triggered(p, key) => Form("triggered", [PuzzleWord(p), Sym(key)])
    case Cmp(op, lhs, rhs) => Form(CmpName(op), [ValueForm(lhs), ValueForm(rhs)])
  }

  function GateForms(gs: seq<GateExpr>): seq<RawSexpr>
    decreases gs, 0
  {
    if gs == [] then [] else [GateForm(gs[0])] + GateForms(gs[1..])
  }

  // ----- compiling a form gives the gate back -----

  lemma PuzzleWordCompiles(p: PuzzleRef)
    requires ValidPuzzle(p)
    ensures ParsePuzzleRef(PuzzleWord(p)) == Success(p)
  {
    if p.PuzzleId? { DecParses(p.id, U32_MAX); }
  }

  lemma {:induction false} PuzzleWordsCompile(refs: seq<PuzzleRef>)
    requires ValidSet(Puzzles(refs))
    ensures ParsePuzzleRefs(PuzzleWords(refs)) == Success(refs)
  {
    if refs != [] {
      PuzzleWordCompiles(refs[0]);
      PuzzleWordsCompile(refs[1..]);
      assert PuzzleWords(refs)[1..] == PuzzleWords(refs[1..]);
      assert refs == [refs[0]] + refs[1..];
    }
  }

  lemma SetFormCompiles(s: SetExpr)
    requires ValidSet(s)
    ensures CompileSet(SetForm(s)) == Success(s)
  {
    match s
    case Puzzles(refs) =>
      assert ([Sym("puzzles")] + PuzzleWords(refs))[1..] == PuzzleWords(refs);
      PuzzleWordsCompile(refs);
    case PuzzleRange(a, b) =>
      DecParses(a, U32_MAX);
      DecParses(b, U32_MAX);
    case Round(r) =>
      if r.RoundId? { DecParses(r.id, U32_MAX); }
  }

  lemma ValueFormCompiles(v: ValueExpr)
    requires ValidValue(v)
    ensures CompileValue(ValueForm(v)) == Success(v)
  {
    match v
    case SolvedCount(s) => SetFormCompiles(s);
    case Number(n) => DecParses(n, USIZE_MAX);
  }

  lemma CmpNameCompiles(op: CmpOp)
    ensures OpToCmp(CmpName(op)) == Some(op)
    ensures |CmpName(op)| == 2 && CmpName(op) != "or"
  {
  }

  lemma LeafForm(head: string, args: seq<RawSexpr>)
    requires head != "and" && head != "or" && head != "not"
    ensures Compile(Form(head, args)) == CompileLeaf(head, [Sym(head)] + args)
  {
  }

  lemma LeafFormCompiles(g: GateExpr)
    requires WellFormed(g) && !g.And? && !g.Or? && !g.Not?
    ensures Compile(GateForm(g)) == Success(g)
  {
    match g
    case True => LeafForm("true", []);
    case False => LeafForm("false", []);
    case Solved(p) =>
      LeafForm("solved", [PuzzleWord(p)]);
      PuzzleWordCompiles(p);
    case AllSolved(s) =>
      LeafForm("all-solved", [SetForm(s)]);
      SetFormCompiles(s);
    case AnySolved(s) =>
      LeafForm("any-solved", [SetForm(s)]);
      SetFormCompiles(s);
    case GameStarted => LeafForm("game-started", []);
    case Triggered(p, key) =>
      LeafForm("triggered", [PuzzleWord(p), Sym(key)]);
      PuzzleWordCompiles(p);
    case Cmp(op, lhs, rhs) => CmpFormCompiles(op, lhs, rhs);
  }

  /** Its form has a head of its own. */
  lemma LeafHead(g: GateExpr)
    requires !g.And? && !g.Or? && !g.Not?
    ensures
      var e := GateForm(g);
      && e.List? && e.items != [] && e.items[0].Sym?
      && var head := e.items[0].text;
         head != "and" && head != "or" && head != "not" && head != "hint-enabled" && head != "hint-cooled-down"
  {
    if g.Cmp? { CmpNameCompiles(g.op); }
  }

  lemma CmpFormCompiles(op: CmpOp, lhs: ValueExpr, rhs: ValueExpr)
    requires ValidValue(lhs) && ValidValue(rhs)
    ensures Compile(GateForm(Cmp(op, lhs, rhs))) == Success(Cmp(op, lhs, rhs))
  {
    CmpNameCompiles(op);
    LeafForm(CmpName(op), [ValueForm(lhs), ValueForm(rhs)]);
    ValueFormCompiles(lhs);
    ValueFormCompiles(rhs);
    ShortLeaf(CmpName(op), [Sym(CmpName(op)), ValueForm(lhs), ValueForm(rhs)]);
  }

  /** No other leaf has a head of two characters. */
  lemma ShortLeaf(head: string, items: seq<RawSexpr>)
    requires |head| == 2 && |items| == 3 && OpToCmp(head).Some?
    requires CompileValue(items[1]).Success? && CompileValue(items[2]).Success?
    ensures CompileLeaf(head, items) ==
      Success(Cmp(OpToCmp(head).value, CompileValue(items[1]).value, CompileValue(items[2]).value))
  {
  }

  lemma {:induction false} FlattenNormalIsIdentity(cs: seq<GateExpr>)
    ensures NormalExcept(cs, true) ==> FlattenAnd(cs) == cs
    ensures NormalExcept(cs, false) ==> FlattenOr(cs) == cs
  {
    if cs != [] {
      FlattenNormalIsIdentity(cs[1..]);
      assert cs == [cs[0]] + cs[1..];
    }
  }

  lemma JoinNormalIsIdentity(xs: seq<GateExpr>)
    ensures Normal(And(xs)) ==> JoinAnd(xs) == And(xs)
    ensures Normal(Or(xs)) ==> JoinOr(xs) == Or(xs)
  {
    FlattenNormalIsIdentity(xs);
    if Normal(And(xs)) || Normal(Or(xs)) {
      assert forall i :: 0 <= i < |xs| ==> Normal(xs[i]);
      assert !Normal(True) && !Normal(False);
      assert True !in xs && False !in xs;
      assert Normal(And(xs)) ==> NormalExcept(xs, true);
      assert Normal(Or(xs)) ==> NormalExcept(xs, false);
    }
  }

  lemma {:induction false} GateFormCompiles(g: GateExpr)
    requires NormalForm(g) && WellFormed(g)
    ensures Compile(GateForm(g)) == Success(g)
    decreases g, 1
  {
    match g
    case And(xs) =>
      assert ([Sym("and")] + GateForms(xs))[1..] == GateForms(xs);
      GateFormsCompile(xs);
      JoinNormalIsIdentity(xs);
    case Or(xs) =>
      assert ([Sym("or")] + GateForms(xs))[1..] == GateForms(xs);
      GateFormsCompile(xs);
      JoinNormalIsIdentity(xs);
    case Not(x) =>
      GateFormCompiles(x);
    case _ => LeafFormCompiles(g);
  }

  lemma {:induction false} GateFormsCompile(gs: seq<GateExpr>)
    requires forall i :: 0 <= i < |gs| ==> NormalForm(gs[i]) && WellFormed(gs[i])
    ensures CompileAll(GateForms(gs)) == Success(gs)
    decreases gs, 0
  {
    if gs != [] {
      GateFormCompiles(gs[0]);
      GateFormsCompile(gs[1..]);
      assert gs == [gs[0]] + gs[1..];
      assert GateForms(gs)[1..] == GateForms(gs[1..]);
    }
  }

  // ----- what comes out of printable input is well formed -----

  lemma PuzzleRefValid(e: RawSexpr)
    requires Printable(e)
    ensures ParsePuzzleRef(e).Success? ==> ValidPuzzle(ParsePuzzleRef(e).value)
    ensures ParseRoundRef(e).Success? ==> ValidRound(ParseRoundRef(e).value)
  {
  }

  lemma {:induction false} PuzzleRefsValid(es: seq<RawSexpr>)
    requires forall i :: 0 <= i < |es| ==> Printable(es[i])
    ensures ParsePuzzleRefs(es).Success? ==> ValidSet(Puzzles(ParsePuzzleRefs(es).value))
  {
    if es != [] {
      PuzzleRefValid(es[0]);
      PuzzleRefsValid(es[1..]);
    }
  }

  lemma SetValid(e: RawSexpr)
    requires Printable(e)
    ensures CompileSet(e).Success? ==> ValidSet(CompileSet(e).value)
  {
    if e.List? && e.items != [] {
      PuzzleRefsValid(e.items[1..]);
      if |e.items| == 2 { PuzzleRefValid(e.items[1]); }
    }
  }

  lemma LeafWellFormed(head: string, items: seq<RawSexpr>)
    requires items != [] && Printable(List(items))
    ensures CompileLeaf(head, items).Success? ==> WellFormed(CompileLeaf(head, items).value)
  {
    if |items| >= 2 {
      PuzzleRefValid(items[1]);
      SetValid(items[1]);
      if items[1].List? && |items[1].items| == 2 { SetValid(items[1].items[1]); }
      if |items| == 3 && items[2].List? && |items[2].items| == 2 { SetValid(items[2].items[1]); }
    }
  }

  lemma {:induction false} FlattenWellFormed(cs: seq<GateExpr>)
    requires forall i :: 0 <= i < |cs| ==> WellFormed(cs[i])
    ensures WellFormed(And(FlattenAnd(cs))) && WellFormed(And(FlattenOr(cs)))
  {
    if cs != [] {
      FlattenWellFormed(cs[1..]);
      assert WellFormed(cs[0]);
    }
  }

  lemma {:induction false} CompileWellFormed(e: RawSexpr)
    requires Printable(e)
    ensures Compile(e).Success? ==> WellFormed(Compile(e).value)
    decreases e, 1
  {
    if e.List? && e.items != [] && e.items[0].Sym? {
      var items, head := e.items, e.items[0].text;
      if head == "and" || head == "or" {
        CompileAllWellFormed(items[1..]);
        if CompileAll(items[1..]).Success? {
          FlattenWellFormed(CompileAll(items[1..]).value);
        }
      } else if head == "not" {
        if |items| == 2 { CompileWellFormed(items[1]); }
      } else {
        LeafWellFormed(head, items);
      }
    }
  }

  lemma {:induction false} CompileAllWellFormed(es: seq<RawSexpr>)
    requires forall i :: 0 <= i < |es| ==> Printable(es[i])
    ensures CompileAll(es).Success? ==> forall i :: 0 <= i < |es| ==> WellFormed(CompileAll(es).value[i])
    decreases es, 0
  {
    if es != [] {
      CompileWellFormed(es[0]);
      CompileAllWellFormed(es[1..]);
    }
  }

  // ----- printable forms -----

  lemma AsciiAtom(s: string)
    requires s != "" && forall i :: 0 <= i < |s| ==> IsLetter(s[i]) || IsDigit(s[i]) || s[i] == '_' || s[i] == '-'
    ensures ValidAtom(s)
  {
    forall i | 0 <= i < |s| { AsciiKind(s[i]); }
  }

  lemma FormPrintable(head: string, args: seq<RawSexpr>)
    requires head != "" && forall i :: 0 <= i < |head| ==> IsLetter(head[i]) || head[i] == '-'
    requires forall i :: 0 <= i < |args| ==> Printable(args[i])
    ensures Printable(Form(head, args))
  {
    AsciiAtom(head);
    var items := [Sym(head)] + args;
    forall i | 0 <= i < |items| ensures Printable(items[i]) {
      if i > 0 { assert items[i] == args[i - 1]; }
    }
  }

  lemma PuzzleWordPrintable(p: PuzzleRef)
    requires ValidPuzzle(p)
    ensures Printable(PuzzleWord(p))
  {
    if p.PuzzleId? { AsciiAtom(Dec(p.id)); }
  }

  lemma SetFormPrintable(s: SetExpr)
    requires ValidSet(s)
    ensures Printable(SetForm(s))
  {
    match s
    case Puzzles(refs) =>
      forall i | 0 <= i < |refs| ensures Printable(PuzzleWord(refs[i])) { PuzzleWordPrintable(refs[i]); }
      FormPrintable("puzzles", PuzzleWords(refs));
    case PuzzleRange(a, b) =>
      AsciiAtom(Dec(a));
      AsciiAtom(Dec(b));
      FormPrintable("puzzle-range", [Sym(Dec(a)), Sym(Dec(b))]);
    case Round(r) =>
      if r.RoundId? { AsciiAtom(Dec(r.id)); }
      FormPrintable("round", [RoundWord(r)]);
  }

  lemma ValueFormPrintable(v: ValueExpr)
    requires ValidValue(v)
    ensures Printable(ValueForm(v))
  {
    match v
    case SolvedCount(s) =>
      SetFormPrintable(s);
      FormPrintable("solved-count", [SetForm(s)]);
    case Number(n) => AsciiAtom(Dec(n));
  }

  lemma {:induction false} GateFormPrintable(g: GateExpr)
    requires WellFormed(g)
    ensures Printable(GateForm(g))
    decreases g, 1
  {
    match g
    case True => FormPrintable("true", []);
    case False => FormPrintable("false", []);
    case GameStarted => FormPrintable("game-started", []);
    case And(xs) =>
      GateFormsPrintable(xs);
      FormPrintable("and", GateForms(xs));
    case Or(xs) =>
      GateFormsPrintable(xs);
      FormPrintable("or", GateForms(xs));
    case Not(x) =>
      GateFormPrintable(x);
      FormPrintable("not", [GateForm(x)]);
    case Solved(p) =>
      PuzzleWordPrintable(p);
      FormPrintable("solved", [PuzzleWord(p)]);
    case AllSolved(s) =>
      SetFormPrintable(s);
      FormPrintable("all-solved", [SetForm(s)]);
    case AnySolved(s) =>
      SetFormPrintable(s);
      FormPrintable("any-solved", [SetForm(s)]);
    case Triggered(p, key) =>
      PuzzleWordPrintable(p);
      AsciiAtom(key);
      FormPrintable("triggered", [PuzzleWord(p), Sym(key)]);
    case Cmp(op, lhs, rhs) =>
      ValueFormPrintable(lhs);
      ValueFormPrintable(rhs);
      FormPrintable(CmpName(op), [ValueForm(lhs), ValueForm(rhs)]);
  }

  lemma {:induction false} GateFormsPrintable(gs: seq<GateExpr>)
    requires forall i :: 0 <= i < |gs| ==> WellFormed(gs[i])
    ensures forall i :: 0 <= i < |GateForms(gs)| ==> Printable(GateForms(gs)[i])
    decreases gs, 0
  {
    if gs != [] {
      GateFormPrintable(gs[0]);
      GateFormsPrintable(gs[1..]);
    }
  }

  lemma {:induction false} TokensPrintable(e: RawSexpr)
    requires forall i :: 0 <= i < |Print(e)| ==> ValidToken(Print(e)[i])
    ensures Printable(e)
    decreases e, 1
  {
    var ts := Print(e);
    match e
    case Sym(text) => assert ValidToken(ts[0]);
    case List(items) =>
      forall i | 0 <= i < |PrintAll(items)| ensures ValidToken(PrintAll(items)[i]) {
        assert ts[i + 1] == PrintAll(items)[i];
      }
      AllTokensPrintable(items);
  }

  lemma {:induction false} AllTokensPrintable(es: seq<RawSexpr>)
    requires forall i :: 0 <= i < |PrintAll(es)| ==> ValidToken(PrintAll(es)[i])
    ensures forall i :: 0 <= i < |es| ==> Printable(es[i])
    decreases es, 0
  {
    if es != [] {
      var ts, a, b := PrintAll(es), Print(es[0]), PrintAll(es[1..]);
      forall i | 0 <= i < |a| ensures ValidToken(a[i]) { assert ts[i] == a[i]; }
      forall i | 0 <= i < |b| ensures ValidToken(b[i]) { assert ts[|a| + i] == b[i]; }
      TokensPrintable(es[0]);
      AllTokensPrintable(es[1..]);
    }
  }

  lemma ParsedIsPrintable(s: string)
    ensures ParseText(s).Success? ==> Printable(ParseText(s).value)
  {
    if ParseText(s).Success? {
      var e := ParseText(s).value;
      ParseTextExact(s, e);
      var gaps :| ValidGaps(Print(e), gaps) && s == Render(Print(e), gaps);
      TokensPrintable(e);
    }
  }

  /** A source text for a gate. */
  function GateText(g: GateExpr): string {
    Spaced(Print(GateForm(g)))
  }

  /** Round trip: a well-formed normal gate, written out and compiled, is itself again. */
  lemma GateTextCompiles(g: GateExpr)
    requires NormalForm(g) && WellFormed(g)
    ensures CompileText(GateText(g)) == Success(g)
  {
    GateFormPrintable(g);
    TextRoundTrip(GateForm(g), [""]);
    GateFormCompiles(g);
  }

  /** The exact range of the compiler over all texts. */
  lemma CompilerRange(g: GateExpr)
    ensures (exists text :: CompileText(text) == Success(g)) <==> NormalForm(g) && WellFormed(g)
  {
    if NormalForm(g) && WellFormed(g) {
      GateTextCompiles(g);
    }
    forall text | CompileText(text) == Success(g)
      ensures NormalForm(g) && WellFormed(g)
    {
      var e := ParseText(text).value;
      ParsedIsPrintable(text);
      CompileNormalForm(e);
      CompileWellFormed(e);
    }
  }

  /** Compiling the written form of any compiled gate changes nothing more. */
  lemma RecompileIsIdentity(text: string)
    requires CompileText(text).Success?
    ensures CompileText(GateText(CompileText(text).value)) == CompileText(text)
  {
    CompilerRange(CompileText(text).value);
    GateTextCompiles(CompileText(text).value);
  }
}
