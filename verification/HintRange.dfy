/** Which hint expressions the compiler can return, and a text for each of them
    (src/expr/compiler.rs:272-365, src/expr/mod.rs:79-82). */
module HintRange {
  import opened Common
  import opened Lexer
  import opened Parser
  import opened Gate
  import opened HintDisplay
  import GateCompiler
  import GateRange
  import CompileCache

  /** The gates at the leaves are well formed. */
  predicate HintWellFormed(h: HintExpr) {
    match h
    case HGate(g) => GateRange.WellFormed(g)
    case HAnd(xs) => forall i :: 0 <= i < |xs| ==> HintWellFormed(xs[i])
    case HOr(xs) => forall i :: 0 <= i < |xs| ==> HintWellFormed(xs[i])
    case HNot(x) => HintWellFormed(x)
    case _ => true
  }

  /** `compile_hint_display_expr_uncached`, with structured errors. */
  function CompileHintText(text: string): Result<HintExpr, GateCompiler.SourceError> {
    match ParseText(text)
    case Failure(e) => Failure(GateCompiler.Syntax(e))
    case Success(sexpr) =>
      match CompileHint(sexpr)
      case Failure(e) => Failure(GateCompiler.Semantic(e))
      case Success(h) => Success(h)
  }

  // ----- an expression for every hint expression -----

  function HintForm(h: HintExpr): RawSexpr
    decreases h, 1
  {
    match h
    case HGate(g) => GateRange.GateForm(g)
    case HAnd(xs) => GateRange.Form("and", HintForms(xs))
    case HOr(xs) => GateRange.Form("or", HintForms(xs))
    case HNot(x) => GateRange.Form("not", [HintForm(x)])
    case HintEnabled => GateRange.Form("hint-enabled", [])
    case HintCooledDown => GateRange.Form("hint-cooled-down", [])
  }

  function HintForms(hs: seq<HintExpr>): seq<RawSexpr>
    decreases hs, 0
  {
    if hs == [] then [] else [HintForm(hs[0])] + HintForms(hs[1..])
  }

  // ----- compiling a form gives the hint expression back -----

  lemma {:induction false} FlattenNormalIsIdentity(cs: seq<HintExpr>)
    ensures NormalExcept(cs, true) ==> FlattenAnd(cs) == cs
    ensures NormalExcept(cs, false) ==> FlattenOr(cs) == cs
  {
    if cs != [] {
      FlattenNormalIsIdentity(cs[1..]);
      assert cs == [cs[0]] + cs[1..];
    }
  }

  lemma JoinNormalIsIdentity(xs: seq<HintExpr>)
    ensures HintNormal(HAnd(xs)) ==> JoinAnd(xs) == HAnd(xs)
    ensures HintNormal(HOr(xs)) ==> JoinOr(xs) == HOr(xs)
  {
    FlattenNormalIsIdentity(xs);
    if HintNormal(HAnd(xs)) || HintNormal(HOr(xs)) {
      assert forall i :: 0 <= i < |xs| ==> HintNormal(xs[i]);
      assert !HintNormal(HGate(True)) && !HintNormal(HGate(False));
      assert HGate(True) !in xs && HGate(False) !in xs;
      assert HintNormal(HAnd(xs)) ==> NormalExcept(xs, true);
      assert HintNormal(HOr(xs)) ==> NormalExcept(xs, false);
    }
  }

  /** A leaf of the gate language stands for itself. */
  lemma GateLeafCompiles(g: GateExpr)
    requires GateRange.WellFormed(g) && !g.And? && !g.Or? && !g.Not?
    ensures CompileHint(GateRange.GateForm(g)) == Success(HGate(g))
  {
    GateRange.LeafFormCompiles(g);
    GateRange.LeafHead(g);
  }

  lemma ConnectiveCompiles(forms: seq<RawSexpr>, xs: seq<HintExpr>)
    requires CompileHints(forms) == Success(xs)
    ensures CompileHint(GateRange.Form("and", forms)) == Success(JoinAnd(xs))
    ensures CompileHint(GateRange.Form("or", forms)) == Success(JoinOr(xs))
  {
    assert ([Sym("and")] + forms)[1..] == forms;
    assert ([Sym("or")] + forms)[1..] == forms;
  }

  lemma NegationCompiles(form: RawSexpr, x: HintExpr)
    requires CompileHint(form) == Success(x)
    ensures CompileHint(GateRange.Form("not", [form])) == Success(NegateHint(x))
  {
  }

  lemma {:induction false} HintFormCompiles(h: HintExpr)
    requires HintNormalForm(h) && HintWellFormed(h)
    ensures CompileHint(HintForm(h)) == Success(h)
    decreases h, 1
  {
    match h
    case HGate(g) => GateLeafCompiles(g);
    case HAnd(xs) =>
      HintFormsCompile(xs);
      ConnectiveCompiles(HintForms(xs), xs);
      JoinNormalIsIdentity(xs);
    case HOr(xs) =>
      HintFormsCompile(xs);
      ConnectiveCompiles(HintForms(xs), xs);
      JoinNormalIsIdentity(xs);
    case HNot(x) =>
      HintFormCompiles(x);
      NegationCompiles(HintForm(x), x);
    case _ =>
  }

  lemma {:induction false} HintFormsCompile(hs: seq<HintExpr>)
    requires forall i :: 0 <= i < |hs| ==> HintNormalForm(hs[i]) && HintWellFormed(hs[i])
    ensures CompileHints(HintForms(hs)) == Success(hs)
    decreases hs, 0
  {
    if hs != [] {
      HintFormCompiles(hs[0]);
      HintFormsCompile(hs[1..]);
      assert hs == [hs[0]] + hs[1..];
      assert HintForms(hs)[1..] == HintForms(hs[1..]);
    }
  }

  // ----- what comes out of printable input is well formed -----

  lemma {:induction false} FlattenWellFormed(cs: seq<HintExpr>)
    requires forall i :: 0 <= i < |cs| ==> HintWellFormed(cs[i])
    ensures HintWellFormed(HAnd(FlattenAnd(cs))) && HintWellFormed(HAnd(FlattenOr(cs)))
  {
    if cs != [] {
      FlattenWellFormed(cs[1..]);
      assert HintWellFormed(cs[0]);
    }
  }

  lemma {:induction false} CompileHintWellFormed(e: RawSexpr)
    requires Printable(e)
    ensures CompileHint(e).Success? ==> HintWellFormed(CompileHint(e).value)
    decreases e, 1
  {
    if e.List? && e.items != [] && e.items[0].Sym? {
      var items, head := e.items, e.items[0].text;
      if head == "and" || head == "or" {
        CompileHintsWellFormed(items[1..]);
        if CompileHints(items[1..]).Success? {
          FlattenWellFormed(CompileHints(items[1..]).value);
        }
      } else if head == "not" {
        if |items| == 2 { CompileHintWellFormed(items[1]); }
      } else {
        GateRange.CompileWellFormed(e);
      }
    }
  }

  lemma {:induction false} CompileHintsWellFormed(es: seq<RawSexpr>)
    requires forall i :: 0 <= i < |es| ==> Printable(es[i])
    ensures CompileHints(es).Success? ==> forall i :: 0 <= i < |es| ==> HintWellFormed(CompileHints(es).value[i])
    decreases es, 0
  {
    if es != [] {
      CompileHintWellFormed(es[0]);
      CompileHintsWellFormed(es[1..]);
    }
  }

  // ----- printable forms -----

  lemma {:induction false} HintFormPrintable(h: HintExpr)
    requires HintWellFormed(h)
    ensures Printable(HintForm(h))
    decreases h, 1
  {
    match h
    case HGate(g) => GateRange.GateFormPrintable(g);
    case HAnd(xs) =>
      HintFormsPrintable(xs);
      GateRange.FormPrintable("and", HintForms(xs));
    case HOr(xs) =>
      HintFormsPrintable(xs);
      GateRange.FormPrintable("or", HintForms(xs));
    case HNot(x) =>
      HintFormPrintable(x);
      GateRange.FormPrintable("not", [HintForm(x)]);
    case HintEnabled => GateRange.FormPrintable("hint-enabled", []);
    case HintCooledDown => GateRange.FormPrintable("hint-cooled-down", []);
  }

  lemma {:induction false} HintFormsPrintable(hs: seq<HintExpr>)
    requires forall i :: 0 <= i < |hs| ==> HintWellFormed(hs[i])
    ensures forall i :: 0 <= i < |HintForms(hs)| ==> Printable(HintForms(hs)[i])
    decreases hs, 0
  {
    if hs != [] {
      HintFormPrintable(hs[0]);
      HintFormsPrintable(hs[1..]);
    }
  }

  /** A source text for a hint expression. */
  function HintText(h: HintExpr): string {
    Spaced(Print(HintForm(h)))
  }

  /** Round trip: a well-formed normal hint expression, written out and compiled, is itself again. */
  lemma HintTextCompiles(h: HintExpr)
    requires HintNormalForm(h) && HintWellFormed(h)
    ensures CompileHintText(HintText(h)) == Success(h)
  {
    HintFormPrintable(h);
    TextRoundTrip(HintForm(h), [""]);
    HintFormCompiles(h);
  }

  /** The exact range of the hint compiler over all texts. */
  lemma HintCompilerRange(h: HintExpr)
    ensures (exists text :: CompileHintText(text) == Success(h)) <==> HintNormalForm(h) && HintWellFormed(h)
  {
    if HintNormalForm(h) && HintWellFormed(h) {
      HintTextCompiles(h);
    }
    forall text | CompileHintText(text) == Success(h)
      ensures HintNormalForm(h) && HintWellFormed(h)
    {
      var e := ParseText(text).value;
      GateRange.ParsedIsPrintable(text);
      CompileHintNormalForm(e);
      CompileHintWellFormed(e);
    }
  }

  /** For the hint cache: whatever a thread gets back is the uncached result for its text. */
  lemma CachedHintIsUncached(events: seq<CompileCache.Event>, t: nat)
    ensures
      var s := CompileCache.Run(text => CompileHintText(text), events);
      t in s.threads && s.threads[t].Returned? ==> s.threads[t].result == CompileHintText(s.threads[t].key)
  {
    CompileCache.EveryRunKeepsInvariant(text => CompileHintText(text), events);
  }
}
