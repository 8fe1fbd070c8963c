/** The simplifying gate compiler (src/expr/compiler.rs). */
module GateCompiler {
  import opened Common
  import opened Parser
  import opened Gate

  datatype CompileError =
    | BadForm(message: string)
    | UnknownOp(op: string)
    | ExpectedAtom
    | ExpectedNumber
    | ExpectedSetExpr
    | ExpectedValueExpr

  type Compiled<T> = Result<T, CompileError>

  const U32_MAX: nat := 0xFFFF_FFFF
  const USIZE_MAX: nat := 0xFFFF_FFFF_FFFF_FFFF

  function AtomText(e: RawSexpr): Compiled<string> {
    match e
    case Sym(text) => Success(text)
    case List(_) => Failure(ExpectedAtom)
  }

  predicate IsDigit(c: char) {
    '0' <= c <= '9'
  }

  predicate AllDigits(s: string) {
    forall i :: 0 <= i < |s| ==> IsDigit(s[i])
  }

  function DigitsValue(s: string): nat
    requires AllDigits(s)
  {
    if s == "" then 0
    else
      assert IsDigit(s[|s| - 1]);
      10 * DigitsValue(s[..|s| - 1]) + (s[|s| - 1] as int - '0' as int)
  }

  /** `str::parse` for an unsigned type: one optional `+`, at least one digit, no overflow. */
  function ParseUnsigned(s: string, max: nat): Option<nat> {
    var digits := if |s| > 1 && s[0] == '+' then s[1..] else s;
    if digits != "" && AllDigits(digits) then
      var n := DigitsValue(digits);
      if n <= max then Some(n) else None
    else
      None
  }

  function ParseU32(e: RawSexpr): Compiled<nat> {
    var a :- AtomText(e);
    match ParseUnsigned(a, U32_MAX)
    case Some(n) => Success(n)
    case None => Failure(ExpectedNumber)
  }

  function ParseUsize(e: RawSexpr): Compiled<nat> {
    var a :- AtomText(e);
    match ParseUnsigned(a, USIZE_MAX)
    case Some(n) => Success(n)
    case None => Failure(ExpectedNumber)
  }

  function ParsePuzzleRef(e: RawSexpr): Compiled<PuzzleRef> {
    var a :- AtomText(e);
    match ParseUnsigned(a, U32_MAX)
    case Some(n) => Success(PuzzleId(n))
    case None => Success(PuzzleSlug(a))
  }

  function ParseRoundRef(e: RawSexpr): Compiled<RoundRef> {
    var a :- AtomText(e);
    match ParseUnsigned(a, U32_MAX)
    case Some(n) => Success(RoundId(n))
    case None => Success(RoundSlug(a))
  }

  function ParsePuzzleRefs(es: seq<RawSexpr>): Compiled<seq<PuzzleRef>> {
    if es == [] then Success([])
    else
      var p :- ParsePuzzleRef(es[0]);
      var ps :- ParsePuzzleRefs(es[1..]);
      Success([p] + ps)
  }

  function OpToCmp(op: string): Option<CmpOp> {
    if op == "gt" then Some(Gt)
    else if op == "ge" then Some(Ge)
    else if op == "lt" then Some(Lt)
    else if op == "le" then Some(Le)
    else if op == "eq" then Some(Eq)
    else if op == "ne" then Some(Ne)
    else None
  }

  function CompileSet(e: RawSexpr): Compiled<SetExpr> {
    match e
    case Sym(_) => Failure(ExpectedSetExpr)
    case List(items) =>
      if items == [] then Failure(BadForm("empty list"))
      else
        var head :- AtomText(items[0]);
        if head == "puzzles" then
          var refs :- ParsePuzzleRefs(items[1..]);
          Success(Puzzles(refs))
        else if head == "puzzle-range" then
          if |items| != 3 then Failure(BadForm("puzzle-range expects 2 args"))
          else
            var start :- ParseU32(items[1]);
            var end :- ParseU32(items[2]);
            Success(PuzzleRange(start, end))
        else if head == "round" then
          if |items| != 2 then Failure(BadForm("round expects 1 arg"))
          else
            var r :- ParseRoundRef(items[1]);
            Success(Round(r))
        else
          Failure(ExpectedSetExpr)
  }

  function CompileValue(e: RawSexpr): Compiled<ValueExpr> {
    match e
    case Sym(_) =>
      var n :- ParseUsize(e);
      Success(Number(n))
    case List(items) =>
      if items == [] then Failure(BadForm("empty list"))
      else
        var head :- AtomText(items[0]);
        if head == "solved-count" then
          if |items| != 2 then Failure(BadForm("solved-count expects 1 set arg"))
          else
            var s :- CompileSet(items[1]);
            Success(SolvedCount(s))
        else
          Failure(ExpectedValueExpr)
  }

  predicate IsLetter(c: char) {
    'a' <= c <= 'z' || 'A' <= c <= 'Z'
  }

  predicate ValidTriggerKey(key: string) {
    && 0 < |key| <= 64
    && IsLetter(key[0])
    && forall i :: 0 < i < |key| ==> IsLetter(key[i]) || IsDigit(key[i]) || key[i] == '_' || key[i] == '-'
  }

  /** Every form whose compilation involves no other gate. */
  function CompileLeaf(head: string, items: seq<RawSexpr>): Compiled<GateExpr>
    requires items != []
  {
    if head == "true" then
      if |items| != 1 then Failure(BadForm("true expects 0 arg")) else Success(True)
    else if head == "false" then
      if |items| != 1 then Failure(BadForm("false expects 0 arg")) else Success(False)
    else if head == "solved" then
      if |items| != 2 then Failure(BadForm("solved expects 1 arg"))
      else
        var p :- ParsePuzzleRef(items[1]);
        Success(Solved(p))
    else if head == "all-solved" then
      if |items| != 2 then Failure(BadForm("all-solved expects 1 set arg"))
      else
        var s :- CompileSet(items[1]);
        Success(AllSolved(s))
    else if head == "any-solved" then
      if |items| != 2 then Failure(BadForm("any-solved expects 1 set arg"))
      else
        var s :- CompileSet(items[1]);
        Success(AnySolved(s))
    else if head == "game-started" then
      if |items| != 1 then Failure(BadForm("game-started expects 0 arg")) else Success(GameStarted)
    else if head == "triggered" then
      if |items| != 3 then Failure(BadForm("triggered expects 2 args"))
      else
        var key :- AtomText(items[2]);
        if !ValidTriggerKey(key) then Failure(BadForm("invalid trigger key"))
        else
          var p :- ParsePuzzleRef(items[1]);
          Success(Triggered(p, key))
    else
      match OpToCmp(head)
      case Some(op) =>
        if |items| != 3 then Failure(BadForm("comparison expects 2 args"))
        else
          var lhs :- CompileValue(items[1]);
          var rhs :- CompileValue(items[2]);
          Success(Cmp(op, lhs, rhs))
      case None => Failure(UnknownOp(head))
  }

  // ----- the simplifying connectives -----

  /** What one compiled child adds to a conjunction. */
  function AndPart(c: GateExpr): seq<GateExpr> {
    match c
    case True => []
    case And(xs) => xs
    case _ => [c]
  }

  /** What one compiled child adds to a disjunction. */
  function OrPart(c: GateExpr): seq<GateExpr> {
    match c
    case False => []
    case Or(xs) => xs
    case _ => [c]
  }

  function FlattenAnd(cs: seq<GateExpr>): seq<GateExpr> {
    if cs == [] then [] else AndPart(cs[0]) + FlattenAnd(cs[1..])
  }

  function FlattenOr(cs: seq<GateExpr>): seq<GateExpr> {
    if cs == [] then [] else OrPart(cs[0]) + FlattenOr(cs[1..])
  }

  function JoinAnd(cs: seq<GateExpr>): GateExpr {
    if False in cs then False
    else
      var flat := FlattenAnd(cs);
      if |flat| == 0 then True else if |flat| == 1 then flat[0] else And(flat)
  }

  function JoinOr(cs: seq<GateExpr>): GateExpr {
    if True in cs then True
    else
      var flat := FlattenOr(cs);
      if |flat| == 0 then False else if |flat| == 1 then flat[0] else Or(flat)
  }

  function Negate(g: GateExpr): GateExpr {
    match g
    case True => False
    case False => True
    case Not(inner) => inner
    case _ => Not(g)
  }

  /** `compile_gate`. */
  function Compile(e: RawSexpr): Compiled<GateExpr>
    decreases e, 1
  {
    match e
    case Sym(_) => Failure(BadForm("bare atom not allowed"))
    case List(items) =>
      if items == [] then Failure(BadForm("empty list"))
      else
        var head :- AtomText(items[0]);
        if head == "and" then
          var cs :- CompileAll(items[1..]);
          Success(JoinAnd(cs))
        else if head == "or" then
          var cs :- CompileAll(items[1..]);
          Success(JoinOr(cs))
        else if head == "not" then
          if |items| != 2 then Failure(BadForm("not expects 1 arg"))
          else
            var inner :- Compile(items[1]);
            Success(Negate(inner))
        else
          CompileLeaf(head, items)
  }

  /** The children in order, or the first error among them. */
  function CompileAll(es: seq<RawSexpr>): (r: Compiled<seq<GateExpr>>)
    ensures r.Success? ==> |r.value| == |es|
    decreases es, 0
  {
    if es == [] then Success([])
    else
      var c :- Compile(es[0]);
      var cs :- CompileAll(es[1..]);
      Success([c] + cs)
  }

  lemma CollectStep(done: seq<GateExpr>, items: seq<RawSexpr>, i: nat)
    requires i < |items|
    ensures
      var c, rest, now := Compile(items[i]), CompileAll(items[i + 1..]), CompileAll(items[i..]);
      if c.Failure? then now == Failure(c.error)
      else if rest.Failure? then now == rest
      else now.Success? && done + now.value == (done + [c.value]) + rest.value
  {
    assert items[i..][1..] == items[i + 1..];
  }

  /** Collecting the compiled children stops at the first error. */
  method CompileChildren(items: seq<RawSexpr>) returns (r: Compiled<seq<GateExpr>>)
    ensures r == CompileAll(items)
  {
    var children: seq<GateExpr> := [];
    ghost var whole := CompileAll(items);
    assert items[0..] == items;
    assert whole.Success? ==> children + whole.value == whole.value;
    for i := 0 to |items|
      invariant CompileAll(items[i..]).Failure? ==> whole == CompileAll(items[i..])
      invariant CompileAll(items[i..]).Success? ==> whole == Success(children + CompileAll(items[i..]).value)
    {
      CollectStep(children, items, i);
      var c := Compile(items[i]);
      if c.Failure? {
        return Failure(c.error);
      }
      children := children + [c.value];
    }
    assert children + [] == children;
    r := Success(children);
  }

  /** The loop of `compile_gate_and` that drops, splices and pushes the compiled children. */
  method SpliceAnd(children: seq<GateExpr>) returns (compiled: seq<GateExpr>)
    ensures compiled == FlattenAnd(children)
  {
    compiled := [];
    ghost var whole := FlattenAnd(children);
    assert children[0..] == children && compiled + whole == whole;
    for i := 0 to |children|
      invariant compiled + FlattenAnd(children[i..]) == whole
    {
      FlattenStep(compiled, children, i);
      match children[i] {
        case True => compiled := compiled + [];
        case And(xs) => compiled := compiled + xs;
        case c => compiled := compiled + [c];
      }
    }
    assert compiled + [] == compiled;
  }

  /** `compile_gate_and`. */
  method CompileGateAnd(items: seq<RawSexpr>) returns (r: Compiled<GateExpr>)
    ensures r == (var cs :- CompileAll(items); Success(JoinAnd(cs)))
  {
    var children := CompileChildren(items);
    if children.Failure? {
      return Failure(children.error);
    }
    if exists i :: 0 <= i < |children.value| && children.value[i] == False {
      return Success(False);
    }
    var compiled := SpliceAnd(children.value);
    r := Success(if |compiled| == 0 then True else if |compiled| == 1 then compiled[0] else And(compiled));
  }

  /** The loop of `compile_gate_or` that drops, splices and pushes the compiled children. */
  method SpliceOr(children: seq<GateExpr>) returns (compiled: seq<GateExpr>)
    ensures compiled == FlattenOr(children)
  {
    compiled := [];
    ghost var whole := FlattenOr(children);
    assert children[0..] == children && compiled + whole == whole;
    for i := 0 to |children|
      invariant compiled + FlattenOr(children[i..]) == whole
    {
      FlattenStep(compiled, children, i);
      match children[i] {
        case False => compiled := compiled + [];
        case Or(xs) => compiled := compiled + xs;
        case c => compiled := compiled + [c];
      }
    }
    assert compiled + [] == compiled;
  }

  /** `compile_gate_or`. */
  method CompileGateOr(items: seq<RawSexpr>) returns (r: Compiled<GateExpr>)
    ensures r == (var cs :- CompileAll(items); Success(JoinOr(cs)))
  {
    var children := CompileChildren(items);
    if children.Failure? {
      return Failure(children.error);
    }
    if exists i :: 0 <= i < |children.value| && children.value[i] == True {
      return Success(True);
    }
    var compiled := SpliceOr(children.value);
    r := Success(if |compiled| == 0 then False else if |compiled| == 1 then compiled[0] else Or(compiled));
  }

  lemma FlattenStep(done: seq<GateExpr>, cs: seq<GateExpr>, i: nat)
    requires i < |cs|
    ensures done + FlattenAnd(cs[i..]) == (done + AndPart(cs[i])) + FlattenAnd(cs[i + 1..])
    ensures done + FlattenOr(cs[i..]) == (done + OrPart(cs[i])) + FlattenOr(cs[i + 1..])
  {
    assert cs[i..][1..] == cs[i + 1..];
  }

  /** The `puzzles` arm of `compile_set`: references pushed one by one. */
  method CollectPuzzleRefs(items: seq<RawSexpr>) returns (r: Compiled<seq<PuzzleRef>>)
    ensures r == ParsePuzzleRefs(items)
  {
    var ids: seq<PuzzleRef> := [];
    ghost var whole := ParsePuzzleRefs(items);
    assert items[0..] == items;
    assert whole.Success? ==> ids + whole.value == whole.value;
    for i := 0 to |items|
      invariant ParsePuzzleRefs(items[i..]).Failure? ==> whole == ParsePuzzleRefs(items[i..])
      invariant ParsePuzzleRefs(items[i..]).Success? ==> whole == Success(ids + ParsePuzzleRefs(items[i..]).value)
    {
      assert items[i..][1..] == items[i + 1..];
      var p := ParsePuzzleRef(items[i]);
      if p.Failure? {
        return Failure(p.error);
      }
      ghost var rest := ParsePuzzleRefs(items[i + 1..]);
      assert rest.Success? ==> ids + ([p.value] + rest.value) == (ids + [p.value]) + rest.value;
      ids := ids + [p.value];
    }
    assert ids + [] == ids;
    r := Success(ids);
  }

  // ----- the unsimplified compiler, as the reference -----

  function Plain(e: RawSexpr): Compiled<GateExpr>
    decreases e, 1
  {
    match e
    case Sym(_) => Failure(BadForm("bare atom not allowed"))
    case List(items) =>
      if items == [] then Failure(BadForm("empty list"))
      else
        var head :- AtomText(items[0]);
        if head == "and" then
          var cs :- PlainAll(items[1..]);
          Success(And(cs))
        else if head == "or" then
          var cs :- PlainAll(items[1..]);
          Success(Or(cs))
        else if head == "not" then
          if |items| != 2 then Failure(BadForm("not expects 1 arg"))
          else
            var inner :- Plain(items[1]);
            Success(Not(inner))
        else
          CompileLeaf(head, items)
  }

  function PlainAll(es: seq<RawSexpr>): (r: Compiled<seq<GateExpr>>)
    ensures r.Success? ==> |r.value| == |es|
    decreases es, 0
  {
    if es == [] then Success([])
    else
      var c :- Plain(es[0]);
      var cs :- PlainAll(es[1..]);
      Success([c] + cs)
  }

  // ----- meaning is preserved -----

  predicate AllHold(st: PuzzleStates, cs: seq<GateExpr>) {
    forall i :: 0 <= i < |cs| ==> Eval(st, cs[i])
  }

  predicate SomeHolds(st: PuzzleStates, cs: seq<GateExpr>) {
    exists i :: 0 <= i < |cs| && Eval(st, cs[i])
  }

  lemma AllHoldSplit(st: PuzzleStates, a: seq<GateExpr>, b: seq<GateExpr>)
    ensures AllHold(st, a + b) <==> AllHold(st, a) && AllHold(st, b)
    ensures SomeHolds(st, a + b) <==> SomeHolds(st, a) || SomeHolds(st, b)
  {
    assert forall i :: 0 <= i < |a| ==> (a + b)[i] == a[i];
    assert forall i :: 0 <= i < |b| ==> (a + b)[|a| + i] == b[i];
    forall i | 0 <= i < |a + b|
      ensures (a + b)[i] == if i < |a| then a[i] else b[i - |a|]
    {
    }
  }

  lemma {:induction false} FlattenMeaning(st: PuzzleStates, cs: seq<GateExpr>)
    ensures AllHold(st, FlattenAnd(cs)) <==> AllHold(st, cs)
    ensures SomeHolds(st, FlattenOr(cs)) <==> SomeHolds(st, cs)
  {
    if cs != [] {
      FlattenMeaning(st, cs[1..]);
      assert cs == [cs[0]] + cs[1..];
      AllHoldSplit(st, [cs[0]], cs[1..]);
      var a := AndPart(cs[0]);
      AllHoldSplit(st, a, FlattenAnd(cs[1..]));
      var o := OrPart(cs[0]);
      AllHoldSplit(st, o, FlattenOr(cs[1..]));
      assert AllHold(st, a) <==> Eval(st, cs[0]) by {
        assert AllHold(st, [cs[0]]) <==> Eval(st, [cs[0]][0]);
      }
      assert SomeHolds(st, o) <==> Eval(st, cs[0]) by {
        assert SomeHolds(st, [cs[0]]) <==> Eval(st, [cs[0]][0]);
      }
    }
  }

  lemma JoinMeaning(st: PuzzleStates, cs: seq<GateExpr>)
    ensures Eval(st, JoinAnd(cs)) <==> AllHold(st, cs)
    ensures Eval(st, JoinOr(cs)) <==> SomeHolds(st, cs)
  {
    JoinAndMeaning(st, cs);
    JoinOrMeaning(st, cs);
  }

  lemma JoinAndMeaning(st: PuzzleStates, cs: seq<GateExpr>)
    ensures Eval(st, JoinAnd(cs)) <==> AllHold(st, cs)
  {
    if False in cs {
      var i :| 0 <= i < |cs| && cs[i] == False;
      assert !Eval(st, cs[i]);
    } else {
      FlattenMeaning(st, cs);
      var flat := FlattenAnd(cs);
      assert |flat| == 1 ==> (AllHold(st, flat) <==> Eval(st, flat[0]));
    }
  }

  lemma JoinOrMeaning(st: PuzzleStates, cs: seq<GateExpr>)
    ensures Eval(st, JoinOr(cs)) <==> SomeHolds(st, cs)
  {
    if True in cs {
      var i :| 0 <= i < |cs| && cs[i] == True;
      assert Eval(st, cs[i]);
    } else {
      FlattenMeaning(st, cs);
      var flat := FlattenOr(cs);
      assert |flat| == 1 ==> (SomeHolds(st, flat) <==> Eval(st, flat[0]));
    }
  }

  /** For every S-expression and state: the same error, or the same verdict. */
  lemma {:induction false} CompilePreservesMeaning(e: RawSexpr, st: PuzzleStates)
    ensures Compile(e).Success? <==> Plain(e).Success?
    ensures Compile(e).Failure? ==> Compile(e) == Plain(e)
    ensures Compile(e).Success? ==> Eval(st, Compile(e).value) == Eval(st, Plain(e).value)
    decreases e, 1
  {
    if e.List? && e.items != [] && e.items[0].Sym? {
      var items, head := e.items, e.items[0].text;
      if head == "and" || head == "or" {
        CompileAllPreservesMeaning(items[1..], st);
        if CompileAll(items[1..]).Success? {
          JoinMeaning(st, CompileAll(items[1..]).value);
        }
      } else if head == "not" && |items| == 2 {
        CompilePreservesMeaning(items[1], st);
      }
    }
  }

  lemma {:induction false} CompileAllPreservesMeaning(es: seq<RawSexpr>, st: PuzzleStates)
    ensures CompileAll(es).Success? <==> PlainAll(es).Success?
    ensures CompileAll(es).Failure? ==> CompileAll(es).error == PlainAll(es).error
    ensures CompileAll(es).Success? ==>
      forall i :: 0 <= i < |es| ==> Eval(st, CompileAll(es).value[i]) == Eval(st, PlainAll(es).value[i])
    decreases es, 0
  {
    if es != [] {
      CompilePreservesMeaning(es[0], st);
      CompileAllPreservesMeaning(es[1..], st);
    }
  }

  // ----- the output is in normal form -----

  predicate NormalForms(cs: seq<GateExpr>) {
    forall i :: 0 <= i < |cs| ==> NormalForm(cs[i])
  }

  predicate NormalExcept(cs: seq<GateExpr>, and: bool) {
    forall i :: 0 <= i < |cs| ==> Normal(cs[i]) && (if and then !cs[i].And? else !cs[i].Or?)
  }

  lemma {:induction false} FlattenNormal(cs: seq<GateExpr>)
    requires NormalForms(cs)
    ensures False !in cs ==> NormalExcept(FlattenAnd(cs), true)
    ensures True !in cs ==> NormalExcept(FlattenOr(cs), false)
  {
    if cs != [] {
      FlattenNormal(cs[1..]);
      assert cs[0] in cs && NormalForm(cs[0]);
    }
  }

  lemma JoinNormal(cs: seq<GateExpr>)
    requires NormalForms(cs)
    ensures NormalForm(JoinAnd(cs)) && NormalForm(JoinOr(cs))
  {
    FlattenNormal(cs);
  }

  lemma {:induction false} CompileNormalForm(e: RawSexpr)
    ensures Compile(e).Success? ==> NormalForm(Compile(e).value)
    decreases e, 1
  {
    if e.List? && e.items != [] && e.items[0].Sym? {
      var items, head := e.items, e.items[0].text;
      if head == "and" || head == "or" {
        CompileAllNormalForm(items[1..]);
        if CompileAll(items[1..]).Success? {
          JoinNormal(CompileAll(items[1..]).value);
        }
      } else if head == "not" && |items| == 2 {
        CompileNormalForm(items[1]);
      }
    }
  }

  lemma {:induction false} CompileAllNormalForm(es: seq<RawSexpr>)
    ensures CompileAll(es).Success? ==> NormalForms(CompileAll(es).value)
    decreases es, 0
  {
    if es != [] {
      CompileNormalForm(es[0]);
      CompileAllNormalForm(es[1..]);
    }
  }

  // ----- from text -----

  datatype SourceError = Syntax(syntax: SyntaxError) | Semantic(compile: CompileError)

  /** `compile_gate_expr_uncached`, with structured errors in place of the formatted messages. */
  function CompileText(text: string): Result<GateExpr, SourceError> {
    match ParseText(text)
    case Failure(e) => Failure(Syntax(e))
    case Success(sexpr) =>
      match Compile(sexpr)
      case Failure(e) => Failure(Semantic(e))
      case Success(g) => Success(g)
  }
}
