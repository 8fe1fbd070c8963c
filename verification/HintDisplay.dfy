/** The hint-display language (src/expr/compiler.rs:272-365, src/expr/ast.rs:149-180): gates plus
    two flags of the hint itself. */
module HintDisplay {
  import opened Common
  import opened Parser
  import opened Gate
  import opened GateCompiler

  datatype HintExpr =
    | HGate(gate: GateExpr)
    | HAnd(items: seq<HintExpr>)
    | HOr(items: seq<HintExpr>)
    | HNot(inner: HintExpr)
    | HintEnabled
    | HintCooledDown

  /** `eval_hint_display_compiled`. */
  predicate EvalHint(st: PuzzleStates, h: HintExpr, enabled: bool, cooledDown: bool) {
    match h
    case HGate(g) => Eval(st, g)
    case HAnd(xs) => forall i :: 0 <= i < |xs| ==> EvalHint(st, xs[i], enabled, cooledDown)
    case HOr(xs) => exists i :: 0 <= i < |xs| && EvalHint(st, xs[i], enabled, cooledDown)
    case HNot(x) => !EvalHint(st, x, enabled, cooledDown)
    case HintEnabled => enabled
    case HintCooledDown => cooledDown
  }

  /** `hint_display_uses_cooldown`. */
  predicate UsesCooldown(h: HintExpr) {
    match h
    case HAnd(xs) => exists i :: 0 <= i < |xs| && UsesCooldown(xs[i])
    case HOr(xs) => exists i :: 0 <= i < |xs| && UsesCooldown(xs[i])
    case HNot(x) => UsesCooldown(x)
    case HintCooledDown => true
    case _ => false
  }

  // ----- the compiler -----

  function AndPart(c: HintExpr): seq<HintExpr> {
    match c
    case HGate(True) => []
    case HAnd(xs) => xs
    case _ => [c]
  }

  function OrPart(c: HintExpr): seq<HintExpr> {
    match c
    case HGate(False) => []
    case HOr(xs) => xs
    case _ => [c]
  }

  function FlattenAnd(cs: seq<HintExpr>): seq<HintExpr> {
    if cs == [] then [] else AndPart(cs[0]) + FlattenAnd(cs[1..])
  }

  function FlattenOr(cs: seq<HintExpr>): seq<HintExpr> {
    if cs == [] then [] else OrPart(cs[0]) + FlattenOr(cs[1..])
  }

  function JoinAnd(cs: seq<HintExpr>): HintExpr {
    if HGate(False) in cs then HGate(False)
    else
      var flat := FlattenAnd(cs);
      if |flat| == 0 then HGate(True) else if |flat| == 1 then flat[0] else HAnd(flat)
  }

  function JoinOr(cs: seq<HintExpr>): HintExpr {
    if HGate(True) in cs then HGate(True)
    else
      var flat := FlattenOr(cs);
      if |flat| == 0 then HGate(False) else if |flat| == 1 then flat[0] else HOr(flat)
  }

  function NegateHint(h: HintExpr): HintExpr {
    match h
    case HGate(True) => HGate(False)
    case HGate(False) => HGate(True)
    case HNot(inner) => inner
    case _ => HNot(h)
  }

  /** `compile_hint_display`. */
  function CompileHint(e: RawSexpr): Compiled<HintExpr>
    decreases e, 1
  {
    match e
    case Sym(_) => Failure(BadForm("bare atom not allowed"))
    case List(items) =>
      if items == [] then Failure(BadForm("empty list"))
      else
        var head :- AtomText(items[0]);
        if head == "hint-enabled" then
          if |items| != 1 then Failure(BadForm("hint-enabled expects 0 arg")) else Success(HintEnabled)
        else if head == "hint-cooled-down" then
          if |items| != 1 then Failure(BadForm("hint-cooled-down expects 0 arg")) else Success(HintCooledDown)
        else if head == "and" then
          var cs :- CompileHints(items[1..]);
          Success(JoinAnd(cs))
        else if head == "or" then
          var cs :- CompileHints(items[1..]);
          Success(JoinOr(cs))
        else if head == "not" then
          if |items| != 2 then Failure(BadForm("not expects 1 arg"))
          else
            var inner :- CompileHint(items[1]);
            Success(NegateHint(inner))
        else
          var g :- Compile(e);
          Success(HGate(g))
  }

  function CompileHints(es: seq<RawSexpr>): (r: Compiled<seq<HintExpr>>)
    ensures r.Success? ==> |r.value| == |es|
    decreases es, 0
  {
    if es == [] then Success([])
    else
      var c :- CompileHint(es[0]);
      var cs :- CompileHints(es[1..]);
      Success([c] + cs)
  }

  lemma CollectStep(done: seq<HintExpr>, items: seq<RawSexpr>, i: nat)
    requires i < |items|
    ensures
      var c, rest, now := CompileHint(items[i]), CompileHints(items[i + 1..]), CompileHints(items[i..]);
      if c.Failure? then now == Failure(c.error)
      else if rest.Failure? then now == rest
      else now.Success? && done + now.value == (done + [c.value]) + rest.value
  {
    assert items[i..][1..] == items[i + 1..];
  }

  method CompileHintChildren(items: seq<RawSexpr>) returns (r: Compiled<seq<HintExpr>>)
    ensures r == CompileHints(items)
  {
    var children: seq<HintExpr> := [];
    ghost var whole := CompileHints(items);
    assert items[0..] == items;
    assert whole.Success? ==> children + whole.value == whole.value;
    for i := 0 to |items|
      invariant CompileHints(items[i..]).Failure? ==> whole == CompileHints(items[i..])
      invariant CompileHints(items[i..]).Success? ==> whole == Success(children + CompileHints(items[i..]).value)
    {
      CollectStep(children, items, i);
      var c := CompileHint(items[i]);
      if c.Failure? {
        return Failure(c.error);
      }
      children := children + [c.value];
    }
    assert children + [] == children;
    r := Success(children);
  }

  /** The loop of `compile_hint_and`. */
  method SpliceAnd(children: seq<HintExpr>) returns (compiled: seq<HintExpr>)
    ensures compiled == FlattenAnd(children)
  {
    compiled := [];
    ghost var whole := FlattenAnd(children);
    assert children[0..] == children && compiled + whole == whole;
    for i := 0 to |children|
      invariant compiled + FlattenAnd(children[i..]) == whole
    {
      FlattenStep(compiled, children, i);
      match children[i] {
        case HGate(True) => compiled := compiled + [];
        case HAnd(xs) => compiled := compiled + xs;
        case c => compiled := compiled + [c];
      }
    }
    assert compiled + [] == compiled;
  }

  /** `compile_hint_and`. */
  method CompileHintAnd(items: seq<RawSexpr>) returns (r: Compiled<HintExpr>)
    ensures r == (var cs :- CompileHints(items); Success(JoinAnd(cs)))
  {
    var children := CompileHintChildren(items);
    if children.Failure? {
      return Failure(children.error);
    }
    if exists i :: 0 <= i < |children.value| && children.value[i] == HGate(False) {
      return Success(HGate(False));
    }
    var compiled := SpliceAnd(children.value);
    r := Success(if |compiled| == 0 then HGate(True) else if |compiled| == 1 then compiled[0] else HAnd(compiled));
  }

  /** The loop of `compile_hint_or`. */
  method SpliceOr(children: seq<HintExpr>) returns (compiled: seq<HintExpr>)
    ensures compiled == FlattenOr(children)
  {
    compiled := [];
    ghost var whole := FlattenOr(children);
    assert children[0..] == children && compiled + whole == whole;
    for i := 0 to |children|
      invariant compiled + FlattenOr(children[i..]) == whole
    {
      FlattenStep(compiled, children, i);
      match children[i] {
        case HGate(False) => compiled := compiled + [];
        case HOr(xs) => compiled := compiled + xs;
        case c => compiled := compiled + [c];
      }
    }
    assert compiled + [] == compiled;
  }

  /** `compile_hint_or`. */
  method CompileHintOr(items: seq<RawSexpr>) returns (r: Compiled<HintExpr>)
    ensures r == (var cs :- CompileHints(items); Success(JoinOr(cs)))
  {
    var children := CompileHintChildren(items);
    if children.Failure? {
      return Failure(children.error);
    }
    if exists i :: 0 <= i < |children.value| && children.value[i] == HGate(True) {
      return Success(HGate(True));
    }
    var compiled := SpliceOr(children.value);
    r := Success(if |compiled| == 0 then HGate(False) else if |compiled| == 1 then compiled[0] else HOr(compiled));
  }

  lemma FlattenStep(done: seq<HintExpr>, cs: seq<HintExpr>, i: nat)
    requires i < |cs|
    ensures done + FlattenAnd(cs[i..]) == (done + AndPart(cs[i])) + FlattenAnd(cs[i + 1..])
    ensures done + FlattenOr(cs[i..]) == (done + OrPart(cs[i])) + FlattenOr(cs[i + 1..])
  {
    assert cs[i..][1..] == cs[i + 1..];
  }

  // ----- meaning is preserved -----

  /** The unsimplified hint compiler, as the reference. */
  function PlainHint(e: RawSexpr): Compiled<HintExpr>
    decreases e, 1
  {
    match e
    case Sym(_) => Failure(BadForm("bare atom not allowed"))
    case List(items) =>
      if items == [] then Failure(BadForm("empty list"))
      else
        var head :- AtomText(items[0]);
        if head == "hint-enabled" then
          if |items| != 1 then Failure(BadForm("hint-enabled expects 0 arg")) else Success(HintEnabled)
        else if head == "hint-cooled-down" then
          if |items| != 1 then Failure(BadForm("hint-cooled-down expects 0 arg")) else Success(HintCooledDown)
        else if head == "and" then
          var cs :- PlainHints(items[1..]);
          Success(HAnd(cs))
        else if head == "or" then
          var cs :- PlainHints(items[1..]);
          Success(HOr(cs))
        else if head == "not" then
          if |items| != 2 then Failure(BadForm("not expects 1 arg"))
          else
            var inner :- PlainHint(items[1]);
            Success(HNot(inner))
        else
          var g :- Plain(e);
          Success(HGate(g))
  }

  function PlainHints(es: seq<RawSexpr>): (r: Compiled<seq<HintExpr>>)
    ensures r.Success? ==> |r.value| == |es|
    decreases es, 0
  {
    if es == [] then Success([])
    else
      var c :- PlainHint(es[0]);
      var cs :- PlainHints(es[1..]);
      Success([c] + cs)
  }

  predicate AllHold(st: PuzzleStates, cs: seq<HintExpr>, en: bool, cd: bool) {
    forall i :: 0 <= i < |cs| ==> EvalHint(st, cs[i], en, cd)
  }

  predicate SomeHolds(st: PuzzleStates, cs: seq<HintExpr>, en: bool, cd: bool) {
    exists i :: 0 <= i < |cs| && EvalHint(st, cs[i], en, cd)
  }

  lemma HoldSplit(st: PuzzleStates, a: seq<HintExpr>, b: seq<HintExpr>, en: bool, cd: bool)
    ensures AllHold(st, a + b, en, cd) <==> AllHold(st, a, en, cd) && AllHold(st, b, en, cd)
    ensures SomeHolds(st, a + b, en, cd) <==> SomeHolds(st, a, en, cd) || SomeHolds(st, b, en, cd)
  {
    assert forall i :: 0 <= i < |a| ==> (a + b)[i] == a[i];
    assert forall i :: 0 <= i < |b| ==> (a + b)[|a| + i] == b[i];
    forall i | 0 <= i < |a + b|
      ensures (a + b)[i] == if i < |a| then a[i] else b[i - |a|]
    {
    }
  }

  lemma PartMeaning(st: PuzzleStates, c: HintExpr, en: bool, cd: bool)
    ensures AllHold(st, AndPart(c), en, cd) <==> EvalHint(st, c, en, cd)
    ensures SomeHolds(st, OrPart(c), en, cd) <==> EvalHint(st, c, en, cd)
  {
    assert AllHold(st, [c], en, cd) <==> EvalHint(st, [c][0], en, cd);
    assert SomeHolds(st, [c], en, cd) <==> EvalHint(st, [c][0], en, cd);
  }

  lemma {:induction false} FlattenMeaning(st: PuzzleStates, cs: seq<HintExpr>, en: bool, cd: bool)
    ensures AllHold(st, FlattenAnd(cs), en, cd) <==> AllHold(st, cs, en, cd)
    ensures SomeHolds(st, FlattenOr(cs), en, cd) <==> SomeHolds(st, cs, en, cd)
  {
    if cs != [] {
      FlattenMeaning(st, cs[1..], en, cd);
      PartMeaning(st, cs[0], en, cd);
      HoldSplit(st, AndPart(cs[0]), FlattenAnd(cs[1..]), en, cd);
      HoldSplit(st, OrPart(cs[0]), FlattenOr(cs[1..]), en, cd);
      HoldFront(st, cs, en, cd);
    }
  }

  lemma HoldFront(st: PuzzleStates, cs: seq<HintExpr>, en: bool, cd: bool)
    requires cs != []
    ensures AllHold(st, cs, en, cd) <==> EvalHint(st, cs[0], en, cd) && AllHold(st, cs[1..], en, cd)
    ensures SomeHolds(st, cs, en, cd) <==> EvalHint(st, cs[0], en, cd) || SomeHolds(st, cs[1..], en, cd)
  {
    assert forall i :: 0 < i < |cs| ==> cs[i] == cs[1..][i - 1];
  }

  lemma JoinAndMeaning(st: PuzzleStates, cs: seq<HintExpr>, en: bool, cd: bool)
    ensures EvalHint(st, JoinAnd(cs), en, cd) <==> AllHold(st, cs, en, cd)
  {
    if HGate(False) in cs {
      var i :| 0 <= i < |cs| && cs[i] == HGate(False);
      assert !EvalHint(st, cs[i], en, cd);
    } else {
      FlattenMeaning(st, cs, en, cd);
      var flat := FlattenAnd(cs);
      assert |flat| == 1 ==> (AllHold(st, flat, en, cd) <==> EvalHint(st, flat[0], en, cd));
    }
  }

  lemma JoinOrMeaning(st: PuzzleStates, cs: seq<HintExpr>, en: bool, cd: bool)
    ensures EvalHint(st, JoinOr(cs), en, cd) <==> SomeHolds(st, cs, en, cd)
  {
    if HGate(True) in cs {
      var i :| 0 <= i < |cs| && cs[i] == HGate(True);
      assert EvalHint(st, cs[i], en, cd);
    } else {
      FlattenMeaning(st, cs, en, cd);
      var flat := FlattenOr(cs);
      assert |flat| == 1 ==> (SomeHolds(st, flat, en, cd) <==> EvalHint(st, flat[0], en, cd));
    }
  }

  /** Same error or same verdict as the reference, for every state and both flags. */
  lemma {:induction false} HintPreservesMeaning(e: RawSexpr, st: PuzzleStates, en: bool, cd: bool)
    ensures CompileHint(e).Success? <==> PlainHint(e).Success?
    ensures CompileHint(e).Failure? ==> CompileHint(e) == PlainHint(e)
    ensures CompileHint(e).Success? ==>
      EvalHint(st, CompileHint(e).value, en, cd) == EvalHint(st, PlainHint(e).value, en, cd)
    decreases e, 1
  {
    if e.List? && e.items != [] && e.items[0].Sym? {
      var items, head := e.items, e.items[0].text;
      if head == "and" || head == "or" {
        HintsPreserveMeaning(items[1..], st, en, cd);
        if CompileHints(items[1..]).Success? {
          if head == "and" {
            JoinAndMeaning(st, CompileHints(items[1..]).value, en, cd);
          } else {
            JoinOrMeaning(st, CompileHints(items[1..]).value, en, cd);
          }
        }
      } else if head == "not" {
        if |items| == 2 { HintPreservesMeaning(items[1], st, en, cd); }
      } else {
        CompilePreservesMeaning(e, st);
      }
    }
  }

  lemma {:induction false} HintsPreserveMeaning(es: seq<RawSexpr>, st: PuzzleStates, en: bool, cd: bool)
    ensures CompileHints(es).Success? <==> PlainHints(es).Success?
    ensures CompileHints(es).Failure? ==> CompileHints(es).error == PlainHints(es).error
    ensures CompileHints(es).Success? ==>
      forall i :: 0 <= i < |es| ==>
        EvalHint(st, CompileHints(es).value[i], en, cd) == EvalHint(st, PlainHints(es).value[i], en, cd)
    decreases es, 0
  {
    if es != [] {
      HintPreservesMeaning(es[0], st, en, cd);
      HintsPreserveMeaning(es[1..], st, en, cd);
      if CompileHints(es).Success? {
        SameVerdictFront(st, CompileHint(es[0]).value, PlainHint(es[0]).value,
                         CompileHints(es[1..]).value, PlainHints(es[1..]).value, en, cd);
      }
    }
  }

  lemma SameVerdictFront(st: PuzzleStates, a: HintExpr, b: HintExpr, as_: seq<HintExpr>, bs: seq<HintExpr>,
                         en: bool, cd: bool)
    requires EvalHint(st, a, en, cd) == EvalHint(st, b, en, cd) && |as_| == |bs|
    requires forall i :: 0 <= i < |as_| ==> EvalHint(st, as_[i], en, cd) == EvalHint(st, bs[i], en, cd)
    ensures forall i :: 0 <= i <= |as_| ==> EvalHint(st, ([a] + as_)[i], en, cd) == EvalHint(st, ([b] + bs)[i], en, cd)
  {
  }

  // ----- normal form -----

  predicate HintNormal(h: HintExpr) {
    match h
    case HGate(g) => !IsConst(g) && !g.And? && !g.Or? && !g.Not?
    case HAnd(xs) => |xs| >= 2 && forall i :: 0 <= i < |xs| ==> HintNormal(xs[i]) && !xs[i].HAnd?
    case HOr(xs) => |xs| >= 2 && forall i :: 0 <= i < |xs| ==> HintNormal(xs[i]) && !xs[i].HOr?
    case HNot(x) => HintNormal(x) && !x.HNot?
    case _ => true
  }

  predicate HintNormalForm(h: HintExpr) {
    (h.HGate? && IsConst(h.gate)) || HintNormal(h)
  }

  predicate NormalExcept(cs: seq<HintExpr>, and: bool) {
    forall i :: 0 <= i < |cs| ==> HintNormal(cs[i]) && (if and then !cs[i].HAnd? else !cs[i].HOr?)
  }

  lemma {:induction false} FlattenNormal(cs: seq<HintExpr>)
    requires forall i :: 0 <= i < |cs| ==> HintNormalForm(cs[i])
    ensures HGate(False) !in cs ==> NormalExcept(FlattenAnd(cs), true)
    ensures HGate(True) !in cs ==> NormalExcept(FlattenOr(cs), false)
  {
    if cs != [] {
      FlattenNormal(cs[1..]);
      assert cs[0] in cs && HintNormalForm(cs[0]);
    }
  }

  lemma {:induction false} CompileHintNormalForm(e: RawSexpr)
    ensures CompileHint(e).Success? ==> HintNormalForm(CompileHint(e).value)
    decreases e, 1
  {
    if e.List? && e.items != [] && e.items[0].Sym? {
      var items, head := e.items, e.items[0].text;
      if head == "and" || head == "or" {
        CompileHintsNormalForm(items[1..]);
        if CompileHints(items[1..]).Success? {
          FlattenNormal(CompileHints(items[1..]).value);
        }
      } else if head == "not" && |items| == 2 {
        CompileHintNormalForm(items[1]);
      }
    }
  }

  lemma {:induction false} CompileHintsNormalForm(es: seq<RawSexpr>)
    ensures CompileHints(es).Success? ==>
      forall i :: 0 <= i < |es| ==> HintNormalForm(CompileHints(es).value[i])
    decreases es, 0
  {
    if es != [] {
      CompileHintNormalForm(es[0]);
      CompileHintsNormalForm(es[1..]);
    }
  }

  // ----- a conservative extension of gates -----

  /** A compiled gate, node for node, with its leaves wrapped. */
  function Lift(g: GateExpr): HintExpr
    decreases g, 1
  {
    match g
    case And(xs) => HAnd(LiftAll(xs))
    case Or(xs) => HOr(LiftAll(xs))
    case Not(x) => HNot(Lift(x))
    case _ => HGate(g)
  }

  function LiftAll(gs: seq<GateExpr>): (hs: seq<HintExpr>)
    ensures |hs| == |gs| && forall i :: 0 <= i < |gs| ==> hs[i] == Lift(gs[i])
    decreases gs, 0
  {
    if gs == [] then [] else [Lift(gs[0])] + LiftAll(gs[1..])
  }

  /** No hint flag stands where a gate is compiled. */
  predicate HintFree(e: RawSexpr) {
    match e
    case Sym(_) => true
    case List(items) =>
      if items == [] || items[0].List? then true
      else
        var head := items[0].text;
        if head == "hint-enabled" || head == "hint-cooled-down" then false
        else if head == "and" || head == "or" then forall i :: 1 <= i < |items| ==> HintFree(items[i])
        else if head == "not" && |items| == 2 then HintFree(items[1])
        else true
  }

  function LiftResult(r: Compiled<GateExpr>): Compiled<HintExpr> {
    match r
    case Success(g) => Success(Lift(g))
    case Failure(e) => Failure(e)
  }

  function LiftResults(r: Compiled<seq<GateExpr>>): Compiled<seq<HintExpr>> {
    match r
    case Success(gs) => Success(LiftAll(gs))
    case Failure(e) => Failure(e)
  }

  lemma LiftConcat(a: seq<GateExpr>, b: seq<GateExpr>)
    ensures LiftAll(a + b) == LiftAll(a) + LiftAll(b)
  {
  }

  lemma LiftPart(c: GateExpr)
    ensures AndPart(Lift(c)) == LiftAll(GateCompiler.AndPart(c))
    ensures OrPart(Lift(c)) == LiftAll(GateCompiler.OrPart(c))
  {
  }

  lemma {:induction false} LiftFlatten(cs: seq<GateExpr>)
    ensures FlattenAnd(LiftAll(cs)) == LiftAll(GateCompiler.FlattenAnd(cs))
    ensures FlattenOr(LiftAll(cs)) == LiftAll(GateCompiler.FlattenOr(cs))
  {
    if cs != [] {
      LiftFlatten(cs[1..]);
      LiftPart(cs[0]);
      LiftConcat(GateCompiler.AndPart(cs[0]), GateCompiler.FlattenAnd(cs[1..]));
      LiftConcat(GateCompiler.OrPart(cs[0]), GateCompiler.FlattenOr(cs[1..]));
      assert LiftAll(cs) == [Lift(cs[0])] + LiftAll(cs[1..]);
    }
  }

  lemma LiftHasConst(cs: seq<GateExpr>, c: GateExpr)
    requires IsConst(c)
    ensures c in cs <==> HGate(c) in LiftAll(cs)
  {
    if c in cs {
      var i :| 0 <= i < |cs| && cs[i] == c;
      assert LiftAll(cs)[i] == HGate(c);
    }
  }

  lemma LiftJoin(cs: seq<GateExpr>)
    ensures JoinAnd(LiftAll(cs)) == Lift(GateCompiler.JoinAnd(cs))
    ensures JoinOr(LiftAll(cs)) == Lift(GateCompiler.JoinOr(cs))
  {
    LiftJoinAnd(cs);
    LiftJoinOr(cs);
  }

  lemma LiftJoinAnd(cs: seq<GateExpr>)
    ensures JoinAnd(LiftAll(cs)) == Lift(GateCompiler.JoinAnd(cs))
  {
    LiftHasConst(cs, False);
    LiftFlatten(cs);
  }

  lemma LiftJoinOr(cs: seq<GateExpr>)
    ensures JoinOr(LiftAll(cs)) == Lift(GateCompiler.JoinOr(cs))
  {
    LiftHasConst(cs, True);
    LiftFlatten(cs);
  }

  /** On hint-free input the hint compiler is the gate compiler, result for result and error for error. */
  lemma {:induction false} HintExtendsGate(e: RawSexpr)
    requires HintFree(e)
    ensures CompileHint(e) == LiftResult(Compile(e))
    decreases e, 1
  {
    if e.List? && e.items != [] && e.items[0].Sym? {
      var items, head := e.items, e.items[0].text;
      if head == "and" || head == "or" {
        HintsExtendGates(items[1..]);
        if CompileAll(items[1..]).Success? {
          LiftJoin(CompileAll(items[1..]).value);
        }
      } else if head == "not" {
        if |items| == 2 { HintExtendsGate(items[1]); }
      } else {
        LeafNotConnective(head, items);
      }
    }
  }

  lemma LeafNotConnective(head: string, items: seq<RawSexpr>)
    requires items != []
    ensures CompileLeaf(head, items).Success? ==>
      var g := CompileLeaf(head, items).value; !g.And? && !g.Or? && !g.Not?
  {
  }

  lemma {:induction false} HintsExtendGates(es: seq<RawSexpr>)
    requires forall i :: 0 <= i < |es| ==> HintFree(es[i])
    ensures CompileHints(es) == LiftResults(CompileAll(es))
    decreases es, 0
  {
    if es != [] {
      HintExtendsGate(es[0]);
      HintsExtendGates(es[1..]);
    }
  }

  lemma {:induction false} GateIsHintFree(e: RawSexpr)
    requires Compile(e).Success?
    ensures HintFree(e)
    decreases e, 1
  {
    var items, head := e.items, e.items[0].text;
    if head == "and" || head == "or" {
      GatesAreHintFree(items[1..]);
      forall i | 1 <= i < |items| ensures HintFree(items[i]) {
        assert items[i] == items[1..][i - 1];
      }
    } else if head == "not" {
      GateIsHintFree(items[1]);
    }
  }

  lemma {:induction false} GatesAreHintFree(es: seq<RawSexpr>)
    requires CompileAll(es).Success?
    ensures forall i :: 0 <= i < |es| ==> HintFree(es[i])
    decreases es, 0
  {
    if es != [] {
      GateIsHintFree(es[0]);
      GatesAreHintFree(es[1..]);
    }
  }

  lemma {:induction false} LiftMeaning(g: GateExpr, st: PuzzleStates, en: bool, cd: bool)
    ensures EvalHint(st, Lift(g), en, cd) == Eval(st, g)
  {
    match g
    case And(xs) => forall i | 0 <= i < |xs| { LiftMeaning(xs[i], st, en, cd); }
    case Or(xs) => forall i | 0 <= i < |xs| { LiftMeaning(xs[i], st, en, cd); }
    case Not(x) => LiftMeaning(x, st, en, cd);
    case _ =>
  }

  /** The gate language is exactly the hint-free part of the hint language, with the same trees
      and the same verdicts whatever the flags. */
  lemma ConservativeExtension(e: RawSexpr, st: PuzzleStates, en: bool, cd: bool)
    ensures Compile(e).Success? <==> HintFree(e) && CompileHint(e).Success?
    ensures Compile(e).Success? ==>
      && CompileHint(e) == Success(Lift(Compile(e).value))
      && EvalHint(st, CompileHint(e).value, en, cd) == Eval(st, Compile(e).value)
  {
    if HintFree(e) { HintExtendsGate(e); }
    if Compile(e).Success? {
      GateIsHintFree(e);
      LiftMeaning(Compile(e).value, st, en, cd);
    }
  }

  // ----- the cooldown flag -----

  lemma {:induction false} CooldownIrrelevant(h: HintExpr, st: PuzzleStates, en: bool)
    requires !UsesCooldown(h)
    ensures EvalHint(st, h, en, true) == EvalHint(st, h, en, false)
  {
    match h
    case HAnd(xs) => forall i | 0 <= i < |xs| { CooldownIrrelevant(xs[i], st, en); }
    case HOr(xs) => forall i | 0 <= i < |xs| { CooldownIrrelevant(xs[i], st, en); }
    case HNot(x) => CooldownIrrelevant(x, st, en);
    case _ =>
  }

  // ----- what the two flags mean -----

  /** The leaves of an expression: the gates and flags it is made of. */
  function Leaves(h: HintExpr): set<HintExpr> {
    match h
    case HAnd(xs) => set i, leaf | 0 <= i < |xs| && leaf in Leaves(xs[i]) :: leaf
    case HOr(xs) => set i, leaf | 0 <= i < |xs| && leaf in Leaves(xs[i]) :: leaf
    case HNot(x) => Leaves(x)
    case _ => {h}
  }

  lemma {:induction false} UsesCooldownIff(h: HintExpr)
    ensures UsesCooldown(h) <==> HintCooledDown in Leaves(h)
  {
    match h
    case HAnd(xs) => forall i | 0 <= i < |xs| { UsesCooldownIff(xs[i]); }
    case HOr(xs) => forall i | 0 <= i < |xs| { UsesCooldownIff(xs[i]); }
    case HNot(x) => UsesCooldownIff(x);
    case _ =>
  }

  /** Gates are evaluated on the team's state, and the flags are the hint's. */
  lemma LeafMeaning(st: PuzzleStates, g: GateExpr, x: HintExpr, enabled: bool, cooledDown: bool)
    ensures EvalHint(st, HGate(g), enabled, cooledDown) <==> Eval(st, g)
    ensures EvalHint(st, HintEnabled, enabled, cooledDown) <==> enabled
    ensures EvalHint(st, HintCooledDown, enabled, cooledDown) <==> cooledDown
    ensures EvalHint(st, HNot(x), enabled, cooledDown) <==> !EvalHint(st, x, enabled, cooledDown)
  {
  }

  lemma ConnectiveMeaning(st: PuzzleStates, xs: seq<HintExpr>, enabled: bool, cooledDown: bool)
    ensures EvalHint(st, HAnd(xs), enabled, cooledDown) <==> forall h <- xs :: EvalHint(st, h, enabled, cooledDown)
    ensures EvalHint(st, HOr(xs), enabled, cooledDown) <==> exists h <- xs :: EvalHint(st, h, enabled, cooledDown)
  {
    AllOrSome(xs, h => EvalHint(st, h, enabled, cooledDown));
  }

  lemma AllOrSome(xs: seq<HintExpr>, p: HintExpr -> bool)
    ensures (forall i :: 0 <= i < |xs| ==> p(xs[i])) <==> forall h <- xs :: p(h)
    ensures (exists i :: 0 <= i < |xs| && p(xs[i])) <==> exists h <- xs :: p(h)
  {
    forall i | 0 <= i < |xs| ensures xs[i] in xs {}
  }

  /** The flags are written without arguments. */
  lemma FlagForms(args: seq<RawSexpr>)
    ensures CompileHint(List([Sym("hint-enabled")] + args)).Success? <==> args == []
    ensures CompileHint(List([Sym("hint-cooled-down")] + args)).Success? <==> args == []
    ensures CompileHint(List([Sym("hint-enabled")])) == Success(HintEnabled)
    ensures CompileHint(List([Sym("hint-cooled-down")])) == Success(HintCooledDown)
  {
    assert [Sym("hint-enabled")] + [] == [Sym("hint-enabled")];
    assert [Sym("hint-cooled-down")] + [] == [Sym("hint-cooled-down")];
  }
}
