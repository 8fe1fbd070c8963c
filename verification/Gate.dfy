/** Gate expressions and their meaning (src/expr/types.rs, src/expr/ast.rs). */
module Gate {
  import opened Common

  datatype PuzzleRef = PuzzleId(id: nat) | PuzzleSlug(slug: string)
  datatype RoundRef = RoundId(id: nat) | RoundSlug(slug: string)

  datatype CmpOp = Gt | Ge | Lt | Le | Eq | Ne

  datatype SetExpr =
    | Puzzles(refs: seq<PuzzleRef>)
    | PuzzleRange(start: nat, end: nat)
    | Round(round: RoundRef)

  datatype ValueExpr = SolvedCount(set_: SetExpr) | Number(n: nat)

  datatype GateExpr =
    | True
    | False
    | And(items: seq<GateExpr>)
    | Or(items: seq<GateExpr>)
    | Not(inner: GateExpr)
    | Solved(puzzle: PuzzleRef)
    | AllSolved(set_: SetExpr)
    | AnySolved(set_: SetExpr)
    | GameStarted
    | Triggered(puzzle: PuzzleRef, key: string)
    | Cmp(op: CmpOp, lhs: ValueExpr, rhs: ValueExpr)

  /** The read-only trait `PuzzleStates`: any state at all. */
  datatype PuzzleStates = PuzzleStates(
    isSolved: nat -> bool,
    puzzleSlug: string -> Option<nat>,
    roundSlug: string -> Option<nat>,
    roundPuzzles: nat -> Option<seq<nat>>,
    gameStarted: bool,
    isTriggered: (nat, string) -> bool
  )

  function ResolvePuzzle(st: PuzzleStates, p: PuzzleRef): Option<nat> {
    match p
    case PuzzleId(id) => Some(id)
    case PuzzleSlug(slug) => st.puzzleSlug(slug)
  }

  function ResolveRound(st: PuzzleStates, r: RoundRef): Option<seq<nat>> {
    match r
    case RoundId(id) => st.roundPuzzles(id)
    case RoundSlug(slug) =>
      match st.roundSlug(slug)
      case None => None
      case Some(id) => st.roundPuzzles(id)
  }

  function ResolveAll(st: PuzzleStates, refs: seq<PuzzleRef>): Option<seq<nat>> {
    if refs == [] then Some([])
    else
      match (ResolvePuzzle(st, refs[0]), ResolveAll(st, refs[1..]))
      case (Some(id), Some(ids)) => Some([id] + ids)
      case _ => None
  }

  function MaterializeSet(st: PuzzleStates, s: SetExpr): Option<seq<nat>> {
    match s
    case Puzzles(refs) => ResolveAll(st, refs)
    case PuzzleRange(a, b) =>
      var lo, hi := Min(a, b), Max(a, b);
      Some(seq(hi - lo + 1, i requires 0 <= i => lo + i))
    case Round(r) => ResolveRound(st, r)
  }

  function CountSolved(st: PuzzleStates, ids: seq<nat>): nat {
    if ids == [] then 0
    else (if st.isSolved(ids[0]) then 1 else 0) + CountSolved(st, ids[1..])
  }

  function EvalValue(st: PuzzleStates, v: ValueExpr): nat {
    match v
    case SolvedCount(s) =>
      (match MaterializeSet(st, s)
       case None => 0
       case Some(ids) => CountSolved(st, ids))
    case Number(n) => n
  }

  predicate Compare(op: CmpOp, lhs: nat, rhs: nat) {
    match op
    case Gt => lhs > rhs
    case Ge => lhs >= rhs
    case Lt => lhs < rhs
    case Le => lhs <= rhs
    case Eq => lhs == rhs
    case Ne => lhs != rhs
  }

  predicate Eval(st: PuzzleStates, e: GateExpr) {
    match e
    case True => true
    case False => false
    case And(xs) => forall i :: 0 <= i < |xs| ==> Eval(st, xs[i])
    case Or(xs) => exists i :: 0 <= i < |xs| && Eval(st, xs[i])
    case Not(x) => !Eval(st, x)
    case Solved(p) =>
      var id := ResolvePuzzle(st, p);
      id.Some? && st.isSolved(id.value)
    case AllSolved(s) =>
      var ids := MaterializeSet(st, s);
      ids.Some? && forall i :: 0 <= i < |ids.value| ==> st.isSolved(ids.value[i])
    case AnySolved(s) =>
      var ids := MaterializeSet(st, s);
      ids.Some? && exists i :: 0 <= i < |ids.value| && st.isSolved(ids.value[i])
    case GameStarted => st.gameStarted
    case Triggered(p, key) =>
      var id := ResolvePuzzle(st, p);
      id.Some? && st.isTriggered(id.value, key)
    case Cmp(op, lhs, rhs) => Compare(op, EvalValue(st, lhs), EvalValue(st, rhs))
  }

  // ----- normal form -----

  predicate IsConst(g: GateExpr) {
    g.True? || g.False?
  }

  /** Below the root: no constant, no connective directly inside its own kind, at least two
      children per connective, no double negation. */
  predicate Normal(g: GateExpr) {
    match g
    case True => false
    case False => false
    case And(xs) => |xs| >= 2 && forall i :: 0 <= i < |xs| ==> Normal(xs[i]) && !xs[i].And?
    case Or(xs) => |xs| >= 2 && forall i :: 0 <= i < |xs| ==> Normal(xs[i]) && !xs[i].Or?
    case Not(x) => Normal(x) && !x.Not?
    case _ => true
  }

  predicate NormalForm(g: GateExpr) {
    IsConst(g) || Normal(g)
  }
}
