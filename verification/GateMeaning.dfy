/** What the evaluator computes, in terms of the state alone (src/expr/ast.rs:63-147). */
module GateMeaning {
  import opened Common
  import opened Gate

  // ----- references -----

  /** The puzzle a reference stands for is known and solved: its own number, or the one its slug has. */
  predicate IsSolvedRef(st: PuzzleStates, p: PuzzleRef) {
    match p
    case PuzzleId(id) => st.isSolved(id)
    case PuzzleSlug(slug) => st.puzzleSlug(slug).Some? && st.isSolved(st.puzzleSlug(slug).value)
  }

  predicate IsKnownRef(st: PuzzleStates, p: PuzzleRef) {
    p.PuzzleSlug? ==> st.puzzleSlug(p.slug).Some?
  }

  /** ids is the list of the round that a reference stands for. */
  predicate IsRoundList(st: PuzzleStates, r: RoundRef, ids: seq<nat>) {
    match r
    case RoundId(id) => st.roundPuzzles(id) == Some(ids)
    case RoundSlug(slug) => st.roundSlug(slug).Some? && st.roundPuzzles(st.roundSlug(slug).value) == Some(ids)
  }

  lemma SolvedMeaning(st: PuzzleStates, p: PuzzleRef)
    ensures Eval(st, Solved(p)) <==> IsSolvedRef(st, p)
  {
  }

  lemma TriggeredMeaning(st: PuzzleStates, id: nat, slug: string, key: string)
    ensures Eval(st, Triggered(PuzzleId(id), key)) <==> st.isTriggered(id, key)
    ensures Eval(st, Triggered(PuzzleSlug(slug), key)) <==>
      st.puzzleSlug(slug).Some? && st.isTriggered(st.puzzleSlug(slug).value, key)
    ensures Eval(st, GameStarted) <==> st.gameStarted
  {
  }

  lemma ConnectiveMeaning(st: PuzzleStates, xs: seq<GateExpr>, x: GateExpr)
    ensures Eval(st, True) && !Eval(st, False)
    ensures Eval(st, And(xs)) <==> forall g <- xs :: Eval(st, g)
    ensures Eval(st, Or(xs)) <==> exists g <- xs :: Eval(st, g)
    ensures Eval(st, Not(x)) <==> !Eval(st, x)
  {
    if Eval(st, And(xs)) {
      forall g <- xs ensures Eval(st, g) {
        var i :| 0 <= i < |xs| && xs[i] == g;
      }
    }
    if forall g <- xs :: Eval(st, g) {
      forall i | 0 <= i < |xs| ensures Eval(st, xs[i]) { assert xs[i] in xs; }
    }
    if Eval(st, Or(xs)) {
      var i :| 0 <= i < |xs| && Eval(st, xs[i]);
      assert xs[i] in xs;
    }
    if exists g <- xs :: Eval(st, g) {
      var g :| g in xs && Eval(st, g);
      var i :| 0 <= i < |xs| && xs[i] == g;
    }
  }

  // ----- sets -----

  /** Inclusive, with the ends in either order. */
  predicate Between(a: nat, n: nat, b: nat) {
    a <= n <= b || b <= n <= a
  }

  lemma RangeMeaning(st: PuzzleStates, a: nat, b: nat)
    ensures Eval(st, AllSolved(PuzzleRange(a, b))) <==> forall n: nat :: Between(a, n, b) ==> st.isSolved(n)
    ensures Eval(st, AnySolved(PuzzleRange(a, b))) <==> exists n: nat :: Between(a, n, b) && st.isSolved(n)
  {
    var ids := MaterializeSet(st, PuzzleRange(a, b)).value;
    RangeList(st, a, b);
    forall n: nat | Between(a, n, b) ensures exists i :: 0 <= i < |ids| && ids[i] == n {
      assert ids[n - (if a <= b then a else b)] == n;
    }
    if forall n: nat :: Between(a, n, b) ==> st.isSolved(n) {
      forall i | 0 <= i < |ids| ensures st.isSolved(ids[i]) { assert Between(a, ids[i], b); }
    }
    if Eval(st, AnySolved(PuzzleRange(a, b))) {
      var i :| 0 <= i < |ids| && st.isSolved(ids[i]);
      assert Between(a, ids[i], b) && st.isSolved(ids[i]);
    }
  }

  /** The list of a range: every number between the ends, once and in order. */
  lemma RangeList(st: PuzzleStates, a: nat, b: nat)
    ensures
      var ids := MaterializeSet(st, PuzzleRange(a, b));
      && ids.Some? && |ids.value| == (if a <= b then b - a else a - b) + 1
      && forall i :: 0 <= i < |ids.value| ==> ids.value[i] == (if a <= b then a else b) + i
  {
  }

  lemma {:induction false} PuzzlesList(st: PuzzleStates, refs: seq<PuzzleRef>)
    ensures ResolveAll(st, refs).Some? <==> forall p <- refs :: IsKnownRef(st, p)
    ensures ResolveAll(st, refs).Some? ==>
      && |ResolveAll(st, refs).value| == |refs|
      && forall i :: 0 <= i < |refs| ==> (st.isSolved(ResolveAll(st, refs).value[i]) <==> IsSolvedRef(st, refs[i]))
  {
    if refs != [] {
      PuzzlesList(st, refs[1..]);
      assert refs == [refs[0]] + refs[1..];
      assert (forall p <- refs :: IsKnownRef(st, p)) <==>
          IsKnownRef(st, refs[0]) && forall p <- refs[1..] :: IsKnownRef(st, p) by {
        assert refs[0] in refs;
        assert forall p <- refs[1..] :: p in refs;
      }
    }
  }

  /** One unknown reference makes both false. */
  lemma PuzzlesMeaning(st: PuzzleStates, refs: seq<PuzzleRef>)
    ensures Eval(st, AllSolved(Puzzles(refs))) <==> forall p <- refs :: IsSolvedRef(st, p)
    ensures Eval(st, AnySolved(Puzzles(refs))) <==>
      (forall p <- refs :: IsKnownRef(st, p)) && exists p <- refs :: IsSolvedRef(st, p)
  {
    PuzzlesList(st, refs);
    if Eval(st, AllSolved(Puzzles(refs))) {
      forall p <- refs ensures IsSolvedRef(st, p) {
        var i :| 0 <= i < |refs| && refs[i] == p;
      }
    }
    if forall p <- refs :: IsSolvedRef(st, p) {
      forall p <- refs ensures IsKnownRef(st, p) { assert IsSolvedRef(st, p); }
      forall i | 0 <= i < |refs| ensures IsSolvedRef(st, refs[i]) { assert refs[i] in refs; }
    }
    if Eval(st, AnySolved(Puzzles(refs))) {
      var i :| 0 <= i < |refs| && st.isSolved(ResolveAll(st, refs).value[i]);
      assert refs[i] in refs;
    }
    if (forall p <- refs :: IsKnownRef(st, p)) && exists p <- refs :: IsSolvedRef(st, p) {
      var p :| p in refs && IsSolvedRef(st, p);
      var i :| 0 <= i < |refs| && refs[i] == p;
    }
  }

  /** An unknown round makes both false. */
  lemma RoundMeaning(st: PuzzleStates, r: RoundRef)
    ensures Eval(st, AllSolved(Round(r))) <==>
      exists ids :: IsRoundList(st, r, ids) && forall id <- ids :: st.isSolved(id)
    ensures Eval(st, AnySolved(Round(r))) <==>
      exists ids :: IsRoundList(st, r, ids) && exists id <- ids :: st.isSolved(id)
  {
    var list := ResolveRound(st, r);
    assert forall ids :: IsRoundList(st, r, ids) <==> list == Some(ids);
    if list.Some? {
      assert IsRoundList(st, r, list.value);
      if Eval(st, AllSolved(Round(r))) {
        forall id <- list.value ensures st.isSolved(id) {
          var i :| 0 <= i < |list.value| && list.value[i] == id;
        }
      }
      if Eval(st, AnySolved(Round(r))) {
        var i :| 0 <= i < |list.value| && st.isSolved(list.value[i]);
        assert list.value[i] in list.value;
      }
      if exists id <- list.value :: st.isSolved(id) {
        var id :| id in list.value && st.isSolved(id);
        var i :| 0 <= i < |list.value| && list.value[i] == id;
      }
    }
  }

  // ----- counts and comparisons -----

  /** n is what a value stands for: a number itself; of a range, how many of its numbers are solved; of a
      list of puzzles or a round, how many of its entries are, or none if a reference is unknown. */
  ghost predicate StandsFor(st: PuzzleStates, v: ValueExpr, n: nat) {
    match v
    case Number(k) => n == k
    case SolvedCount(PuzzleRange(a, b)) => n == |set k: nat | k <= a + b && Between(a, k, b) && st.isSolved(k)|
    case SolvedCount(Puzzles(refs)) =>
      if forall p <- refs :: IsKnownRef(st, p)
      then n == |set i: nat | i < |refs| && IsSolvedRef(st, refs[i])|
      else n == 0
    case SolvedCount(Round(r)) =>
      (forall ids :: IsRoundList(st, r, ids) ==> n == |set i: nat | i < |ids| && st.isSolved(ids[i])|) &&
      ((forall ids :: !IsRoundList(st, r, ids)) ==> n == 0)
  }

  function SolvedPositions(st: PuzzleStates, ids: seq<nat>): set<nat> {
    set i: nat | i < |ids| && st.isSolved(ids[i])
  }

  function Offset(s: set<nat>, k: nat): set<nat> {
    set i <- s :: i + k
  }

  lemma {:induction false} OffsetKeepsSize(s: set<nat>, k: nat)
    ensures |Offset(s, k)| == |s|
    decreases |s|
  {
    if s != {} {
      var x :| x in s;
      OffsetKeepsSize(s - {x}, k);
      forall y | y in Offset(s, k) ensures y in Offset(s - {x}, k) + {x + k} {
        var i :| i in s && y == i + k;
        if i != x { assert i in s - {x}; }
      }
      assert x + k !in Offset(s - {x}, k);
      assert Offset(s, k) == Offset(s - {x}, k) + {x + k};
    } else {
      assert Offset(s, k) == {};
    }
  }

  lemma {:induction false} CountIsCardinality(st: PuzzleStates, ids: seq<nat>)
    ensures CountSolved(st, ids) == |SolvedPositions(st, ids)|
    decreases |ids|
  {
    if ids == [] {
      assert SolvedPositions(st, ids) == {};
    } else {
      CountIsCardinality(st, ids[1..]);
      PositionsFront(st, ids);
      OffsetKeepsSize(SolvedPositions(st, ids[1..]), 1);
    }
  }

  lemma PositionsFront(st: PuzzleStates, ids: seq<nat>)
    requires ids != []
    ensures SolvedPositions(st, ids) ==
      Offset(SolvedPositions(st, ids[1..]), 1) + (if st.isSolved(ids[0]) then {0} else {})
    ensures 0 !in Offset(SolvedPositions(st, ids[1..]), 1)
  {
    forall i | i in SolvedPositions(st, ids) && i > 0 ensures i in Offset(SolvedPositions(st, ids[1..]), 1) {
      assert ids[1..][i - 1] == ids[i] && i - 1 in SolvedPositions(st, ids[1..]);
    }
  }

  lemma RangeCount(st: PuzzleStates, a: nat, b: nat)
    ensures StandsFor(st, SolvedCount(PuzzleRange(a, b)), EvalValue(st, SolvedCount(PuzzleRange(a, b))))
  {
    var ids, lo := MaterializeSet(st, PuzzleRange(a, b)).value, if a <= b then a else b;
    RangeList(st, a, b);
    CountIsCardinality(st, ids);
    OffsetKeepsSize(SolvedPositions(st, ids), lo);
    PositionsOfRange(st, a, b, ids);
  }

  lemma PositionsOfRange(st: PuzzleStates, a: nat, b: nat, ids: seq<nat>)
    requires |ids| == (if a <= b then b - a else a - b) + 1
    requires forall i :: 0 <= i < |ids| ==> ids[i] == (if a <= b then a else b) + i
    ensures (set k: nat | k <= a + b && Between(a, k, b) && st.isSolved(k)) ==
            Offset(SolvedPositions(st, ids), if a <= b then a else b)
  {
    var lo := if a <= b then a else b;
    forall k: nat | Between(a, k, b) && st.isSolved(k) ensures k in Offset(SolvedPositions(st, ids), lo) {
      assert ids[k - lo] == k && k - lo in SolvedPositions(st, ids);
    }
  }

  lemma PuzzlesCount(st: PuzzleStates, refs: seq<PuzzleRef>)
    ensures StandsFor(st, SolvedCount(Puzzles(refs)), EvalValue(st, SolvedCount(Puzzles(refs))))
  {
    PuzzlesList(st, refs);
    if forall p <- refs :: IsKnownRef(st, p) {
      var ids := ResolveAll(st, refs).value;
      CountIsCardinality(st, ids);
      assert SolvedPositions(st, ids) == set i: nat | i < |refs| && IsSolvedRef(st, refs[i]);
    }
  }

  lemma RoundCount(st: PuzzleStates, r: RoundRef)
    ensures StandsFor(st, SolvedCount(Round(r)), EvalValue(st, SolvedCount(Round(r))))
  {
    var list := ResolveRound(st, r);
    assert forall ids :: IsRoundList(st, r, ids) <==> list == Some(ids);
    if list.Some? {
      CountIsCardinality(st, list.value);
      assert SolvedPositions(st, list.value) == set i: nat | i < |list.value| && st.isSolved(list.value[i]);
      assert IsRoundList(st, r, list.value);
    }
  }

  lemma ValueMeaning(st: PuzzleStates, v: ValueExpr)
    ensures StandsFor(st, v, EvalValue(st, v))
    ensures forall n: nat :: StandsFor(st, v, n) ==> n == EvalValue(st, v)
  {
    match v
    case Number(_) =>
    case SolvedCount(PuzzleRange(a, b)) => RangeCount(st, a, b);
    case SolvedCount(Puzzles(refs)) => PuzzlesCount(st, refs);
    case SolvedCount(Round(r)) =>
      RoundCount(st, r);
      if ResolveRound(st, r).Some? { assert IsRoundList(st, r, ResolveRound(st, r).value); }
  }

  /** Each comparison holds exactly if the relation of its name holds between the numbers its sides stand for. */
  lemma CmpMeaning(st: PuzzleStates, lhs: ValueExpr, rhs: ValueExpr, m: nat, n: nat)
    requires StandsFor(st, lhs, m) && StandsFor(st, rhs, n)
    ensures Eval(st, Cmp(Gt, lhs, rhs)) <==> m > n
    ensures Eval(st, Cmp(Ge, lhs, rhs)) <==> m >= n
    ensures Eval(st, Cmp(Lt, lhs, rhs)) <==> m < n
    ensures Eval(st, Cmp(Le, lhs, rhs)) <==> m <= n
    ensures Eval(st, Cmp(Eq, lhs, rhs)) <==> m == n
    ensures Eval(st, Cmp(Ne, lhs, rhs)) <==> m != n
  {
    ValueMeaning(st, lhs);
    ValueMeaning(st, rhs);
  }
}
