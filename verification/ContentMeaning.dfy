/** What a condition sees of a team's rows, and what a refresh unlocks, in terms of the rows alone
    (src/db/content.rs:353-466, 468-560). */
module ContentMeaning {
  import opened Common
  import opened Gate
  import opened GateCompiler
  import opened GateMeaning
  import opened ContentBlocks

  // ----- slugs and rounds -----

  /** Row i carries the slug, and no later row does. */
  predicate LastWithSlug(w: World, slug: string, i: nat) {
    && i < |w.puzzles| && w.puzzles[i].slug == Some(slug)
    && forall j :: i < j < |w.puzzles| ==> w.puzzles[j].slug != Some(slug)
  }

  predicate LastRoundWithSlug(w: World, slug: string, i: nat) {
    && i < |w.rounds| && w.rounds[i].slug == Some(slug)
    && forall j :: i < j < |w.rounds| ==> w.rounds[j].slug != Some(slug)
  }

  lemma {:induction false} PuzzleSlugMeaning(rows: seq<PuzzleRow>, slug: string)
    ensures slug in PuzzleSlugs(rows) <==> exists i :: 0 <= i < |rows| && rows[i].slug == Some(slug)
    ensures forall i | 0 <= i < |rows| && rows[i].slug == Some(slug) ::
      (forall j :: i < j < |rows| ==> rows[j].slug != Some(slug)) ==> PuzzleSlugs(rows)[slug] == rows[i].id
  {
    if rows != [] {
      var last := |rows| - 1;
      PuzzleSlugMeaning(rows[..last], slug);
      assert rows[last].slug == Some(slug) ==> slug in PuzzleSlugs(rows);
      assert forall i :: 0 <= i < last ==> rows[..last][i] == rows[i];
    }
  }

  lemma {:induction false} RoundSlugMeaning(rows: seq<RoundRow>, slug: string)
    ensures slug in RoundSlugs(rows) <==> exists i :: 0 <= i < |rows| && rows[i].slug == Some(slug)
    ensures forall i | 0 <= i < |rows| && rows[i].slug == Some(slug) ::
      (forall j :: i < j < |rows| ==> rows[j].slug != Some(slug)) ==> RoundSlugs(rows)[slug] == rows[i].id
  {
    if rows != [] {
      var last := |rows| - 1;
      RoundSlugMeaning(rows[..last], slug);
      assert rows[last].slug == Some(slug) ==> slug in RoundSlugs(rows);
      assert forall i :: 0 <= i < last ==> rows[..last][i] == rows[i];
    }
  }

  /** The list kept for a round, empty if there is none. */
  function ListOf(rows: seq<PuzzleRow>, round: nat): seq<nat> {
    if round in RoundPuzzles(rows) then RoundPuzzles(rows)[round] else []
  }

  lemma ListOfStep(rows: seq<PuzzleRow>, round: nat)
    requires rows != []
    ensures
      var last, before := rows[|rows| - 1], ListOf(rows[..|rows| - 1], round);
      ListOf(rows, round) == if last.round == round then before + [last.id] else before
  {
  }

  /** Which of the first n rows are puzzles of the round. */
  function InRoundBefore(rows: seq<PuzzleRow>, round: nat, n: nat): set<nat> {
    set j: nat | j < n && j < |rows| && rows[j].round == round
  }

  lemma InRoundStep(rows: seq<PuzzleRow>, round: nat, n: nat)
    requires n < |rows|
    ensures InRoundBefore(rows, round, n) == InRoundBefore(rows[..n], round, n)
    ensures |InRoundBefore(rows, round, n + 1)| ==
      |InRoundBefore(rows, round, n)| + if rows[n].round == round then 1 else 0
  {
    assert InRoundBefore(rows, round, n + 1) ==
      InRoundBefore(rows, round, n) + if rows[n].round == round then {n} else {};
  }

  /** A round has as many entries as rows, and a list if there are any. */
  lemma {:induction false} RoundListLength(rows: seq<PuzzleRow>, round: nat)
    ensures |ListOf(rows, round)| == |InRoundBefore(rows, round, |rows|)|
    ensures round in RoundPuzzles(rows) <==> exists i :: 0 <= i < |rows| && rows[i].round == round
  {
    if rows == [] {
      assert InRoundBefore(rows, round, 0) == {};
    } else {
      var last := |rows| - 1;
      RoundListLength(rows[..last], round);
      ListOfStep(rows, round);
      InRoundStep(rows, round, last);
      assert forall i :: 0 <= i < last ==> rows[..last][i] == rows[i];
      assert rows[last].round == round ==> round in RoundPuzzles(rows);
    }
  }

  /** Each row of the round stands at its place among them. */
  lemma {:induction false} RoundListPlace(rows: seq<PuzzleRow>, round: nat, i: nat)
    requires i < |rows| && rows[i].round == round
    ensures |InRoundBefore(rows, round, i)| < |ListOf(rows, round)|
    ensures ListOf(rows, round)[|InRoundBefore(rows, round, i)|] == rows[i].id
  {
    var last := |rows| - 1;
    ListOfStep(rows, round);
    InRoundStep(rows, round, i);
    if i < last {
      RoundListPlace(rows[..last], round, i);
      InRoundStep(rows[..last], round, i);
      assert rows[..last][..i] == rows[..i];
    } else {
      RoundListLength(rows[..last], round);
    }
  }

  /** The list holds the puzzles of the round and nothing else. */
  lemma {:induction false} RoundListHas(rows: seq<PuzzleRow>, round: nat, id: nat)
    ensures id in ListOf(rows, round) <==> exists row <- rows :: row.round == round && row.id == id
  {
    if rows != [] {
      var last := |rows| - 1;
      RoundListHas(rows[..last], round, id);
      ListOfStep(rows, round);
      assert rows == rows[..last] + [rows[last]];
    }
  }

  // ----- what a condition sees -----

  predicate HasSolved(t: TeamState, p: nat) {
    p in t.progress && t.progress[p] >= 1
  }

  lemma StatesMeaning(w: World, t: TeamState, p: nat, key: string)
    ensures
      var st := StatesOf(w, SolvedIn(t.progress), t.triggers, t.started);
      && (st.isSolved(p) <==> HasSolved(t, p)) && (st.isTriggered(p, key) <==> (p, key) in t.triggers)
      && st.gameStarted == t.started
  {
  }

  lemma SlugsMeaning(w: World, t: TeamState, slug: string)
    ensures
      var st := StatesOf(w, SolvedIn(t.progress), t.triggers, t.started);
      && (forall i: nat :: LastWithSlug(w, slug, i) ==> st.puzzleSlug(slug) == Some(w.puzzles[i].id))
      && (forall i: nat :: LastRoundWithSlug(w, slug, i) ==> st.roundSlug(slug) == Some(w.rounds[i].id))
      && ((forall row <- w.puzzles :: row.slug != Some(slug)) ==> st.puzzleSlug(slug).None?)
      && ((forall row <- w.rounds :: row.slug != Some(slug)) ==> st.roundSlug(slug).None?)
  {
    PuzzleSlugMeaning(w.puzzles, slug);
    RoundSlugMeaning(w.rounds, slug);
  }

  /** The text of the block's condition compiles to g. */
  predicate HasCondition(b: Block, g: GateExpr) {
    b.visibility.Some? && CompileText(b.visibility.value) == Success(g)
  }

  lemma NoCondition(w: World, t: TeamState, b: Block)
    requires forall g :: !HasCondition(b, g)
    ensures !Holds(w, t, b)
  {
    if b.visibility.Some? && CompileText(b.visibility.value).Success? {
      assert HasCondition(b, CompileText(b.visibility.value).value);
    }
  }

  lemma ConditionMeaning(w: World, t: TeamState, b: Block, p: nat, key: string)
    ensures HasCondition(b, Solved(PuzzleId(p))) ==> (Holds(w, t, b) <==> HasSolved(t, p))
    ensures HasCondition(b, Triggered(PuzzleId(p), key)) ==> (Holds(w, t, b) <==> (p, key) in t.triggers)
    ensures HasCondition(b, GameStarted) ==> (Holds(w, t, b) <==> t.started)
  {
    var st := StatesOf(w, SolvedIn(t.progress), t.triggers, t.started);
    StatesMeaning(w, t, p, key);
    SolvedMeaning(st, PuzzleId(p));
    TriggeredMeaning(st, p, "", key);
  }

  /** A slug that no row carries makes both false; otherwise it stands for the last row that carries it. */
  lemma SlugConditionMeaning(w: World, t: TeamState, b: Block, slug: string, key: string)
    ensures HasCondition(b, Solved(PuzzleSlug(slug))) ==>
      (Holds(w, t, b) <==> exists i: nat :: LastWithSlug(w, slug, i) && HasSolved(t, w.puzzles[i].id))
    ensures HasCondition(b, Triggered(PuzzleSlug(slug), key)) ==>
      (Holds(w, t, b) <==> exists i: nat :: LastWithSlug(w, slug, i) && (w.puzzles[i].id, key) in t.triggers)
  {
    var st := StatesOf(w, SolvedIn(t.progress), t.triggers, t.started);
    SlugsMeaning(w, t, slug);
    LastExists(w, slug, |w.puzzles|);
    SolvedMeaning(st, PuzzleSlug(slug));
    TriggeredMeaning(st, 0, slug, key);
    if st.puzzleSlug(slug).Some? {
      StatesMeaning(w, t, st.puzzleSlug(slug).value, key);
      var i: nat :| LastWithSlug(w, slug, i);
    }
  }

  lemma {:induction false} LastExists(w: World, slug: string, n: nat)
    requires n <= |w.puzzles| && forall j :: n <= j < |w.puzzles| ==> w.puzzles[j].slug != Some(slug)
    ensures (exists row <- w.puzzles :: row.slug == Some(slug)) ==> exists i: nat :: LastWithSlug(w, slug, i)
    decreases n
  {
    if n > 0 {
      if w.puzzles[n - 1].slug == Some(slug) {
        assert LastWithSlug(w, slug, n - 1);
      } else {
        LastExists(w, slug, n - 1);
      }
    }
  }

  /** A round without puzzles makes both false. */
  lemma RoundConditionMeaning(w: World, t: TeamState, b: Block, round: nat)
    ensures HasCondition(b, AllSolved(Round(RoundId(round)))) ==>
      (Holds(w, t, b) <==>
        && (exists row <- w.puzzles :: row.round == round)
        && (forall row <- w.puzzles :: row.round == round ==> HasSolved(t, row.id)))
    ensures HasCondition(b, AnySolved(Round(RoundId(round)))) ==>
      (Holds(w, t, b) <==> exists row <- w.puzzles :: row.round == round && HasSolved(t, row.id))
  {
    var st := StatesOf(w, SolvedIn(t.progress), t.triggers, t.started);
    var ids := ListOf(w.puzzles, round);
    RoundMeaning(st, RoundId(round));
    RoundKnown(w, t, round);
    forall p { StatesMeaning(w, t, p, ""); }
    forall p { RoundListHas(w.puzzles, round, p); }
    assert (forall row <- w.puzzles :: row.round == round ==> HasSolved(t, row.id)) <==>
      forall id <- ids :: HasSolved(t, id);
    assert (exists row <- w.puzzles :: row.round == round && HasSolved(t, row.id)) <==>
      exists id <- ids :: HasSolved(t, id);
  }

  lemma RoundKnown(w: World, t: TeamState, round: nat)
    ensures
      var st := StatesOf(w, SolvedIn(t.progress), t.triggers, t.started);
      forall ids :: IsRoundList(st, RoundId(round), ids) <==>
        ids == ListOf(w.puzzles, round) && exists row <- w.puzzles :: row.round == round
  {
    RoundListLength(w.puzzles, round);
  }

  /** Both ends included, in either order. */
  lemma RangeConditionMeaning(w: World, t: TeamState, b: Block, first: nat, last: nat)
    ensures HasCondition(b, AllSolved(PuzzleRange(first, last))) ==>
      (Holds(w, t, b) <==> forall p: nat :: Between(first, p, last) ==> HasSolved(t, p))
    ensures HasCondition(b, AnySolved(PuzzleRange(first, last))) ==>
      (Holds(w, t, b) <==> exists p: nat :: Between(first, p, last) && HasSolved(t, p))
  {
    var st := StatesOf(w, SolvedIn(t.progress), t.triggers, t.started);
    RangeMeaning(st, first, last);
    forall p { StatesMeaning(w, t, p, ""); }
  }

  /** Connectives are those of their parts. */
  lemma ConnectiveConditionMeaning(w: World, t: TeamState, b: Block, parts: seq<Block>, xs: seq<GateExpr>)
    requires |parts| == |xs| && forall i :: 0 <= i < |xs| ==> HasCondition(parts[i], xs[i])
    ensures HasCondition(b, And(xs)) ==> (Holds(w, t, b) <==> forall part <- parts :: Holds(w, t, part))
    ensures HasCondition(b, Or(xs)) ==> (Holds(w, t, b) <==> exists part <- parts :: Holds(w, t, part))
    ensures |xs| == 1 && HasCondition(b, Not(xs[0])) ==> (Holds(w, t, b) <==> !Holds(w, t, parts[0]))
  {
    var st := StatesOf(w, SolvedIn(t.progress), t.triggers, t.started);
    ConnectiveMeaning(st, xs, if xs == [] then True else xs[0]);
    forall i | 0 <= i < |xs| ensures Holds(w, t, parts[i]) <==> Eval(st, xs[i]) {
      assert HasCondition(parts[i], xs[i]);
    }
    PartsHold(parts, xs, part => Holds(w, t, part), x => Eval(st, x));
  }

  lemma PartsHold(parts: seq<Block>, xs: seq<GateExpr>, p: Block -> bool, q: GateExpr -> bool)
    requires |parts| == |xs| && forall i :: 0 <= i < |xs| ==> p(parts[i]) == q(xs[i])
    ensures (forall part <- parts :: p(part)) <==> forall x <- xs :: q(x)
    ensures (exists part <- parts :: p(part)) <==> exists x <- xs :: q(x)
  {
    forall i | 0 <= i < |xs| ensures parts[i] in parts && xs[i] in xs {}
  }

  // ----- what a refresh unlocks -----

  /** A puzzle that the team has opened and whose page is released. */
  predicate OpenAndReleased(t: TeamState, released: set<nat>, p: nat) {
    p in t.progress && t.progress[p] >= 0 && p in released
  }

  /** The block's puzzle is, or a puzzle of the block's round. */
  predicate IsVisible(w: World, t: TeamState, released: set<nat>, b: Block) {
    match b.owner
    case OfPuzzle(p) => OpenAndReleased(t, released, p)
    case OfRound(r) => exists row <- w.puzzles :: row.round == r && OpenAndReleased(t, released, row.id)
  }

  lemma PageMeaning(w: World, t: TeamState, released: set<nat>, b: Block)
    ensures OnPage(w, t.progress, released, b) <==> IsVisible(w, t, released, b)
  {
    if OnPage(w, t.progress, released, b) {
      var p :| p in t.progress && ShownBy(w, t.progress, released, b, p);
      assert OpenAndReleased(t, released, p);
    }
    if IsVisible(w, t, released, b) {
      match b.owner
      case OfPuzzle(p) =>
        assert ShownBy(w, t.progress, released, b, p);
      case OfRound(r) =>
        var row :| row in w.puzzles && row.round == r && OpenAndReleased(t, released, row.id);
        assert ShownBy(w, t.progress, released, b, row.id);
    }
  }

  /** A dirty team gets exactly the visible blocks whose condition holds, loses none, and is clean; nothing
      happens to a clean one. */
  lemma RefreshMeaning(w: World, t: TeamState, released: set<nat>, id: int)
    ensures
      var u := Refreshed(w, t, released);
      && (id in u.unlocked <==>
           || id in t.unlocked
           || (t.dirty && exists b <- w.blocks :: b.id == id && IsVisible(w, t, released, b) && Holds(w, t, b)))
      && u == t.(unlocked := u.unlocked, dirty := false)
  {
    forall b <- w.blocks { PageMeaning(w, t, released, b); }
  }

  /** So a block on a visible page with the condition that a puzzle is solved is unlocked by the refresh of a
      dirty team exactly if the team has solved it. */
  lemma RefreshUnlocksIffSolved(w: World, t: TeamState, released: set<nat>, b: Block, p: nat)
    requires b in w.blocks && (forall c <- w.blocks :: c.id == b.id ==> c == b)
    requires t.dirty && b.id !in t.unlocked && IsVisible(w, t, released, b)
    requires HasCondition(b, Solved(PuzzleId(p)))
    ensures b.id in Refreshed(w, t, released).unlocked <==> p in t.progress && t.progress[p] >= 1
  {
    RefreshMeaning(w, t, released, b.id);
    ConditionMeaning(w, t, b, p, "");
  }

  // ----- what a submission leaves -----

  /** Its triggers are added, a correct answer solves a puzzle that was opened and not yet solved, the start
      action starts the game; unlocks stay, and the flag is set exactly if one of these changed a row. */
  lemma SubmissionMeaning(t: TeamState, p: nat, keys: seq<string>, action: Action, q: nat, key: string)
    ensures
      var u := Submitted(t, p, keys, action);
      && ((q, key) in u.triggers <==> (q, key) in t.triggers || (q == p && key in keys))
      && (HasSolved(u, q) <==> HasSolved(t, q) || (action.Correct? && q == p && q in t.progress && t.progress[q] == 0))
      && u.progress.Keys == t.progress.Keys
      && (q in t.progress ==>
            u.progress[q] == if action.Correct? && q == p && t.progress[q] == 0 then 1 else t.progress[q])
      && (u.started <==> t.started || action.StartGame?)
      && u.unlocked == t.unlocked
      && (u.dirty <==> t.dirty || u != t)
  {
    if Submitted(t, p, keys, action).dirty != t.dirty && Submitted(t, p, keys, action).triggers == t.triggers {
      assert Keyed(p, keys) <= t.triggers;
    }
  }
}
