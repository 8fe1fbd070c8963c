/** Which teams get a puzzle unlocked by the staff (src/db/puzzle.rs:2217-2345). */
module EligibleTeams {
  import opened Common
  import opened Gate
  import opened GateCompiler
  import opened GateMeaning
  import opened Parser

  type Triggers = set<(nat, string)>

  datatype Team = Team(id: int, started: bool)

  /** One row of the candidate query: a team, and one puzzle it solved if it solved any. */
  datatype Row = Row(id: int, started: bool, solved: Option<nat>)

  function TriggersOf(triggers: map<int, Triggers>, id: int): Triggers {
    if id in triggers then triggers[id] else {}
  }

  /** The state of one team; slugs and rounds are those of the game, in `game`. */
  function TeamStates(game: PuzzleStates, solved: set<nat>, started: bool, triggers: Triggers): PuzzleStates {
    game.(isSolved := id => id in solved,
          gameStarted := started,
          isTriggered := (id, key) => (id, key) in triggers)
  }

  predicate Passes(cond: Option<GateExpr>, game: PuzzleStates, solved: set<nat>, started: bool, triggers: Triggers) {
    cond.None? || Eval(TeamStates(game, solved, started, triggers), cond.value)
  }

  /** The decision the loop's closure takes on a team's id, start and solved set. */
  type Test = (int, bool, set<nat>) -> bool

  // ----- the candidate rows -----

  /** Sorted by team, and rows of one team carry that team's start. */
  predicate Grouped(rows: seq<Row>) {
    && (forall i, j :: 0 <= i < j < |rows| ==> rows[i].id <= rows[j].id)
    && (forall i, j :: 0 <= i < |rows| && 0 <= j < |rows| && rows[i].id == rows[j].id ==>
          rows[i].started == rows[j].started)
  }

  function SolvedIn(rows: seq<Row>, id: int): set<nat> {
    set row <- rows | row.id == id && row.solved.Some? :: row.solved.value
  }

  predicate Eligible(rows: seq<Row>, row: Row, test: Test) {
    test(row.id, row.started, SolvedIn(rows, row.id))
  }

  predicate Increasing(ids: seq<int>) {
    forall i, j :: 0 <= i < j < |ids| ==> ids[i] < ids[j]
  }

  /** Every team but the one being read has been decided: `ids` lists the eligible ones, once each
      and in order. */
  predicate Decided(ids: seq<int>, rows: seq<Row>, current: Option<int>, test: Test) {
    && Increasing(ids)
    && (forall id <- ids :: Some(id) != current && exists row <- rows :: row.id == id && Eligible(rows, row, test))
    && (forall row <- rows :: Some(row.id) != current && Eligible(rows, row, test) ==> row.id in ids)
  }

  /** What the loop knows about the team it is reading. */
  predicate Reading(rows: seq<Row>, current: Option<int>, started: bool, solved: set<nat>) {
    if rows == [] then current.None?
    else
      && current == Some(rows[|rows| - 1].id)
      && started == rows[|rows| - 1].started
      && solved == SolvedIn(rows, current.value)
  }

  lemma SolvedInStep(rows: seq<Row>, row: Row, id: int)
    ensures SolvedIn(rows + [row], id) ==
      SolvedIn(rows, id) + (if row.id == id && row.solved.Some? then {row.solved.value} else {})
  {
  }

  lemma EligibleKept(rows: seq<Row>, row: Row, other: Row, test: Test)
    requires other.id != row.id
    ensures Eligible(rows + [row], other, test) == Eligible(rows, other, test)
  {
    SolvedInStep(rows, row, other.id);
    assert SolvedIn(rows + [row], other.id) == SolvedIn(rows, other.id);
  }

  /** The next row, when every team but its own has been decided. */
  lemma ReadRow(ids: seq<int>, rows: seq<Row>, row: Row, test: Test)
    requires Decided(ids, rows, Some(row.id), test)
    ensures Decided(ids, rows + [row], Some(row.id), test)
  {
    forall id | id in ids
      ensures Some(id) != Some(row.id)
      ensures exists r <- rows + [row] :: r.id == id && Eligible(rows + [row], r, test)
    {
      var r :| r in rows && r.id == id && Eligible(rows, r, test);
      EligibleKept(rows, row, r, test);
      assert r in rows + [row];
    }
    forall r | r in rows + [row] && r.id != row.id && Eligible(rows + [row], r, test)
      ensures r.id in ids
    {
      EligibleKept(rows, row, r, test);
    }
  }

  /** The team being read is decided once its rows are complete. */
  lemma Decide(ids: seq<int>, rows: seq<Row>, current: int, started: bool, solved: set<nat>, test: Test)
    requires Grouped(rows) && Reading(rows, Some(current), started, solved)
    requires Decided(ids, rows, Some(current), test)
    ensures Decided(Flushed(ids, Some(current), started, solved, test), rows, None, test)
  {
    var last := rows[|rows| - 1];
    var after := Flushed(ids, Some(current), started, solved, test);
    assert last in rows;
    forall r | r in rows && r.id == current
      ensures Eligible(rows, r, test) == test(current, started, solved)
    {
      assert r.started == last.started;
    }
    forall id | id in after
      ensures exists r <- rows :: r.id == id && Eligible(rows, r, test)
    {
      if id !in ids {
        assert id == last.id && Eligible(rows, last, test);
      }
    }
    forall k | 0 <= k < |ids|
      ensures ids[k] < current
    {
      assert ids[k] in ids;
      var r :| r in rows && r.id == ids[k] && Eligible(rows, r, test);
      assert r.id <= last.id;
    }
    forall r | r in rows && Eligible(rows, r, test)
      ensures r.id in after
    {
    }
  }

  function Flushed(ids: seq<int>, current: Option<int>, started: bool, solved: set<nat>, test: Test): seq<int> {
    if current.Some? && test(current.value, started, solved)
    then ids + [current.value]
    else ids
  }

  lemma PrefixGrouped(rows: seq<Row>, n: nat)
    requires Grouped(rows) && n <= |rows|
    ensures Grouped(rows[..n])
  {
  }

  lemma NewTeamIsFresh(rows: seq<Row>, i: nat)
    requires Grouped(rows) && 0 < i < |rows| && rows[i - 1].id != rows[i].id
    ensures forall r <- rows[..i] :: r.id < rows[i].id
    ensures SolvedIn(rows[..i], rows[i].id) == {}
  {
    forall k | 0 <= k < i
      ensures rows[..i][k].id < rows[i].id
    {
      assert rows[k].id <= rows[i - 1].id;
    }
  }

  lemma StillDecided(ids: seq<int>, rows: seq<Row>, row: Row, test: Test)
    requires Decided(ids, rows, None, test)
    requires forall r <- rows :: r.id < row.id
    ensures Decided(ids, rows, Some(row.id), test)
  {
  }

  /** What the loop holds. */
  datatype Scan = Scan(ids: seq<int>, current: Option<int>, started: bool, solved: set<nat>)

  function Next(s: Scan, row: Row, test: Test): Scan {
    var read := if row.solved.Some? then {row.solved.value} else {};
    if s.current == Some(row.id) then s.(solved := s.solved + read)
    else Scan(Flushed(s.ids, s.current, s.started, s.solved, test), Some(row.id), row.started, read)
  }

  function ScanRows(rows: seq<Row>, test: Test): Scan {
    if rows == [] then Scan([], None, false, {})
    else Next(ScanRows(rows[..|rows| - 1], test), rows[|rows| - 1], test)
  }

  ghost predicate ScanInvariant(rows: seq<Row>, s: Scan, test: Test) {
    Reading(rows, s.current, s.started, s.solved) && Decided(s.ids, rows, s.current, test)
  }

  lemma AdvanceReading(rows: seq<Row>, row: Row, s: Scan, test: Test)
    requires Grouped(rows + [row]) && Reading(rows, s.current, s.started, s.solved)
    ensures
      var n := Next(s, row, test);
      Reading(rows + [row], n.current, n.started, n.solved)
  {
    var all := rows + [row];
    assert all[..|rows|] == rows;
    SolvedInStep(rows, row, row.id);
    if s.current == Some(row.id) {
      assert all[|rows| - 1] == rows[|rows| - 1] && all[|rows|] == row;
    } else if s.current.Some? {
      NewTeamIsFresh(all, |rows|);
    }
  }

  lemma AdvanceDecided(rows: seq<Row>, row: Row, s: Scan, test: Test)
    requires Grouped(rows + [row]) && ScanInvariant(rows, s, test)
    ensures Decided(Next(s, row, test).ids, rows, Some(row.id), test)
  {
    if s.current.Some? && s.current != Some(row.id) {
      var all := rows + [row];
      assert all[..|rows|] == rows;
      PrefixGrouped(all, |rows|);
      NewTeamIsFresh(all, |rows|);
      Decide(s.ids, rows, s.current.value, s.started, s.solved, test);
      StillDecided(Next(s, row, test).ids, rows, row, test);
    }
  }

  /** Over rows sorted by team, every scan keeps what it knows. */
  lemma {:induction false} ScanKeepsInvariant(rows: seq<Row>, test: Test)
    requires Grouped(rows)
    ensures ScanInvariant(rows, ScanRows(rows, test), test)
  {
    if rows != [] {
      var before := rows[..|rows| - 1];
      PrefixGrouped(rows, |rows| - 1);
      assert before + [rows[|rows| - 1]] == rows;
      ScanKeepsInvariant(before, test);
      AdvanceReading(before, rows[|rows| - 1], ScanRows(before, test), test);
      AdvanceDecided(before, rows[|rows| - 1], ScanRows(before, test), test);
      ReadRow(ScanRows(rows, test).ids, before, rows[|rows| - 1], test);
    }
  }

  /** `flush_team`. */
  method FlushTeam(ids: seq<int>, current: Option<int>, started: bool, solved: set<nat>, test: Test)
    returns (r: seq<int>)
    ensures r == Flushed(ids, current, started, solved, test)
  {
    if current.None? {
      return ids;
    }
    r := if test(current.value, started, solved) then ids + [current.value] else ids;
  }

  /** Flushes a team when the next one begins, and the last one at the end: the eligible teams of the
      rows, once each and in order. */
  method CollectEligible(rows: seq<Row>, test: Test) returns (ids: seq<int>)
    requires Grouped(rows)
    ensures Decided(ids, rows, None, test)
  {
    ids := [];
    var current: Option<int> := None;
    var started := false;
    var solved: set<nat> := {};
    for i := 0 to |rows|
      invariant Scan(ids, current, started, solved) == ScanRows(rows[..i], test)
    {
      assert rows[..i + 1][..i] == rows[..i];
      if current != Some(rows[i].id) {
        ids := FlushTeam(ids, current, started, solved, test);
        current := Some(rows[i].id);
        started := rows[i].started;
        solved := {};
      }
      if rows[i].solved.Some? {
        solved := solved + {rows[i].solved.value};
      }
    }
    assert rows[..|rows|] == rows;
    ScanDecides(rows, test);
    ids := FlushTeam(ids, current, started, solved, test);
  }

  lemma ScanDecides(rows: seq<Row>, test: Test)
    requires Grouped(rows)
    ensures
      var s := ScanRows(rows, test);
      Decided(Flushed(s.ids, s.current, s.started, s.solved, test), rows, None, test)
  {
    ScanKeepsInvariant(rows, test);
    var s := ScanRows(rows, test);
    if s.current.Some? {
      Decide(s.ids, rows, s.current.value, s.started, s.solved, test);
    }
  }

  // ----- from the tables -----

  /** The candidate query: teams without a row for the puzzle, joined to the puzzles they solved. */
  ghost predicate CandidateRows(rows: seq<Row>, teams: seq<Team>, progress: map<(int, nat), int>, puzzle: nat) {
    && (forall i, j :: 0 <= i < j < |rows| ==> rows[i].id <= rows[j].id)
    && (forall row :: row in rows <==>
          && Team(row.id, row.started) in teams
          && (row.id, puzzle) !in progress
          && match row.solved
             case Some(q) => (row.id, q) in progress && progress[(row.id, q)] >= 1
             case None => SolvedBy(progress, row.id) == {})
  }

  function SolvedBy(progress: map<(int, nat), int>, team: int): set<nat> {
    set k <- progress | k.0 == team && progress[k] >= 1 :: k.1
  }

  predicate OneRowPerTeam(teams: seq<Team>) {
    forall t <- teams, u <- teams :: t.id == u.id ==> t == u
  }

  /** The rows of a candidate carry its whole solved set, and every candidate has a row. */
  lemma RowsDescribeTeam(rows: seq<Row>, teams: seq<Team>, progress: map<(int, nat), int>, puzzle: nat, t: Team)
    requires CandidateRows(rows, teams, progress, puzzle)
    requires t in teams && (t.id, puzzle) !in progress && OneRowPerTeam(teams)
    ensures SolvedIn(rows, t.id) == SolvedBy(progress, t.id)
    ensures exists row <- rows :: row.id == t.id && row.started == t.started
    ensures forall row <- rows :: row.id == t.id ==> row.started == t.started
  {
    forall q | q in SolvedBy(progress, t.id)
      ensures Row(t.id, t.started, Some(q)) in rows && q in SolvedIn(rows, t.id)
    {
      assert Row(t.id, t.started, Some(q)) in rows;
    }
    if SolvedBy(progress, t.id) == {} {
      assert Row(t.id, t.started, None) in rows;
    } else {
      var q :| q in SolvedBy(progress, t.id);
      assert Row(t.id, t.started, Some(q)) in rows;
    }
  }

  function TestFor(cond: Option<GateExpr>, game: PuzzleStates, triggers: map<int, Triggers>): Test {
    (id: int, started: bool, solved: set<nat>) => Passes(cond, game, solved, started, TriggersOf(triggers, id))
  }

  predicate TeamEligible(t: Team, progress: map<(int, nat), int>, puzzle: nat, cond: Option<GateExpr>,
                         game: PuzzleStates, triggers: map<int, Triggers>) {
    (t.id, puzzle) !in progress && Passes(cond, game, SolvedBy(progress, t.id), t.started, TriggersOf(triggers, t.id))
  }

  /** The eligible teams, once each and in order. */
  ghost predicate ListsEligible(ids: seq<int>, teams: seq<Team>, progress: map<(int, nat), int>, puzzle: nat,
                                cond: Option<GateExpr>, game: PuzzleStates, triggers: map<int, Triggers>) {
    && Increasing(ids)
    && forall id :: id in ids <==>
      (exists t <- teams :: t.id == id && TeamEligible(t, progress, puzzle, cond, game, triggers))
  }

  /** Whatever the order of a team's rows, the loop returns exactly the teams that do not have the
      puzzle and whose own solved set, start and triggers satisfy the condition. */
  lemma SelectsEligibleTeams(ids: seq<int>, rows: seq<Row>, teams: seq<Team>, progress: map<(int, nat), int>,
                             puzzle: nat, cond: Option<GateExpr>, game: PuzzleStates, triggers: map<int, Triggers>)
    requires CandidateRows(rows, teams, progress, puzzle) && OneRowPerTeam(teams)
    requires Decided(ids, rows, None, TestFor(cond, game, triggers))
    ensures ListsEligible(ids, teams, progress, puzzle, cond, game, triggers)
  {
    forall id | id in ids
      ensures exists t <- teams :: t.id == id && TeamEligible(t, progress, puzzle, cond, game, triggers)
    {
      var row :| row in rows && row.id == id && Eligible(rows, row, TestFor(cond, game, triggers));
      var t := Team(row.id, row.started);
      RowsDescribeTeam(rows, teams, progress, puzzle, t);
      assert t in teams && TeamEligible(t, progress, puzzle, cond, game, triggers);
    }
    forall t | t in teams && TeamEligible(t, progress, puzzle, cond, game, triggers)
      ensures t.id in ids
    {
      RowsDescribeTeam(rows, teams, progress, puzzle, t);
      var row :| row in rows && row.id == t.id;
      assert Eligible(rows, row, TestFor(cond, game, triggers));
    }
  }

  predicate HasSolved(progress: map<(int, nat), int>, team: int, p: nat) {
    (team, p) in progress && progress[(team, p)] >= 1
  }

  /** What a team needs besides not having the puzzle, for the conditions that look at its rows. */
  lemma EligibleMeaning(t: Team, progress: map<(int, nat), int>, puzzle: nat, game: PuzzleStates,
                        triggers: map<int, Triggers>, p: nat, key: string)
    ensures TeamEligible(t, progress, puzzle, None, game, triggers) <==> (t.id, puzzle) !in progress
    ensures TeamEligible(t, progress, puzzle, Some(Solved(PuzzleId(p))), game, triggers) <==>
      (t.id, puzzle) !in progress && HasSolved(progress, t.id, p)
    ensures TeamEligible(t, progress, puzzle, Some(GameStarted), game, triggers) <==>
      (t.id, puzzle) !in progress && t.started
    ensures TeamEligible(t, progress, puzzle, Some(Triggered(PuzzleId(p), key)), game, triggers) <==>
      (t.id, puzzle) !in progress && t.id in triggers && (p, key) in triggers[t.id]
  {
    StatesMeaning(t, progress, game, triggers, p, key);
    var st := TeamStates(game, SolvedBy(progress, t.id), t.started, TriggersOf(triggers, t.id));
    SolvedMeaning(st, PuzzleId(p));
    TriggeredMeaning(st, p, "", key);
  }

  /** Slugs and rounds are the game's, everything else the team's own. */
  lemma StatesMeaning(t: Team, progress: map<(int, nat), int>, game: PuzzleStates, triggers: map<int, Triggers>,
                      p: nat, key: string)
    ensures
      var st := TeamStates(game, SolvedBy(progress, t.id), t.started, TriggersOf(triggers, t.id));
      && (st.isSolved(p) <==> HasSolved(progress, t.id, p))
      && (st.isTriggered(p, key) <==> t.id in triggers && (p, key) in triggers[t.id])
      && st.gameStarted == t.started
      && st.puzzleSlug(key) == game.puzzleSlug(key) && st.roundSlug(key) == game.roundSlug(key)
      && st.roundPuzzles(p) == game.roundPuzzles(p)
  {
    if HasSolved(progress, t.id, p) {
      assert (t.id, p) in progress;
    }
  }

  /** A whole range, both ends included, or one of it. */
  lemma RangeEligibleMeaning(t: Team, progress: map<(int, nat), int>, puzzle: nat, game: PuzzleStates,
                             triggers: map<int, Triggers>, first: nat, last: nat)
    ensures TeamEligible(t, progress, puzzle, Some(AllSolved(PuzzleRange(first, last))), game, triggers) <==>
      (t.id, puzzle) !in progress && forall p: nat :: Between(first, p, last) ==> HasSolved(progress, t.id, p)
    ensures TeamEligible(t, progress, puzzle, Some(AnySolved(PuzzleRange(first, last))), game, triggers) <==>
      (t.id, puzzle) !in progress && exists p: nat :: Between(first, p, last) && HasSolved(progress, t.id, p)
  {
    var st := TeamStates(game, SolvedBy(progress, t.id), t.started, TriggersOf(triggers, t.id));
    RangeMeaning(st, first, last);
    forall p: nat ensures st.isSolved(p) <==> HasSolved(progress, t.id, p) {
      StatesMeaning(t, progress, game, triggers, p, "");
    }
  }

  /** The whole selection: the condition is compiled first, and its error returned. */
  method EligibleForPuzzle(text: Option<string>, rows: seq<Row>, game: PuzzleStates, triggers: map<int, Triggers>,
                           ghost teams: seq<Team>, ghost progress: map<(int, nat), int>, ghost puzzle: nat)
    returns (r: Result<seq<int>, SourceError>)
    requires CandidateRows(rows, teams, progress, puzzle) && OneRowPerTeam(teams)
    ensures r.Failure? <==> text.Some? && CompileText(text.value).Failure?
    ensures r.Failure? ==> r.error == CompileText(text.value).error
    ensures r.Success? ==>
      var cond := if text.Some? then Some(CompileText(text.value).value) else None;
      ListsEligible(r.value, teams, progress, puzzle, cond, game, triggers)
  {
    var cond: Option<GateExpr> := None;
    if text.Some? {
      var compiled := CompileText(text.value);
      if compiled.Failure? {
        return Failure(compiled.error);
      }
      cond := Some(compiled.value);
    }
    RowsGrouped(rows, teams, progress, puzzle);
    var ids := CollectEligible(rows, TestFor(cond, game, triggers));
    SelectsEligibleTeams(ids, rows, teams, progress, puzzle, cond, game, triggers);
    r := Success(ids);
  }

  lemma RowsGrouped(rows: seq<Row>, teams: seq<Team>, progress: map<(int, nat), int>, puzzle: nat)
    requires CandidateRows(rows, teams, progress, puzzle) && OneRowPerTeam(teams)
    ensures Grouped(rows)
  {
    forall i, j | 0 <= i < |rows| && 0 <= j < |rows| && rows[i].id == rows[j].id
      ensures rows[i].started == rows[j].started
    {
      assert rows[i] in rows && rows[j] in rows;
      assert Team(rows[i].id, rows[i].started) in teams && Team(rows[j].id, rows[j].started) in teams;
    }
  }
}
