/** What one change and one release phase leave in a game, in terms of its rows (src/db/feature.rs:31-160, 348-476). */
module FeaturesMeaning {
  import opened Common
  import opened CurrencyGrowth
  import opened Standings
  import opened Features

  /** The numbers under which features and their states are stored. */
  lemma StoredNumbers(v: int)
    ensures FromValue(0) == Some(TeamFormation) && FromValue(1) == Some(DirectMessage)
    ensures FromValue(2) == Some(PuzzleTicket) && FromValue(3) == Some(Leaderboard) && FromValue(4) == Some(Currency)
    ensures FromValue(v).Some? <==> 0 <= v <= 4
    ensures Encode(TeamFormation, Closed) == Some(0) && Encode(TeamFormation, Open) == Some(1)
    ensures Encode(DirectMessage, Closed) == Some(0) && Encode(DirectMessage, ExistingOnly) == Some(1)
    ensures Encode(DirectMessage, Open) == Some(2) && Encode(PuzzleTicket, Closed) == Some(0)
    ensures Encode(PuzzleTicket, ExistingOnly) == Some(1) && Encode(PuzzleTicket, Open) == Some(2)
    ensures Encode(Leaderboard, Live) == Some(0) && Encode(Leaderboard, Locked) == Some(1)
    ensures Encode(Currency, Closed) == Some(0) && Encode(Currency, Open) == Some(1)
  {
  }

  /** A new game is open in everything, its leaderboard live, with nothing recorded. */
  lemma NewGame(teams: seq<Team>, f: Feature)
    ensures
      var g := InitialGame(teams);
      && f in g.codes && Decode(f, g.codes[f]) == Some(if f == Leaderboard then Live else Open)
      && g.lock == None && g.history == [] && g.effects == [] && g.teams == teams
  {
  }

  /** The phase has changed the feature before. */
  predicate IsReplay(g: Game, f: Feature, phase: Option<int>) {
    phase.Some? && exists e <- g.history :: e.phase == phase && e.feature == f
  }

  lemma ReplayedIsReplay(g: Game, op: Op)
    requires op.Op?
    ensures Replayed(g, op) <==> IsReplay(g, op.feature, op.phase)
  {
    if Replayed(g, op) {
      var i :| 0 <= i < |g.history| && g.history[i].phase == op.phase && g.history[i].feature == op.feature;
      assert g.history[i] in g.history;
    }
    if IsReplay(g, op.feature, op.phase) {
      var e :| e in g.history && e.phase == op.phase && e.feature == op.feature;
      var i :| 0 <= i < |g.history| && g.history[i] == e;
    }
  }

  /** Locking keeps the lock there is, or takes one of the teams as they stand; going live drops it. */
  predicate LockFollows(g: Game, h: Game, f: Feature, state: FeatureState, phase: Option<int>, at: int) {
    && (f != Leaderboard ==> h.lock == g.lock)
    && (f == Leaderboard && state == Live ==> h.lock.None?)
    && (f == Leaderboard && state == Locked && g.lock.Some? ==> h.lock == g.lock)
    && (f == Leaderboard && state == Locked && g.lock.None? ==>
          h.lock.Some? && h.lock.value.phase == phase && h.lock.value.lockedAt == at
          && h.lock.value.standings == Ranked(g.teams))
  }

  /** Currency growth is settled when the currency closes and resumed when it opens, and only then. */
  predicate GrowthFollows(g: Game, h: Game, f: Feature, before: FeatureState, state: FeatureState, at: int) {
    h.effects == g.effects + (if f != Currency || before == state then []
                              else if state == Closed then [CloseAt(at)] else [OpenAt(at)])
  }

  /** A replay changes nothing. Any other change, also to the state there is, sets the feature and no other one,
      and is recorded last. */
  lemma ChangeMeaning(g: Game, f: Feature, state: FeatureState, phase: Option<int>, actor: Option<int>, at: int)
    requires Complete(g) && Encode(f, state).Some? && Decode(f, g.codes[f]).Some?
    ensures
      var h := Apply(g, Op(f, Encode(f, state).value, phase, actor, at));
      if IsReplay(g, f, phase) then h == g
      else
        && Decode(f, h.codes[f]) == Some(state)
        && (forall other: Feature :: other != f ==> h.codes[other] == g.codes[other])
        && h.history == g.history + [Entry(f, g.codes[f], h.codes[f], phase, actor, at)]
        && h.teams == g.teams
        && LockFollows(g, h, f, state, phase, at)
        && GrowthFollows(g, h, f, Decode(f, g.codes[f]).value, state, at)
  {
    var op := Op(f, Encode(f, state).value, phase, actor, at);
    ReplayedIsReplay(g, op);
    CodesMatchStates(f, state, op.target);
    CodesMatchStates(f, Decode(f, g.codes[f]).value, g.codes[f]);
  }

  // ----- replays and happenings -----

  /** No phase changes a feature twice. */
  predicate NoPairTwice(ops: seq<Op>) {
    forall i, j :: 0 <= i < j < |ops| && ops[i].Op? && ops[j].Op? && ops[i].phase.Some? ==>
      !(ops[i].phase == ops[j].phase && ops[i].feature == ops[j].feature)
  }

  /** What is left out of the first applications was done by the same phase to the same feature. */
  predicate HasFirst(ops: seq<Op>, op: Op) {
    op in ops || exists first <- ops :: SamePair(first, op)
  }

  lemma {:induction false} FirstOnlyMeaning(ops: seq<Op>)
    ensures NoPairTwice(FirstOnly(ops))
    ensures forall op <- FirstOnly(ops) :: op in ops
    ensures forall op <- ops :: HasFirst(FirstOnly(ops), op)
    decreases |ops|
  {
    if ops != [] {
      var front, last := ops[..|ops| - 1], ops[|ops| - 1];
      var firsts := FirstOnly(front);
      FirstOnlyMeaning(front);
      assert ops == front + [last];
      if SeenIn(front, last) {
        var i :| 0 <= i < |front| && SamePair(front[i], last);
        assert front[i] in front && HasFirst(firsts, front[i]);
        assert HasFirst(firsts, last);
      } else {
        forall op <- firsts ensures !SamePair(op, last) {
          var i :| 0 <= i < |front| && front[i] == op;
        }
        AppendFirst(firsts, last);
        forall op <- ops ensures HasFirst(firsts + [last], op) {
          if op != last { assert HasFirst(firsts, op); }
        }
      }
    }
  }

  lemma AppendFirst(firsts: seq<Op>, last: Op)
    requires NoPairTwice(firsts) && forall op <- firsts :: !SamePair(op, last)
    ensures NoPairTwice(firsts + [last])
  {
    var all := firsts + [last];
    forall i, j | 0 <= i < j < |all| && all[i].Op? && all[j].Op? && all[i].phase.Some?
      ensures !(all[i].phase == all[j].phase && all[i].feature == all[j].feature)
    {
      if j == |firsts| { assert firsts[i] in firsts; }
    }
  }

  /** Happenings take effect one after another. */
  lemma HappeningMeaning(g: Game, hs: seq<Happening>, h: Happening)
    requires Complete(g)
    ensures
      var before, after := RunOps(g, AllOps(hs)), RunOps(g, AllOps(hs + [h]));
      && (h.PhaseFires? ==> after == RunOps(before, PhaseOps(h.phase, h.rows, h.at)))
      && (h.TeamsMove? ==> after == before.(teams := h.teams))
      && (h.ManualChange? ==>
            var code := Encode(h.change.feature, h.change.state);
            if code.None? then after == before
            else after == Apply(before, Op(h.change.feature, code.value, None, Some(h.actor), h.at)))
  {
    assert (hs + [h])[..|hs|] == hs;
    RunOpsConcat(g, AllOps(hs), OpsOf(h));
    var before := RunOps(g, AllOps(hs));
    if |OpsOf(h)| == 1 {
      assert OpsOf(h) == [] + [OpsOf(h)[0]];
      RunOpsSnoc(before, [], OpsOf(h)[0]);
    }
  }

  // ----- one phase -----

  /** The rows of a phase are keyed by feature. */
  predicate DistinctRows(rows: seq<(int, int)>) {
    forall i, j :: 0 <= i < j < |rows| ==> rows[i].0 != rows[j].0
  }

  /** Every row's feature has the row's state, the others are as they were, and each row is recorded in order. */
  predicate PhaseApplied(g: Game, h: Game, phase: int, rows: seq<(int, int)>, at: int)
    requires Complete(g) && Complete(h)
  {
    && (forall f: Feature, i :: 0 <= i < |rows| && rows[i].0 == Value(f) ==> h.codes[f] == rows[i].1)
    && (forall f: Feature :: (forall i :: 0 <= i < |rows| ==> rows[i].0 != Value(f)) ==> h.codes[f] == g.codes[f])
    && |h.history| == |g.history| + |rows|
    && (forall k :: 0 <= k < |g.history| ==> h.history[k] == g.history[k])
    && (forall i :: 0 <= i < |rows| ==> IsRecorded(h.history[|g.history| + i], rows[i], phase, at))
  }

  predicate IsRecorded(e: Entry, row: (int, int), phase: int, at: int) {
    Value(e.feature) == row.0 && e.newCode == row.1 && e.phase == Some(phase) && e.actor == None && e.at == at
  }

  /** A row with the number of a feature and of one of its states: three of messages and tickets, two of the rest. */
  predicate GoodRow(row: (int, int)) {
    0 <= row.0 <= 4 && 0 <= row.1 <= if row.0 == 1 || row.0 == 2 then 2 else 1
  }

  lemma GoodRowsValid(rows: seq<(int, int)>)
    ensures RowsValid(rows) <==> forall i :: 0 <= i < |rows| ==> GoodRow(rows[i])
  {
    forall row: (int, int) ensures RowValid(row) <==> GoodRow(row) {}
  }

  /** A phase with good rows that has not changed any of their features before. */
  lemma {:induction false} PhaseMeaning(g: Game, phase: int, rows: seq<(int, int)>, at: int)
    requires Complete(g) && (forall i :: 0 <= i < |rows| ==> GoodRow(rows[i])) && DistinctRows(rows)
    requires forall e <- g.history :: e.phase != Some(phase)
    ensures PhaseApplied(g, RunOps(g, PhaseOps(phase, rows, at)), phase, rows, at)
    decreases |rows|
  {
    GoodRowsValid(rows);
    if rows != [] {
      var last := |rows| - 1;
      var before := rows[..last];
      PhaseMeaning(g, phase, before, at);
      assert rows[..|rows|] == rows && RowValid(rows[last]);
      PhaseStep(g, phase, rows, last, at);
      var h := RunOps(g, PhaseOps(phase, before, at));
      NotYet(g, h, phase, before, rows[last], at);
      var op := RowOp(phase, rows[last], at);
      var k := Apply(h, op);
      assert !Replayed(h, op) by { ReplayedIsReplay(h, op); }
      assert k == RunOps(g, PhaseOps(phase, rows, at));
      assert Value(op.feature) == rows[last].0;
      PhaseExtends(g, h, phase, rows, at, op.feature, k);
    } else {
      assert RunOps(g, PhaseOps(phase, rows, at)) == g;
    }
  }

  lemma PhaseExtends(g: Game, h: Game, phase: int, rows: seq<(int, int)>, at: int, f: Feature, k: Game)
    requires rows != [] && DistinctRows(rows) && Value(f) == rows[|rows| - 1].0
    requires Complete(g) && Complete(h) && Complete(k)
    requires PhaseApplied(g, h, phase, rows[..|rows| - 1], at)
    requires k.codes == h.codes[f := rows[|rows| - 1].1]
    requires k.history == h.history + [Entry(f, h.codes[f], rows[|rows| - 1].1, Some(phase), None, at)]
    ensures PhaseApplied(g, k, phase, rows, at)
  {
    var last := |rows| - 1;
    forall i | 0 <= i < |rows| ensures IsRecorded(k.history[|g.history| + i], rows[i], phase, at) {
      if i < last { assert IsRecorded(h.history[|g.history| + i], rows[..last][i], phase, at); }
    }
    forall o: Feature, i | 0 <= i < |rows| && rows[i].0 == Value(o) ensures k.codes[o] == rows[i].1 {
      if i < last { assert rows[..last][i].0 == Value(o) && o != f; }
      else { ValuesDiffer(o, f); }
    }
    forall o: Feature | forall i :: 0 <= i < |rows| ==> rows[i].0 != Value(o) ensures k.codes[o] == g.codes[o] {
      assert forall i :: 0 <= i < last ==> rows[..last][i].0 != Value(o);
    }
  }

  lemma ValuesDiffer(f: Feature, o: Feature)
    ensures Value(f) == Value(o) <==> f == o
  {
  }

  lemma NotYet(g: Game, h: Game, phase: int, before: seq<(int, int)>, row: (int, int), at: int)
    requires Complete(g) && Complete(h) && PhaseApplied(g, h, phase, before, at) && RowValid(row)
    requires forall i :: 0 <= i < |before| ==> before[i].0 != row.0
    requires forall e <- g.history :: e.phase != Some(phase)
    ensures !IsReplay(h, FromValue(row.0).value, Some(phase))
  {
    var f := FromValue(row.0).value;
    forall e <- h.history ensures !(e.phase == Some(phase) && e.feature == f) {
      var k :| 0 <= k < |h.history| && h.history[k] == e;
      if k < |g.history| {
        assert g.history[k] in g.history;
      } else {
        assert IsRecorded(h.history[|g.history| + (k - |g.history|)], before[k - |g.history|], phase, at);
      }
    }
  }

  /** One bad row and the phase changes nothing. */
  lemma BadPhase(g: Game, phase: int, rows: seq<(int, int)>, at: int, i: nat)
    requires Complete(g) && i < |rows|
    requires !GoodRow(rows[i])
    ensures RunOps(g, PhaseOps(phase, rows, at)) == g
  {
    GoodRowsValid(rows);
  }

  /** Firing a phase once more, with the same rows and at whatever time, changes nothing. */
  lemma {:induction false} PhaseAgain(g: Game, phase: int, rows: seq<(int, int)>, at: int)
    requires Complete(g) && RowsValid(rows)
    requires forall row <- rows :: exists e <- g.history :: e.phase == Some(phase) && Value(e.feature) == row.0
    ensures RunOps(g, PhaseOps(phase, rows, at)) == g
    decreases |rows|
  {
    if rows != [] {
      var last := |rows| - 1;
      assert rows[..|rows|] == rows && rows[last] in rows && RowValid(rows[last]);
      PhaseAgain(g, phase, rows[..last], at);
      PhaseStep(g, phase, rows, last, at);
      var e :| e in g.history && e.phase == Some(phase) && Value(e.feature) == rows[last].0;
      ValuesDiffer(e.feature, FromValue(rows[last].0).value);
      ReplayedIsReplay(g, RowOp(phase, rows[last], at));
    }
  }
}
