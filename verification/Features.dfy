/** Game features: their states, changes by hand and by release phases, the leaderboard lock and the
    history (src/db/feature.rs). */
module Features {
  import opened Common
  import opened CurrencyGrowth
  import opened Standings

  datatype Feature = TeamFormation | DirectMessage | PuzzleTicket | Leaderboard | Currency

  datatype FeatureState = Closed | ExistingOnly | Open | Live | Locked

  const ALL: seq<Feature> := [TeamFormation, DirectMessage, PuzzleTicket, Leaderboard, Currency]

  function DefaultState(f: Feature): FeatureState {
    if f.Leaderboard? then Live else Open
  }

  function States(f: Feature): seq<FeatureState> {
    match f
    case TeamFormation => [Closed, Open]
    case DirectMessage => [Closed, ExistingOnly, Open]
    case PuzzleTicket => [Closed, ExistingOnly, Open]
    case Leaderboard => [Live, Locked]
    case Currency => [Closed, Open]
  }

  function Value(f: Feature): int {
    match f
    case TeamFormation => 0
    case DirectMessage => 1
    case PuzzleTicket => 2
    case Leaderboard => 3
    case Currency => 4
  }

  function FromValue(v: int): Option<Feature> {
    if 0 <= v < 5 then Some(ALL[v]) else None
  }

  function Encode(f: Feature, s: FeatureState): Option<int> {
    match (f, s)
    case (TeamFormation, Closed) => Some(0)
    case (TeamFormation, Open) => Some(1)
    case (DirectMessage, Closed) => Some(0)
    case (DirectMessage, ExistingOnly) => Some(1)
    case (DirectMessage, Open) => Some(2)
    case (PuzzleTicket, Closed) => Some(0)
    case (PuzzleTicket, ExistingOnly) => Some(1)
    case (PuzzleTicket, Open) => Some(2)
    case (Leaderboard, Live) => Some(0)
    case (Leaderboard, Locked) => Some(1)
    case (Currency, Closed) => Some(0)
    case (Currency, Open) => Some(1)
    case _ => None
  }

  function Decode(f: Feature, v: int): Option<FeatureState> {
    match f
    case TeamFormation => if v == 0 then Some(Closed) else if v == 1 then Some(Open) else None
    case DirectMessage =>
      if v == 0 then Some(Closed) else if v == 1 then Some(ExistingOnly) else if v == 2 then Some(Open) else None
    case PuzzleTicket =>
      if v == 0 then Some(Closed) else if v == 1 then Some(ExistingOnly) else if v == 2 then Some(Open) else None
    case Leaderboard => if v == 0 then Some(Live) else if v == 1 then Some(Locked) else None
    case Currency => if v == 0 then Some(Closed) else if v == 1 then Some(Open) else None
  }

  /** The stored code and the state determine each other, on exactly the states a feature has; the
      code is the position among them. */
  lemma CodesMatchStates(f: Feature, s: FeatureState, v: int)
    ensures Encode(f, s) == Some(v) <==> Decode(f, v) == Some(s)
    ensures Decode(f, v) == Some(s) <==> 0 <= v < |States(f)| && States(f)[v] == s
    ensures FromValue(Value(f)) == Some(f)
  {
  }

  datatype Lock = Lock(phase: Option<int>, lockedAt: int, standings: seq<Standing>)

  datatype Entry = Entry(feature: Feature, oldCode: int, newCode: int, phase: Option<int>, actor: Option<int>, at: int)

  /** The rows of one game. `teams` are its team rows, which play changes; `effects` records
      the statements run on the currency rows. */
  datatype Game = Game(
    codes: map<Feature, int>,
    lock: Option<Lock>,
    history: seq<Entry>,
    teams: seq<Team>,
    effects: seq<Event>
  )

  datatype Change = Change(feature: Feature, state: FeatureState)

  function InitialGame(teams: seq<Team>): (g: Game)
    ensures Complete(g) && g.history == []
  {
    var codes := map[
      TeamFormation := DefaultCode(TeamFormation), DirectMessage := DefaultCode(DirectMessage),
      PuzzleTicket := DefaultCode(PuzzleTicket), Leaderboard := DefaultCode(Leaderboard),
      Currency := DefaultCode(Currency)];
    FiveFeatures(codes);
    Game(codes, None, [], teams, [])
  }

  lemma FiveFeatures(codes: map<Feature, int>)
    requires {TeamFormation, DirectMessage, PuzzleTicket, Leaderboard, Currency} <= codes.Keys
    ensures forall f: Feature :: f in codes
  {
    forall f: Feature ensures f in codes {
      match f
      case TeamFormation =>
      case DirectMessage =>
      case PuzzleTicket =>
      case Leaderboard =>
      case Currency =>
    }
  }

  function DefaultCode(f: Feature): int {
    match Encode(f, DefaultState(f)) case Some(v) => v case None => -1
  }

  predicate AppliedBefore(history: seq<Entry>, phase: int, f: Feature) {
    exists i :: 0 <= i < |history| && history[i].phase == Some(phase) && history[i].feature == f
  }

  /** What `set_state_conn` leaves behind once the change is known to be valid and not a replay. */
  function Changed(g: Game, f: Feature, target: int, phase: Option<int>, actor: Option<int>, at: int): Game
    requires f in g.codes
  {
    var old_ := g.codes[f];
    g.(codes := g.codes[f := target],
       lock := if f.Leaderboard? then (if target == 0 then None else if g.lock.Some? then g.lock
                                       else Some(Lock(phase, at, Ranked(g.teams))))
               else g.lock,
       history := g.history + [Entry(f, old_, target, phase, actor, at)],
       effects := if f.Currency? && old_ != target
                  then g.effects + [if target == 0 then CloseAt(at) else OpenAt(at)]
                  else g.effects)
  }

  predicate Complete(g: Game) {
    forall f: Feature :: f in g.codes
  }

  datatype SetResult = Invalid | Done(changed: bool)

  class FeatureTable {
    var codes: map<Feature, int>
    var lock: Option<Lock>
    var history: seq<Entry>
    var teams: seq<Team>
    var effects: seq<Event>

    function State(): Game
      reads this
    {
      Game(codes, lock, history, teams, effects)
    }

    /** `initialize_game_conn`. */
    constructor (initialTeams: seq<Team>)
      ensures State() == InitialGame(initialTeams)
    {
      codes := InitialGame(initialTeams).codes;
      lock, history, teams, effects := None, [], initialTeams, [];
    }

    /** `lock_leaderboard_conn`: an existing lock and its frozen standings stay. */
    method LockLeaderboard(phase: Option<int>, at: int)
      modifies this`lock
      ensures lock == if old(lock).Some? then old(lock) else Some(Lock(phase, at, Ranked(teams)))
    {
      if lock.None? {
        lock := Some(Lock(phase, at, Ranked(teams)));
      }
    }

    /** `set_state_conn`. */
    method SetState(change: Change, phase: Option<int>, actor: Option<int>, at: int) returns (r: SetResult)
      requires Complete(State())
      modifies this
      ensures Encode(change.feature, change.state).None? ==> r == Invalid && State() == old(State())
      ensures Encode(change.feature, change.state).Some? ==>
        var target := Encode(change.feature, change.state).value;
        && r.Done?
        && State() == Apply(old(State()), Op(change.feature, target, phase, actor, at))
        && r.changed == (!Replayed(old(State()), Op(change.feature, target, phase, actor, at)) &&
                         (old(codes)[change.feature] != target || change.feature.Leaderboard?))
    {
      var f := change.feature;
      var encoded := Encode(f, change.state);
      if encoded.None? {
        return Invalid;
      }
      var target := encoded.value;
      if phase.Some? && AppliedBefore(history, phase.value, f) {
        return Done(false);
      }
      var old_ := codes[f];
      if f.Leaderboard? {
        match change.state {
          case Locked => LockLeaderboard(phase, at);
          case Live => lock := None;
          case _ => assert false;
        }
      }
      if old_ != target && f.Currency? {
        match change.state {
          case Closed => effects := effects + [CloseAt(at)];
          case Open => effects := effects + [OpenAt(at)];
          case _ => assert false;
        }
      }
      codes := codes[f := target];
      history := history + [Entry(f, old_, target, phase, actor, at)];
      r := Done(old_ != target || f.Leaderboard?);
    }

    /** The loop body of `apply_phase_changes` for a row that decodes. */
    method ApplyRow(phase: int, row: (int, int), at: int, ghost from: nat) returns (leaderboardChanged: bool)
      requires Complete(State()) && RowValid(row) && from <= |history|
      modifies this
      ensures State() == Apply(old(State()), RowOp(phase, row, at))
      ensures NewBoardEntry(history, from) == (NewBoardEntry(old(history), from) || leaderboardChanged)
      ensures |history| >= |old(history)|
    {
      var f := FromValue(row.0).value;
      var state := Decode(f, row.1).value;
      CodesMatchStates(f, state, row.1);
      var done := SetState(Change(f, state), Some(phase), None, at);
      leaderboardChanged := done.changed && f.Leaderboard?;
      ghost var e := Entry(f, old(codes)[f], row.1, Some(phase), None, at);
      assert history == old(history) || history == old(history) + [e];
      BoardEntryStep(old(history), e, from);
    }

    /** `apply_phase_changes`: all rows in one transaction, rolled back at the first bad row. The
        result tells whether the leaderboard was among the features actually changed. */
    method ApplyPhaseChanges(phase: int, rows: seq<(int, int)>, at: int) returns (r: Option<bool>)
      requires Complete(State())
      modifies this
      ensures State() == RunOps(old(State()), PhaseOps(phase, rows, at))
      ensures r.Some? <==> RowsValid(rows)
      ensures r.Some? ==> r.value == NewBoardEntry(history, |old(history)|)
    {
      ghost var before := State();
      var saved := State();
      var leaderboardChanged := false;
      for i := 0 to |rows|
        invariant Complete(State()) && |history| >= |before.history|
        invariant forall j :: 0 <= j < i ==> RowValid(rows[j])
        invariant State() == AfterRows(before, phase, rows, i, at)
        invariant leaderboardChanged == NewBoardEntry(history, |before.history|)
      {
        if !RowValid(rows[i]) {
          codes, lock, history, teams, effects :=
            saved.codes, saved.lock, saved.history, saved.teams, saved.effects;
          return None;
        }
        PhaseStep(before, phase, rows, i, at);
        var changed := ApplyRow(phase, rows[i], at, |before.history|);
        leaderboardChanged := leaderboardChanged || changed;
      }
      assert rows[..|rows|] == rows;
      r := Some(leaderboardChanged);
    }
  }

  /** The history holds a leaderboard entry from position n on. */
  predicate NewBoardEntry(history: seq<Entry>, n: nat) {
    exists k :: n <= k < |history| && history[k].feature.Leaderboard?
  }

  lemma BoardEntryStep(history: seq<Entry>, e: Entry, n: nat)
    requires n <= |history|
    ensures NewBoardEntry(history + [e], n) <==> NewBoardEntry(history, n) || e.feature.Leaderboard?
  {
    var later := history + [e];
    assert later[|history|] == e;
    assert forall k :: 0 <= k < |history| ==> later[k] == history[k];
  }

  // ----- runs of changes -----

  /** One valid change of one feature, or play changing the teams. */
  datatype Op =
    | Op(feature: Feature, target: int, phase: Option<int>, actor: Option<int>, at: int)
    | Play(newTeams: seq<Team>)

  predicate Replayed(g: Game, op: Op) {
    op.Op? && op.phase.Some? && AppliedBefore(g.history, op.phase.value, op.feature)
  }

  function Apply(g: Game, op: Op): (h: Game)
    requires Complete(g)
    ensures Complete(h)
  {
    match op
    case Play(ts) => g.(teams := ts)
    case Op(f, target, phase, actor, at) =>
      if Replayed(g, op) then g else Changed(g, f, target, phase, actor, at)
  }

  function RunOps(g: Game, ops: seq<Op>): (h: Game)
    requires Complete(g)
    ensures Complete(h)
  {
    if ops == [] then g else Apply(RunOps(g, ops[..|ops| - 1]), ops[|ops| - 1])
  }

  lemma RunOpsSnoc(g: Game, ops: seq<Op>, op: Op)
    requires Complete(g)
    ensures RunOps(g, ops + [op]) == Apply(RunOps(g, ops), op)
  {
    assert (ops + [op])[..|ops|] == ops;
  }

  lemma {:induction false} RunOpsConcat(g: Game, a: seq<Op>, b: seq<Op>)
    requires Complete(g)
    ensures RunOps(g, a + b) == RunOps(RunOps(g, a), b)
    decreases |b|
  {
    if b == [] {
      assert a + b == a;
    } else {
      var front := b[..|b| - 1];
      assert a + b == (a + front) + [b[|b| - 1]];
      RunOpsSnoc(g, a + front, b[|b| - 1]);
      RunOpsConcat(g, a, front);
    }
  }

  predicate RowValid(row: (int, int)) {
    FromValue(row.0).Some? && Decode(FromValue(row.0).value, row.1).Some?
  }

  predicate RowsValid(rows: seq<(int, int)>) {
    forall i :: 0 <= i < |rows| ==> RowValid(rows[i])
  }

  function RowOp(phase: int, row: (int, int), at: int): Op {
    Op(match FromValue(row.0) case Some(f) => f case None => TeamFormation, row.1, Some(phase), None, at)
  }

  function RowOps(phase: int, rows: seq<(int, int)>, at: int): seq<Op> {
    if rows == [] then []
    else RowOps(phase, rows[..|rows| - 1], at) + [RowOp(phase, rows[|rows| - 1], at)]
  }

  function PhaseOps(phase: int, rows: seq<(int, int)>, at: int): seq<Op> {
    if RowsValid(rows) then RowOps(phase, rows, at) else []
  }

  /** The game after the first i rows of a phase. */
  function AfterRows(g: Game, phase: int, rows: seq<(int, int)>, i: nat, at: int): Game
    requires Complete(g) && i <= |rows|
  {
    RunOps(g, RowOps(phase, rows[..i], at))
  }

  lemma PhaseStep(g: Game, phase: int, rows: seq<(int, int)>, i: nat, at: int)
    requires Complete(g) && i < |rows|
    ensures AfterRows(g, phase, rows, i + 1, at) == Apply(AfterRows(g, phase, rows, i, at), RowOp(phase, rows[i], at))
  {
    assert rows[..i + 1][..i] == rows[..i];
    RunOpsSnoc(g, RowOps(phase, rows[..i], at), RowOp(phase, rows[i], at));
  }

  // ----- replays -----

  predicate SamePair(a: Op, b: Op) {
    a.Op? && b.Op? && a.phase.Some? && a.phase == b.phase && a.feature == b.feature
  }

  predicate SeenIn(ops: seq<Op>, op: Op) {
    exists i :: 0 <= i < |ops| && SamePair(ops[i], op)
  }

  /** The operations without those whose (phase, feature) pair occurred before. */
  function FirstOnly(ops: seq<Op>): seq<Op> {
    if ops == [] then []
    else
      var front, last := ops[..|ops| - 1], ops[|ops| - 1];
      if SeenIn(front, last) then FirstOnly(front) else FirstOnly(front) + [last]
  }

  lemma {:induction false} SeenIsApplied(g: Game, ops: seq<Op>, op: Op)
    requires Complete(g) && g.history == [] && op.Op?
    ensures SeenIn(ops, op) <==> Replayed(RunOps(g, ops), op)
    decreases |ops|
  {
    if ops != [] {
      var front, last := ops[..|ops| - 1], ops[|ops| - 1];
      assert ops == front + [last];
      SeenIsApplied(g, front, op);
      SeenInSnoc(front, last, op);
      if last.Op? {
        SeenIsApplied(g, front, last);
        ReplayedSnoc(RunOps(g, front), last, op);
      }
    }
  }

  lemma SeenInSnoc(front: seq<Op>, last: Op, op: Op)
    ensures SeenIn(front + [last], op) <==> SeenIn(front, op) || SamePair(last, op)
  {
    var ops := front + [last];
    if SamePair(last, op) { assert SamePair(ops[|front|], op); }
    if SeenIn(front, op) {
      var i :| 0 <= i < |front| && SamePair(front[i], op);
      assert SamePair(ops[i], op);
    }
  }

  /** After one more operation, those of its pair count as replayed too. */
  lemma ReplayedSnoc(g: Game, last: Op, op: Op)
    requires Complete(g) && last.Op? && op.Op?
    ensures Replayed(Apply(g, last), op) <==> Replayed(g, op) || SamePair(last, op)
  {
    var after := Apply(g, last);
    if !Replayed(g, last) {
      var n := |g.history|;
      assert after.history == g.history + [after.history[n]];
      if Replayed(g, op) {
        var i :| 0 <= i < n && g.history[i].phase == op.phase && g.history[i].feature == op.feature;
        assert after.history[i].phase == op.phase;
      }
      if SamePair(last, op) { assert after.history[n].phase == op.phase; }
    }
  }

  /** Applying a phase again, any number of times and between any other changes, has only the effect
      of the first application of each of its (phase, feature) pairs. */
  lemma {:induction false} ReplaysHaveNoEffect(g: Game, ops: seq<Op>)
    requires Complete(g) && g.history == []
    ensures RunOps(g, ops) == RunOps(g, FirstOnly(ops))
    decreases |ops|
  {
    if ops != [] {
      var front, last := ops[..|ops| - 1], ops[|ops| - 1];
      ReplaysHaveNoEffect(g, front);
      if last.Op? { SeenIsApplied(g, front, last); }
      RunOpsSnoc(g, FirstOnly(front), last);
    }
  }

  // ----- invariants of every reachable state -----

  /** The code of a feature after its history, if every entry starts where the previous one ended. */
  function ChainEnd(history: seq<Entry>, f: Feature): Option<int> {
    if history == [] then Some(DefaultCode(f))
    else
      var e := history[|history| - 1];
      var before := ChainEnd(history[..|history| - 1], f);
      if e.feature != f then before
      else if before == Some(e.oldCode) then Some(e.newCode) else None
  }

  /** Phase and time of the change that took the lock now in force. */
  function LockOrigin(history: seq<Entry>): Option<(Option<int>, int)> {
    if history == [] then None
    else
      var e := history[|history| - 1];
      var before := LockOrigin(history[..|history| - 1]);
      if !e.feature.Leaderboard? then before
      else if e.newCode == 0 then None
      else if before.Some? then before
      else Some((e.phase, e.at))
  }

  /** Whether currency grows after the effects, if closings and openings alternate. */
  function GrowingAfter(effects: seq<Event>): Option<bool> {
    if effects == [] then Some(true)
    else
      match (GrowingAfter(effects[..|effects| - 1]), effects[|effects| - 1])
      case (Some(true), CloseAt(_)) => Some(false)
      case (Some(false), OpenAt(_)) => Some(true)
      case _ => None
  }

  predicate Chained(g: Game, f: Feature) {
    f in g.codes && Decode(f, g.codes[f]).Some? && ChainEnd(g.history, f) == Some(g.codes[f])
  }

  predicate LockConsistent(g: Game) {
    && Leaderboard in g.codes
    && (g.lock.Some? <==> Decode(Leaderboard, g.codes[Leaderboard]) == Some(Locked))
    && LockOrigin(g.history) == (match g.lock case None => None case Some(l) => Some((l.phase, l.lockedAt)))
  }

  predicate GrowthConsistent(g: Game) {
    && Currency in g.codes
    && GrowingAfter(g.effects) == Some(Decode(Currency, g.codes[Currency]) == Some(Open))
  }

  predicate Reachable(g: Game) {
    && Complete(g)
    && (forall f: Feature :: Chained(g, f))
    && LockConsistent(g)
    && GrowthConsistent(g)
  }

  predicate ValidOp(op: Op) {
    op.Op? ==> Decode(op.feature, op.target).Some?
  }

  lemma ApplyKeepsChain(g: Game, op: Op, f: Feature)
    requires Complete(g) && op.Op? && ValidOp(op) && Chained(g, op.feature) && Chained(g, f)
    ensures Chained(Apply(g, op), f)
  {
    if !Replayed(g, op) {
      ChainExtends(g.history, g.codes, op, f);
    }
  }

  lemma ChainExtends(history: seq<Entry>, codes: map<Feature, int>, op: Op, f: Feature)
    requires op.Op? && op.feature in codes && f in codes
    requires ChainEnd(history, op.feature) == Some(codes[op.feature]) && ChainEnd(history, f) == Some(codes[f])
    ensures
      var e := Entry(op.feature, codes[op.feature], op.target, op.phase, op.actor, op.at);
      ChainEnd(history + [e], f) == Some(codes[op.feature := op.target][f])
  {
    ChainStep(history, Entry(op.feature, codes[op.feature], op.target, op.phase, op.actor, op.at), f);
  }

  lemma ChainStep(history: seq<Entry>, e: Entry, f: Feature)
    ensures e.feature != f ==> ChainEnd(history + [e], f) == ChainEnd(history, f)
    ensures e.feature == f && ChainEnd(history, f) == Some(e.oldCode) ==> ChainEnd(history + [e], f) == Some(e.newCode)
  {
    assert (history + [e])[..|history|] == history;
  }

  lemma ApplyKeepsLock(g: Game, op: Op)
    requires Complete(g) && LockConsistent(g) && ValidOp(op)
    ensures LockConsistent(Apply(g, op))
    ensures g.lock.Some? && Apply(g, op).lock.Some? ==> Apply(g, op).lock == g.lock
  {
    if op.Op? && !Replayed(g, op) {
      assert Apply(g, op).history[..|g.history|] == g.history;
    }
  }

  lemma ApplyKeepsGrowth(g: Game, op: Op)
    requires Complete(g) && GrowthConsistent(g) && ValidOp(op) && Decode(Currency, g.codes[Currency]).Some?
    ensures GrowthConsistent(Apply(g, op))
  {
    if op.Op? && !Replayed(g, op) && op.feature.Currency? {
      CodesMatchStates(Currency, Closed, op.target);
      if op.target == 0 {
        ClosingKeepsGrowth(g, op);
      } else {
        OpeningKeepsGrowth(g, op);
      }
    }
  }

  lemma GrowingStep(effects: seq<Event>, e: Event)
    ensures GrowingAfter(effects + [e]) ==
      if GrowingAfter(effects) == Some(true) && e.CloseAt? then Some(false)
      else if GrowingAfter(effects) == Some(false) && e.OpenAt? then Some(true)
      else None
  {
    assert (effects + [e])[..|effects|] == effects;
  }

  lemma ClosingKeepsGrowth(g: Game, op: Op)
    requires Complete(g) && GrowthConsistent(g) && op.Op? && op.feature.Currency? && op.target == 0 && !Replayed(g, op)
    requires Decode(Currency, g.codes[Currency]).Some?
    ensures GrowthConsistent(Apply(g, op))
  {
    GrowingStep(g.effects, CloseAt(op.at));
  }

  lemma OpeningKeepsGrowth(g: Game, op: Op)
    requires Complete(g) && GrowthConsistent(g) && op.Op? && op.feature.Currency? && op.target == 1 && !Replayed(g, op)
    requires Decode(Currency, g.codes[Currency]).Some?
    ensures GrowthConsistent(Apply(g, op))
  {
    GrowingStep(g.effects, OpenAt(op.at));
  }

  /** One change keeps every invariant; a new lock freezes the ranking of that moment, and a lock that
      stays in force keeps it. */
  lemma ApplyKeepsReachable(g: Game, op: Op)
    requires Reachable(g) && ValidOp(op)
    ensures Reachable(Apply(g, op))
    ensures g.lock.Some? && Apply(g, op).lock.Some? ==> Apply(g, op).lock == g.lock
    ensures g.lock.None? && Apply(g, op).lock.Some? ==> Apply(g, op).lock.value.standings == Ranked(g.teams)
  {
    assert Chained(g, Currency);
    ApplyKeepsLock(g, op);
    ApplyKeepsGrowth(g, op);
    if op.Op? {
      assert Chained(g, op.feature);
      forall f: Feature ensures Chained(Apply(g, op), f) {
        assert Chained(g, f);
        ApplyKeepsChain(g, op, f);
      }
    } else {
      forall f: Feature ensures Chained(Apply(g, op), f) { assert Chained(g, f); }
    }
  }

  lemma InitialReachable(teams: seq<Team>)
    ensures Reachable(InitialGame(teams))
  {
    forall f: Feature ensures Chained(InitialGame(teams), f) {}
  }

  lemma {:induction false} RunKeepsReachable(teams: seq<Team>, ops: seq<Op>)
    requires forall op <- ops :: ValidOp(op)
    ensures Reachable(RunOps(InitialGame(teams), ops))
    decreases |ops|
  {
    InitialReachable(teams);
    if ops != [] {
      RunKeepsReachable(teams, ops[..|ops| - 1]);
      ApplyKeepsReachable(RunOps(InitialGame(teams), ops[..|ops| - 1]), ops[|ops| - 1]);
    }
  }

  /** The release scheduler and administrators: phases (with raw rows, possibly bad ones), manual
      changes and play, in any order. */
  datatype Happening =
    | PhaseFires(phase: int, rows: seq<(int, int)>, at: int)
    | ManualChange(change: Change, actor: int, at: int)
    | TeamsMove(teams: seq<Team>)

  function OpsOf(h: Happening): seq<Op> {
    match h
    case PhaseFires(phase, rows, at) => PhaseOps(phase, rows, at)
    case ManualChange(c, actor, at) =>
      (match Encode(c.feature, c.state)
       case None => []
       case Some(v) => [Op(c.feature, v, None, Some(actor), at)])
    case TeamsMove(ts) => [Play(ts)]
  }

  function AllOps(hs: seq<Happening>): seq<Op> {
    if hs == [] then [] else AllOps(hs[..|hs| - 1]) + OpsOf(hs[|hs| - 1])
  }

  lemma {:induction false} RowOpsValid(phase: int, rows: seq<(int, int)>, at: int)
    requires RowsValid(rows)
    ensures forall op <- RowOps(phase, rows, at) :: ValidOp(op)
  {
    if rows != [] {
      RowOpsValid(phase, rows[..|rows| - 1], at);
      assert RowValid(rows[|rows| - 1]);
    }
  }

  lemma {:induction false} AllOpsValid(hs: seq<Happening>)
    ensures forall op <- AllOps(hs) :: ValidOp(op)
  {
    if hs != [] {
      AllOpsValid(hs[..|hs| - 1]);
      match hs[|hs| - 1]
      case PhaseFires(phase, rows, at) => if RowsValid(rows) { RowOpsValid(phase, rows, at); }
      case ManualChange(c, actor, at) =>
        if Encode(c.feature, c.state).Some? { CodesMatchStates(c.feature, c.state, Encode(c.feature, c.state).value); }
      case TeamsMove(_) =>
    }
  }

  /** A lock in force shows the ranking of the teams at one earlier moment of the run. */
  lemma {:induction false} FrozenIsARanking(teams: seq<Team>, ops: seq<Op>)
    requires forall i :: 0 <= i < |ops| ==> ValidOp(ops[i])
    ensures
      var g := RunOps(InitialGame(teams), ops);
      g.lock.Some? ==> exists n: nat :: n <= |ops| && FrozenAt(g, teams, ops, n)
    decreases |ops|
  {
    if ops != [] {
      var last := |ops| - 1;
      var before := RunOps(InitialGame(teams), ops[..last]);
      RunKeepsReachable(teams, ops[..last]);
      FrozenIsARanking(teams, ops[..last]);
      ApplyKeepsReachable(before, ops[last]);
      var g := RunOps(InitialGame(teams), ops);
      assert g == Apply(before, ops[last]);
      if g.lock.Some? {
        if before.lock.Some? {
          var n: nat :| n <= last && FrozenAt(before, teams, ops[..last], n);
          assert ops[..last][..n] == ops[..n];
          assert FrozenAt(g, teams, ops, n);
        } else {
          assert FrozenAt(g, teams, ops, last);
        }
      }
    }
  }

  ghost predicate FrozenAt(g: Game, teams: seq<Team>, ops: seq<Op>, n: nat)
    requires n <= |ops|
  {
    g.lock.Some? && g.lock.value.standings == Ranked(RunOps(InitialGame(teams), ops[..n]).teams)
  }

  /** In every reachable state the leaderboard is frozen exactly while it is Locked, each feature's
      history is a chain from its default to its current state, and currency closings and openings
      alternate; and replayed phase changes leave no trace. */
  lemma EveryGameIsConsistent(teams: seq<Team>, hs: seq<Happening>)
    ensures Reachable(RunOps(InitialGame(teams), AllOps(hs)))
    ensures RunOps(InitialGame(teams), AllOps(hs)) == RunOps(InitialGame(teams), FirstOnly(AllOps(hs)))
  {
    AllOpsValid(hs);
    RunKeepsReachable(teams, AllOps(hs));
    ReplaysHaveNoEffect(InitialGame(teams), AllOps(hs));
  }
}
