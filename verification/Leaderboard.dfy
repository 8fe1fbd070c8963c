/** The leaderboard's dirty-revision protocol (src/db/board.rs): teams are marked dirty, and a refresh
    under an advisory lock reads, publishes and then removes the marks it has covered. */
module Leaderboard {
  import opened Common

  /** A published payload; `readAt` is the moment at which its data was read. */
  datatype Snapshot = Snapshot(version: nat, data: map<int, int>, readAt: nat)

  /** How far the holder of the advisory lock has come. */
  datatype Stage = Locked | MaxRead | VersionTaken | DataRead | Published | RowsDeleted | FlagCleared

  /** The holder of the lock: a refresh, or a cold rebuild, which neither reads nor removes marks. */
  datatype Holder = Holder(cold: bool, stage: Stage, maxRevision: Option<nat>, version: nat, snapshot: Snapshot)

  /** The tables, the sequence, the shared latest key and the lock of one game's main board, with a
      clock and a record of drawn revisions, marks, rebuild requests and publications to state
      properties with. */
  datatype Board = Board(
    data: map<int, int>,
    dirty: map<int, nat>,
    nextVersion: nat,
    fullRebuild: bool,
    latest: Option<Snapshot>,
    lock: Option<Holder>,
    inFlight: map<int, nat>,
    clock: nat,
    drawn: seq<nat>,
    markedAt: map<int, nat>,
    changedAt: map<int, nat>,
    requestedAt: Option<nat>,
    publications: seq<nat>
  )

  /** `BeginMark` takes a revision from the sequence, `CommitMark` makes the row visible; row locks
      allow one such statement per team at a time. A holder may fail, and release, at any point. */
  datatype Event =
    | Change(team: int, value: int)
    | BeginMark(team: int)
    | CommitMark(team: int)
    | AbortMark(team: int)
    | RequestRebuild
    | Acquire(cold: bool)
    | ReadMax(maximum: Option<nat>)
    | TakeVersion
    | ReadData
    | Publish
    | DeleteRows
    | ClearRebuild
    | Release

  /** SELECT MAX(revision): NULL on no rows. */
  predicate IsMaxRevision(dirty: map<int, nat>, m: Option<nat>) {
    match m
    case None => dirty == map[]
    case Some(r) => (exists t <- dirty :: dirty[t] == r) && forall t <- dirty :: dirty[t] <= r
  }

  predicate Enabled(b: Board, e: Event) {
    match e
    case Change(_, _) => true
    case BeginMark(t) => t !in b.inFlight
    case CommitMark(t) => t in b.inFlight && 0 < b.inFlight[t] <= |b.drawn|
    case AbortMark(t) => t in b.inFlight
    case RequestRebuild => true
    case Acquire(_) => b.lock.None?
    case ReadMax(m) => b.lock.Some? && b.lock.value.stage.Locked? && !b.lock.value.cold && IsMaxRevision(b.dirty, m)
    case TakeVersion =>
      b.lock.Some? && (if b.lock.value.cold then b.lock.value.stage.Locked? else b.lock.value.stage.MaxRead?)
    case ReadData => b.lock.Some? && b.lock.value.stage.VersionTaken?
    case Publish => b.lock.Some? && b.lock.value.stage.DataRead?
    case DeleteRows => b.lock.Some? && b.lock.value.stage.Published? && !b.lock.value.cold
    case ClearRebuild => b.lock.Some? && b.lock.value.stage.RowsDeleted? && !b.lock.value.cold
    case Release => b.lock.Some?
  }

  /** DELETE ... WHERE revision <= max, skipped when there was no maximum. */
  function Remaining(dirty: map<int, nat>, m: Option<nat>): map<int, nat> {
    match m
    case None => dirty
    case Some(r) => map t | t in dirty && dirty[t] > r :: dirty[t]
  }

  function Step(b: Board, e: Event): Board
    requires Enabled(b, e)
  {
    var next := match e
      case Change(t, v) => b.(data := b.data[t := v], changedAt := b.changedAt[t := b.clock])
      case BeginMark(t) => b.(drawn := b.drawn + [b.clock], inFlight := b.inFlight[t := |b.drawn| + 1])
      case CommitMark(t) =>
        b.(dirty := b.dirty[t := b.inFlight[t]], inFlight := b.inFlight - {t},
           markedAt := b.markedAt[t := b.drawn[b.inFlight[t] - 1]])
      case AbortMark(t) => b.(inFlight := b.inFlight - {t})
      case RequestRebuild => b.(fullRebuild := true, requestedAt := Some(b.clock))
      case Acquire(cold) => b.(lock := Some(Holder(cold, Locked, None, 0, Snapshot(0, map[], 0))))
      case ReadMax(m) => b.(lock := Some(b.lock.value.(stage := MaxRead, maxRevision := m)))
      case TakeVersion =>
        b.(nextVersion := b.nextVersion + 1, fullRebuild := false,
           lock := Some(b.lock.value.(stage := VersionTaken, version := b.nextVersion + 1)))
      case ReadData =>
        b.(lock := Some(b.lock.value.(stage := DataRead, snapshot := Snapshot(b.lock.value.version, b.data, b.clock))))
      case Publish =>
        b.(latest := Some(b.lock.value.snapshot), lock := Some(b.lock.value.(stage := Published)),
           publications := b.publications + [b.lock.value.snapshot.version])
      case DeleteRows =>
        b.(dirty := Remaining(b.dirty, b.lock.value.maxRevision), lock := Some(b.lock.value.(stage := RowsDeleted)))
      case ClearRebuild => b.(fullRebuild := false, lock := Some(b.lock.value.(stage := FlagCleared)))
      case Release => b.(lock := None);
    next.(clock := b.clock + 1)
  }

  function InitialBoard(data: map<int, int>): Board {
    Board(data, map[], 0, false, None, None, map[], 0, [], map[], map[], None, [])
  }

  predicate IsRun(b: Board, events: seq<Event>)
    decreases |events|
  {
    events == [] || (Enabled(b, events[0]) && IsRun(Step(b, events[0]), events[1..]))
  }

  function Run(b: Board, events: seq<Event>): Board
    requires IsRun(b, events)
    decreases |events|
  {
    if events == [] then b else Run(Step(b, events[0]), events[1..])
  }

  // ----- the invariant -----

  predicate Increasing(s: seq<nat>) {
    forall i, j :: 0 <= i < j < |s| ==> s[i] < s[j]
  }

  /** Revisions are taken from the sequence in time order, and a row's revision dates its latest mark. */
  predicate RevisionsDated(b: Board) {
    && Increasing(b.drawn)
    && (forall i :: 0 <= i < |b.drawn| ==> b.drawn[i] < b.clock)
    && (forall t <- b.inFlight :: 0 < b.inFlight[t] <= |b.drawn|)
    && (forall t <- b.dirty ::
          0 < b.dirty[t] <= |b.drawn| && t in b.markedAt && b.markedAt[t] == b.drawn[b.dirty[t] - 1])
  }

  /** Every revision up to r had been drawn before the moment. */
  predicate DrawnBefore(b: Board, r: Option<nat>, moment: nat) {
    r.Some? ==> r.value <= |b.drawn| && (r.value > 0 ==> b.drawn[r.value - 1] < moment)
  }

  /** The snapshot shows the present data of every team not changed since it was read. */
  ghost predicate Faithful(b: Board, s: Snapshot) {
    && s.readAt <= b.clock
    && forall t {:trigger SameEntry(s.data, b.data, t)} ::
         (t in b.changedAt ==> b.changedAt[t] < s.readAt) ==> SameEntry(s.data, b.data, t)
  }

  predicate SameEntry(a: map<int, int>, b: map<int, int>, t: int) {
    (t in a <==> t in b) && (t in a ==> a[t] == b[t])
  }

  ghost predicate HolderSound(b: Board, h: Holder) {
    && (h.cold || h.stage.Locked? || DrawnBefore(b, h.maxRevision, b.clock))
    && (h.stage.VersionTaken? || h.stage.DataRead? ==>
          h.version <= b.nextVersion && (b.latest.Some? ==> b.latest.value.version < h.version))
    && (h.stage.DataRead? || h.stage.Published? ==>
          && h.snapshot.version == h.version
          && Faithful(b, h.snapshot)
          && (!h.cold ==> DrawnBefore(b, h.maxRevision, h.snapshot.readAt))
          && (b.latest.Some? ==> b.latest.value.readAt <= h.snapshot.readAt))
    && (h.stage.Published? ==> b.latest == Some(h.snapshot))
  }

  /** No mark is lost: a marked team is still dirty, or the latest published data was read after its latest mark. */
  predicate NoMarkLost(b: Board) {
    forall t <- b.markedAt :: t in b.dirty || (b.latest.Some? && b.markedAt[t] < b.latest.value.readAt)
  }

  predicate VersionsIncrease(b: Board) {
    && Increasing(b.publications)
    && (match b.latest
        case None => b.publications == []
        case Some(s) =>
          b.publications != [] && b.publications[|b.publications| - 1] == s.version && s.version <= b.nextVersion)
  }

  ghost predicate Invariant(b: Board) {
    && RevisionsDated(b)
    && (b.lock.Some? ==> HolderSound(b, b.lock.value))
    && (b.latest.Some? ==> Faithful(b, b.latest.value))
    && NoMarkLost(b)
    && VersionsIncrease(b)
  }

  lemma StepKeepsDates(b: Board, e: Event)
    requires Enabled(b, e) && RevisionsDated(b)
    ensures RevisionsDated(Step(b, e))
    ensures b.drawn <= Step(b, e).drawn
  {
    var n := Step(b, e);
    match e
    case BeginMark(t) => assert n.drawn == b.drawn + [b.clock];
    case CommitMark(t) => assert n.drawn == b.drawn;
    case DeleteRows => assert n.dirty == Remaining(b.dirty, b.lock.value.maxRevision);
    case _ => assert n.drawn == b.drawn && n.dirty == b.dirty && n.markedAt == b.markedAt;
  }

  lemma StepKeepsFaithful(b: Board, e: Event, s: Snapshot)
    requires Enabled(b, e) && Faithful(b, s)
    ensures Faithful(Step(b, e), s)
  {
    if e.Change? {
      assert SameEntry(b.data, Step(b, e).data, e.team) || Step(b, e).changedAt[e.team] >= s.readAt;
      forall t | t in Step(b, e).changedAt ==> Step(b, e).changedAt[t] < s.readAt
        ensures SameEntry(s.data, Step(b, e).data, t)
      {
        assert t != e.team;
        assert SameEntry(s.data, b.data, t);
      }
    }
  }

  lemma MaxIsDrawn(b: Board, m: Option<nat>)
    requires RevisionsDated(b) && IsMaxRevision(b.dirty, m)
    ensures DrawnBefore(b, m, b.clock)
  {
  }

  /** Removing rows up to the maximum read before the data loses no mark. */
  lemma DeleteLosesNoMark(b: Board)
    requires Invariant(b) && Enabled(b, DeleteRows)
    ensures NoMarkLost(Step(b, DeleteRows))
  {
    var h := b.lock.value;
    forall t | t in b.markedAt && t in b.dirty && t !in Step(b, DeleteRows).dirty
      ensures b.markedAt[t] < h.snapshot.readAt
    {
      var r := h.maxRevision.value;
      assert b.dirty[t] <= r;
      assert b.drawn[b.dirty[t] - 1] <= b.drawn[r - 1];
    }
  }

  lemma StepKeepsHolder(b: Board, e: Event)
    requires Invariant(b) && Enabled(b, e) && Step(b, e).lock.Some?
    ensures HolderSound(Step(b, e), Step(b, e).lock.value)
  {
    StepKeepsDates(b, e);
    if b.lock.Some? {
      var h := b.lock.value;
      if h.stage.DataRead? || h.stage.Published? {
        StepKeepsFaithful(b, e, h.snapshot);
      }
      if e.Change? || e.BeginMark? || e.CommitMark? || e.AbortMark? || e.RequestRebuild? {
        OthersKeepHolder(b, e);
      } else {
        if e.ReadMax? { MaxIsDrawn(b, e.maximum); }
        if e.ReadData? { assert Faithful(b, Step(b, e).lock.value.snapshot); }
      }
    }
  }

  /** Steps that do not concern the holder leave what it knows true. */
  lemma OthersKeepHolder(b: Board, e: Event)
    requires Invariant(b) && Enabled(b, e) && b.lock.Some?
    requires e.Change? || e.BeginMark? || e.CommitMark? || e.AbortMark? || e.RequestRebuild?
    requires b.lock.value.stage.DataRead? || b.lock.value.stage.Published? ==>
      Faithful(Step(b, e), b.lock.value.snapshot)
    ensures HolderSound(Step(b, e), b.lock.value)
  {
    StepKeepsDates(b, e);
    assert b.drawn <= Step(b, e).drawn && Step(b, e).clock == b.clock + 1;
  }

  lemma StepKeepsInvariant(b: Board, e: Event)
    requires Invariant(b) && Enabled(b, e)
    ensures Invariant(Step(b, e))
  {
    var n := Step(b, e);
    StepKeepsDates(b, e);
    if n.lock.Some? { StepKeepsHolder(b, e); }
    if b.latest.Some? { StepKeepsFaithful(b, e, b.latest.value); }
    if e.Publish? { StepKeepsFaithful(b, e, b.lock.value.snapshot); }
    StepKeepsMarks(b, e);
    StepKeepsVersions(b, e);
  }

  lemma StepKeepsMarks(b: Board, e: Event)
    requires Invariant(b) && Enabled(b, e)
    ensures NoMarkLost(Step(b, e))
  {
    if e.DeleteRows? { DeleteLosesNoMark(b); }
  }

  lemma StepKeepsVersions(b: Board, e: Event)
    requires Invariant(b) && Enabled(b, e)
    ensures VersionsIncrease(Step(b, e))
  {
  }

  lemma {:induction false} RunKeepsInvariant(b: Board, events: seq<Event>)
    requires Invariant(b) && IsRun(b, events)
    ensures Invariant(Run(b, events))
    decreases |events|
  {
    if events != [] {
      StepKeepsInvariant(b, events[0]);
      RunKeepsInvariant(Step(b, events[0]), events[1..]);
    }
  }

  /** In every interleaving of changes, marks and failing refreshes: a team leaves the dirty table
      only once a snapshot read after its latest mark is published; the versions at the latest key
      strictly increase; and a team that is not dirty and was not changed after its latest mark is
      shown as it is. */
  lemma EveryRunIsSafe(data: map<int, int>, events: seq<Event>)
    requires IsRun(InitialBoard(data), events)
    ensures
      var b := Run(InitialBoard(data), events);
      && NoMarkLost(b)
      && Increasing(b.publications)
      && forall t <- b.markedAt ::
           t !in b.dirty && (t in b.changedAt ==> b.changedAt[t] < b.markedAt[t]) ==>
             b.latest.Some? && SameEntry(b.latest.value.data, b.data, t)
  {
    assert Invariant(InitialBoard(data));
    RunKeepsInvariant(InitialBoard(data), events);
  }

  lemma {:induction false} RunSnoc(b: Board, events: seq<Event>, e: Event)
    requires IsRun(b, events) && Enabled(Run(b, events), e)
    ensures IsRun(b, events + [e]) && Run(b, events + [e]) == Step(Run(b, events), e)
    decreases |events|
  {
    if events == [] {
      assert events + [e] == [e];
      assert IsRun(Step(b, e), [e][1..]);
    } else {
      assert (events + [e])[1..] == events[1..] + [e];
      RunSnoc(Step(b, events[0]), events[1..], e);
    }
  }

  // ----- the statements in place -----

  /** The statements of a refresh in order, after taking the lock. */
  function RefreshEvent(m: Option<nat>, k: nat): Event
    requires k < 6
  {
    if k == 0 then ReadMax(m)
    else if k == 1 then TakeVersion
    else if k == 2 then ReadData
    else if k == 3 then Publish
    else if k == 4 then DeleteRows
    else ClearRebuild
  }

  function RefreshPrefix(m: Option<nat>, k: nat): seq<Event>
    requires k <= 6
  {
    if k == 0 then [Acquire(false)] else RefreshPrefix(m, k - 1) + [RefreshEvent(m, k - 1)]
  }

  /** One undisturbed refresh that fails before the statement after `reached` others; 6 completes. */
  function RefreshEvents(m: Option<nat>, reached: nat): seq<Event>
    requires reached <= 6
  {
    RefreshPrefix(m, reached) + [Release]
  }

  lemma RefreshStep(b: Board, m: Option<nat>, k: nat, e: Event)
    requires k < 6 && e == RefreshEvent(m, k) && IsRun(b, RefreshPrefix(m, k))
    requires Enabled(Run(b, RefreshPrefix(m, k)), e)
    ensures IsRun(b, RefreshPrefix(m, k + 1))
    ensures Run(b, RefreshPrefix(m, k + 1)) == Step(Run(b, RefreshPrefix(m, k)), e)
  {
    RunSnoc(b, RefreshPrefix(m, k), e);
  }

  lemma RefreshStart(b: Board, m: Option<nat>)
    requires Enabled(b, Acquire(false))
    ensures IsRun(b, RefreshPrefix(m, 0)) && Run(b, RefreshPrefix(m, 0)) == Step(b, Acquire(false))
  {
    var events := RefreshPrefix(m, 0);
    assert events == [Acquire(false)] && events[1..] == [];
    assert IsRun(Step(b, Acquire(false)), events[1..]);
  }

  lemma RefreshEnds(b: Board, m: Option<nat>, reached: nat)
    requires reached <= 6 && IsRun(b, RefreshPrefix(m, reached)) && Run(b, RefreshPrefix(m, reached)).lock.Some?
    ensures IsRun(b, RefreshEvents(m, reached))
    ensures Run(b, RefreshEvents(m, reached)) == Step(Run(b, RefreshPrefix(m, reached)), Release)
  {
    RunSnoc(b, RefreshPrefix(m, reached), Release);
  }

  function StageAfter(k: nat): Stage
    requires k <= 6
  {
    if k == 0 then Locked
    else if k == 1 then MaxRead
    else if k == 2 then VersionTaken
    else if k == 3 then DataRead
    else if k == 4 then Published
    else if k == 5 then RowsDeleted
    else FlagCleared
  }

  lemma MarkInOneGo(b: Board, team: int)
    requires Enabled(b, BeginMark(team))
    ensures Enabled(Step(b, BeginMark(team)), CommitMark(team))
    ensures Step(Step(b, BeginMark(team)), CommitMark(team)) ==
      b.(drawn := b.drawn + [b.clock], dirty := b.dirty[team := |b.drawn| + 1],
         markedAt := b.markedAt[team := b.clock], clock := b.clock + 2)
  {
    assert b.inFlight[team := |b.drawn| + 1] - {team} == b.inFlight;
  }

  class MainBoard {
    var data: map<int, int>
    var dirty: map<int, nat>
    var nextVersion: nat
    var fullRebuild: bool
    var latest: Option<Snapshot>
    var lock: Option<Holder>
    var drawn: seq<nat>
    var inFlight: map<int, nat>
    var clock: nat
    ghost var markedAt: map<int, nat>
    ghost var changedAt: map<int, nat>
    ghost var requestedAt: Option<nat>
    ghost var publications: seq<nat>

    ghost function State(): Board
      reads this
    {
      Board(data, dirty, nextVersion, fullRebuild, latest, lock, inFlight, clock, drawn, markedAt, changedAt,
            requestedAt, publications)
    }

    constructor (teams: map<int, int>)
      ensures State() == InitialBoard(teams)
    {
      data, dirty, nextVersion, fullRebuild, latest, lock := teams, map[], 0, false, None, None;
      drawn, inFlight, clock := [], map[], 0;
      markedAt, changedAt, requestedAt, publications := map[], map[], None, [];
    }

    /** The upsert of `mark_team_dirty`, as drawing a revision and committing the row. */
    method MarkTeamDirty(team: int)
      requires Enabled(State(), BeginMark(team))
      modifies this
      ensures Enabled(Step(old(State()), BeginMark(team)), CommitMark(team))
      ensures State() == Step(Step(old(State()), BeginMark(team)), CommitMark(team))
    {
      MarkInOneGo(State(), team);
      drawn := drawn + [clock];
      var revision := |drawn|;
      clock := clock + 1;
      dirty := dirty[team := revision];
      markedAt := markedAt[team := drawn[revision - 1]];
      clock := clock + 1;
    }

    method TryAdvisoryLock(cold: bool) returns (ok: bool)
      modifies this
      ensures ok == old(lock).None?
      ensures ok ==> State() == Step(old(State()), Acquire(cold))
      ensures !ok ==> State() == old(State())
    {
      if lock.Some? {
        return false;
      }
      lock := Some(Holder(cold, Locked, None, 0, Snapshot(0, map[], 0)));
      clock := clock + 1;
      ok := true;
    }

    method ReadMaxRevision() returns (m: Option<nat>)
      requires lock.Some? && lock.value.stage.Locked? && !lock.value.cold
      modifies this
      ensures IsMaxRevision(old(dirty), m)
      ensures State() == Step(old(State()), ReadMax(m))
    {
      m := None;
      var rest := dirty.Keys;
      while rest != {}
        invariant rest <= dirty.Keys
        invariant m.None? ==> rest == dirty.Keys
        invariant m.Some? ==> exists t <- dirty :: dirty[t] == m.value
        invariant forall t <- dirty :: t !in rest ==> m.Some? && dirty[t] <= m.value
        invariant State() == old(State())
        decreases rest
      {
        NotEmpty(rest);
        var t :| t in rest;
        if m.None? || dirty[t] > m.value {
          m := Some(dirty[t]);
        }
        rest := rest - {t};
      }
      lock := Some(lock.value.(stage := MaxRead, maxRevision := m));
      clock := clock + 1;
    }

    method TakeNextVersion()
      requires Enabled(State(), TakeVersion)
      modifies this
      ensures State() == Step(old(State()), TakeVersion)
    {
      nextVersion := nextVersion + 1;
      fullRebuild := false;
      lock := Some(lock.value.(stage := VersionTaken, version := nextVersion));
      clock := clock + 1;
    }

    method BuildSnapshot()
      requires Enabled(State(), ReadData)
      modifies this
      ensures State() == Step(old(State()), ReadData)
    {
      lock := Some(lock.value.(stage := DataRead, snapshot := Snapshot(lock.value.version, data, clock)));
      clock := clock + 1;
    }

    method PublishSnapshot()
      requires Enabled(State(), Publish)
      modifies this
      ensures State() == Step(old(State()), Publish)
    {
      latest := Some(lock.value.snapshot);
      publications := publications + [lock.value.snapshot.version];
      lock := Some(lock.value.(stage := Published));
      clock := clock + 1;
    }

    method DeleteCovered()
      requires Enabled(State(), DeleteRows)
      modifies this
      ensures State() == Step(old(State()), DeleteRows)
    {
      dirty := Remaining(dirty, lock.value.maxRevision);
      lock := Some(lock.value.(stage := RowsDeleted));
      clock := clock + 1;
    }

    /** `mark_game_dirty`. */
    method MarkGameDirty()
      modifies this
      ensures State() == Step(old(State()), RequestRebuild)
    {
      fullRebuild := true;
      requestedAt := Some(clock);
      clock := clock + 1;
    }

    method ClearFullRebuild()
      requires Enabled(State(), ClearRebuild)
      modifies this
      ensures State() == Step(old(State()), ClearRebuild)
    {
      fullRebuild := false;
      lock := Some(lock.value.(stage := FlagCleared));
      clock := clock + 1;
    }

    method AdvisoryUnlock()
      requires lock.Some?
      modifies this
      ensures State() == Step(old(State()), Release)
    {
      lock := None;
      clock := clock + 1;
    }

    /** The refresh has run the first k statements since `start`. */
    ghost predicate Reached(start: Board, m: Option<nat>, k: nat)
      requires k <= 6
      reads this
    {
      && IsRun(start, RefreshPrefix(m, k)) && State() == Run(start, RefreshPrefix(m, k))
      && lock.Some? && !lock.value.cold && lock.value.stage == StageAfter(k)
    }

    /** The statements up to the snapshot. */
    method ReadForRefresh(reached: nat, ghost start: Board) returns (m: Option<nat>)
      requires reached <= 3 && Reached(start, None, 0)
      modifies this
      ensures Reached(start, m, reached) && data == old(data)
      ensures reached >= 1 ==> IsMaxRevision(dirty, m) && dirty == old(dirty) && lock.value.maxRevision == m
      ensures reached == 3 ==> lock.value.snapshot.data == data
    {
      m := None;
      if reached >= 1 {
        m := ReadMaxRevision();
        assert RefreshPrefix(m, 0) == RefreshPrefix(None, 0);
        RefreshStep(start, m, 0, ReadMax(m));
        BuildForRefresh(reached, start, m);
      }
    }

    method BuildForRefresh(reached: nat, ghost start: Board, ghost m: Option<nat>)
      requires 1 <= reached <= 3 && Reached(start, m, 1)
      modifies this
      ensures Reached(start, m, reached) && data == old(data) && dirty == old(dirty)
      ensures lock.value.maxRevision == old(lock).value.maxRevision
      ensures reached == 3 ==> lock.value.snapshot.data == data
    {
      if reached >= 2 {
        TakeNextVersion();
        RefreshStep(start, m, 1, TakeVersion);
      }
      if reached == 3 {
        BuildSnapshot();
        RefreshStep(start, m, 2, ReadData);
      }
    }

    method PublishForRefresh(ghost start: Board, ghost m: Option<nat>)
      requires Reached(start, m, 3)
      modifies this
      ensures Reached(start, m, 4) && data == old(data) && dirty == old(dirty)
      ensures lock.value.maxRevision == old(lock).value.maxRevision && latest == Some(old(lock).value.snapshot)
    {
      PublishSnapshot();
      RefreshStep(start, m, 3, Publish);
    }

    method DeleteForRefresh(ghost start: Board, ghost m: Option<nat>)
      requires Reached(start, m, 4) && IsMaxRevision(dirty, m) && lock.value.maxRevision == m
      modifies this
      ensures Reached(start, m, 5) && data == old(data) && dirty == map[] && latest == old(latest)
    {
      NothingAboveMax(dirty, m);
      DeleteCovered();
      RefreshStep(start, m, 4, DeleteRows);
    }

    method ClearForRefresh(ghost start: Board, ghost m: Option<nat>)
      requires Reached(start, m, 5)
      modifies this
      ensures Reached(start, m, 6) && !fullRebuild
      ensures data == old(data) && dirty == old(dirty) && latest == old(latest)
    {
      ClearFullRebuild();
      RefreshStep(start, m, 5, ClearRebuild);
    }

    /** Publication and, only after it, removal of the covered rows and of the flag. */
    method FinishRefresh(reached: nat, ghost start: Board, ghost m: Option<nat>)
      requires 3 <= reached <= 6 && Reached(start, m, 3)
      requires IsMaxRevision(dirty, m) && lock.value.maxRevision == m
      modifies this
      ensures Reached(start, m, reached) && data == old(data)
      ensures reached == 6 ==> dirty == map[] && !fullRebuild && latest == Some(old(lock).value.snapshot)
    {
      if reached >= 4 {
        PublishForRefresh(start, m);
      }
      if reached >= 5 {
        DeleteForRefresh(start, m);
      }
      if reached >= 6 {
        ClearForRefresh(start, m);
      }
    }

    /** Everything done under the lock. */
    method RefreshLocked(reached: nat, ghost start: Board) returns (m: Option<nat>)
      requires reached <= 6 && Reached(start, None, 0)
      modifies this
      ensures Reached(start, m, reached) && data == old(data)
      ensures reached == 6 ==> dirty == map[] && !fullRebuild && latest.Some? && latest.value.data == data
    {
      m := ReadForRefresh(if reached < 3 then reached else 3, start);
      if reached >= 3 {
        FinishRefresh(reached, start, m);
      }
    }

    /** `refresh_game`, failing before the statement after `reached` others. A held lock makes it a
        no-op; otherwise it is a run of the protocol, and a completed one leaves nothing dirty and
        the present data at the latest key. */
    method RefreshGame(reached: nat) returns (m: Option<nat>)
      requires reached <= 6
      modifies this
      ensures old(lock).Some? ==> State() == old(State())
      ensures old(lock).None? ==>
        && IsRun(old(State()), RefreshEvents(m, reached))
        && State() == Run(old(State()), RefreshEvents(m, reached))
      ensures old(lock).None? && reached == 6 ==>
        dirty == map[] && !fullRebuild && latest.Some? && latest.value.data == data == old(data)
    {
      m := None;
      var locked := TryAdvisoryLock(false);
      if !locked {
        return;
      }
      ghost var start := old(State());
      RefreshStart(start, None);
      m := RefreshLocked(reached, start);
      AdvisoryUnlock();
      RefreshEnds(start, m, reached);
    }
  }

  // ----- what is never held up, and the cold rebuild -----

  /** Play, marks and requests go on whether or not somebody holds the lock. */
  lemma PlayIsNotHeldUp(b: Board, team: int, value: int)
    ensures Enabled(b, Change(team, value)) && Enabled(b, RequestRebuild)
    ensures team !in b.inFlight ==>
      Enabled(b, BeginMark(team)) && Enabled(Step(b, BeginMark(team)), CommitMark(team))
    ensures Enabled(b, Acquire(true)) <==> b.lock.None?
    ensures Enabled(b, Release) <==> b.lock.Some?
  {
  }

  const COLD_REBUILD: seq<Event> := [Acquire(true), TakeVersion, ReadData, Publish, Release]

  lemma RunOne(b: Board, events: seq<Event>)
    requires events != [] && Enabled(b, events[0]) && IsRun(Step(b, events[0]), events[1..])
    ensures IsRun(b, events) && Run(b, events) == Run(Step(b, events[0]), events[1..])
  {
  }

  lemma ColdRebuildIsRun(b: Board, locked: Board, taken: Board, read: Board, published: Board)
    requires Enabled(b, Acquire(true)) && locked == Step(b, Acquire(true))
    requires Enabled(locked, TakeVersion) && taken == Step(locked, TakeVersion)
    requires Enabled(taken, ReadData) && read == Step(taken, ReadData)
    requires Enabled(read, Publish) && published == Step(read, Publish) && Enabled(published, Release)
    ensures IsRun(b, COLD_REBUILD) && Run(b, COLD_REBUILD) == Step(published, Release)
  {
    assert COLD_REBUILD[4..][1..] == [] && IsRun(Step(published, Release), []);
    RunOne(published, COLD_REBUILD[4..]);
    assert COLD_REBUILD[3..][1..] == COLD_REBUILD[4..];
    RunOne(read, COLD_REBUILD[3..]);
    assert COLD_REBUILD[2..][1..] == COLD_REBUILD[3..];
    RunOne(taken, COLD_REBUILD[2..]);
    assert COLD_REBUILD[1..][1..] == COLD_REBUILD[2..];
    RunOne(locked, COLD_REBUILD[1..]);
    RunOne(b, COLD_REBUILD);
  }

  /** An undisturbed cold rebuild publishes the present data as the next version, clears a request, and leaves
      every mark for the next refresh. */
  lemma ColdRebuildPublishes(b: Board)
    requires b.lock.None?
    ensures IsRun(b, COLD_REBUILD)
    ensures
      var after := Run(b, COLD_REBUILD);
      && after.latest.Some? && after.latest.value.data == b.data
      && after.latest.value.version == b.nextVersion + 1 == after.nextVersion
      && !after.fullRebuild && after.lock.None? && after.dirty == b.dirty && after.data == b.data
      && after.inFlight == b.inFlight && after.publications == b.publications + [b.nextVersion + 1]
  {
    var locked := Step(b, Acquire(true));
    var taken := Step(locked, TakeVersion);
    var read := Step(taken, ReadData);
    ColdRebuildIsRun(b, locked, taken, read, Step(read, Publish));
  }

  // ----- requests for a full rebuild -----

  /** The latest request has neither left the flag set nor been answered by a published snapshot whose
      data was read after it. */
  predicate RequestLost(b: Board) {
    b.requestedAt.Some? && !b.fullRebuild && !(b.latest.Some? && b.requestedAt.value < b.latest.value.readAt)
  }

  predicate NoRequest(events: seq<Event>) {
    forall i :: 0 <= i < |events| ==> !events[i].RequestRebuild?
  }

  predicate IsClearing(e: Event) {
    e.TakeVersion? || e.ClearRebuild?
  }

  predicate Clears(events: seq<Event>) {
    exists i :: 0 <= i < |events| && IsClearing(events[i])
  }

  /** Some holder reads the data, and after that a snapshot is published: one whose data was read then
      or later. */
  predicate ReadsThenPublishes(events: seq<Event>) {
    exists i, j :: 0 <= i < j < |events| && events[i].ReadData? && events[j].Publish?
  }

  predicate Publishes(events: seq<Event>) {
    exists i :: 0 <= i < |events| && events[i].Publish?
  }

  /** What is known of a board since the latest request, at time t: whether the flag has been cleared,
      whether data has been read, and whether such data has been published. */
  predicate Since(t: nat, cleared: bool, read: bool, answered: bool, s: Board) {
    && s.requestedAt == Some(t) && t < s.clock && s.fullRebuild == !cleared
    && ((s.latest.Some? && t < s.latest.value.readAt) <==> answered)
    && (s.lock.Some? && s.lock.value.stage.DataRead? ==> (t < s.lock.value.snapshot.readAt <==> read))
    && (answered ==> read)
  }

  lemma SinceStep(t: nat, cleared: bool, read: bool, answered: bool, s: Board, e: Event)
    requires Since(t, cleared, read, answered, s) && Enabled(s, e) && !e.RequestRebuild?
    ensures Since(t, cleared || IsClearing(e), read || e.ReadData?, answered || (e.Publish? && read), Step(s, e))
  {
  }

  lemma ClearsFront(events: seq<Event>)
    requires events != []
    ensures Clears(events) <==> IsClearing(events[0]) || Clears(events[1..])
  {
    if Clears(events[1..]) {
      var i :| 0 <= i < |events| - 1 && IsClearing(events[1..][i]);
      assert IsClearing(events[i + 1]);
    }
    if Clears(events) && !IsClearing(events[0]) {
      var i :| 0 <= i < |events| && IsClearing(events[i]);
      assert IsClearing(events[1..][i - 1]);
    }
  }

  lemma PublishesFront(events: seq<Event>)
    requires events != []
    ensures Publishes(events) <==> events[0].Publish? || Publishes(events[1..])
    ensures ReadsThenPublishes(events) <==>
      (events[0].ReadData? && Publishes(events[1..])) || ReadsThenPublishes(events[1..])
  {
    var rest := events[1..];
    assert forall i :: 0 <= i < |rest| ==> rest[i] == events[i + 1];
    if Publishes(rest) {
      var j :| 0 <= j < |rest| && rest[j].Publish?;
      assert events[j + 1].Publish?;
    }
    if ReadsThenPublishes(rest) {
      var i, j :| 0 <= i < j < |rest| && rest[i].ReadData? && rest[j].Publish?;
      assert events[i + 1].ReadData? && events[j + 1].Publish?;
    }
    if ReadsThenPublishes(events) {
      var i, j :| 0 <= i < j < |events| && events[i].ReadData? && events[j].Publish?;
      assert rest[j - 1].Publish? && (i > 0 ==> rest[i - 1].ReadData?);
    }
    if Publishes(events) && !events[0].Publish? {
      var j :| 0 <= j < |events| && events[j].Publish?;
      assert rest[j - 1].Publish?;
    }
  }

  lemma {:induction false} SinceRun(t: nat, cleared: bool, read: bool, answered: bool, s: Board, events: seq<Event>)
    requires Since(t, cleared, read, answered, s) && IsRun(s, events) && NoRequest(events)
    ensures
      var r := Run(s, events);
      && r.requestedAt == Some(t) && (r.fullRebuild <==> !cleared && !Clears(events))
      && ((r.latest.Some? && t < r.latest.value.readAt) <==>
            answered || (read && Publishes(events)) || ReadsThenPublishes(events))
    decreases |events|
  {
    if events != [] {
      var e, rest := events[0], events[1..];
      SinceStep(t, cleared, read, answered, s, e);
      SinceRun(t, cleared || IsClearing(e), read || e.ReadData?, answered || (e.Publish? && read), Step(s, e), rest);
      ClearsFront(events);
      PublishesFront(events);
    }
  }

  lemma {:induction false} RunConcat(b: Board, first: seq<Event>, second: seq<Event>)
    requires IsRun(b, first + second)
    ensures IsRun(b, first) && IsRun(Run(b, first), second) && Run(b, first + second) == Run(Run(b, first), second)
    decreases |first|
  {
    if first == [] {
      assert first + second == second;
    } else {
      assert (first + second)[1..] == first[1..] + second;
      RunConcat(Step(b, first[0]), first[1..], second);
    }
  }

  lemma SinceRequest(b: Board)
    requires Invariant(b)
    ensures Since(b.clock, false, false, false, Step(b, RequestRebuild))
  {
  }

  /** In every run of every participant, the latest request is lost exactly if a later statement of some
      holder, taking a version or ending a refresh, cleared the flag, and none of the snapshots published
      later was read after the request. */
  lemma RequestLostIff(data: map<int, int>, before: seq<Event>, after: seq<Event>)
    requires IsRun(InitialBoard(data), before + ([RequestRebuild] + after)) && NoRequest(after)
    ensures
      RequestLost(Run(InitialBoard(data), before + ([RequestRebuild] + after))) <==>
      Clears(after) && !ReadsThenPublishes(after)
  {
    AfterRequest(data, before, after);
    var b := Run(InitialBoard(data), before);
    assert Invariant(InitialBoard(data));
    RunKeepsInvariant(InitialBoard(data), before);
    SinceRequest(b);
    SinceRun(b.clock, false, false, false, Step(b, RequestRebuild), after);
  }

  lemma AfterRequest(data: map<int, int>, before: seq<Event>, after: seq<Event>)
    requires IsRun(InitialBoard(data), before + ([RequestRebuild] + after))
    ensures IsRun(InitialBoard(data), before)
    ensures
      var s := Step(Run(InitialBoard(data), before), RequestRebuild);
      IsRun(s, after) && Run(InitialBoard(data), before + ([RequestRebuild] + after)) == Run(s, after)
  {
    RunConcat(InitialBoard(data), before, [RequestRebuild] + after);
    assert ([RequestRebuild] + after)[1..] == after;
  }

  // ----- what that means for one refresh or rebuild -----

  function Acquisitions(events: seq<Event>): nat {
    if events == [] then 0 else (if events[0].Acquire? then 1 else 0) + Acquisitions(events[1..])
  }

  lemma MemberFront(events: seq<Event>, e: Event)
    requires events != []
    ensures e in events <==> events[0] == e || e in events[1..]
  {
    assert events == [events[0]] + events[1..];
  }

  /** Without a holder, and nobody acquiring the lock, no statement of a holder can come. */
  lemma {:induction false} NothingUnlocked(s: Board, events: seq<Event>)
    requires IsRun(s, events) && s.lock.None? && Acquisitions(events) == 0
    ensures !Clears(events) && !Publishes(events) && !ReadsThenPublishes(events)
    ensures TakeVersion !in events && ClearRebuild !in events
    decreases |events|
  {
    if events != [] {
      UnlockedStep(s, events[0]);
      NothingUnlocked(Step(s, events[0]), events[1..]);
      ClearsFront(events);
      PublishesFront(events);
      MemberFront(events, TakeVersion);
      MemberFront(events, ClearRebuild);
    }
  }

  lemma UnlockedStep(s: Board, e: Event)
    requires Enabled(s, e) && s.lock.None? && !e.Acquire?
    ensures Step(s, e).lock.None? && !IsClearing(e) && !e.Publish? && !e.ReadData?
  {
  }

  predicate BeforeVersion(stage: Stage) {
    stage.Locked? || stage.MaxRead?
  }

  /** What the rest of one holder's statements can be, from the stage it has reached: whether they take a
      version, clear the flag at the end, publish, and publish after reading. */
  predicate RestOfHolder(stage: Stage, takes: bool, ends: bool, publishes: bool, readsThenPublishes: bool) {
    && (takes ==> BeforeVersion(stage))
    && (readsThenPublishes ==> publishes && (BeforeVersion(stage) || stage.VersionTaken?))
    && (publishes ==> stage.DataRead? || readsThenPublishes)
    && (publishes && BeforeVersion(stage) ==> takes)
    && (ends ==> publishes || stage.Published? || stage.RowsDeleted?)
  }

  /** One statement of a holder, or of somebody else, and the stages before and after it. */
  predicate Advances(before: Stage, e: Event, after: Stage) {
    match e
    case ReadMax(_) => before.Locked? && after.MaxRead?
    case TakeVersion => BeforeVersion(before) && after.VersionTaken?
    case ReadData => before.VersionTaken? && after.DataRead?
    case Publish => before.DataRead? && after.Published?
    case DeleteRows => before.Published? && after.RowsDeleted?
    case ClearRebuild => before.RowsDeleted? && after.FlagCleared?
    case _ => after == before
  }

  lemma StatementAdvances(s: Board, e: Event)
    requires Enabled(s, e) && s.lock.Some? && !e.Release?
    ensures Step(s, e).lock.Some? && !e.Acquire?
    ensures Advances(s.lock.value.stage, e, Step(s, e).lock.value.stage)
  {
  }

  lemma HolderStep(before: Stage, e: Event, after: Stage, takes: bool, ends: bool, publishes: bool, rp: bool)
    requires Advances(before, e, after) && RestOfHolder(after, takes, ends, publishes, rp)
    ensures RestOfHolder(before, e.TakeVersion? || takes, e.ClearRebuild? || ends,
                         e.Publish? || publishes, (e.ReadData? && publishes) || rp)
  {
  }

  lemma {:induction false} HolderRest(s: Board, events: seq<Event>)
    requires IsRun(s, events) && s.lock.Some? && Acquisitions(events) == 0
    ensures RestOfHolder(s.lock.value.stage, TakeVersion in events, ClearRebuild in events, Publishes(events),
                         ReadsThenPublishes(events))
    ensures Clears(events) <==> TakeVersion in events || ClearRebuild in events
    decreases |events|
  {
    if events != [] {
      var e, rest := events[0], events[1..];
      ClearsFront(events);
      PublishesFront(events);
      MemberFront(events, TakeVersion);
      MemberFront(events, ClearRebuild);
      if e.Release? {
        NothingUnlocked(Step(s, e), rest);
      } else {
        StatementAdvances(s, e);
        HolderRest(Step(s, e), rest);
        HolderStep(s.lock.value.stage, e, Step(s, e).lock.value.stage,
                   TakeVersion in rest, ClearRebuild in rest, Publishes(rest), ReadsThenPublishes(rest));
      }
    }
  }

  /** At most one holder, at work when the request is made or acquiring the lock after it, has anything
      to do with the board after the request. */
  predicate OneHolder(b: Board, after: seq<Event>) {
    Acquisitions(after) <= if b.lock.Some? then 0 else 1
  }

  /** A holder that acquires the lock after the request. */
  lemma {:induction false} LateHolderRest(s: Board, events: seq<Event>)
    requires IsRun(s, events) && s.lock.None? && Acquisitions(events) <= 1
    ensures RestOfHolder(Locked, TakeVersion in events, ClearRebuild in events, Publishes(events),
                         ReadsThenPublishes(events))
    ensures Clears(events) <==> TakeVersion in events || ClearRebuild in events
    decreases |events|
  {
    if events != [] {
      var e, rest := events[0], events[1..];
      ClearsFront(events);
      PublishesFront(events);
      MemberFront(events, TakeVersion);
      MemberFront(events, ClearRebuild);
      if e.Acquire? {
        HolderRest(Step(s, e), rest);
      } else {
        UnlockedStep(s, e);
        LateHolderRest(Step(s, e), rest);
      }
    }
  }

  /** For one refresh or cold rebuild, with anything else in between, it depends on how far the holder was
      when the request was made. Before it took a version, be it that the lock was not even taken: lost
      exactly if it takes the version and does not publish. Between version and data: never. After it read
      the data: exactly if it clears the flag at the end, which a cold rebuild does not. */
  lemma RequestLostToOneHolder(data: map<int, int>, before: seq<Event>, after: seq<Event>)
    requires IsRun(InitialBoard(data), before + ([RequestRebuild] + after)) && NoRequest(after)
    requires IsRun(InitialBoard(data), before) && OneHolder(Run(InitialBoard(data), before), after)
    ensures
      var b := Run(InitialBoard(data), before);
      RequestLost(Run(InitialBoard(data), before + ([RequestRebuild] + after))) <==>
        if b.lock.None? || BeforeVersion(b.lock.value.stage) then TakeVersion in after && !Publishes(after)
        else ClearRebuild in after && !b.lock.value.stage.VersionTaken?
  {
    RequestLostIff(data, before, after);
    AfterRequest(data, before, after);
    var s := Step(Run(InitialBoard(data), before), RequestRebuild);
    if s.lock.Some? {
      HolderRest(s, after);
    } else {
      LateHolderRest(s, after);
    }
  }

  lemma NothingAboveMax(dirty: map<int, nat>, m: Option<nat>)
    requires IsMaxRevision(dirty, m)
    ensures Remaining(dirty, m) == map[]
  {
    assert forall t :: t !in Remaining(dirty, m);
    assert Remaining(dirty, m).Keys == {};
  }

  lemma NotEmpty(s: set<int>)
    ensures s == {} || exists x :: x in s
  {
    if forall x :: x !in s { assert s == {}; }
  }
}
