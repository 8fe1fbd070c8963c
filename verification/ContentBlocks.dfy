/** Conditioned content blocks of one team and the flag that says they must be looked at again
    (src/db/content.rs, src/db/puzzle.rs, src/db/release.rs). */
module ContentBlocks {
  import opened Common
  import opened Gate
  import opened GateCompiler

  datatype Owner = OfPuzzle(puzzle: nat) | OfRound(round: nat)

  datatype Block = Block(id: int, owner: Owner, visibility: Option<string>)

  datatype PuzzleRow = PuzzleRow(id: nat, slug: Option<string>, round: nat)

  datatype RoundRow = RoundRow(id: nat, slug: Option<string>)

  /** What the staff set up, fixed during a run. */
  datatype World = World(blocks: seq<Block>, puzzles: seq<PuzzleRow>, rounds: seq<RoundRow>)

  /** The rows of one team; `progress` maps a puzzle to the state of its row. */
  datatype TeamState = TeamState(
    progress: map<nat, int>,
    triggers: set<(nat, string)>,
    started: bool,
    unlocked: set<int>,
    dirty: bool
  )

  // ----- the state a condition is evaluated on -----

  /** Later rows overwrite earlier ones, as inserting into a hash map does. */
  function PuzzleSlugs(rows: seq<PuzzleRow>): map<string, nat> {
    if rows == [] then map[]
    else
      var row := rows[|rows| - 1];
      var rest := PuzzleSlugs(rows[..|rows| - 1]);
      if row.slug.Some? then rest[row.slug.value := row.id] else rest
  }

  function RoundSlugs(rows: seq<RoundRow>): map<string, nat> {
    if rows == [] then map[]
    else
      var row := rows[|rows| - 1];
      var rest := RoundSlugs(rows[..|rows| - 1]);
      if row.slug.Some? then rest[row.slug.value := row.id] else rest
  }

  /** Keeps the round's own puzzle. */
  function RoundPuzzles(rows: seq<PuzzleRow>): map<nat, seq<nat>> {
    if rows == [] then map[]
    else
      var row := rows[|rows| - 1];
      var rest := RoundPuzzles(rows[..|rows| - 1]);
      rest[row.round := (if row.round in rest then rest[row.round] else []) + [row.id]]
  }

  function Lookup<K, V>(m: map<K, V>, k: K): Option<V> {
    if k in m then Some(m[k]) else None
  }

  function SolvedIn(progress: map<nat, int>): set<nat> {
    set p <- progress | progress[p] >= 1
  }

  function StatesOf(w: World, solved: set<nat>, triggers: set<(nat, string)>, started: bool): PuzzleStates {
    var puzzleSlugs, roundSlugs, roundPuzzles := PuzzleSlugs(w.puzzles), RoundSlugs(w.rounds), RoundPuzzles(w.puzzles);
    PuzzleStates(
      id => id in solved,
      slug => Lookup(puzzleSlugs, slug),
      slug => Lookup(roundSlugs, slug),
      id => Lookup(roundPuzzles, id),
      started,
      (id, key) => (id, key) in triggers)
  }

  predicate Allowed(states: PuzzleStates, b: Block) {
    && b.visibility.Some?
    && CompileText(b.visibility.value).Success?
    && Eval(states, CompileText(b.visibility.value).value)
  }

  /** The team's row of puzzle p puts the block on an opened and released page. */
  predicate ShownBy(w: World, progress: map<nat, int>, released: set<nat>, b: Block, p: nat) {
    p in progress && progress[p] >= 0 && p in released && BelongsTo(w, b, p)
  }

  /** The block is on the puzzle's own page, or on the page of its round. */
  predicate BelongsTo(w: World, b: Block, p: nat) {
    match b.owner
    case OfPuzzle(q) => p == q
    case OfRound(r) => exists row <- w.puzzles :: row.id == p && row.round == r
  }

  predicate OnPage(w: World, progress: map<nat, int>, released: set<nat>, b: Block) {
    exists p <- progress :: ShownBy(w, progress, released, b, p)
  }

  predicate Holds(w: World, t: TeamState, b: Block) {
    Allowed(StatesOf(w, SolvedIn(t.progress), t.triggers, t.started), b)
  }

  /** The team should have the block: it is on one of its pages, and its condition compiles and holds. */
  predicate Due(w: World, t: TeamState, released: set<nat>, b: Block) {
    OnPage(w, t.progress, released, b) && Holds(w, t, b)
  }

  function DueIds(w: World, t: TeamState, released: set<nat>, blocks: seq<Block>): set<int> {
    set b <- blocks | Due(w, t, released, b) :: b.id
  }

  // ----- the transactions -----

  datatype Action = Correct | StartGame | Other

  function Keyed(puzzle: nat, keys: seq<string>): set<(nat, string)> {
    set key <- keys :: (puzzle, key)
  }

  function WithTriggers(t: TeamState, puzzle: nat, keys: seq<string>): TeamState {
    t.(triggers := t.triggers + Keyed(puzzle, keys), dirty := t.dirty || !(Keyed(puzzle, keys) <= t.triggers))
  }

  /** A judged submission: its triggers, then its action. */
  function Submitted(t: TeamState, puzzle: nat, keys: seq<string>, action: Action): TeamState {
    var u := WithTriggers(t, puzzle, keys);
    match action
    case Correct =>
      if puzzle in u.progress && u.progress[puzzle] == 0
      then u.(progress := u.progress[puzzle := 1], dirty := true)
      else u
    case StartGame => u.(started := true, dirty := u.dirty || !u.started)
    case Other => u
  }

  /** Rows inserted where there was none. */
  function Opened(t: TeamState, puzzles: set<nat>): TeamState {
    t.(progress := map p | p in t.progress.Keys + puzzles :: if p in t.progress then t.progress[p] else 0)
  }

  function Refreshed(w: World, t: TeamState, released: set<nat>): TeamState {
    if t.dirty then t.(unlocked := t.unlocked + DueIds(w, t, released, w.blocks), dirty := false) else t
  }

  function Cleared(t: TeamState, id: int): TeamState {
    if id in t.unlocked then t.(unlocked := t.unlocked - {id}, dirty := true) else t
  }

  class TeamRows {
    var progress: map<nat, int>
    var triggers: set<(nat, string)>
    var started: bool
    var unlocked: set<int>
    var dirty: bool

    function State(): TeamState
      reads this
    {
      TeamState(progress, triggers, started, unlocked, dirty)
    }

    /** INSERT ... ON CONFLICT DO NOTHING, marking only if a row was inserted. */
    method InsertTriggers(puzzle: nat, keys: seq<string>)
      modifies this
      ensures State() == WithTriggers(old(State()), puzzle, keys)
    {
      var affected := 0;
      for i := 0 to |keys|
        invariant triggers == old(triggers) + Keyed(puzzle, keys[..i])
        invariant affected > 0 <==> !(Keyed(puzzle, keys[..i]) <= old(triggers))
        invariant progress == old(progress) && started == old(started)
        invariant unlocked == old(unlocked) && dirty == old(dirty)
      {
        assert Keyed(puzzle, keys[..i + 1]) == Keyed(puzzle, keys[..i]) + {(puzzle, keys[i])} by {
          assert keys[..i + 1] == keys[..i] + [keys[i]];
        }
        if (puzzle, keys[i]) !in triggers {
          triggers := triggers + {(puzzle, keys[i])};
          affected := affected + 1;
        }
      }
      assert keys[..|keys|] == keys;
      if affected > 0 {
        dirty := true;
      }
    }

    method Submit(puzzle: nat, keys: seq<string>, action: Action)
      modifies this
      ensures State() == Submitted(old(State()), puzzle, keys, action)
    {
      InsertTriggers(puzzle, keys);
      match action {
        case Correct =>
          if puzzle in progress && progress[puzzle] == 0 {
            progress := progress[puzzle := 1];
            dirty := true;
          }
        case StartGame =>
          var firstStart := !started;
          started := true;
          if firstStart {
            dirty := true;
          }
        case Other =>
      }
    }

    /** The blocks the refresh looks at, in the table's order. */
    method PendingBlocks(w: World, released: set<nat>) returns (pending: seq<Block>)
      ensures forall b :: b in pending <==>
        b in w.blocks && b.visibility.Some? && OnPage(w, progress, released, b) && b.id !in unlocked
    {
      pending := [];
      for i := 0 to |w.blocks|
        invariant forall b :: b in pending <==>
          b in w.blocks[..i] && b.visibility.Some? && OnPage(w, progress, released, b) && b.id !in unlocked
      {
        assert w.blocks[..i + 1] == w.blocks[..i] + [w.blocks[i]];
        var block := w.blocks[i];
        if block.visibility.Some? && OnPage(w, progress, released, block) && block.id !in unlocked {
          pending := pending + [block];
        }
      }
      assert w.blocks[..|w.blocks|] == w.blocks;
    }

    /** The loop of the refresh. */
    method UnlockAllowed(states: PuzzleStates, pending: seq<Block>)
      modifies this`unlocked
      ensures unlocked == old(unlocked) + AllowedIds(states, pending)
    {
      for i := 0 to |pending|
        invariant unlocked == old(unlocked) + AllowedIds(states, pending[..i])
      {
        AllowedIdsStep(states, pending, i);
        var block := pending[i];
        var allowed := false;
        if block.visibility.Some? {
          var compiled := CompileText(block.visibility.value);
          allowed := compiled.Success? && Eval(states, compiled.value);
        }
        if allowed {
          unlocked := unlocked + {block.id};
        }
      }
      assert pending[..|pending|] == pending;
    }

    method RefreshUnlocksIfDirty(w: World, released: set<nat>)
      modifies this
      ensures State() == Refreshed(w, old(State()), released)
    {
      if !dirty {
        return;
      }
      var pending := PendingBlocks(w, released);
      if pending != [] {
        UnlockAllowed(StatesOf(w, SolvedIn(progress), triggers, started), pending);
      }
      PendingAreDue(w, old(State()), released, pending);
      dirty := false;
    }

    method ClearUnlock(id: int)
      modifies this
      ensures State() == Cleared(old(State()), id)
    {
      if id in unlocked {
        unlocked := unlocked - {id};
        dirty := true;
      }
    }

    /** One statement: the rows it inserted are returned. */
    method InsertOpened(puzzles: seq<nat>) returns (inserted: set<nat>)
      modifies this
      ensures State() == Opened(old(State()), set p <- puzzles)
      ensures inserted == (set p <- puzzles) - old(progress).Keys
    {
      inserted := {};
      for i := 0 to |puzzles|
        invariant State() == Opened(old(State()), set p <- puzzles[..i])
        invariant inserted == (set p <- puzzles[..i]) - old(progress).Keys
      {
        assert puzzles[..i + 1] == puzzles[..i] + [puzzles[i]];
        if puzzles[i] !in progress {
          progress := progress[puzzles[i] := 0];
          inserted := inserted + {puzzles[i]};
        }
      }
      assert puzzles[..|puzzles|] == puzzles;
    }
  }

  function AllowedIds(states: PuzzleStates, blocks: seq<Block>): set<int> {
    set b <- blocks | Allowed(states, b) :: b.id
  }

  lemma AllowedIdsStep(states: PuzzleStates, blocks: seq<Block>, i: nat)
    requires i < |blocks|
    ensures AllowedIds(states, blocks[..i + 1]) ==
      AllowedIds(states, blocks[..i]) + (if Allowed(states, blocks[i]) then {blocks[i].id} else {})
  {
    assert blocks[..i + 1] == blocks[..i] + [blocks[i]];
  }

  lemma PendingAreDue(w: World, t: TeamState, released: set<nat>, pending: seq<Block>)
    requires forall b :: b in pending <==>
      b in w.blocks && b.visibility.Some? && OnPage(w, t.progress, released, b) && b.id !in t.unlocked
    ensures t.unlocked + AllowedIds(StatesOf(w, SolvedIn(t.progress), t.triggers, t.started), pending) ==
      t.unlocked + DueIds(w, t, released, w.blocks)
  {
    var states := StatesOf(w, SolvedIn(t.progress), t.triggers, t.started);
    forall id | id in DueIds(w, t, released, w.blocks) && id !in t.unlocked
      ensures id in AllowedIds(states, pending)
    {
      var b :| b in w.blocks && Due(w, t, released, b) && b.id == id;
      assert b in pending;
    }
    forall id | id in AllowedIds(states, pending)
      ensures id in DueIds(w, t, released, w.blocks)
    {
      var b :| b in pending && Allowed(states, b) && b.id == id;
      assert Due(w, t, released, b);
    }
  }

  // ----- runs -----

  /** Opening new puzzles and marking the team are two statements, and so are the release of a page
      and the marking for its phase: `opening` and `releasing` are the puzzles in between. */
  datatype System = System(team: TeamState, released: set<nat>, opening: set<nat>, releasing: set<nat>)

  datatype Event =
    | Submit(puzzle: nat, keys: seq<string>, action: Action)
    | PurchaseHint(puzzle: nat, keys: seq<string>)
    | InsertOpened(puzzles: set<nat>)
    | MarkOpened(puzzles: set<nat>)
    | ReleaseTimePasses(puzzles: set<nat>)
    | MarkReleased(puzzles: set<nat>)
    | Refresh
    | ClearUnlock(id: int)

  /** Marking for a phase reaches only teams that have opened one of its puzzles. */
  function Step(w: World, s: System, e: Event): System {
    match e
    case Submit(p, keys, action) => s.(team := Submitted(s.team, p, keys, action))
    case PurchaseHint(p, keys) => s.(team := WithTriggers(s.team, p, keys))
    case InsertOpened(ps) => s.(team := Opened(s.team, ps), opening := s.opening + (ps - s.team.progress.Keys))
    case MarkOpened(ps) => s.(team := s.team.(dirty := s.team.dirty || ps != {}), opening := s.opening - ps)
    case ReleaseTimePasses(ps) => s.(released := s.released + ps, releasing := s.releasing + (ps - s.released))
    case MarkReleased(ps) =>
      var reached := exists p <- ps :: p in s.team.progress && s.team.progress[p] >= 0;
      s.(team := s.team.(dirty := s.team.dirty || reached), releasing := s.releasing - ps)
    case Refresh => s.(team := Refreshed(w, s.team, s.released))
    case ClearUnlock(id) => s.(team := Cleared(s.team, id))
  }

  function Run(w: World, s: System, events: seq<Event>): System {
    if events == [] then s
    else Step(w, Run(w, s, events[..|events| - 1]), events[|events| - 1])
  }

  function Settled(s: System): set<nat> {
    s.released - s.opening - s.releasing
  }

  /** While the flag is clear no block is missing, but for the pages being opened or released. */
  ghost predicate Complete(w: World, s: System) {
    !s.team.dirty ==> forall b <- w.blocks :: Due(w, s.team, Settled(s), b) ==> b.id in s.team.unlocked
  }

  /** A step that leaves the flag clear changes neither what conditions see nor the unlocks. */
  lemma ClearMeansUnseen(w: World, s: System, e: Event)
    requires !e.Refresh? && !Step(w, s, e).team.dirty
    ensures
      var u := Step(w, s, e);
      && !s.team.dirty && u.team.unlocked == s.team.unlocked
      && SolvedIn(u.team.progress) == SolvedIn(s.team.progress)
      && u.team.triggers == s.team.triggers && u.team.started == s.team.started
  {
    if e.InsertOpened? {
      var u := Step(w, s, e);
      assert forall p <- u.team.progress :: u.team.progress[p] >= 1 ==> p in s.team.progress;
    }
  }

  /** Nor does it bring a settled page into view. */
  lemma ClearMeansSamePages(w: World, s: System, e: Event, b: Block)
    requires !e.Refresh? && !Step(w, s, e).team.dirty
    requires OnPage(w, Step(w, s, e).team.progress, Settled(Step(w, s, e)), b)
    ensures OnPage(w, s.team.progress, Settled(s), b)
  {
    var u := Step(w, s, e);
    var p :| p in u.team.progress && ShownBy(w, u.team.progress, Settled(u), b, p);
    assert p in s.team.progress && s.team.progress[p] >= 0 && p in Settled(s);
    assert ShownBy(w, s.team.progress, Settled(s), b, p);
  }

  /** After a refresh a block due anywhere, pages still being marked included, is unlocked if the
      flag was set; if it was clear, the blocks of settled pages are. */
  lemma RefreshCompletes(w: World, s: System, b: Block)
    requires Complete(w, s) && b in w.blocks
    ensures
      var u := Step(w, s, Refresh);
      && !u.team.dirty
      && (Due(w, u.team, if s.team.dirty then u.released else Settled(u), b) ==> b.id in u.team.unlocked)
      && (Due(w, u.team, Settled(u), b) ==> b.id in u.team.unlocked)
  {
    if s.team.dirty {
      var u := Step(w, s, Refresh);
      if Due(w, u.team, Settled(u), b) {
        var p :| p in u.team.progress && ShownBy(w, u.team.progress, Settled(u), b, p);
        assert ShownBy(w, s.team.progress, s.released, b, p);
      }
      if Due(w, u.team, u.released, b) {
        assert Due(w, s.team, s.released, b);
      }
    }
  }

  lemma StepKeepsComplete(w: World, s: System, e: Event)
    requires Complete(w, s)
    ensures Complete(w, Step(w, s, e))
  {
    var u := Step(w, s, e);
    forall b | b in w.blocks && !u.team.dirty && Due(w, u.team, Settled(u), b)
      ensures b.id in u.team.unlocked
    {
      if e.Refresh? {
        RefreshCompletes(w, s, b);
      } else {
        ClearMeansUnseen(w, s, e);
        ClearMeansSamePages(w, s, e, b);
        assert Due(w, s.team, Settled(s), b);
      }
    }
  }

  /** In every interleaving, from a team marked dirty (as teams are created) or already complete. */
  lemma {:induction false} EveryRunIsComplete(w: World, s: System, events: seq<Event>)
    requires Complete(w, s)
    ensures Complete(w, Run(w, s, events))
    decreases |events|
  {
    if events != [] {
      EveryRunIsComplete(w, s, events[..|events| - 1]);
      StepKeepsComplete(w, Run(w, s, events[..|events| - 1]), events[|events| - 1]);
    }
  }

  /** The n-th event is a refresh that ran and found a block of this id due. */
  ghost predicate EarnedAt(w: World, s: System, events: seq<Event>, id: int, n: nat)
    requires n < |events|
  {
    var before := Run(w, s, events[..n]);
    events[n].Refresh? && before.team.dirty && id in DueIds(w, before.team, before.released, w.blocks)
  }

  ghost predicate EverEarned(w: World, s: System, events: seq<Event>, id: int) {
    exists n: nat :: n < |events| && EarnedAt(w, s, events, id, n)
  }

  lemma StepUnlocks(w: World, s: System, e: Event, id: int)
    requires e != ClearUnlock(id)
    ensures id in Step(w, s, e).team.unlocked <==>
      id in s.team.unlocked || (e.Refresh? && s.team.dirty && id in DueIds(w, s.team, s.released, w.blocks))
  {
  }

  /** A block is unlocked exactly when some refresh found it due, and stays so (also when its condition
      stops holding) until the staff clear it. */
  lemma {:induction false} UnlockedIffEarned(w: World, s: System, events: seq<Event>, id: int)
    requires ClearUnlock(id) !in events
    ensures id in Run(w, s, events).team.unlocked <==>
      id in s.team.unlocked || EverEarned(w, s, events, id)
    decreases |events|
  {
    if events != [] {
      var last := |events| - 1;
      var before := events[..last];
      UnlockedIffEarned(w, s, before, id);
      StepUnlocks(w, Run(w, s, before), events[last], id);
      forall n: nat | n < last
        ensures EarnedAt(w, s, events, id, n) <==> EarnedAt(w, s, before, id, n)
      {
        assert before[..n] == events[..n];
      }
      assert EarnedAt(w, s, events, id, last) <==>
        events[last].Refresh? && Run(w, s, before).team.dirty
        && id in DueIds(w, Run(w, s, before).team, Run(w, s, before).released, w.blocks);
    }
  }

  /** What `visible_for_team` keeps of a page. */
  predicate Shown(t: TeamState, b: Block) {
    b.visibility.None? || b.id in t.unlocked
  }

  /** The page after a refresh: with no mark outstanding every due block is shown, and a conditioned
      block is shown only if it was unlocked at the start or found due by some refresh of the run. */
  lemma PageShowsWhatIsDue(w: World, s: System, events: seq<Event>, b: Block)
    requires Complete(w, s) && b in w.blocks
    requires events != [] && events[|events| - 1] == Refresh && ClearUnlock(b.id) !in events
    ensures
      var last := Run(w, s, events);
      && (last.opening == {} && last.releasing == {} && Due(w, last.team, last.released, b) ==> Shown(last.team, b))
      && (Shown(last.team, b) && b.visibility.Some? ==> b.id in s.team.unlocked || EverEarned(w, s, events, b.id))
  {
    var before := Run(w, s, events[..|events| - 1]);
    EveryRunIsComplete(w, s, events[..|events| - 1]);
    RefreshCompletes(w, before, b);
    UnlockedIffEarned(w, s, events, b.id);
    var last := Run(w, s, events);
    assert last == Step(w, before, Refresh);
    if last.opening == {} && last.releasing == {} {
      assert Settled(last) == last.released;
    }
  }

  // ----- the two statements of an unlock -----

  /** The events that set the flag. */
  predicate Marking(s: System, e: Event) {
    match e
    case Submit(p, keys, action) =>
      || !(Keyed(p, keys) <= s.team.triggers)
      || (action.Correct? && p in s.team.progress && s.team.progress[p] == 0)
      || (action.StartGame? && !s.team.started)
    case PurchaseHint(p, keys) => !(Keyed(p, keys) <= s.team.triggers)
    case MarkOpened(ps) => ps != {}
    case MarkReleased(ps) => exists p <- ps :: p in s.team.progress && s.team.progress[p] >= 0
    case ClearUnlock(id) => id in s.team.unlocked
    case _ => false
  }

  lemma FlagAfterStep(w: World, s: System, e: Event)
    ensures Step(w, s, e).team.dirty <==> Marking(s, e) || (s.team.dirty && !e.Refresh?)
  {
  }

  ghost predicate MarkedAt(w: World, s: System, events: seq<Event>, m: nat)
    requires m < |events|
  {
    Marking(Run(w, s, events[..m]), events[m])
  }

  /** From a clear flag, it is set only after an event that marks the team. */
  lemma {:induction false} DirtyWasMarked(w: World, s: System, events: seq<Event>, n: nat)
    requires !s.team.dirty && n <= |events| && Run(w, s, events[..n]).team.dirty
    ensures exists m: nat :: m < n && MarkedAt(w, s, events, m)
    decreases n
  {
    assert n > 0;
    assert events[..n][..n - 1] == events[..n - 1];
    FlagAfterStep(w, Run(w, s, events[..n - 1]), events[n - 1]);
    if Run(w, s, events[..n - 1]).team.dirty {
      DirtyWasMarked(w, s, events, n - 1);
    } else {
      assert MarkedAt(w, s, events, n - 1);
    }
  }

  /** The n-th event is a refresh that finds the block due, after some event has marked the team. */
  ghost predicate HealedAt(w: World, s: System, events: seq<Event>, id: int, n: nat)
    requires n < |events|
  {
    EarnedAt(w, s, events, id, n) && exists m: nat :: m < n && MarkedAt(w, s, events, m)
  }

  /** While the flag is clear a conditioned block that is not unlocked appears exactly when a later event
      has marked the team and a refresh after it finds the block due. */
  lemma UnmarkedBlockShownIff(w: World, s: System, b: Block, events: seq<Event>)
    requires !s.team.dirty && b.visibility.Some? && b.id !in s.team.unlocked
    requires ClearUnlock(b.id) !in events
    ensures Shown(Run(w, s, events).team, b) <==> exists n: nat :: n < |events| && HealedAt(w, s, events, b.id, n)
  {
    UnlockedIffEarned(w, s, events, b.id);
    forall n: nat | n < |events| && EarnedAt(w, s, events, b.id, n)
      ensures HealedAt(w, s, events, b.id, n)
    {
      DirtyWasMarked(w, s, events, n);
    }
  }

  /** Between the statement that opens a puzzle and the one that marks the team the flag is still clear,
      and a block that became due is missing from the page. It appears exactly when a later event, be it
      that mark or another, has marked the team and a refresh after it finds the block due: while the
      mark is outstanding, or if it is lost, refreshing alone never shows it. */
  lemma OpenedBlockShownIff(w: World, s: System, p: nat, b: Block, events: seq<Event>)
    requires !s.team.dirty && b.visibility.Some? && b.id !in s.team.unlocked
    requires ClearUnlock(b.id) !in events
    ensures
      var begun := Step(w, s, InsertOpened({p}));
      && !begun.team.dirty && !Shown(begun.team, b)
      && (Shown(Run(w, begun, events).team, b) <==>
            exists n: nat :: n < |events| && HealedAt(w, begun, events, b.id, n))
  {
    UnmarkedBlockShownIff(w, Step(w, s, InsertOpened({p})), b, events);
  }

  /** The same between the moment a release time passes and the scheduler's mark for the phase. */
  lemma ReleasedBlockShownIff(w: World, s: System, p: nat, b: Block, events: seq<Event>)
    requires !s.team.dirty && b.visibility.Some? && b.id !in s.team.unlocked
    requires ClearUnlock(b.id) !in events
    ensures
      var begun := Step(w, s, ReleaseTimePasses({p}));
      && !begun.team.dirty && !Shown(begun.team, b)
      && (Shown(Run(w, begun, events).team, b) <==>
            exists n: nat :: n < |events| && HealedAt(w, begun, events, b.id, n))
  {
    UnmarkedBlockShownIff(w, Step(w, s, ReleaseTimePasses({p})), b, events);
  }

  /** A release makes due the blocks of an open puzzle's page and round whose condition holds. */
  lemma ReleasingMakesDue(w: World, s: System, p: nat, b: Block)
    requires p in s.team.progress && s.team.progress[p] >= 0
    ensures
      var begun := Step(w, s, ReleaseTimePasses({p}));
      && begun.team == s.team
      && (Due(w, begun.team, begun.released, b) <==>
            Holds(w, s.team, b) && (OnPage(w, s.team.progress, s.released, b) || BelongsTo(w, b, p)))
  {
    var begun := Step(w, s, ReleaseTimePasses({p}));
    if BelongsTo(w, b, p) {
      assert ShownBy(w, begun.team.progress, begun.released, b, p);
    }
    if OnPage(w, s.team.progress, s.released, b) {
      var q :| q in s.team.progress && ShownBy(w, s.team.progress, s.released, b, q);
      assert ShownBy(w, begun.team.progress, begun.released, b, q);
    }
    if OnPage(w, begun.team.progress, begun.released, b) {
      var q :| q in begun.team.progress && ShownBy(w, begun.team.progress, begun.released, b, q);
      if q != p { assert ShownBy(w, s.team.progress, s.released, b, q); }
    }
  }

  /** The block is due as soon as the puzzle is open, if its page is released and its condition holds;
      opening changes no condition. */
  lemma OpeningMakesDue(w: World, s: System, p: nat, b: Block)
    requires p !in s.team.progress && p in s.released
    ensures
      var begun := Step(w, s, InsertOpened({p}));
      && Holds(w, begun.team, b) == Holds(w, s.team, b)
      && (Due(w, begun.team, begun.released, b) <==>
            Holds(w, s.team, b) && (OnPage(w, s.team.progress, s.released, b) || BelongsTo(w, b, p)))
  {
    var begun := Step(w, s, InsertOpened({p}));
    assert SolvedIn(begun.team.progress) == SolvedIn(s.team.progress) by {
      assert forall q <- begun.team.progress :: begun.team.progress[q] >= 1 ==> q in s.team.progress;
    }
    if BelongsTo(w, b, p) {
      assert ShownBy(w, begun.team.progress, begun.released, b, p);
    }
    if OnPage(w, s.team.progress, s.released, b) {
      var q :| q in s.team.progress && ShownBy(w, s.team.progress, s.released, b, q);
      assert q in begun.team.progress && ShownBy(w, begun.team.progress, begun.released, b, q);
    }
    if OnPage(w, begun.team.progress, begun.released, b) {
      var q :| q in begun.team.progress && ShownBy(w, begun.team.progress, begun.released, b, q);
      if q != p { assert ShownBy(w, s.team.progress, s.released, b, q); }
    }
  }
}
