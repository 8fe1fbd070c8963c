/** Frontend packages, drafts and publishing (src/db/frontend.rs). */
module Frontend {
  import opened Common

  datatype FrontendFeature = Locale | Icons | Ui

  /** A row of rb_frontend_package; `content` stands for version, manifest path, manifest and hash. */
  datatype Package = Package(game: int, name: string, deletePending: bool, assetGroup: int, content: string)

  datatype Asset = Asset(objectKey: string, backend: string)

  datatype Scope = GameScope | RoundScope(round: int) | PuzzleScope(puzzle: int)

  datatype Place = Place(surface: string, scope: Scope)

  datatype Binding = Binding(package: Option<int>, renderer: Option<string>)

  datatype Activation = Activation(package: int, feature: FrontendFeature)

  datatype Status = Draft | Published

  /** A revision with its bindings and activations: all three tables are keyed by the revision id and
      the last two cascade with it. */
  datatype Revision = Revision(
    game: int,
    number: int,
    status: Status,
    bindings: map<Place, Binding>,
    activations: set<Activation>
  )

  datatype Tables = Tables(packages: map<int, Package>, assets: map<int, Asset>, revisions: map<int, Revision>)

  /** Foreign keys, one active package per game and name, one draft and one published revision per game. */
  ghost predicate Valid(db: Tables) {
    && (forall p <- db.packages :: db.packages[p].assetGroup in db.assets)
    && UniqueActive(db.packages)
    && (forall r <- db.revisions :: ValidRevision(db, db.revisions[r]))
    && (forall r <- db.revisions, s <- db.revisions ::
          db.revisions[r].game == db.revisions[s].game && db.revisions[r].status == db.revisions[s].status ==> r == s)
  }

  /** The partial unique index on (game_id, name) WHERE NOT delete_pending. */
  ghost predicate UniqueActive(packages: map<int, Package>) {
    forall p, q, game, name :: IsActiveFor(packages, p, game, name) && IsActiveFor(packages, q, game, name) ==> p == q
  }

  predicate ValidRevision(db: Tables, rev: Revision) {
    && (forall place <- rev.bindings :: rev.bindings[place].package.Some? ==>
          rev.bindings[place].package.value in db.packages)
    && (forall a <- rev.activations :: a.package in db.packages)
  }

  predicate IsActiveFor(packages: map<int, Package>, p: int, game: int, name: string) {
    p in packages && packages[p].game == game && packages[p].name == name && !packages[p].deletePending
  }

  /** The active package with the game and name of a given one. */
  ghost function ActiveFor(packages: map<int, Package>, p: int): Option<int>
    requires p in packages
  {
    if exists q :: IsActiveFor(packages, q, packages[p].game, packages[p].name) then
      var q :| IsActiveFor(packages, q, packages[p].game, packages[p].name);
      Some(q)
    else None
  }

  /** The package a reference stands for: in a draft, the active one in place of a delete-pending one. */
  ghost function Effective(packages: map<int, Package>, status: Status, p: int): Option<int>
    requires p in packages
  {
    if status.Draft? && packages[p].deletePending then ActiveFor(packages, p) else Some(p)
  }

  lemma ActiveForIs(packages: map<int, Package>, p: int)
    requires p in packages
    ensures ActiveFor(packages, p).Some? ==>
      IsActiveFor(packages, ActiveFor(packages, p).value, packages[p].game, packages[p].name)
    ensures ActiveFor(packages, p).None? ==> forall q :: !IsActiveFor(packages, q, packages[p].game, packages[p].name)
  {
  }

  // ----- resolving -----

  datatype BindingRow = BindingRow(revision: int, package: Option<(int, Package, Asset)>, renderer: Option<string>)

  datatype FeatureRow = FeatureRow(revision: int, package: int, feature: FrontendFeature, data: Package, asset: Asset)

  ghost function Details(db: Tables, p: int): (int, Package, Asset)
    requires p in db.packages && db.packages[p].assetGroup in db.assets
  {
    (p, db.packages[p], db.assets[db.packages[p].assetGroup])
  }

  /** The row one place contributes: none without a binding, or when its package has no active successor. */
  ghost function RowAt(db: Tables, rev: Revision, place: Place): Option<BindingRow>
    requires Valid(db) && ValidRevision(db, rev)
  {
    if place !in rev.bindings then None
    else
      var b := rev.bindings[place];
      match b.package
      case None => Some(BindingRow(rev.number, None, b.renderer))
      case Some(p) =>
        ActiveForIs(db.packages, p);
        match Effective(db.packages, rev.status, p)
        case None => None
        case Some(e) => Some(BindingRow(rev.number, Some(Details(db, e)), b.renderer))
  }

  function OrElse<T>(a: Option<T>, b: Option<T>): Option<T> {
    if a.Some? then a else b
  }

  function IdOrZero(id: Option<int>): int {
    if id.Some? then id.value else 0
  }

  /** Puzzle before round before game scope. */
  ghost function ResolveIn(db: Tables, rev: Revision, surface: string, round: Option<int>,
                           puzzle: Option<int>): Option<BindingRow>
    requires Valid(db) && ValidRevision(db, rev)
  {
    OrElse(RowAt(db, rev, Place(surface, PuzzleScope(IdOrZero(puzzle)))),
           OrElse(RowAt(db, rev, Place(surface, RoundScope(IdOrZero(round)))),
                  RowAt(db, rev, Place(surface, GameScope))))
  }

  predicate IsPublished(db: Tables, game: int, r: int) {
    r in db.revisions && db.revisions[r].game == game && db.revisions[r].status.Published?
  }

  /** The revision a request is for: the previewed one, or the published one of the game. */
  ghost function Selected(db: Tables, game: int, preview: Option<int>): Option<int> {
    match preview
    case Some(r) => if r in db.revisions && db.revisions[r].game == game then Some(r) else None
    case None =>
      if exists r :: IsPublished(db, game, r) then var r :| IsPublished(db, game, r); Some(r) else None
  }

  /** `resolve`. */
  ghost function Resolve(db: Tables, game: int, surface: string, round: Option<int>, puzzle: Option<int>,
                         preview: Option<int>): Option<BindingRow>
    requires Valid(db)
  {
    match Selected(db, game, preview)
    case None => None
    case Some(r) => ResolveIn(db, db.revisions[r], surface, round, puzzle)
  }

  ghost function FeaturesIn(db: Tables, rev: Revision): set<FeatureRow>
    requires Valid(db) && ValidRevision(db, rev)
  {
    set a | a in rev.activations && db.packages[a.package].game == rev.game
            && Effective(db.packages, rev.status, a.package).Some? ::
      FeatureRowOf(db, rev, a)
  }

  ghost function FeatureRowOf(db: Tables, rev: Revision, a: Activation): FeatureRow
    requires Valid(db) && a.package in db.packages && Effective(db.packages, rev.status, a.package).Some?
  {
    ActiveForIs(db.packages, a.package);
    var (e, data, asset) := Details(db, Effective(db.packages, rev.status, a.package).value);
    FeatureRow(rev.number, e, a.feature, data, asset)
  }

  /** `resolve_features`: the rows; their order by package and feature is determined by the set. */
  ghost function ResolveFeatures(db: Tables, game: int, preview: Option<int>): set<FeatureRow>
    requires Valid(db)
  {
    match Selected(db, game, preview)
    case None => {}
    case Some(r) => FeaturesIn(db, db.revisions[r])
  }

  // ----- publishing -----

  /** What publishing makes of a draft's bindings: every reference replaced by the package it stands
      for, and bindings without one dropped. */
  ghost function CleanBindings(db: Tables, bs: map<Place, Binding>): map<Place, Binding>
    requires forall place <- bs :: bs[place].package.Some? ==> bs[place].package.value in db.packages
  {
    map place | place in bs &&
                (bs[place].package.None? || Effective(db.packages, Draft, bs[place].package.value).Some?) ::
      if bs[place].package.None? then bs[place]
      else bs[place].(package := Effective(db.packages, Draft, bs[place].package.value))
  }

  ghost function CleanActivations(db: Tables, acts: set<Activation>): set<Activation>
    requires forall a <- acts :: a.package in db.packages
  {
    set a | a in acts && Effective(db.packages, Draft, a.package).Some? ::
      Activation(Effective(db.packages, Draft, a.package).value, a.feature)
  }

  /** Two activations of one feature on pending packages of one name, not carried by the active one:
      moving both would violate the primary key. */
  ghost predicate Conflicting(db: Tables, acts: set<Activation>)
    requires forall a <- acts :: a.package in db.packages
  {
    exists a <- acts, b <- acts ::
      && a != b && a.feature == b.feature
      && db.packages[a.package].deletePending && db.packages[b.package].deletePending
      && ActiveFor(db.packages, a.package).Some?
      && ActiveFor(db.packages, a.package) == ActiveFor(db.packages, b.package)
      && Activation(ActiveFor(db.packages, a.package).value, a.feature) !in acts
  }

  /** COALESCE(MAX(revision), 0) + 1 is the least number above all of the game's. */
  predicate IsNextNumber(revisions: map<int, Revision>, game: int, n: int) {
    && (forall r <- revisions :: revisions[r].game == game ==> revisions[r].number < n)
    && (n == 1 || exists r <- revisions :: revisions[r].game == game && revisions[r].number == n - 1)
  }

  ghost predicate IsDraftOf(db: Tables, game: int, d: int) {
    d in db.revisions && db.revisions[d].game == game && db.revisions[d].status.Draft?
  }

  /** The tables after a successful publication of draft d with `next` as the new draft's id. */
  ghost predicate IsPublication(db: Tables, after: Tables, game: int, d: int, next: int)
    requires Valid(db) && IsDraftOf(db, game, d)
  {
    var draft := db.revisions[d];
    var bindings, acts := CleanBindings(db, draft.bindings), CleanActivations(db, draft.activations);
    && after.packages == db.packages && after.assets == db.assets
    && d != next && d in after.revisions && next in after.revisions && next !in db.revisions
    && after.revisions[d] == Revision(game, draft.number, Published, bindings, acts)
    && after.revisions[next] == Revision(game, after.revisions[next].number, Draft, bindings, acts)
    && IsNextNumber(after.revisions - {next}, game, after.revisions[next].number)
    && after.revisions.Keys == (set r | r in db.revisions && !IsPublished(db, game, r)) + {next}
    && (forall r <- after.revisions :: r != d && r != next ==> after.revisions[r] == db.revisions[r])
  }

  /** Draft d exists: it did before and nothing changed, or it was made with the published rows. */
  ghost predicate IsEnsured(db: Tables, after: Tables, game: int, freshId: int, d: int) {
    && IsDraftOf(after, game, d)
    && ((exists x :: IsDraftOf(db, game, x)) ==> after == db)
    && ((forall x :: !IsDraftOf(db, game, x)) ==>
          && d == freshId && after == db.(revisions := db.revisions[d := after.revisions[d]])
          && IsNextNumber(db.revisions, game, after.revisions[d].number)
          && (match Selected(db, game, None)
              case None => after.revisions[d].bindings == map[] && after.revisions[d].activations == {}
              case Some(p) =>
                && after.revisions[d].bindings == db.revisions[p].bindings
                && after.revisions[d].activations == db.revisions[p].activations))
  }

  // ----- the publishing statements, one function each -----

  ghost predicate MoveOf(db: Tables, moves: map<int, int>, p: int)
    requires p in db.packages
  {
    if db.packages[p].deletePending && ActiveFor(db.packages, p).Some?
    then p in moves && moves[p] == ActiveFor(db.packages, p).value
    else p !in moves
  }

  ghost predicate AreMoves(db: Tables, moves: map<int, int>) {
    moves.Keys <= db.packages.Keys && forall p <- db.packages :: MoveOf(db, moves, p)
  }

  function Moved(p: int, moves: map<int, int>): int {
    if p in moves then moves[p] else p
  }

  /** UPDATE rb_frontend_binding. */
  function MovedBindings(bs: map<Place, Binding>, moves: map<int, int>): map<Place, Binding> {
    map place | place in bs ::
      if bs[place].package.Some? then bs[place].(package := Some(Moved(bs[place].package.value, moves))) else bs[place]
  }

  /** DELETE activations whose feature the active package already carries. */
  function WithoutCarried(acts: set<Activation>, moves: map<int, int>): set<Activation> {
    set a | a in acts && !(a.package in moves && Activation(moves[a.package], a.feature) in acts)
  }

  /** The UPDATE of activations would make two rows one. */
  predicate Collide(acts: set<Activation>, moves: map<int, int>) {
    exists a, b | a in acts && b in acts ::
      a != b && a.feature == b.feature && a.package in moves && b.package in moves &&
      moves[a.package] == moves[b.package]
  }

  /** UPDATE rb_frontend_feature_activation. */
  function MovedActivations(acts: set<Activation>, moves: map<int, int>): set<Activation> {
    set a | a in acts :: Activation(Moved(a.package, moves), a.feature)
  }

  /** DELETE bindings still on a delete-pending package. */
  function WithoutPendingBindings(bs: map<Place, Binding>, packages: map<int, Package>): map<Place, Binding> {
    map place | place in bs && !(bs[place].package.Some? && bs[place].package.value in packages &&
                                 packages[bs[place].package.value].deletePending) :: bs[place]
  }

  /** DELETE activations still on a delete-pending package. */
  function WithoutPendingActivations(acts: set<Activation>, packages: map<int, Package>): set<Activation> {
    set a | a in acts && !(a.package in packages && packages[a.package].deletePending)
  }

  /** A reference that moves and is then kept unless pending ends where it stands for in a draft. */
  lemma MovedIsEffective(db: Tables, moves: map<int, int>, p: int)
    requires AreMoves(db, moves) && p in db.packages
    ensures Moved(p, moves) in db.packages
    ensures Effective(db.packages, Draft, p) ==
      if db.packages[Moved(p, moves)].deletePending then None else Some(Moved(p, moves))
  {
    assert MoveOf(db, moves, p);
    ActiveForIs(db.packages, p);
  }

  lemma BindingsCleaned(db: Tables, bs: map<Place, Binding>, moves: map<int, int>)
    requires AreMoves(db, moves)
    requires forall place <- bs :: bs[place].package.Some? ==> bs[place].package.value in db.packages
    ensures WithoutPendingBindings(MovedBindings(bs, moves), db.packages) == CleanBindings(db, bs)
  {
    var moved := MovedBindings(bs, moves);
    forall place | place in bs && bs[place].package.Some? { MovedIsEffective(db, moves, bs[place].package.value); }
    var kept, clean := WithoutPendingBindings(moved, db.packages), CleanBindings(db, bs);
    assert kept.Keys == clean.Keys;
    forall place | place in kept ensures kept[place] == clean[place] {}
  }

  lemma ActivationsCleaned(db: Tables, acts: set<Activation>, moves: map<int, int>)
    requires AreMoves(db, moves) && forall a <- acts :: a.package in db.packages
    ensures WithoutPendingActivations(MovedActivations(WithoutCarried(acts, moves), moves), db.packages) ==
      CleanActivations(db, acts)
  {
    var fewer := WithoutCarried(acts, moves);
    var moved := MovedActivations(fewer, moves);
    var kept, clean := WithoutPendingActivations(moved, db.packages), CleanActivations(db, acts);
    forall x | x in kept ensures x in clean {
      var a :| a in fewer && x == Activation(Moved(a.package, moves), a.feature);
      MovedIsEffective(db, moves, a.package);
    }
    forall x | x in clean ensures x in kept {
      var a :| a in acts && Effective(db.packages, Draft, a.package).Some?
        && x == Activation(Effective(db.packages, Draft, a.package).value, a.feature);
      MovedIsEffective(db, moves, a.package);
      if a.package in moves { MovedTwice(db, moves, a.package); }
      if a !in fewer {
        assert x in acts && x in fewer;
        assert x == Activation(Moved(x.package, moves), x.feature);
      }
      assert x in moved;
    }
  }

  lemma MovedTwice(db: Tables, moves: map<int, int>, p: int)
    requires AreMoves(db, moves) && p in moves
    ensures moves[p] in db.packages && moves[p] !in moves
  {
    assert MoveOf(db, moves, p);
    ActiveForIs(db.packages, p);
    assert MoveOf(db, moves, moves[p]);
  }

  lemma CollideIffConflicting(db: Tables, acts: set<Activation>, moves: map<int, int>)
    requires AreMoves(db, moves) && forall a <- acts :: a.package in db.packages
    ensures Collide(WithoutCarried(acts, moves), moves) <==> Conflicting(db, acts)
  {
    forall a <- acts ensures MoveOf(db, moves, a.package) {}
    var fewer := WithoutCarried(acts, moves);
    if Collide(fewer, moves) {
      var a, b :| a in fewer && b in fewer && a != b && a.feature == b.feature
        && a.package in moves && b.package in moves && moves[a.package] == moves[b.package];
      assert Activation(ActiveFor(db.packages, a.package).value, a.feature) !in acts;
    }
    if Conflicting(db, acts) {
      var a, b :| a in acts && b in acts
        && a != b && a.feature == b.feature
        && db.packages[a.package].deletePending && db.packages[b.package].deletePending
        && ActiveFor(db.packages, a.package).Some?
        && ActiveFor(db.packages, a.package) == ActiveFor(db.packages, b.package)
        && Activation(ActiveFor(db.packages, a.package).value, a.feature) !in acts;
      assert a in fewer && b in fewer;
    }
  }

  datatype PublishResult = NoDraft | UniqueViolation | Done(published: int, next: int)

  class FrontendTables {
    var packages: map<int, Package>
    var assets: map<int, Asset>
    var revisions: map<int, Revision>

    function State(): Tables
      reads this
    {
      Tables(packages, assets, revisions)
    }

    constructor (db: Tables)
      ensures State() == db
    {
      packages, assets, revisions := db.packages, db.assets, db.revisions;
    }

    method FindActive(p: int) returns (active: Option<int>)
      requires Valid(State()) && p in packages
      ensures active == ActiveFor(State().packages, p)
    {
      ActiveForIs(State().packages, p);
      var candidates := set q | q in packages && IsActiveFor(State().packages, q, packages[p].game, packages[p].name);
      assert forall q :: IsActiveFor(State().packages, q, packages[p].game, packages[p].name) <==> q in candidates;
      if candidates == {} {
        return None;
      }
      NotEmpty(candidates);
      var q :| q in candidates;
      active := Some(q);
    }

    method NextRevision(game: int) returns (n: int)
      ensures IsNextNumber(revisions, game, n)
    {
      n := 1;
      var rest := revisions.Keys;
      while rest != {}
        invariant rest <= revisions.Keys
        invariant forall r <- revisions :: r !in rest && revisions[r].game == game ==> revisions[r].number < n
        invariant n == 1 || exists r <- revisions :: revisions[r].game == game && revisions[r].number == n - 1
        decreases rest
      {
        NotEmpty(rest);
        var r :| r in rest;
        if revisions[r].game == game && revisions[r].number >= n {
          n := revisions[r].number + 1;
        }
        rest := rest - {r};
      }
    }

    /** For every delete-pending package with an active successor, that successor: the join shared
        by the publishing statements. */
    method Moves() returns (moves: map<int, int>)
      requires Valid(State())
      ensures AreMoves(State(), moves)
    {
      moves := map[];
      var rest := packages.Keys;
      while rest != {}
        invariant rest <= packages.Keys
        invariant moves.Keys <= packages.Keys - rest
        invariant forall p <- packages :: p !in rest ==> MoveOf(State(), moves, p)
        decreases rest
      {
        NotEmpty(rest);
        var p :| p in rest;
        if packages[p].deletePending {
          var a := FindActive(p);
          if a.Some? {
            moves := moves[p := a.value];
          }
        }
        rest := rest - {p};
      }
    }

    /** The five statements on the draft's bindings and activations. */
    method CleanDraft(d: int) returns (bindings: map<Place, Binding>, acts: set<Activation>, conflict: bool)
      requires Valid(State()) && d in revisions
      ensures conflict <==> Conflicting(State(), revisions[d].activations)
      ensures !conflict ==> bindings == CleanBindings(State(), revisions[d].bindings)
      ensures !conflict ==> acts == CleanActivations(State(), revisions[d].activations)
    {
      assert ValidRevision(State(), revisions[d]);
      var moves := Moves();
      bindings := MovedBindings(revisions[d].bindings, moves);
      acts := WithoutCarried(revisions[d].activations, moves);
      conflict := Collide(acts, moves);
      CollideIffConflicting(State(), revisions[d].activations, moves);
      if conflict {
        return;
      }
      acts := MovedActivations(acts, moves);
      bindings := WithoutPendingBindings(bindings, packages);
      acts := WithoutPendingActivations(acts, packages);
      BindingsCleaned(State(), revisions[d].bindings, moves);
      ActivationsCleaned(State(), revisions[d].activations, moves);
    }

    /** `publish`. */
    method Publish(game: int, d: int, freshId: int) returns (r: PublishResult)
      requires Valid(State()) && freshId !in revisions
      modifies this
      ensures r == NoDraft <==> !IsDraftOf(old(State()), game, d)
      ensures r == UniqueViolation <==>
        IsDraftOf(old(State()), game, d) && Conflicting(old(State()), old(revisions)[d].activations)
      ensures !r.Done? ==> State() == old(State())
      ensures r.Done? ==> r == Done(d, freshId) && IsPublication(old(State()), State(), game, d, freshId)
    {
      if !(d in revisions && revisions[d].game == game && revisions[d].status.Draft?) {
        return NoDraft;
      }
      var bindings, acts, conflict := CleanDraft(d);
      if conflict {
        return UniqueViolation;
      }
      var draft := revisions[d];
      var published := set x | x in revisions && IsPublished(State(), game, x);
      revisions := revisions - published;
      revisions := revisions[d := Revision(game, draft.number, Published, bindings, acts)];
      var number := NextRevision(game);
      ghost var before := revisions;
      revisions := revisions[freshId := Revision(game, number, Draft, bindings, acts)];
      assert revisions - {freshId} == before;
      r := Done(d, freshId);
    }

    /** `ensure_draft`: the existing draft, or a new one copied from the published revision. */
    method EnsureDraft(game: int, freshId: int) returns (d: int)
      requires Valid(State()) && freshId !in revisions
      modifies this
      ensures IsEnsured(old(State()), State(), game, freshId, d)
    {
      var drafts := set x | x in revisions && revisions[x].game == game && revisions[x].status.Draft?;
      if drafts != {} {
        NotEmpty(drafts);
        d :| d in drafts;
        assert IsDraftOf(State(), game, d);
        return;
      }
      assert forall x :: IsDraftOf(State(), game, x) ==> x in drafts;
      var number := NextRevision(game);
      var bindings: map<Place, Binding>, acts: set<Activation> := map[], {};
      var published := set x | x in revisions && IsPublished(State(), game, x);
      if published != {} {
        NotEmpty(published);
        var p :| p in published;
        bindings, acts := revisions[p].bindings, revisions[p].activations;
      } else {
        assert forall x :: IsPublished(State(), game, x) ==> x in published;
      }
      d := freshId;
      revisions := revisions[d := Revision(game, number, Draft, bindings, acts)];
    }
  }

  lemma NotEmpty(s: set<int>)
    ensures s == {} || exists x :: x in s
  {
    if forall x :: x !in s { assert s == {}; }
  }

  // ----- publishing preserves meaning -----

  lemma EffectiveIsClean(db: Tables, p: int, s: Status)
    requires p in db.packages && Effective(db.packages, Draft, p).Some?
    ensures
      var e := Effective(db.packages, Draft, p).value;
      && e in db.packages && !db.packages[e].deletePending
      && db.packages[e].game == db.packages[p].game && db.packages[e].name == db.packages[p].name
      && Effective(db.packages, s, e) == Some(e)
  {
    ActiveForIs(db.packages, p);
  }

  /** A revision that carries the cleaned rows of a draft. */
  ghost predicate CarriesClean(db: Tables, draft: Revision, rev: Revision)
    requires ValidRevision(db, draft)
  {
    && rev.game == draft.game
    && rev.bindings == CleanBindings(db, draft.bindings)
    && rev.activations == CleanActivations(db, draft.activations)
  }

  lemma CleanIsValid(db: Tables, draft: Revision, rev: Revision)
    requires ValidRevision(db, draft) && CarriesClean(db, draft, rev)
    ensures ValidRevision(db, rev)
    ensures forall place <- rev.bindings :: rev.bindings[place].package.Some? ==>
      !db.packages[rev.bindings[place].package.value].deletePending
    ensures forall a <- rev.activations :: !db.packages[a.package].deletePending
  {
    forall p | p in db.packages && Effective(db.packages, Draft, p).Some? { EffectiveIsClean(db, p, Draft); }
  }

  function Renumbered(row: Option<BindingRow>, n: int): Option<BindingRow> {
    if row.None? then None else Some(row.value.(revision := n))
  }

  lemma CleanRowAt(db: Tables, draft: Revision, rev: Revision, place: Place)
    requires Valid(db) && ValidRevision(db, draft) && draft.status.Draft? && CarriesClean(db, draft, rev)
    requires ValidRevision(db, rev)
    ensures RowAt(db, rev, place) == Renumbered(RowAt(db, draft, place), rev.number)
  {
    if place in draft.bindings && draft.bindings[place].package.Some? {
      var p := draft.bindings[place].package.value;
      if Effective(db.packages, Draft, p).Some? { EffectiveIsClean(db, p, rev.status); }
    }
  }

  lemma CleanFeatures(db: Tables, draft: Revision, rev: Revision)
    requires Valid(db) && ValidRevision(db, draft) && draft.status.Draft? && CarriesClean(db, draft, rev)
    requires ValidRevision(db, rev)
    ensures FeaturesIn(db, rev) == set row | row in FeaturesIn(db, draft) :: row.(revision := rev.number)
  {
    forall p | p in db.packages && Effective(db.packages, Draft, p).Some? { EffectiveIsClean(db, p, rev.status); }
    forall row | row in FeaturesIn(db, rev)
      ensures exists old_ :: old_ in FeaturesIn(db, draft) && row == old_.(revision := rev.number)
    {
      var b :| b in rev.activations && db.packages[b.package].game == rev.game
        && Effective(db.packages, rev.status, b.package).Some?
        && row == FeatureRowOf(db, rev, b);
      var a :| a in draft.activations && Effective(db.packages, Draft, a.package).Some?
        && b == Activation(Effective(db.packages, Draft, a.package).value, a.feature);
      assert FeatureRowOf(db, draft, a) in FeaturesIn(db, draft);
    }
    forall old_ | old_ in FeaturesIn(db, draft)
      ensures old_.(revision := rev.number) in FeaturesIn(db, rev)
    {
      var a :| a in draft.activations && db.packages[a.package].game == draft.game
        && Effective(db.packages, Draft, a.package).Some?
        && old_ == FeatureRowOf(db, draft, a);
      var b := Activation(Effective(db.packages, Draft, a.package).value, a.feature);
      assert b in rev.activations;
      assert FeatureRowOf(db, rev, b) == old_.(revision := rev.number);
    }
  }

  lemma PublicationValid(db: Tables, after: Tables, game: int, d: int, next: int)
    requires Valid(db) && IsDraftOf(db, game, d) && IsPublication(db, after, game, d, next)
    ensures Valid(after)
    ensures Selected(after, game, None) == Some(d)
  {
    CleanIsValid(db, db.revisions[d], after.revisions[d]);
    CleanIsValid(db, db.revisions[d], after.revisions[next]);
    forall r <- after.revisions ensures ValidRevision(after, after.revisions[r]) {
      if r != d && r != next { assert ValidRevision(db, db.revisions[r]); }
    }
    assert IsPublished(after, game, d);
  }

  lemma SameTables(db: Tables, after: Tables, rev: Revision, place: Place)
    requires Valid(db) && Valid(after) && after.packages == db.packages && after.assets == db.assets
    requires ValidRevision(db, rev)
    ensures ValidRevision(after, rev)
    ensures RowAt(after, rev, place) == RowAt(db, rev, place)
    ensures FeaturesIn(after, rev) == FeaturesIn(db, rev)
  {
    forall row | row in FeaturesIn(db, rev) ensures row in FeaturesIn(after, rev) {
      var a :| a in rev.activations && db.packages[a.package].game == rev.game
        && Effective(db.packages, rev.status, a.package).Some?
        && row == FeatureRowOf(db, rev, a);
      assert row == FeatureRowOf(after, rev, a);
    }
    forall row | row in FeaturesIn(after, rev) ensures row in FeaturesIn(db, rev) {
      var a :| a in rev.activations && after.packages[a.package].game == rev.game
        && Effective(after.packages, rev.status, a.package).Some?
        && row == FeatureRowOf(after, rev, a);
      assert row == FeatureRowOf(db, rev, a);
    }
  }

  /** For every surface, round and puzzle the published revision resolves to exactly what previewing
      the draft gave before, the new draft resolves the same apart from its number, and neither
      refers to a delete-pending package. */
  lemma PublishPreservesMeaning(db: Tables, after: Tables, game: int, d: int, next: int,
                                surface: string, round: Option<int>, puzzle: Option<int>)
    requires Valid(db) && IsDraftOf(db, game, d) && IsPublication(db, after, game, d, next)
    ensures Valid(after)
    ensures Resolve(after, game, surface, round, puzzle, None) == Resolve(db, game, surface, round, puzzle, Some(d))
    ensures Resolve(after, game, surface, round, puzzle, Some(next)) ==
            Renumbered(Resolve(db, game, surface, round, puzzle, Some(d)), after.revisions[next].number)
    ensures ResolveFeatures(after, game, None) == ResolveFeatures(db, game, Some(d))
    ensures ResolveFeatures(after, game, Some(next)) ==
            set row | row in ResolveFeatures(db, game, Some(d)) :: row.(revision := after.revisions[next].number)
    ensures after.revisions[next].number > after.revisions[d].number
  {
    PublicationValid(db, after, game, d, next);
    assert (after.revisions - {next})[d] == after.revisions[d];
    CleanMeaning(db, after, db.revisions[d], after.revisions[d], surface, round, puzzle);
    CleanMeaning(db, after, db.revisions[d], after.revisions[next], surface, round, puzzle);
    UnchangedNumber(FeaturesIn(db, db.revisions[d]), after.revisions[d].number);
  }

  /** A revision with the cleaned rows of a draft shows what the draft shows, under its own number. */
  lemma CleanMeaning(db: Tables, after: Tables, draft: Revision, rev: Revision,
                     surface: string, round: Option<int>, puzzle: Option<int>)
    requires Valid(db) && ValidRevision(db, draft) && draft.status.Draft? && CarriesClean(db, draft, rev)
    requires Valid(after) && after.packages == db.packages && after.assets == db.assets
    ensures ValidRevision(after, rev)
    ensures ResolveIn(after, rev, surface, round, puzzle) ==
            Renumbered(ResolveIn(db, draft, surface, round, puzzle), rev.number)
    ensures FeaturesIn(after, rev) == set row | row in FeaturesIn(db, draft) :: row.(revision := rev.number)
  {
    CleanIsValid(db, draft, rev);
    forall scope: Scope
      ensures RowAt(after, rev, Place(surface, scope)) ==
              Renumbered(RowAt(db, draft, Place(surface, scope)), rev.number)
    {
      CleanRowAt(db, draft, rev, Place(surface, scope));
      SameTables(db, after, rev, Place(surface, scope));
    }
    CleanFeatures(db, draft, rev);
    SameTables(db, after, rev, Place(surface, GameScope));
  }

  lemma UnchangedNumber(rows: set<FeatureRow>, n: int)
    requires forall row <- rows :: row.revision == n
    ensures (set row | row in rows :: row.(revision := n)) == rows
  {
    forall row | row in rows ensures row == row.(revision := n) {}
  }

  /** No row of the published revision or of the new draft names a delete-pending package. */
  lemma PublicationHasNoPending(db: Tables, after: Tables, game: int, d: int, next: int, r: int)
    requires Valid(db) && IsDraftOf(db, game, d) && IsPublication(db, after, game, d, next) && (r == d || r == next)
    ensures forall place <- after.revisions[r].bindings :: after.revisions[r].bindings[place].package.Some? ==>
      !after.packages[after.revisions[r].bindings[place].package.value].deletePending
    ensures forall a <- after.revisions[r].activations :: !after.packages[a.package].deletePending
  {
    CleanIsValid(db, db.revisions[d], after.revisions[r]);
  }

  /** Other games see no difference, whichever revision they ask for. */
  lemma PublishLeavesOtherGames(db: Tables, after: Tables, game: int, d: int, next: int, other: int,
                                surface: string, round: Option<int>, puzzle: Option<int>, preview: Option<int>)
    requires Valid(db) && IsDraftOf(db, game, d) && IsPublication(db, after, game, d, next)
    requires other != game
    ensures Valid(after)
    ensures Resolve(after, other, surface, round, puzzle, preview) ==
            Resolve(db, other, surface, round, puzzle, preview)
    ensures ResolveFeatures(after, other, preview) == ResolveFeatures(db, other, preview)
  {
    PublicationValid(db, after, game, d, next);
    forall r ensures IsPublished(db, other, r) <==> IsPublished(after, other, r) {}
    assert Selected(after, other, preview) == Selected(db, other, preview);
    match Selected(db, other, preview)
    case None =>
    case Some(r) =>
      forall scope: Scope { SameTables(db, after, db.revisions[r], Place(surface, scope)); }
  }

  /** A draft made from the published revision previews like it for a request (apart from the
      number) if and only if what the published revision shows there is not delete-pending. */
  lemma DraftCopyFaithfulIff(db: Tables, pub: Revision, draft: Revision, surface: string, round: Option<int>,
                             puzzle: Option<int>)
    requires Valid(db) && ValidRevision(db, pub) && pub.status.Published?
    requires draft == pub.(number := draft.number, status := Draft)
    ensures ValidRevision(db, draft)
    ensures
      var shown := ResolveIn(db, pub, surface, round, puzzle);
      ResolveIn(db, draft, surface, round, puzzle) == Renumbered(shown, draft.number) <==>
      !(shown.Some? && shown.value.package.Some? && shown.value.package.value.1.deletePending)
  {
    forall p | p in db.packages { ActiveForIs(db.packages, p); }
  }

  /** And it previews the same features if and only if none of those of its game is activated on a
      delete-pending package. */
  lemma DraftCopyFeaturesFaithfulIff(db: Tables, pub: Revision, draft: Revision)
    requires Valid(db) && ValidRevision(db, pub) && pub.status.Published?
    requires draft == pub.(number := draft.number, status := Draft)
    ensures ValidRevision(db, draft)
    ensures
      FeaturesIn(db, draft) == (set row | row in FeaturesIn(db, pub) :: row.(revision := draft.number)) <==>
      forall a <- pub.activations :: db.packages[a.package].game == pub.game ==> !db.packages[a.package].deletePending
  {
    var renumbered := set row | row in FeaturesIn(db, pub) :: row.(revision := draft.number);
    var pending := set a | a in pub.activations && db.packages[a.package].game == pub.game
                           && db.packages[a.package].deletePending;
    if pending == {} {
      forall a <- pub.activations | db.packages[a.package].game == pub.game
        ensures !db.packages[a.package].deletePending
      {
        assert a !in pending;
      }
      forall a <- pub.activations | db.packages[a.package].game == pub.game
        ensures FeatureRowOf(db, draft, a) == FeatureRowOf(db, pub, a).(revision := draft.number)
      {
      }
      SameFeatures(db, pub, draft, renumbered);
    } else {
      var a :| a in pending;
      assert FeatureRowOf(db, pub, a) in FeaturesIn(db, pub);
      assert FeatureRowOf(db, pub, a).(revision := draft.number) in renumbered;
      forall row <- FeaturesIn(db, draft)
        ensures row != FeatureRowOf(db, pub, a).(revision := draft.number)
      {
        var b :| b in draft.activations && Effective(db.packages, Draft, b.package).Some?
          && row == FeatureRowOf(db, draft, b);
        EffectiveIsClean(db, b.package, Draft);
      }
    }
  }

  lemma SameFeatures(db: Tables, pub: Revision, draft: Revision, renumbered: set<FeatureRow>)
    requires Valid(db) && ValidRevision(db, pub) && ValidRevision(db, draft)
    requires pub.status.Published? && draft == pub.(number := draft.number, status := Draft)
    requires renumbered == set row | row in FeaturesIn(db, pub) :: row.(revision := draft.number)
    requires forall a <- pub.activations :: db.packages[a.package].game == pub.game ==>
      !db.packages[a.package].deletePending &&
      FeatureRowOf(db, draft, a) == FeatureRowOf(db, pub, a).(revision := draft.number)
    ensures FeaturesIn(db, draft) == renumbered
  {
    forall row | row in renumbered ensures row in FeaturesIn(db, draft) {
      var old_ :| old_ in FeaturesIn(db, pub) && row == old_.(revision := draft.number);
      var a :| a in pub.activations && db.packages[a.package].game == pub.game && old_ == FeatureRowOf(db, pub, a);
      assert row == FeatureRowOf(db, draft, a);
    }
    forall row | row in FeaturesIn(db, draft) ensures row in renumbered {
      var a :| a in draft.activations && db.packages[a.package].game == draft.game
        && Effective(db.packages, Draft, a.package).Some? && row == FeatureRowOf(db, draft, a);
      assert FeatureRowOf(db, pub, a) in FeaturesIn(db, pub);
    }
  }
}
