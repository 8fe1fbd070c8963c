/** What the players of a game see while the staff work on its packages and draft
    (src/api/admin/frontend.rs:854-1161, 1182-1395, src/db/frontend.rs:598-637, 716-742). */
module FrontendLive {
  import opened Common
  import opened Frontend
  import opened FrontendAdmin

  // ----- nothing refers to another game's packages -----

  predicate RefersWithin(packages: map<int, Package>, rev: Revision) {
    && (forall place <- rev.bindings :: rev.bindings[place].package.Some? ==>
          rev.bindings[place].package.value in packages && packages[rev.bindings[place].package.value].game == rev.game)
    && (forall a <- rev.activations :: a.package in packages && packages[a.package].game == rev.game)
  }

  ghost predicate WithinGames(db: Tables) {
    forall r <- db.revisions :: RefersWithin(db.packages, db.revisions[r])
  }

  /** What the handlers have checked before: the package of an activation is one of the draft's game; and each
      upload stores its files as a new asset group. */
  predicate Checked(db: Tables, e: Event) {
    match e
    case InsertActivation(r, p, _) =>
      r in db.revisions && p in db.packages ==> db.packages[p].game == db.revisions[r].game
    case UploadPackage(u) => u.assetGroup !in db.assets
    case _ => true
  }

  lemma SameGamesKeep(packages: map<int, Package>, after: map<int, Package>, rev: Revision)
    requires RefersWithin(packages, rev)
    requires forall p <- packages :: p in after ==> after[p].game == packages[p].game
    requires forall p <- packages :: RefersTo(rev, p) ==> p in after
    ensures RefersWithin(after, rev)
  {
    forall place | place in rev.bindings && rev.bindings[place].package.Some?
      ensures RefersTo(rev, rev.bindings[place].package.value)
    {
    }
    forall a | a in rev.activations ensures RefersTo(rev, a.package) {}
  }

  lemma UploadWithin(db: Tables, u: Upload, id: int)
    requires Valid(db) && WithinGames(db) && IsUploadId(db, u, id)
    ensures WithinGames(Uploaded(db, u, id))
  {
    var after := Uploaded(db, u, id);
    UploadKeepsNames(db, u, id);
    forall r | r in after.revisions
      ensures RefersWithin(after.packages, after.revisions[r])
    {
      assert RefersWithin(db.packages, db.revisions[r]);
      SameGamesKeep(db.packages, after.packages, db.revisions[r]);
    }
  }

  lemma CleanWithin(db: Tables, draft: Revision, rev: Revision)
    requires ValidRevision(db, draft) && RefersWithin(db.packages, draft) && CarriesClean(db, draft, rev)
    ensures RefersWithin(db.packages, rev)
  {
    forall p | p in db.packages && Effective(db.packages, Draft, p).Some? { EffectiveIsClean(db, p, Draft); }
  }

  lemma PublishWithin(db: Tables, after: Tables, game: int, d: int, next: int)
    requires Valid(db) && WithinGames(db) && IsDraftOf(db, game, d) && IsPublication(db, after, game, d, next)
    ensures WithinGames(after)
  {
    assert RefersWithin(db.packages, db.revisions[d]);
    CleanWithin(db, db.revisions[d], after.revisions[d]);
    CleanWithin(db, db.revisions[d], after.revisions[next]);
    forall r | r in after.revisions && r != d && r != next
      ensures RefersWithin(after.packages, after.revisions[r])
    {
      assert RefersWithin(db.packages, db.revisions[r]);
    }
  }

  lemma OpenDraftWithin(db: Tables, after: Tables, game: int, freshId: int, d: int)
    requires Valid(db) && WithinGames(db) && freshId !in db.revisions && IsEnsured(db, after, game, freshId, d)
    ensures WithinGames(after)
  {
    if forall x :: !IsDraftOf(db, game, x) {
      forall r | r in after.revisions
        ensures RefersWithin(after.packages, after.revisions[r])
      {
        if r != d {
          assert RefersWithin(db.packages, db.revisions[r]);
        } else if Selected(db, game, None).Some? {
          assert RefersWithin(db.packages, db.revisions[Selected(db, game, None).value]);
        }
      }
    }
  }

  lemma RevisionStepWithin(db: Tables, e: Event, after: Tables)
    requires Valid(db) && WithinGames(db) && Step(db, e, after) && Checked(db, e)
    requires !e.UploadPackage? && !e.OpenDraft? && !e.PublishDraft?
    ensures WithinGames(after)
  {
    forall r | r in after.revisions
      ensures RefersWithin(after.packages, after.revisions[r])
    {
      assert RefersWithin(db.packages, db.revisions[r]);
    }
  }

  lemma StepKeepsWithin(db: Tables, e: Event, after: Tables)
    requires Invariant(db) && WithinGames(db) && Step(db, e, after) && Checked(db, e)
    ensures WithinGames(after)
  {
    match e
    case UploadPackage(u) =>
      var id :| IsUploadId(db, u, id) && after == if AnyUploadCollides(db, u, id) then db else Uploaded(db, u, id);
      UploadWithin(db, u, id);
    case OpenDraft(game, d, freshId) => OpenDraftWithin(db, after, game, freshId, d);
    case PublishDraft(game, d, freshId) =>
      if IsDraftOf(db, game, d) && !Conflicting(db, db.revisions[d].activations) {
        PublishWithin(db, after, game, d, freshId);
      }
    case _ => RevisionStepWithin(db, e, after);
  }

  // ----- the published revision is left alone -----

  /** Not a publication, and not a statement of a save that reaches its revision only after it was published. */
  predicate LeavesPublished(db: Tables, e: Event) {
    match e
    case PublishDraft(_, _, _) => false
    case ClearPending(r, _) => r in db.revisions ==> db.revisions[r].status.Draft?
    case InsertActivation(r, _, _) => r in db.revisions ==> db.revisions[r].status.Draft?
    case RemoveActivation(r, _, _) => r in db.revisions ==> db.revisions[r].status.Draft?
    case _ => true
  }

  /** The same package but perhaps for the mark that it is to be deleted. */
  predicate SamePackage(a: Package, b: Package) {
    a.game == b.game && a.name == b.name && a.assetGroup == b.assetGroup && a.content == b.content
  }

  ghost predicate SamePackages(db: Tables, after: Tables, rev: Revision) {
    forall p <- db.packages :: RefersTo(rev, p) ==>
      && p in after.packages && SamePackage(db.packages[p], after.packages[p])
      && (db.packages[p].assetGroup in db.assets ==>
            after.packages[p].assetGroup in after.assets
            && after.assets[after.packages[p].assetGroup] == db.assets[db.packages[p].assetGroup])
  }

  /** The published revisions are the same ones, with the same rows, and the packages they name too. */
  ghost predicate PublishedKept(db: Tables, after: Tables) {
    && (forall r <- db.revisions :: db.revisions[r].status.Published? ==>
          r in after.revisions && after.revisions[r] == db.revisions[r] && SamePackages(db, after, db.revisions[r]))
    && (forall r <- after.revisions :: after.revisions[r].status.Published? ==>
          r in db.revisions && db.revisions[r].status.Published?)
  }

  lemma UploadLeavesPublished(db: Tables, u: Upload, id: int)
    requires Valid(db) && WithinGames(db) && IsUploadId(db, u, id) && u.assetGroup !in db.assets
    ensures PublishedKept(db, Uploaded(db, u, id))
  {
    var after := Uploaded(db, u, id);
    forall r | r in db.revisions && db.revisions[r].status.Published?
      ensures SamePackages(db, after, db.revisions[r])
    {
      assert RefersWithin(db.packages, db.revisions[r]);
      if Replaces(db, u, id) && RefersTo(db.revisions[r], id) {
        assert IsPublished(db, u.game, r);
        assert false;
      }
    }
  }

  lemma DeleteLeavesPublished(db: Tables, game: int, p: int)
    requires Valid(db) && WithinGames(db)
    ensures PublishedKept(db, Deleted(db, game, p))
  {
    var after := Deleted(db, game, p);
    forall r | r in db.revisions && db.revisions[r].status.Published?
      ensures after.revisions[r] == db.revisions[r]
    {
      assert RefersWithin(db.packages, db.revisions[r]);
      if p in db.packages && db.packages[p].game == game && !PublishedRefersTo(db, game, p) {
        if db.revisions[r].game == game { assert IsPublished(db, game, r); }
        assert !RefersTo(db.revisions[r], p);
        assert WithoutPackage(db.revisions[r], p) == db.revisions[r];
      }
    }
  }

  lemma BindingStepLeavesPublished(db: Tables, e: Event, after: Tables)
    requires Invariant(db) && Step(db, e, after) && (e.SaveBinding? || e.RemoveBinding?)
    ensures PublishedKept(db, after)
  {
    assert after.packages == db.packages && after.assets == db.assets;
  }

  lemma ActivationStepLeavesPublished(db: Tables, e: Event, after: Tables)
    requires Invariant(db) && Step(db, e, after) && LeavesPublished(db, e)
    requires e.ClearPending? || e.InsertActivation? || e.RemoveActivation?
    ensures PublishedKept(db, after)
  {
    assert after.packages == db.packages && after.assets == db.assets;
  }

  lemma OpenDraftLeavesPublished(db: Tables, e: Event, after: Tables)
    requires Invariant(db) && Step(db, e, after) && e.OpenDraft?
    ensures PublishedKept(db, after)
  {
    assert after.packages == db.packages && after.assets == db.assets;
  }

  lemma PackageStepLeavesPublished(db: Tables, e: Event, after: Tables)
    requires Invariant(db) && Step(db, e, after) && (e.PurgePackage? || e.RestorePackage?)
    ensures PublishedKept(db, after)
  {
    assert after.revisions == db.revisions && after.assets == db.assets;
  }

  lemma StepLeavesPublished(db: Tables, e: Event, after: Tables)
    requires Invariant(db) && WithinGames(db) && Step(db, e, after) && Checked(db, e) && LeavesPublished(db, e)
    ensures PublishedKept(db, after)
  {
    match e
    case UploadPackage(u) =>
      var id :| IsUploadId(db, u, id) && after == if AnyUploadCollides(db, u, id) then db else Uploaded(db, u, id);
      UploadNeverCollides(db, u, id);
      UploadLeavesPublished(db, u, id);
    case DeletePackage(game, p) => DeleteLeavesPublished(db, game, p);
    case PurgePackage(_) => PackageStepLeavesPublished(db, e, after);
    case RestorePackage(_, _) => PackageStepLeavesPublished(db, e, after);
    case OpenDraft(_, _, _) => OpenDraftLeavesPublished(db, e, after);
    case SaveBinding(_, _, _, _) => BindingStepLeavesPublished(db, e, after);
    case RemoveBinding(_, _) => BindingStepLeavesPublished(db, e, after);
    case _ => ActivationStepLeavesPublished(db, e, after);
  }

  // ----- what players see -----

  ghost predicate SameRow(a: Option<BindingRow>, b: Option<BindingRow>) {
    && a.Some? == b.Some?
    && (a.Some? ==>
          && a.value.revision == b.value.revision && a.value.renderer == b.value.renderer
          && a.value.package.Some? == b.value.package.Some?
          && (a.value.package.Some? ==>
                && a.value.package.value.0 == b.value.package.value.0
                && SamePackage(a.value.package.value.1, b.value.package.value.1)
                && a.value.package.value.2 == b.value.package.value.2))
  }

  predicate SameFeature(a: FeatureRow, b: FeatureRow) {
    && a.revision == b.revision && a.package == b.package && a.feature == b.feature && a.asset == b.asset
    && SamePackage(a.data, b.data)
  }

  predicate IsAmong(x: FeatureRow, rows: set<FeatureRow>) {
    exists y <- rows :: SameFeature(x, y)
  }

  predicate SameFeatureRows(a: set<FeatureRow>, b: set<FeatureRow>) {
    (forall x <- a :: IsAmong(x, b)) && (forall y <- b :: IsAmong(y, a))
  }

  /** Whatever a player of the game asks for is answered alike. */
  ghost predicate SeenAlike(db: Tables, after: Tables, game: int)
    requires Valid(db) && Valid(after)
  {
    && (forall surface, round, puzzle ::
          SameRow(Resolve(db, game, surface, round, puzzle, None), Resolve(after, game, surface, round, puzzle, None)))
    && SameFeatureRows(ResolveFeatures(db, game, None), ResolveFeatures(after, game, None))
  }

  lemma KeptRowAt(db: Tables, after: Tables, rev: Revision, place: Place)
    requires Valid(db) && Valid(after) && ValidRevision(db, rev) && ValidRevision(after, rev) && rev.status.Published?
    requires SamePackages(db, after, rev)
    ensures SameRow(RowAt(db, rev, place), RowAt(after, rev, place))
  {
    if place in rev.bindings && rev.bindings[place].package.Some? {
      assert RefersTo(rev, rev.bindings[place].package.value);
    }
  }

  lemma KeptFeatures(db: Tables, after: Tables, rev: Revision)
    requires Valid(db) && Valid(after) && ValidRevision(db, rev) && ValidRevision(after, rev) && rev.status.Published?
    requires SamePackages(db, after, rev)
    ensures SameFeatureRows(FeaturesIn(db, rev), FeaturesIn(after, rev))
  {
    forall a | a in rev.activations && db.packages[a.package].game == rev.game
      ensures after.packages[a.package].game == rev.game
      ensures SameFeature(FeatureRowOf(db, rev, a), FeatureRowOf(after, rev, a))
    {
      assert RefersTo(rev, a.package);
    }
    forall a | a in rev.activations && after.packages[a.package].game == rev.game
      ensures db.packages[a.package].game == rev.game
    {
      assert RefersTo(rev, a.package);
    }
    forall x | x in FeaturesIn(db, rev)
      ensures IsAmong(x, FeaturesIn(after, rev))
    {
      var a :| a in rev.activations && db.packages[a.package].game == rev.game && x == FeatureRowOf(db, rev, a);
      assert FeatureRowOf(after, rev, a) in FeaturesIn(after, rev);
    }
    forall y | y in FeaturesIn(after, rev)
      ensures IsAmong(y, FeaturesIn(db, rev))
    {
      var a :| a in rev.activations && after.packages[a.package].game == rev.game && y == FeatureRowOf(after, rev, a);
      assert FeatureRowOf(db, rev, a) in FeaturesIn(db, rev);
    }
  }

  lemma KeptIsSeenAlike(db: Tables, after: Tables, game: int)
    requires Valid(db) && Valid(after) && PublishedKept(db, after)
    ensures SeenAlike(db, after, game)
  {
    if r :| IsPublished(db, game, r) {
      var rev := db.revisions[r];
      assert IsPublished(after, game, r);
      assert ValidRevision(db, rev) && ValidRevision(after, rev);
      assert Selected(db, game, None) == Some(r) && Selected(after, game, None) == Some(r);
      forall place { KeptRowAt(db, after, rev, place); }
      KeptFeatures(db, after, rev);
    } else {
      forall r ensures !IsPublished(after, game, r) {
        assert r in db.revisions && db.revisions[r].status.Published? ==> !IsPublished(db, game, r);
      }
      assert Selected(db, game, None).None? && Selected(after, game, None).None?;
    }
  }

  lemma SeenAlikeTransitive(a: Tables, b: Tables, c: Tables, game: int)
    requires Valid(a) && Valid(b) && Valid(c) && SeenAlike(a, b, game) && SeenAlike(b, c, game)
    ensures SeenAlike(a, c, game)
  {
    forall surface, round, puzzle
      ensures SameRow(Resolve(a, game, surface, round, puzzle, None), Resolve(c, game, surface, round, puzzle, None))
    {
      assert SameRow(Resolve(a, game, surface, round, puzzle, None), Resolve(b, game, surface, round, puzzle, None));
      assert SameRow(Resolve(b, game, surface, round, puzzle, None), Resolve(c, game, surface, round, puzzle, None));
    }
    FeatureRowsTransitive(ResolveFeatures(a, game, None), ResolveFeatures(b, game, None),
                          ResolveFeatures(c, game, None));
  }

  lemma FeatureRowsTransitive(a: set<FeatureRow>, b: set<FeatureRow>, c: set<FeatureRow>)
    requires SameFeatureRows(a, b) && SameFeatureRows(b, c)
    ensures SameFeatureRows(a, c)
  {
    forall x | x in a ensures IsAmong(x, c) { AmongTransitive(x, b, c); }
    forall z | z in c ensures IsAmong(z, a) { AmongTransitive(z, b, a); }
  }

  lemma AmongTransitive(x: FeatureRow, b: set<FeatureRow>, c: set<FeatureRow>)
    requires IsAmong(x, b) && forall y <- b :: IsAmong(y, c)
    ensures IsAmong(x, c)
  {
    var y :| y in b && SameFeature(x, y);
    assert IsAmong(y, c);
    var z :| z in c && SameFeature(y, z);
    assert SameFeature(x, z);
  }

  // ----- runs -----

  ghost predicate GoodRun(states: seq<Tables>, events: seq<Event>) {
    && IsRun(states, events) && TimelyRun(states, events)
    && forall i :: 0 <= i < |events| ==> Checked(states[i], events[i])
  }

  lemma {:induction false} RunKeepsWithin(states: seq<Tables>, events: seq<Event>, n: nat)
    requires GoodRun(states, events) && n < |states|
    ensures Invariant(states[n]) && WithinGames(states[n])
  {
    RunKeepsInvariant(states, events, n);
    if n > 0 {
      RunKeepsWithin(states, events, n - 1);
      assert Step(states[n - 1], events[n - 1], states[n]) && Checked(states[n - 1], events[n - 1]);
      StepKeepsWithin(states[n - 1], events[n - 1], states[n]);
    }
  }

  lemma StepIsUnseen(states: seq<Tables>, events: seq<Event>, n: nat, game: int)
    requires GoodRun(states, events) && n < |events| && LeavesPublished(states[n], events[n])
    ensures Valid(states[n]) && Valid(states[n + 1]) && SeenAlike(states[n], states[n + 1], game)
  {
    RunKeepsWithin(states, events, n);
    RunKeepsWithin(states, events, n + 1);
    assert Step(states[n], events[n], states[n + 1]) && Checked(states[n], events[n]);
    StepLeavesPublished(states[n], events[n], states[n + 1]);
    KeptIsSeenAlike(states[n], states[n + 1], game);
  }

  ghost predicate NoPublication(states: seq<Tables>, events: seq<Event>, m: nat, n: nat)
    requires n <= |states| && n <= |events|
  {
    forall i :: m <= i < n ==> LeavesPublished(states[i], events[i])
  }

  /** From one publication to the next, no upload, deletion, purge, restoration or change of the draft is seen by
      a player of any game: the same packages, files, renderers and features are shown. */
  lemma {:induction false} StaffWorkIsUnseen(states: seq<Tables>, events: seq<Event>, m: nat, n: nat, game: int)
    requires GoodRun(states, events) && m <= n < |states| && NoPublication(states, events, m, n)
    ensures Valid(states[m]) && Valid(states[n]) && SeenAlike(states[m], states[n], game)
    decreases n - m
  {
    if m == n {
      RunKeepsWithin(states, events, m);
      SeenAlikeReflexive(states[m], game);
    } else {
      StaffWorkIsUnseen(states, events, m, n - 1, game);
      assert LeavesPublished(states[n - 1], events[n - 1]);
      StepIsUnseen(states, events, n - 1, game);
      SeenAlikeTransitive(states[m], states[n - 1], states[n], game);
    }
  }

  lemma SeenAlikeReflexive(db: Tables, game: int)
    requires Valid(db)
    ensures SeenAlike(db, db, game)
  {
  }

  // ----- what the draft shows -----

  /** Which package an upload becomes: the active one of its name, if the published revision does not name that,
      and else a new one. */
  lemma UploadIdMeaning(db: Tables, u: Upload, id: int)
    requires Invariant(db) && u.freshId !in db.packages
    ensures (exists p :: IsActiveFor(db.packages, p, u.game, u.name)) ==>
      var p :| IsActiveFor(db.packages, p, u.game, u.name);
      var named := exists r :: IsPublished(db, u.game, r) && RefersTo(db.revisions[r], p);
      IsUploadId(db, u, id) <==> id == if named then u.freshId else p
    ensures (forall p :: !IsActiveFor(db.packages, p, u.game, u.name)) ==> (IsUploadId(db, u, id) <==> id == u.freshId)
  {
    forall r, p | IsPublished(db, u.game, r) && RefersTo(db.revisions[r], p) ensures PublishedRefersTo(db, u.game, p) {
      assert r in db.revisions;
    }
    if p :| IsActiveFor(db.packages, p, u.game, u.name) {
      forall q | IsActiveFor(db.packages, q, u.game, u.name) ensures q == p {}
      assert Replaces(db, u, p) <==> !PublishedRefersTo(db, u.game, p);
    }
  }

  /** The packages after an upload: it is the active one of its name, the one it succeeds without replacing it is
      to be deleted, and the others are as they were; its files are stored under its asset group. */
  lemma UploadMeaning(db: Tables, u: Upload, id: int, p: int)
    requires Invariant(db) && IsUploadId(db, u, id)
    ensures
      var after := Uploaded(db, u, id);
      && after.packages.Keys == db.packages.Keys + {id}
      && after.packages[id] == Package(u.game, u.name, false, u.assetGroup, u.content)
      && after.assets == db.assets[u.assetGroup := u.asset]
      && (p in db.packages && p != id ==>
            after.packages[p] ==
              if db.packages[p].game == u.game && db.packages[p].name == u.name
              then db.packages[p].(deletePending := true)
              else db.packages[p])
  {
  }

  /** Some activation of the feature is on a package of the upload's name. */
  predicate CarriedByName(acts: set<Activation>, packages: map<int, Package>, u: Upload, f: FrontendFeature) {
    exists a <- acts :: a.feature == f && OnName(packages, a.package, u.game, u.name)
  }

  /** Draft activations on the name move to the upload if it has the feature, and go otherwise; others stay. */
  lemma UploadActivations(db: Tables, u: Upload, id: int, d: int, a: Activation)
    requires Invariant(db) && IsUploadId(db, u, id) && IsDraftOf(db, u.game, d)
    ensures
      var was, acts := db.revisions[d].activations, Uploaded(db, u, id).revisions[d].activations;
      a in acts <==>
        if a.package == id
        then a.feature in u.features && CarriedByName(was, db.packages, u, a.feature)
        else a in was && !(db.packages[a.package].game == u.game && db.packages[a.package].name == u.name)
  {
    assert ValidRevision(db, db.revisions[d]);
    UploadKeepsNames(db, u, id);
    var was, packages := db.revisions[d].activations, PackagesAfterUpload(db, u, id);
    forall b <- was
      ensures OnName(packages, b.package, u.game, u.name) <==>
        db.packages[b.package].game == u.game && db.packages[b.package].name == u.name
    {
    }
    ReboundMeaning(was, packages, u, id, a);
  }

  lemma ReboundMeaning(acts: set<Activation>, packages: map<int, Package>, u: Upload, id: int, a: Activation)
    requires OnName(packages, id, u.game, u.name)
    ensures a in ReboundActivations(acts, packages, u, id) <==>
      if a.package == id
      then a.feature in u.features && CarriedByName(acts, packages, u, a.feature)
      else a in acts && !OnName(packages, a.package, u.game, u.name)
  {
    if a.package == id && a.feature in u.features {
      if b :| b in acts && b.feature == a.feature && OnName(packages, b.package, u.game, u.name) {
        assert b in KeptActivations(acts, packages, u) && a == Activation(id, b.feature);
      }
    }
  }

  predicate Carries(acts: set<Activation>, packages: map<int, Package>, u: Upload, p: int, f: FrontendFeature) {
    Activation(p, f) in acts && OnName(packages, p, u.game, u.name)
  }

  /** The upload fails on them exactly if two that move end in one row. */
  lemma UploadCollidesIff(acts: set<Activation>, packages: map<int, Package>, u: Upload)
    ensures UploadCollides(acts, packages, u) <==>
      exists p, q, f ::
        p != q && f in u.features && Carries(acts, packages, u, p, f) && Carries(acts, packages, u, q, f)
  {
    if UploadCollides(acts, packages, u) {
      var a, b :| a in KeptActivations(acts, packages, u) && b in KeptActivations(acts, packages, u)
        && a != b && a.feature == b.feature
        && OnName(packages, a.package, u.game, u.name) && OnName(packages, b.package, u.game, u.name);
      assert Carries(acts, packages, u, a.package, a.feature) && Carries(acts, packages, u, b.package, a.feature);
    }
    if p, q, f :| p != q && f in u.features && Carries(acts, packages, u, p, f) && Carries(acts, packages, u, q, f) {
      assert Activation(p, f) in KeptActivations(acts, packages, u);
      assert Activation(q, f) in KeptActivations(acts, packages, u);
    }
  }

  /** After an upload a binding of the draft on a package of its name shows the upload, if that has the
      renderer, and is gone otherwise; every other binding is as it was. */
  lemma UploadInDraft(db: Tables, u: Upload, id: int, d: int, place: Place)
    requires Invariant(db) && IsUploadId(db, u, id) && IsDraftOf(db, u.game, d) && place in db.revisions[d].bindings
    ensures
      var b, after := db.revisions[d].bindings[place], Uploaded(db, u, id);
      var ofName := b.package.Some? && b.package.value in db.packages
        && db.packages[b.package.value].game == u.game && db.packages[b.package.value].name == u.name;
      var offered := b.renderer.Some? && (place.surface, b.renderer.value) in u.renderers;
      && Valid(after) && IsDraftOf(after, u.game, d)
      && (!ofName ==> place in after.revisions[d].bindings && after.revisions[d].bindings[place] == b)
      && (ofName && !offered ==> place !in after.revisions[d].bindings)
      && (ofName && offered ==>
            var data := Package(u.game, u.name, false, u.assetGroup, u.content);
            RowAt(after, after.revisions[d], place) ==
              Some(BindingRow(db.revisions[d].number, Some((id, data, u.asset)), b.renderer)))
  {
    UploadKeeps(db, u, id);
    UploadKeepsNames(db, u, id);
    assert ValidRevision(db, db.revisions[d]);
    var after := Uploaded(db, u, id);
    assert ValidRevision(after, after.revisions[d]);
  }

  /** A saved binding is shown by the draft at once, if it names no package or an active one of the game;
      otherwise nothing is saved. Every other place stays. */
  lemma SaveInDraft(db: Tables, game: int, p: Option<int>, place: Place, renderer: Option<string>, d: int, other: Place)
    requires Invariant(db) && IsDraftOf(db, game, d)
    ensures
      var after := BindingSaved(db, game, p, place, renderer);
      var usable := p.Some? ==> p.value in db.packages && db.packages[p.value].game == game
                                && !db.packages[p.value].deletePending;
      if !usable then after == db
      else
        && Valid(after) && IsDraftOf(after, game, d)
        && RowAt(after, after.revisions[d], place) ==
             Some(BindingRow(db.revisions[d].number, if p.Some? then Some(Details(db, p.value)) else None, renderer))
        && (other != place ==> RowAt(after, after.revisions[d], other) == RowAt(db, db.revisions[d], other))
  {
    BindingStepKeeps(db, SaveBinding(game, p, place, renderer), BindingSaved(db, game, p, place, renderer));
    assert ValidRevision(db, db.revisions[d]);
    var after := BindingSaved(db, game, p, place, renderer);
    assert ValidRevision(after, after.revisions[d]);
  }

  /** Deleting marks a package that the published revision names; of any other it removes every reference, so
      that the purge which follows removes the package itself. */
  lemma DeleteMeaning(db: Tables, game: int, p: int)
    requires Invariant(db) && p in db.packages && db.packages[p].game == game
    ensures
      var after := Deleted(db, game, p);
      if exists r :: IsPublished(db, game, r) && RefersTo(db.revisions[r], p)
      then after == db.(packages := db.packages[p := db.packages[p].(deletePending := true)])
      else
        && after.packages == db.packages
        && (forall r <- after.revisions :: !RefersTo(after.revisions[r], p))
        && Purged(after, p) == after.(packages := after.packages - {p})
  {
    forall r | IsPublished(db, game, r) && RefersTo(db.revisions[r], p) ensures PublishedRefersTo(db, game, p) {
      assert r in db.revisions;
    }
  }

  /** A package comes back exactly if it is marked and no other of its name is active. */
  lemma RestoreMeaning(db: Tables, game: int, p: int)
    requires Invariant(db) && p in db.packages && db.packages[p].game == game
    ensures
      var after := Restored(db, game, p);
      if db.packages[p].deletePending
         && forall q <- db.packages :: db.packages[q].game == game && db.packages[q].name == db.packages[p].name ==>
              db.packages[q].deletePending
      then after == db.(packages := db.packages[p := db.packages[p].(deletePending := false)])
      else after == db
  {
    assert forall q :: IsActiveFor(db.packages, q, game, db.packages[p].name) <==>
      q in db.packages && db.packages[q].game == game && db.packages[q].name == db.packages[p].name
      && !db.packages[q].deletePending;
  }
}
