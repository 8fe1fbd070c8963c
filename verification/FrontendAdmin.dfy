/** What the staff do with packages and drafts, and why publishing never meets two activations to merge
    (src/api/admin/frontend.rs:854-1161, 1182-1395). */
module FrontendAdmin {
  import opened Common
  import opened Frontend

  /** An uploaded package: its features, and the renderers it has for each surface. */
  datatype Upload = Upload(
    game: int,
    name: string,
    content: string,
    features: set<FrontendFeature>,
    renderers: set<(string, string)>,
    assetGroup: int,
    asset: Asset,
    freshId: int
  )

  /** Each request of the staff as one step, but for saving an activation: a check of the package, then one
      statement that clears and one that inserts or removes, for the draft and package of the check. */
  datatype Event =
    | UploadPackage(upload: Upload)
    | DeletePackage(game: int, package: int)
    | PurgePackage(package: int)
    | RestorePackage(game: int, package: int)
    | SaveBinding(game: int, target: Option<int>, place: Place, renderer: Option<string>)
    | RemoveBinding(game: int, place: Place)
    | ClearPending(revision: int, package: int)
    | InsertActivation(revision: int, package: int, feature: FrontendFeature)
    | RemoveActivation(revision: int, package: int, feature: FrontendFeature)
    | OpenDraft(game: int, draft: int, freshId: int)
    | PublishDraft(game: int, draft: int, freshId: int)

  predicate OnName(packages: map<int, Package>, p: int, game: int, name: string) {
    p in packages && packages[p].game == game && packages[p].name == name
  }

  predicate RefersTo(rev: Revision, p: int) {
    || (exists place <- rev.bindings :: rev.bindings[place].package == Some(p))
    || (exists a <- rev.activations :: a.package == p)
  }

  predicate PublishedRefersTo(db: Tables, game: int, p: int) {
    exists r <- db.revisions :: IsPublished(db, game, r) && RefersTo(db.revisions[r], p)
  }

  /** Changes the draft of a game. */
  function OnDraft(db: Tables, game: int, change: Revision -> Revision): Tables {
    db.(revisions := map r | r in db.revisions ::
      if db.revisions[r].game == game && db.revisions[r].status.Draft?
      then change(db.revisions[r])
      else db.revisions[r])
  }

  // ----- uploading -----

  /** The active package of the name makes room: replaced in place, unless the published revision
      refers to it; then it is kept, pending deletion, and the upload is a new package. */
  ghost predicate Replaces(db: Tables, u: Upload, id: int) {
    IsActiveFor(db.packages, id, u.game, u.name) && !PublishedRefersTo(db, u.game, id)
  }

  ghost predicate IsUploadId(db: Tables, u: Upload, id: int) {
    || Replaces(db, u, id)
    || (id == u.freshId && u.freshId !in db.packages && forall p <- db.packages :: !Replaces(db, u, p))
  }

  function PackagesAfterUpload(db: Tables, u: Upload, id: int): map<int, Package> {
    (map p | p in db.packages ::
      if IsActiveFor(db.packages, p, u.game, u.name) && p != id
      then db.packages[p].(deletePending := true)
      else db.packages[p])
    [id := Package(u.game, u.name, false, u.assetGroup, u.content)]
  }

  /** Draft bindings of the name move to the upload if it has their renderer, and go otherwise. */
  function ReboundBindings(bs: map<Place, Binding>, packages: map<int, Package>, u: Upload, id: int)
    : map<Place, Binding>
  {
    map place | place in bs && (BoundTo(bs[place], packages, u) ==> HasRenderer(u, place, bs[place])) ::
      if BoundTo(bs[place], packages, u) then bs[place].(package := Some(id)) else bs[place]
  }

  predicate HasRenderer(u: Upload, place: Place, b: Binding) {
    b.renderer.Some? && (place.surface, b.renderer.value) in u.renderers
  }

  predicate BoundTo(b: Binding, packages: map<int, Package>, u: Upload) {
    b.package.Some? && OnName(packages, b.package.value, u.game, u.name)
  }

  /** Draft activations of the name move to the upload if it has the feature, and go otherwise. */
  function KeptActivations(acts: set<Activation>, packages: map<int, Package>, u: Upload): set<Activation> {
    set a | a in acts && (OnName(packages, a.package, u.game, u.name) ==> a.feature in u.features)
  }

  function ReboundActivations(acts: set<Activation>, packages: map<int, Package>, u: Upload, id: int): set<Activation> {
    set a | a in KeptActivations(acts, packages, u) ::
      if OnName(packages, a.package, u.game, u.name) then Activation(id, a.feature) else a
  }

  /** Moving them would make two rows one, which fails the whole upload. */
  predicate UploadCollides(acts: set<Activation>, packages: map<int, Package>, u: Upload) {
    exists a, b | a in KeptActivations(acts, packages, u) && b in KeptActivations(acts, packages, u) ::
      && a != b && a.feature == b.feature
      && OnName(packages, a.package, u.game, u.name) && OnName(packages, b.package, u.game, u.name)
  }

  function Uploaded(db: Tables, u: Upload, id: int): Tables {
    var packages := PackagesAfterUpload(db, u, id);
    OnDraft(Tables(packages, db.assets[u.assetGroup := u.asset], db.revisions), u.game,
            (rev: Revision) => rev.(bindings := ReboundBindings(rev.bindings, packages, u, id),
                                    activations := ReboundActivations(rev.activations, packages, u, id)))
  }

  predicate AnyUploadCollides(db: Tables, u: Upload, id: int) {
    exists r <- db.revisions :: db.revisions[r].game == u.game && db.revisions[r].status.Draft? &&
      UploadCollides(db.revisions[r].activations, PackagesAfterUpload(db, u, id), u)
  }

  // ----- the other handlers -----

  function WithoutPackage(rev: Revision, p: int): Revision {
    rev.(bindings := map place | place in rev.bindings && rev.bindings[place].package != Some(p) :: rev.bindings[place],
         activations := set a | a in rev.activations && a.package != p)
  }

  function Deleted(db: Tables, game: int, p: int): Tables {
    if !(p in db.packages && db.packages[p].game == game) then db
    else if PublishedRefersTo(db, game, p) then
      db.(packages := db.packages[p := db.packages[p].(deletePending := true)])
    else
      db.(revisions := map r | r in db.revisions :: WithoutPackage(db.revisions[r], p))
  }

  /** Rows of packages go only when nothing refers to them. */
  function Purged(db: Tables, p: int): Tables {
    if exists r <- db.revisions :: RefersTo(db.revisions[r], p) then db else db.(packages := db.packages - {p})
  }

  ghost function Restored(db: Tables, game: int, p: int): Tables {
    if p in db.packages && db.packages[p].game == game && db.packages[p].deletePending
       && forall q :: !IsActiveFor(db.packages, q, game, db.packages[p].name)
    then db.(packages := db.packages[p := db.packages[p].(deletePending := false)])
    else db
  }

  predicate Usable(db: Tables, game: int, p: int) {
    p in db.packages && db.packages[p].game == game && !db.packages[p].deletePending
  }

  function BindingSaved(db: Tables, game: int, package: Option<int>, place: Place, renderer: Option<string>): Tables {
    if package.Some? && !Usable(db, game, package.value) then db
    else OnDraft(db, game, (rev: Revision) => rev.(bindings := rev.bindings[place := Binding(package, renderer)]))
  }

  /** Changes the activations of one revision, if it still exists. */
  function OnActivations(db: Tables, r: int, change: set<Activation> -> set<Activation>): Tables {
    if r !in db.revisions then db
    else db.(revisions := db.revisions[r := db.revisions[r].(activations := change(db.revisions[r].activations))])
  }

  /** The first statement of saving an activation: those on pending packages of the same name go. */
  function WithoutPendingOf(acts: set<Activation>, packages: map<int, Package>, p: int): set<Activation> {
    set a | a in acts && !(SameName(packages, p, a.package) && packages[a.package].deletePending)
  }

  predicate SameName(packages: map<int, Package>, p: int, q: int) {
    p in packages && OnName(packages, q, packages[p].game, packages[p].name)
  }

  ghost predicate Step(db: Tables, e: Event, after: Tables) {
    match e
    case UploadPackage(u) =>
      exists id :: IsUploadId(db, u, id) && after == if AnyUploadCollides(db, u, id) then db else Uploaded(db, u, id)
    case DeletePackage(game, p) => after == Deleted(db, game, p)
    case PurgePackage(p) => after == Purged(db, p)
    case RestorePackage(game, p) => after == Restored(db, game, p)
    case SaveBinding(game, p, place, renderer) => after == BindingSaved(db, game, p, place, renderer)
    case RemoveBinding(game, place) =>
      after == OnDraft(db, game, (rev: Revision) => rev.(bindings := rev.bindings - {place}))
    case ClearPending(r, p) =>
      after == OnActivations(db, r, (acts: set<Activation>) => WithoutPendingOf(acts, db.packages, p))
    case InsertActivation(r, p, f) =>
      after == if p !in db.packages then db
               else OnActivations(db, r, (acts: set<Activation>) => acts + {Activation(p, f)})
    case RemoveActivation(r, p, f) =>
      after == OnActivations(db, r, (acts: set<Activation>) => acts - {Activation(p, f)})
    case OpenDraft(game, d, freshId) => freshId !in db.revisions && IsEnsured(db, after, game, freshId, d)
    case PublishDraft(game, d, freshId) =>
      if Valid(db) && IsDraftOf(db, game, d) && !Conflicting(db, db.revisions[d].activations)
      then IsPublication(db, after, game, d, freshId)
      else after == db
  }

  // ----- the invariant -----

  /** All activations a revision has on packages of one name are on one package. */
  predicate OnePackagePerName(packages: map<int, Package>, acts: set<Activation>) {
    forall a <- acts, b <- acts :: SameName(packages, a.package, b.package) ==> a.package == b.package
  }

  predicate GoodRevision(db: Tables, rev: Revision) {
    ValidRevision(db, rev) && OnePackagePerName(db.packages, rev.activations)
  }

  ghost predicate Invariant(db: Tables) {
    Valid(db) && forall r <- db.revisions :: OnePackagePerName(db.packages, db.revisions[r].activations)
  }

  /** Revisions with one package per name neither conflict on publishing nor collide on an upload. */
  lemma OnePackageNeverConflicts(db: Tables, r: int)
    requires Invariant(db) && r in db.revisions
    ensures !Conflicting(db, db.revisions[r].activations)
  {
    var acts := db.revisions[r].activations;
    assert ValidRevision(db, db.revisions[r]) && OnePackagePerName(db.packages, acts);
    if Conflicting(db, acts) {
      var a, b :| a in acts && b in acts && a != b && a.feature == b.feature
        && db.packages[a.package].deletePending && db.packages[b.package].deletePending
        && ActiveFor(db.packages, a.package).Some?
        && ActiveFor(db.packages, a.package) == ActiveFor(db.packages, b.package)
        && Activation(ActiveFor(db.packages, a.package).value, a.feature) !in acts;
      ActiveForIs(db.packages, a.package);
      ActiveForIs(db.packages, b.package);
      assert false;
    }
  }

  /** An upload keeps the name of every package. */
  lemma UploadKeepsNames(db: Tables, u: Upload, id: int)
    requires IsUploadId(db, u, id)
    ensures
      var packages := PackagesAfterUpload(db, u, id);
      && (forall p <- db.packages ::
            p in packages && packages[p].game == db.packages[p].game && packages[p].name == db.packages[p].name)
      && (forall p <- packages :: p == id || p in db.packages)
      && OnName(packages, id, u.game, u.name)
      && (forall p :: IsActiveFor(packages, p, u.game, u.name) <==> p == id)
  {
  }

  lemma UploadNeverCollides(db: Tables, u: Upload, id: int)
    requires Invariant(db) && IsUploadId(db, u, id)
    ensures !AnyUploadCollides(db, u, id)
  {
    UploadKeepsNames(db, u, id);
    forall r | r in db.revisions
      ensures !UploadCollides(db.revisions[r].activations, PackagesAfterUpload(db, u, id), u)
    {
      assert GoodRevision(db, db.revisions[r]);
    }
  }

  /** Renaming nothing and adding packages nobody uses keeps a revision as it is. */
  lemma SameNamesKeep(packages: map<int, Package>, after: map<int, Package>, acts: set<Activation>)
    requires OnePackagePerName(packages, acts) && forall a <- acts :: a.package in packages
    requires forall p <- packages :: p in after ==>
      after[p].game == packages[p].game && after[p].name == packages[p].name
    ensures OnePackagePerName(after, acts)
  {
  }

  lemma FewerActivationsKeep(packages: map<int, Package>, acts: set<Activation>, fewer: set<Activation>)
    requires OnePackagePerName(packages, acts) && fewer <= acts
    ensures OnePackagePerName(packages, fewer)
  {
  }

  lemma ReboundKeeps(packages: map<int, Package>, acts: set<Activation>, u: Upload, id: int)
    requires OnePackagePerName(packages, acts) && OnName(packages, id, u.game, u.name)
    ensures OnePackagePerName(packages, ReboundActivations(acts, packages, u, id))
  {
    forall a <- ReboundActivations(acts, packages, u, id), b <- ReboundActivations(acts, packages, u, id)
      | SameName(packages, a.package, b.package)
      ensures a.package == b.package
    {
      if a.package != id && b.package != id {
        assert a in acts && b in acts;
      }
    }
  }

  lemma UploadKeeps(db: Tables, u: Upload, id: int)
    requires Invariant(db) && IsUploadId(db, u, id)
    ensures Invariant(Uploaded(db, u, id))
  {
    var after := Uploaded(db, u, id);
    UploadKeepsNames(db, u, id);
    UploadKeepsActive(db, u, id);
    forall r | r in after.revisions
      ensures GoodRevision(after, after.revisions[r])
    {
      UploadKeepsRevision(db, u, id, r);
    }
  }

  lemma UploadKeepsRevision(db: Tables, u: Upload, id: int, r: int)
    requires Invariant(db) && IsUploadId(db, u, id) && r in db.revisions
    ensures GoodRevision(Uploaded(db, u, id), Uploaded(db, u, id).revisions[r])
  {
    var packages, rev := PackagesAfterUpload(db, u, id), db.revisions[r];
    assert GoodRevision(db, rev);
    UploadKeepsNames(db, u, id);
    SameNamesKeep(db.packages, packages, rev.activations);
    ReboundKeeps(packages, rev.activations, u, id);
  }

  lemma UploadKeepsActive(db: Tables, u: Upload, id: int)
    requires Valid(db) && IsUploadId(db, u, id)
    ensures UniqueActive(PackagesAfterUpload(db, u, id))
  {
    var packages := PackagesAfterUpload(db, u, id);
    UploadKeepsNames(db, u, id);
    forall p, q, game, name | IsActiveFor(packages, p, game, name) && IsActiveFor(packages, q, game, name)
      ensures p == q
    {
      if p != id && q != id {
        assert IsActiveFor(db.packages, p, game, name) && IsActiveFor(db.packages, q, game, name);
      }
    }
  }

  lemma DeleteKeeps(db: Tables, game: int, p: int)
    requires Invariant(db)
    ensures Invariant(Deleted(db, game, p))
  {
    var after := Deleted(db, game, p);
    forall q, s, g, name | IsActiveFor(after.packages, q, g, name) && IsActiveFor(after.packages, s, g, name)
      ensures q == s
    {
      assert IsActiveFor(db.packages, q, g, name) && IsActiveFor(db.packages, s, g, name);
    }
    forall r | r in after.revisions
      ensures GoodRevision(after, after.revisions[r])
    {
      assert GoodRevision(db, db.revisions[r]);
      SameNamesKeep(db.packages, after.packages, db.revisions[r].activations);
      FewerActivationsKeep(after.packages, db.revisions[r].activations, after.revisions[r].activations);
    }
  }

  lemma PurgeKeeps(db: Tables, p: int)
    requires Invariant(db)
    ensures Invariant(Purged(db, p))
  {
    var after := Purged(db, p);
    forall q, s, g, name | IsActiveFor(after.packages, q, g, name) && IsActiveFor(after.packages, s, g, name)
      ensures q == s
    {
      assert IsActiveFor(db.packages, q, g, name) && IsActiveFor(db.packages, s, g, name);
    }
    forall r | r in after.revisions
      ensures GoodRevision(after, after.revisions[r])
    {
      assert GoodRevision(db, db.revisions[r]);
      SameNamesKeep(db.packages, after.packages, db.revisions[r].activations);
    }
  }

  lemma RestoreKeeps(db: Tables, game: int, p: int)
    requires Invariant(db)
    ensures Invariant(Restored(db, game, p))
  {
    var after := Restored(db, game, p);
    forall q, s, g, name | IsActiveFor(after.packages, q, g, name) && IsActiveFor(after.packages, s, g, name)
      ensures q == s
    {
      assert q != p ==> IsActiveFor(db.packages, q, g, name);
      assert s != p ==> IsActiveFor(db.packages, s, g, name);
    }
    forall r | r in after.revisions
      ensures GoodRevision(after, after.revisions[r])
    {
      assert GoodRevision(db, db.revisions[r]);
      SameNamesKeep(db.packages, after.packages, db.revisions[r].activations);
    }
  }

  lemma ActivationStepKeeps(db: Tables, r: int, acts: set<Activation>, after: Tables)
    requires Invariant(db) && r in db.revisions
    requires after == db.(revisions := db.revisions[r := db.revisions[r].(activations := acts)])
    requires OnePackagePerName(db.packages, acts) && forall a <- acts :: a.package in db.packages
    ensures Invariant(after)
  {
    forall q | q in after.revisions ensures GoodRevision(after, after.revisions[q]) {
      assert GoodRevision(db, db.revisions[q]);
    }
    forall q, s | q in after.revisions && s in after.revisions
      && after.revisions[q].game == after.revisions[s].game && after.revisions[q].status == after.revisions[s].status
      ensures q == s
    {
      assert db.revisions[q].game == db.revisions[s].game && db.revisions[q].status == db.revisions[s].status;
    }
  }

  /** The insertion comes while the revision has no activation on another package of the name. */
  predicate Timely(db: Tables, e: Event) {
    e.InsertActivation? && e.revision in db.revisions ==>
      forall a <- db.revisions[e.revision].activations ::
        SameName(db.packages, e.package, a.package) ==> a.package == e.package
  }

  /** Inserting an activation keeps the invariant exactly if it is timely. */
  lemma InsertKeepsIff(db: Tables, e: Event, after: Tables)
    requires Invariant(db) && e.InsertActivation? && Step(db, e, after)
    requires e.revision in db.revisions && e.package in db.packages
    ensures Invariant(after) <==> Timely(db, e)
  {
    var acts := db.revisions[e.revision].activations;
    var more := acts + {Activation(e.package, e.feature)};
    assert GoodRevision(db, db.revisions[e.revision]);
    assert after.revisions[e.revision].activations == more;
    if Timely(db, e) {
      forall a <- more, b <- more | SameName(db.packages, a.package, b.package) ensures a.package == b.package {
        if a.package == e.package || b.package == e.package {
          assert SameName(db.packages, b.package, a.package);
        } else {
          assert a in acts && b in acts;
        }
      }
      ActivationStepKeeps(db, e.revision, more, after);
    } else {
      var a :| a in acts && SameName(db.packages, e.package, a.package) && a.package != e.package;
      assert a in more && Activation(e.package, e.feature) in more;
      assert !OnePackagePerName(after.packages, more);
      assert !GoodRevision(after, after.revisions[e.revision]);
    }
  }

  /** A save whose statements nothing comes between: the package is active, the pending ones of its name
      have just been cleared, so the insertion is timely. */
  lemma UndisturbedSaveIsTimely(db: Tables, game: int, p: int, f: FrontendFeature, r: int, cleared: Tables)
    requires Invariant(db) && Usable(db, game, p) && Step(db, ClearPending(r, p), cleared)
    ensures Timely(cleared, InsertActivation(r, p, f))
  {
    if r in cleared.revisions {
      forall a <- cleared.revisions[r].activations | SameName(cleared.packages, p, a.package)
        ensures a.package == p
      {
        var q := db.packages[p];
        assert IsActiveFor(db.packages, a.package, q.game, q.name) && IsActiveFor(db.packages, p, q.game, q.name);
      }
    }
  }

  /** Two saves that were checked while their packages were active, and insert only after both packages
      have become pending and a third active, leave a draft that cannot be published. */
  lemma StalledSavesConflict(db: Tables, r: int, p: int, q: int, f: FrontendFeature, first: Tables, second: Tables)
    requires Invariant(db) && r in db.revisions && p != q && SameName(db.packages, p, q)
    requires db.packages[p].deletePending && db.packages[q].deletePending && ActiveFor(db.packages, p).Some?
    requires Activation(ActiveFor(db.packages, p).value, f) !in db.revisions[r].activations
    requires Step(db, InsertActivation(r, p, f), first) && Step(first, InsertActivation(r, q, f), second)
    ensures r in second.revisions && ValidRevision(second, second.revisions[r])
    ensures Conflicting(second, second.revisions[r].activations)
  {
    ActiveForIs(db.packages, p);
    ActiveForIs(db.packages, q);
    var active := ActiveFor(db.packages, p).value;
    assert IsActiveFor(db.packages, active, db.packages[q].game, db.packages[q].name);
    assert ActiveFor(db.packages, q) == Some(active);
    assert ValidRevision(db, db.revisions[r]);
    assert second.packages == db.packages;
    assert Activation(p, f) in second.revisions[r].activations && Activation(q, f) in second.revisions[r].activations;
    assert active != p && active != q;
  }

  lemma ActivationEventKeeps(db: Tables, e: Event, after: Tables)
    requires Invariant(db) && Step(db, e, after) && Timely(db, e)
    requires e.ClearPending? || e.InsertActivation? || e.RemoveActivation?
    ensures Invariant(after)
  {
    if e.InsertActivation? {
      if e.revision in db.revisions && e.package in db.packages { InsertKeepsIff(db, e, after); }
    } else if e.revision in db.revisions {
      var acts := after.revisions[e.revision].activations;
      assert GoodRevision(db, db.revisions[e.revision]);
      FewerActivationsKeep(db.packages, db.revisions[e.revision].activations, acts);
      ActivationStepKeeps(db, e.revision, acts, after);
    }
  }

  lemma CleanKeeps(db: Tables, acts: set<Activation>)
    requires OnePackagePerName(db.packages, acts) && forall a <- acts :: a.package in db.packages
    ensures OnePackagePerName(db.packages, CleanActivations(db, acts))
  {
    forall a <- CleanActivations(db, acts), b <- CleanActivations(db, acts)
      | SameName(db.packages, a.package, b.package)
      ensures a.package == b.package
    {
      var x :| x in acts && Effective(db.packages, Draft, x.package).Some?
        && a == Activation(Effective(db.packages, Draft, x.package).value, x.feature);
      var y :| y in acts && Effective(db.packages, Draft, y.package).Some?
        && b == Activation(Effective(db.packages, Draft, y.package).value, y.feature);
      EffectiveIsClean(db, x.package, Draft);
      EffectiveIsClean(db, y.package, Draft);
      assert x.package == y.package;
    }
  }

  lemma PublishKeeps(db: Tables, after: Tables, game: int, d: int, freshId: int)
    requires Invariant(db) && IsDraftOf(db, game, d) && IsPublication(db, after, game, d, freshId)
    ensures Invariant(after)
  {
    PublicationValid(db, after, game, d, freshId);
    assert GoodRevision(db, db.revisions[d]);
    CleanKeeps(db, db.revisions[d].activations);
    forall r | r in after.revisions
      ensures OnePackagePerName(after.packages, after.revisions[r].activations)
    {
      if r != d && r != freshId { assert OnePackagePerName(db.packages, db.revisions[r].activations); }
    }
  }

  lemma OpenDraftKeeps(db: Tables, after: Tables, game: int, freshId: int, d: int)
    requires Invariant(db) && freshId !in db.revisions && IsEnsured(db, after, game, freshId, d)
    ensures Invariant(after)
  {
    if forall x :: !IsDraftOf(db, game, x) {
      assert after.packages == db.packages && after.assets == db.assets;
      forall r | r in after.revisions
        ensures GoodRevision(after, after.revisions[r])
      {
        if r != d {
          assert GoodRevision(db, db.revisions[r]);
        } else if Selected(db, game, None).Some? {
          var p := Selected(db, game, None).value;
          assert GoodRevision(db, db.revisions[p]);
        }
      }
      forall r, s | r in after.revisions && s in after.revisions
        && after.revisions[r].game == after.revisions[s].game && after.revisions[r].status == after.revisions[s].status
        ensures r == s
      {
        if r != d && s == d { assert IsDraftOf(db, game, r); }
        if s != d && r == d { assert IsDraftOf(db, game, s); }
      }
    }
  }

  lemma StepKeepsInvariant(db: Tables, e: Event, after: Tables)
    requires Invariant(db) && Step(db, e, after) && Timely(db, e)
    ensures Invariant(after)
  {
    match e
    case UploadPackage(u) =>
      var id :| IsUploadId(db, u, id) && after == if AnyUploadCollides(db, u, id) then db else Uploaded(db, u, id);
      UploadKeeps(db, u, id);
    case DeletePackage(game, p) => DeleteKeeps(db, game, p);
    case PurgePackage(p) => PurgeKeeps(db, p);
    case RestorePackage(game, p) => RestoreKeeps(db, game, p);
    case SaveBinding(_, _, _, _) => BindingStepKeeps(db, e, after);
    case RemoveBinding(_, _) => BindingStepKeeps(db, e, after);
    case ClearPending(_, _) => ActivationEventKeeps(db, e, after);
    case InsertActivation(_, _, _) => ActivationEventKeeps(db, e, after);
    case RemoveActivation(_, _, _) => ActivationEventKeeps(db, e, after);
    case OpenDraft(game, d, freshId) => OpenDraftKeeps(db, after, game, freshId, d);
    case PublishDraft(game, d, freshId) =>
      if IsDraftOf(db, game, d) && !Conflicting(db, db.revisions[d].activations) {
        PublishKeeps(db, after, game, d, freshId);
      }
  }

  lemma BindingStepKeeps(db: Tables, e: Event, after: Tables)
    requires Invariant(db) && Step(db, e, after) && (e.SaveBinding? || e.RemoveBinding?)
    ensures Invariant(after)
  {
    forall r | r in after.revisions
      ensures GoodRevision(after, after.revisions[r])
    {
      assert GoodRevision(db, db.revisions[r]);
    }
  }

  /** Tables after each of the events. */
  ghost predicate IsRun(states: seq<Tables>, events: seq<Event>) {
    && |states| == |events| + 1
    && states[0].packages == map[] && states[0].revisions == map[]
    && forall i :: 0 <= i < |events| ==> Step(states[i], events[i], states[i + 1])
  }

  /** No insertion of a save is held up until its package has been replaced. */
  ghost predicate TimelyRun(states: seq<Tables>, events: seq<Event>)
    requires |states| == |events| + 1
  {
    forall i :: 0 <= i < |events| ==> Timely(states[i], events[i])
  }

  lemma {:induction false} RunKeepsInvariant(states: seq<Tables>, events: seq<Event>, n: nat)
    requires IsRun(states, events) && TimelyRun(states, events) && n < |states|
    ensures Invariant(states[n])
  {
    if n > 0 {
      RunKeepsInvariant(states, events, n - 1);
      assert Step(states[n - 1], events[n - 1], states[n]) && Timely(states[n - 1], events[n - 1]);
      StepKeepsInvariant(states[n - 1], events[n - 1], states[n]);
    }
  }

  /** Whatever the staff upload, delete, purge, restore, save and publish, in any interleaving with timely
      insertions, such as those of undisturbed saves: no revision ever has
      activations that publishing could not merge, and no upload fails on its draft's activations. */
  lemma PublishingNeverConflicts(states: seq<Tables>, events: seq<Event>, n: nat)
    requires IsRun(states, events) && TimelyRun(states, events) && n < |states|
    ensures Invariant(states[n])
    ensures forall r <- states[n].revisions :: !Conflicting(states[n], states[n].revisions[r].activations)
    ensures forall u, id | IsUploadId(states[n], u, id) :: !AnyUploadCollides(states[n], u, id)
  {
    RunKeepsInvariant(states, events, n);
    forall r | r in states[n].revisions ensures !Conflicting(states[n], states[n].revisions[r].activations) {
      OnePackageNeverConflicts(states[n], r);
    }
    forall u, id | IsUploadId(states[n], u, id) ensures !AnyUploadCollides(states[n], u, id) {
      UploadNeverCollides(states[n], u, id);
    }
  }

  /** The constraints of the tables alone do not exclude it: any feature, and any name. */
  lemma ConflictIsNotExcluded(game: int, name: string, f: FrontendFeature, asset: Asset)
    ensures
      var row := Package(game, name, true, 1, "");
      var acts := {Activation(1, f), Activation(2, f)};
      var db := Tables(map[1 := row, 2 := row, 3 := row.(deletePending := false)], map[1 := asset],
                       map[1 := Revision(game, 1, Draft, map[], acts)]);
      Valid(db) && Conflicting(db, acts)
  {
    var row := Package(game, name, true, 1, "");
    var packages := map[1 := row, 2 := row, 3 := row.(deletePending := false)];
    assert IsActiveFor(packages, 3, game, name);
    assert Activation(1, f) != Activation(2, f);
    ActiveForIs(packages, 1);
    ActiveForIs(packages, 2);
  }
}
