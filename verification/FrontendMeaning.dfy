/** What resolving returns, in terms of the rows alone (src/db/frontend.rs:598-637, 716-742). */
module FrontendMeaning {
  import opened Common
  import opened Frontend

  /** Package p of a revision is shown as e: as itself, or in a draft, if it is to be deleted, as the package of
      its game and name that is not. */
  predicate ShownAs(db: Tables, status: Status, p: int, e: int) {
    && p in db.packages && e in db.packages
    && if status.Draft? && db.packages[p].deletePending
       then !db.packages[e].deletePending && db.packages[e].game == db.packages[p].game
            && db.packages[e].name == db.packages[p].name
       else e == p
  }

  ghost predicate Shows(db: Tables, rev: Revision, p: int) {
    exists e :: ShownAs(db, rev.status, p, e)
  }

  /** A binding that names no package, or one that is shown. */
  ghost predicate Usable(db: Tables, rev: Revision, place: Place) {
    place in rev.bindings && (rev.bindings[place].package.Some? ==> Shows(db, rev, rev.bindings[place].package.value))
  }

  /** The revision's number, the binding's renderer, and the shown package with its asset group, if any. */
  ghost predicate IsRowOf(db: Tables, rev: Revision, b: Binding, row: Option<BindingRow>) {
    && row.Some? && row.value.revision == rev.number && row.value.renderer == b.renderer
    && (b.package.Some? <==> row.value.package.Some?)
    && (b.package.Some? ==>
          var (e, data, asset) := row.value.package.value;
          && ShownAs(db, rev.status, b.package.value, e)
          && data == db.packages[e] && data.assetGroup in db.assets && asset == db.assets[data.assetGroup])
  }

  lemma ShownAsIsEffective(db: Tables, status: Status, p: int)
    requires Valid(db) && p in db.packages
    ensures Effective(db.packages, status, p).Some? <==> exists e :: ShownAs(db, status, p, e)
    ensures Effective(db.packages, status, p).Some? ==>
      ShownAs(db, status, p, Effective(db.packages, status, p).value)
    ensures forall e :: ShownAs(db, status, p, e) ==> Effective(db.packages, status, p) == Some(e)
  {
    ActiveForIs(db.packages, p);
    forall e | ShownAs(db, status, p, e)
      ensures Effective(db.packages, status, p) == Some(e)
    {
      if status.Draft? && db.packages[p].deletePending {
        assert IsActiveFor(db.packages, e, db.packages[p].game, db.packages[p].name);
      }
    }
  }

  lemma RowMeaning(db: Tables, rev: Revision, place: Place)
    requires Valid(db) && ValidRevision(db, rev)
    ensures Usable(db, rev, place) ==> IsRowOf(db, rev, rev.bindings[place], RowAt(db, rev, place))
    ensures !Usable(db, rev, place) ==> RowAt(db, rev, place).None?
  {
    if place in rev.bindings && rev.bindings[place].package.Some? {
      ShownAsIsEffective(db, rev.status, rev.bindings[place].package.value);
    }
  }

  /** The puzzle's binding wherever it is usable, whatever the other scopes hold; else the round's; else the
      game's; and nothing only if none of the three is. */
  ghost predicate Answers(db: Tables, rev: Revision, surface: string, round: int, puzzle: int,
                          row: Option<BindingRow>) {
    var p, r, g := Place(surface, PuzzleScope(puzzle)), Place(surface, RoundScope(round)), Place(surface, GameScope);
    && (Usable(db, rev, p) ==> IsRowOf(db, rev, rev.bindings[p], row))
    && (!Usable(db, rev, p) && Usable(db, rev, r) ==> IsRowOf(db, rev, rev.bindings[r], row))
    && (!Usable(db, rev, p) && !Usable(db, rev, r) && Usable(db, rev, g) ==> IsRowOf(db, rev, rev.bindings[g], row))
    && (row.None? <==> !Usable(db, rev, p) && !Usable(db, rev, r) && !Usable(db, rev, g))
  }

  lemma ResolvePriority(db: Tables, rev: Revision, surface: string, round: int, puzzle: int)
    requires Valid(db) && ValidRevision(db, rev)
    ensures Answers(db, rev, surface, round, puzzle, ResolveIn(db, rev, surface, Some(round), Some(puzzle)))
    ensures ResolveIn(db, rev, surface, None, Some(puzzle)) == ResolveIn(db, rev, surface, Some(0), Some(puzzle))
    ensures ResolveIn(db, rev, surface, Some(round), None) == ResolveIn(db, rev, surface, Some(round), Some(0))
    ensures ResolveIn(db, rev, surface, None, None) == ResolveIn(db, rev, surface, Some(0), Some(0))
  {
    RowMeaning(db, rev, Place(surface, PuzzleScope(puzzle)));
    RowMeaning(db, rev, Place(surface, RoundScope(round)));
    RowMeaning(db, rev, Place(surface, GameScope));
  }

  /** The previewed revision of the game, or without preview its published one. */
  predicate IsFor(db: Tables, game: int, preview: Option<int>, r: int) {
    && r in db.revisions && db.revisions[r].game == game
    && if preview.Some? then r == preview.value else db.revisions[r].status.Published?
  }

  lemma SelectedMeaning(db: Tables, game: int, preview: Option<int>, r: int)
    requires Valid(db)
    ensures Selected(db, game, preview) == Some(r) <==> IsFor(db, game, preview, r)
    ensures Selected(db, game, preview).None? <==> forall s :: !IsFor(db, game, preview, s)
  {
    if preview.None? {
      assert forall s :: IsFor(db, game, None, s) <==> IsPublished(db, game, s);
    } else {
      assert IsFor(db, game, preview, preview.value) <==> Selected(db, game, preview).Some?;
    }
  }

  /** An absent round or puzzle counts as number 0. */
  lemma ResolveMeaning(db: Tables, game: int, surface: string, round: Option<int>, puzzle: Option<int>,
                       preview: Option<int>, r: int)
    requires Valid(db)
    ensures IsFor(db, game, preview, r) ==>
      Answers(db, db.revisions[r], surface, if round.Some? then round.value else 0,
              if puzzle.Some? then puzzle.value else 0, Resolve(db, game, surface, round, puzzle, preview))
    ensures (forall s :: !IsFor(db, game, preview, s)) ==> Resolve(db, game, surface, round, puzzle, preview).None?
  {
    SelectedMeaning(db, game, preview, r);
    if IsFor(db, game, preview, r) {
      ResolvePriority(db, db.revisions[r], surface, if round.Some? then round.value else 0,
                      if puzzle.Some? then puzzle.value else 0);
    }
  }

  /** The next number is new, and no smaller positive one is above all numbers of the game. */
  lemma NextNumberMeaning(revisions: map<int, Revision>, game: int, n: int, m: int)
    requires IsNextNumber(revisions, game, n)
    ensures forall r <- revisions :: revisions[r].game == game ==> revisions[r].number != n
    ensures 1 <= m && (forall r <- revisions :: revisions[r].game == game ==> revisions[r].number < m) ==> n <= m
  {
    if n != 1 {
      var r :| r in revisions && revisions[r].game == game && revisions[r].number == n - 1;
    }
  }

  /** What a feature row shows of a revision: an activation on a package of the game that is shown. */
  ghost predicate IsFeatureOf(db: Tables, rev: Revision, row: FeatureRow) {
    exists a <- rev.activations ::
      && a.package in db.packages && db.packages[a.package].game == rev.game
      && ShownAs(db, rev.status, a.package, row.package) && row.feature == a.feature
      && row.revision == rev.number && row.data == db.packages[row.package]
      && row.data.assetGroup in db.assets && row.asset == db.assets[row.data.assetGroup]
  }

  lemma FeaturesMeaning(db: Tables, game: int, preview: Option<int>, row: FeatureRow)
    requires Valid(db)
    ensures row in ResolveFeatures(db, game, preview) <==>
      exists r :: IsFor(db, game, preview, r) && IsFeatureOf(db, db.revisions[r], row)
  {
    forall r ensures Selected(db, game, preview) == Some(r) <==> IsFor(db, game, preview, r) {
      SelectedMeaning(db, game, preview, r);
    }
    forall r | IsFor(db, game, preview, r)
      ensures row in FeaturesIn(db, db.revisions[r]) <==> IsFeatureOf(db, db.revisions[r], row)
    {
      FeatureMeaning(db, db.revisions[r], row);
    }
  }

  lemma FeatureMeaning(db: Tables, rev: Revision, row: FeatureRow)
    requires Valid(db) && ValidRevision(db, rev)
    ensures row in FeaturesIn(db, rev) <==> IsFeatureOf(db, rev, row)
  {
    if row in FeaturesIn(db, rev) {
      var a :| a in rev.activations && db.packages[a.package].game == rev.game
        && Effective(db.packages, rev.status, a.package).Some? && row == FeatureRowOf(db, rev, a);
      ShownAsIsEffective(db, rev.status, a.package);
    }
    if IsFeatureOf(db, rev, row) {
      var a :| a in rev.activations && a.package in db.packages && db.packages[a.package].game == rev.game
        && ShownAs(db, rev.status, a.package, row.package) && row.feature == a.feature
        && row.revision == rev.number && row.data == db.packages[row.package]
        && row.data.assetGroup in db.assets && row.asset == db.assets[row.data.assetGroup];
      ShownAsIsEffective(db, rev.status, a.package);
      assert row == FeatureRowOf(db, rev, a);
    }
  }
}
