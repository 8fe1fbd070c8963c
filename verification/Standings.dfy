/** The live ranking of a game and its frozen copy (src/db/feature.rs:272-292, src/db/board.rs:81-150). */
module Standings {
  import opened Common

  /** A team with the times of its solves. */
  datatype Team = Team(id: int, started: bool, banned: bool, onBoard: bool, finishAt: Option<int>, solvedAt: seq<int>)

  /** A ranked row. */
  datatype Standing = Standing(id: int, finishAt: Option<int>, solves: nat, lastSolvedAt: Option<int>)

  /** MAX, NULL over no rows. */
  function Latest(times: seq<int>): Option<int> {
    if times == [] then None
    else
      match Latest(times[1..])
      case None => Some(times[0])
      case Some(t) => Some(Max(times[0], t))
  }

  function StandingOf(t: Team): Standing {
    Standing(t.id, t.finishAt, |t.solvedAt|, Latest(t.solvedAt))
  }

  /** ASC NULLS LAST: strictly before, and the same. */
  predicate Earlier(a: Option<int>, b: Option<int>) {
    a.Some? && (b.None? || a.value < b.value)
  }

  /** Finished teams by time, then by solves, last solve and id. */
  predicate Before(a: Standing, b: Standing) {
    || Earlier(a.finishAt, b.finishAt)
    || (a.finishAt == b.finishAt &&
        (|| a.solves > b.solves
         || (a.solves == b.solves &&
             (|| Earlier(a.lastSolvedAt, b.lastSolvedAt)
              || (a.lastSolvedAt == b.lastSolvedAt && a.id < b.id)))))
  }

  function Insert(x: Standing, s: seq<Standing>): seq<Standing> {
    if s == [] || Before(x, s[0]) then [x] + s else [s[0]] + Insert(x, s[1..])
  }

  function Sort(s: seq<Standing>): seq<Standing> {
    if s == [] then [] else Insert(s[0], Sort(s[1..]))
  }

  /** The rows of the teams that pass the WHERE clause. */
  function Rows(teams: seq<Team>, where_: Team -> bool): seq<Standing> {
    if teams == [] then [] else (if where_(teams[0]) then [StandingOf(teams[0])] else []) + Rows(teams[1..], where_)
  }

  /** The ranking that a lock freezes: also of teams that are not shown. */
  function Ranked(teams: seq<Team>): seq<Standing> {
    Sort(Rows(teams, (t: Team) => t.started && !t.banned))
  }

  /** The board without a lock. */
  function LiveBoard(teams: seq<Team>): seq<Standing> {
    Sort(Rows(teams, (t: Team) => t.started && !t.banned && t.onBoard))
  }

  predicate IsShown(teams: seq<Team>, id: int) {
    exists t <- teams :: t.id == id && !t.banned && t.onBoard
  }

  /** The board under a lock: the frozen rows, in rank order, of teams that are shown now. */
  function LockedBoard(frozen: seq<Standing>, teams: seq<Team>): seq<Standing> {
    Filter((s: Standing) => IsShown(teams, s.id), frozen)
  }

  function Filter(p: Standing -> bool, s: seq<Standing>): seq<Standing> {
    if s == [] then [] else (if p(s[0]) then [s[0]] else []) + Filter(p, s[1..])
  }

  predicate Ordered(s: seq<Standing>) {
    forall i, j :: 0 <= i < j < |s| ==> Before(s[i], s[j])
  }

  /** Primary key. */
  predicate UniqueTeams(teams: seq<Team>) {
    forall i, j :: 0 <= i < j < |teams| ==> teams[i].id != teams[j].id
  }

  lemma BeforeTransitive(a: Standing, b: Standing, c: Standing)
    requires Before(a, b) && Before(b, c)
    ensures Before(a, c)
  {
  }

  lemma {:induction false} InsertOrders(x: Standing, s: seq<Standing>)
    requires Ordered(s) && forall y <- s :: y.id != x.id
    ensures Ordered(Insert(x, s))
    ensures forall y :: y in Insert(x, s) <==> y == x || y in s
    ensures |Insert(x, s)| == |s| + 1
  {
    if s == [] {
    } else if Before(x, s[0]) {
      forall j | 0 <= j < |s| ensures Before(x, s[j]) {
        if j > 0 { BeforeTransitive(x, s[0], s[j]); }
      }
    } else {
      assert s == [s[0]] + s[1..] && s[0] in s;
      InsertOrders(x, s[1..]);
      var rest := Insert(x, s[1..]);
      forall j | 0 <= j < |rest| ensures Before(s[0], rest[j]) {
        assert rest[j] in rest;
        if rest[j] != x {
          var i :| 0 <= i < |s[1..]| && s[1..][i] == rest[j];
          assert Before(s[0], s[i + 1]);
        }
      }
    }
  }

  lemma {:induction false} RowsAreTeams(teams: seq<Team>, where_: Team -> bool)
    requires UniqueTeams(teams)
    ensures forall s :: s in Rows(teams, where_) <==> exists t <- teams :: where_(t) && s == StandingOf(t)
    ensures forall i, j :: 0 <= i < j < |Rows(teams, where_)| ==> Rows(teams, where_)[i].id != Rows(teams, where_)[j].id
  {
    if teams != [] {
      RowsAreTeams(teams[1..], where_);
      assert teams == [teams[0]] + teams[1..];
      forall s <- Rows(teams[1..], where_) ensures s.id != teams[0].id {
        var t :| t in teams[1..] && where_(t) && s == StandingOf(t);
        var i :| 0 <= i < |teams[1..]| && teams[1..][i] == t;
        assert teams[0].id != teams[i + 1].id;
      }
    }
  }

  lemma {:induction false} SortOrders(s: seq<Standing>)
    requires forall i, j :: 0 <= i < j < |s| ==> s[i].id != s[j].id
    ensures Ordered(Sort(s))
    ensures forall y :: y in Sort(s) <==> y in s
    ensures |Sort(s)| == |s|
  {
    if s != [] {
      SortOrders(s[1..]);
      assert s == [s[0]] + s[1..];
      forall y <- Sort(s[1..]) ensures y.id != s[0].id {
        var i :| 0 <= i < |s[1..]| && s[1..][i] == y;
        assert s[0].id != s[i + 1].id;
      }
      InsertOrders(s[0], Sort(s[1..]));
    }
  }

  /** A lock freezes exactly the started teams that are not banned, once each and best first. */
  lemma RankedIsRanking(teams: seq<Team>)
    requires UniqueTeams(teams)
    ensures Ordered(Ranked(teams))
    ensures forall s :: s in Ranked(teams) <==> exists t <- teams :: t.started && !t.banned && s == StandingOf(t)
  {
    var where_ := (t: Team) => t.started && !t.banned;
    RowsAreTeams(teams, where_);
    SortOrders(Rows(teams, where_));
  }

  lemma {:induction false} FilterOrdered(p: Standing -> bool, s: seq<Standing>)
    requires Ordered(s)
    ensures Ordered(Filter(p, s))
    ensures forall y :: y in Filter(p, s) <==> y in s && p(y)
  {
    if s != [] {
      FilterOrdered(p, s[1..]);
      assert s == [s[0]] + s[1..];
      var rest := Filter(p, s[1..]);
      forall j | 0 <= j < |rest| ensures Before(s[0], rest[j]) {
        assert rest[j] in rest;
        var i :| 0 <= i < |s[1..]| && s[1..][i] == rest[j];
        assert Before(s[0], s[i + 1]);
      }
    }
  }

  lemma InsertBeforeFiltered(p: Standing -> bool, x: Standing, s: seq<Standing>)
    requires Ordered(s) && s != [] && Before(x, s[0])
    ensures Insert(x, Filter(p, s)) == [x] + Filter(p, s)
  {
    FilterOrdered(p, s);
    var kept := Filter(p, s);
    if kept != [] {
      assert kept[0] in kept;
      var i :| 0 <= i < |s| && s[i] == kept[0];
      if i > 0 { BeforeTransitive(x, s[0], s[i]); }
    }
  }

  lemma FilterFront(p: Standing -> bool, x: Standing, s: seq<Standing>)
    ensures Filter(p, [x] + s) == if p(x) then [x] + Filter(p, s) else Filter(p, s)
  {
    assert ([x] + s)[1..] == s;
    assert [] + Filter(p, s) == Filter(p, s);
  }

  lemma {:induction false} FilterInsert(p: Standing -> bool, x: Standing, s: seq<Standing>)
    requires Ordered(s) && forall y <- s :: y.id != x.id
    ensures Filter(p, Insert(x, s)) == if p(x) then Insert(x, Filter(p, s)) else Filter(p, s)
  {
    if s == [] {
    } else if Before(x, s[0]) {
      FilterFront(p, x, s);
      InsertBeforeFiltered(p, x, s);
    } else {
      var rest := Insert(x, s[1..]);
      FilterInsert(p, x, s[1..]);
      FilterFront(p, s[0], rest);
      FilterFront(p, s[0], s[1..]);
      assert s == [s[0]] + s[1..];
      if p(s[0]) {
        assert ([s[0]] + Filter(p, s[1..]))[1..] == Filter(p, s[1..]);
      }
    }
  }

  lemma {:induction false} FilterSort(p: Standing -> bool, s: seq<Standing>)
    requires forall i, j :: 0 <= i < j < |s| ==> s[i].id != s[j].id
    ensures Filter(p, Sort(s)) == Sort(Filter(p, s))
  {
    if s != [] {
      var rest := s[1..];
      FilterSort(p, rest);
      SortOrders(rest);
      forall y <- Sort(rest) ensures y.id != s[0].id {
        var i :| 0 <= i < |rest| && rest[i] == y;
        assert s[0].id != s[i + 1].id;
      }
      FilterInsert(p, s[0], Sort(rest));
      FilterFront(p, s[0], rest);
      assert s == [s[0]] + rest;
      if p(s[0]) {
        assert ([s[0]] + Filter(p, rest))[1..] == Filter(p, rest);
      }
    }
  }

  lemma RowsFront(teams: seq<Team>, where_: Team -> bool)
    requires teams != []
    ensures Rows(teams, where_) ==
      if where_(teams[0]) then [StandingOf(teams[0])] + Rows(teams[1..], where_) else Rows(teams[1..], where_)
  {
    assert [] + Rows(teams[1..], where_) == Rows(teams[1..], where_);
  }

  lemma {:induction false} FilterRows(teams: seq<Team>, where_: Team -> bool, p: Standing -> bool, both: Team -> bool)
    requires forall t <- teams :: both(t) == (where_(t) && p(StandingOf(t)))
    ensures Filter(p, Rows(teams, where_)) == Rows(teams, both)
  {
    if teams != [] {
      assert teams[0] in teams;
      FilterRows(teams[1..], where_, p, both);
      RowsFront(teams, where_);
      RowsFront(teams, both);
      FilterFront(p, StandingOf(teams[0]), Rows(teams[1..], where_));
    }
  }

  /** Locking changes nothing on the board at that moment; later the frozen order stays, and only
      teams that are banned or taken off the board go missing. */
  lemma LockedBoardIsLive(teams: seq<Team>, later: seq<Team>)
    requires UniqueTeams(teams)
    ensures LockedBoard(Ranked(teams), teams) == LiveBoard(teams)
    ensures Ordered(LockedBoard(Ranked(teams), later))
    ensures forall s :: s in LockedBoard(Ranked(teams), later) <==> s in Ranked(teams) && IsShown(later, s.id)
  {
    var where_ := (t: Team) => t.started && !t.banned;
    var shown := (s: Standing) => IsShown(teams, s.id);
    var both := (t: Team) => t.started && !t.banned && t.onBoard;
    RowsAreTeams(teams, where_);
    FilterSort(shown, Rows(teams, where_));
    forall t <- teams ensures IsShown(teams, t.id) == (!t.banned && t.onBoard) {
      TeamById(teams, t);
    }
    FilterRows(teams, where_, shown, both);
    RankedIsRanking(teams);
    FilterOrdered((s: Standing) => IsShown(later, s.id), Ranked(teams));
  }

  lemma TeamById(teams: seq<Team>, t: Team)
    requires UniqueTeams(teams) && t in teams
    ensures forall u <- teams :: u.id == t.id ==> u == t
  {
    var i :| 0 <= i < |teams| && teams[i] == t;
    forall u <- teams | u.id == t.id ensures u == t {
      var j :| 0 <= j < |teams| && teams[j] == u;
    }
  }
}
