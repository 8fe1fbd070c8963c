/** Who stands on a ranking and above whom, in terms of the teams
    (src/db/feature.rs:272-292, src/db/board.rs:81-150). */
module StandingsMeaning {
  import opened Common
  import opened Standings

  predicate FinishedBefore(t: Team, u: Team) {
    t.finishAt.Some? && (u.finishAt.Some? ==> t.finishAt.value < u.finishAt.value)
  }

  /** Some solve of u is later than every solve of t. */
  predicate SolvedLastBefore(t: Team, u: Team) {
    exists b <- u.solvedAt :: forall a <- t.solvedAt :: a < b
  }

  /** t ranks above u: finished earlier, or with the same finish more solves, or with as many the last one
      earlier, or with both last ones at one time, or none, the smaller number. */
  predicate RanksAbove(t: Team, u: Team) {
    if t.finishAt != u.finishAt then FinishedBefore(t, u)
    else if |t.solvedAt| != |u.solvedAt| then |t.solvedAt| > |u.solvedAt|
    else SolvedLastBefore(t, u) || (!SolvedLastBefore(u, t) && t.id < u.id)
  }

  predicate IsLast(times: seq<int>, last: Option<int>) {
    match last
    case None => times == []
    case Some(t) => t in times && forall s <- times :: s <= t
  }

  lemma {:induction false} LatestIsLast(times: seq<int>)
    ensures IsLast(times, Latest(times))
  {
    if times != [] {
      LatestIsLast(times[1..]);
      assert times == [times[0]] + times[1..];
    }
  }

  lemma EarlierMeaning(t: Team, u: Team)
    requires |t.solvedAt| == |u.solvedAt|
    ensures Earlier(Latest(t.solvedAt), Latest(u.solvedAt)) <==> SolvedLastBefore(t, u)
    ensures t.solvedAt == [] <==> Latest(t.solvedAt).None?
  {
    LatestIsLast(t.solvedAt);
    LatestIsLast(u.solvedAt);
    LastDecides(t, u, Latest(t.solvedAt), Latest(u.solvedAt));
  }

  lemma BeforeMeaning(t: Team, u: Team)
    ensures Before(StandingOf(t), StandingOf(u)) <==> RanksAbove(t, u)
  {
    if |t.solvedAt| == |u.solvedAt| {
      EarlierMeaning(t, u);
      EarlierMeaning(u, t);
    }
  }

  lemma LastDecides(t: Team, u: Team, lastOfT: Option<int>, lastOfU: Option<int>)
    requires IsLast(t.solvedAt, lastOfT) && IsLast(u.solvedAt, lastOfU) && |t.solvedAt| == |u.solvedAt|
    ensures SolvedLastBefore(t, u) <==> lastOfT.Some? && lastOfU.Some? && lastOfT.value < lastOfU.value
  {
    if lastOfT.Some? && lastOfU.Some? && lastOfT.value < lastOfU.value {
      assert lastOfU.value in u.solvedAt;
    }
  }

  /** Row s of a list of standings is the row of team t. */
  predicate IsRowOf(s: Standing, t: Team) {
    s.id == t.id && s.finishAt == t.finishAt && s.solves == |t.solvedAt| && IsLast(t.solvedAt, s.lastSolvedAt)
  }

  lemma RowOfTeam(t: Team)
    ensures IsRowOf(StandingOf(t), t)
  {
    LatestIsLast(t.solvedAt);
  }

  /** Every row of the ranking is a team's, and the teams on it are those that started and are not banned. */
  lemma RankedTeams(teams: seq<Team>, t: Team, i: nat)
    requires UniqueTeams(teams) && t in teams
    ensures (exists s <- Ranked(teams) :: s.id == t.id) <==> t.started && !t.banned
    ensures i < |Ranked(teams)| ==> exists u <- teams :: IsRowOf(Ranked(teams)[i], u)
  {
    TeamsListed(teams, (t: Team) => t.started && !t.banned, t, i);
  }

  /** A team is above another exactly if it ranks above it, and has one row. */
  lemma RankedOrder(teams: seq<Team>, t: Team, u: Team, i: nat, j: nat)
    requires UniqueTeams(teams) && t in teams && u in teams && i < |Ranked(teams)| && j < |Ranked(teams)|
    requires Ranked(teams)[i].id == t.id && Ranked(teams)[j].id == u.id
    ensures if t == u then i == j else i < j <==> RanksAbove(t, u)
  {
    OrderListed(teams, (t: Team) => t.started && !t.banned, t, u, i, j);
  }

  /** The same of the live board, which only lists teams that are on it. */
  lemma LiveBoardTeams(teams: seq<Team>, t: Team, i: nat)
    requires UniqueTeams(teams) && t in teams
    ensures (exists s <- LiveBoard(teams) :: s.id == t.id) <==> t.started && !t.banned && t.onBoard
    ensures i < |LiveBoard(teams)| ==> exists u <- teams :: IsRowOf(LiveBoard(teams)[i], u)
  {
    TeamsListed(teams, (t: Team) => t.started && !t.banned && t.onBoard, t, i);
  }

  lemma LiveBoardOrder(teams: seq<Team>, t: Team, u: Team, i: nat, j: nat)
    requires UniqueTeams(teams) && t in teams && u in teams && i < |LiveBoard(teams)| && j < |LiveBoard(teams)|
    requires LiveBoard(teams)[i].id == t.id && LiveBoard(teams)[j].id == u.id
    ensures if t == u then i == j else i < j <==> RanksAbove(t, u)
  {
    OrderListed(teams, (t: Team) => t.started && !t.banned && t.onBoard, t, u, i, j);
  }

  lemma TeamsListed(teams: seq<Team>, where_: Team -> bool, t: Team, i: nat)
    requires UniqueTeams(teams) && t in teams
    ensures (exists s <- Sort(Rows(teams, where_)) :: s.id == t.id) <==> where_(t)
    ensures i < |Sort(Rows(teams, where_))| ==> exists u <- teams :: IsRowOf(Sort(Rows(teams, where_))[i], u)
  {
    var rows := Sort(Rows(teams, where_));
    RowsAreTeams(teams, where_);
    SortOrders(Rows(teams, where_));
    TeamById(teams, t);
    if where_(t) { assert StandingOf(t) in rows; }
    if i < |rows| {
      assert rows[i] in Rows(teams, where_) by { assert rows[i] in rows; }
      var u :| u in teams && where_(u) && rows[i] == StandingOf(u);
      RowOfTeam(u);
    }
  }

  lemma OrderListed(teams: seq<Team>, where_: Team -> bool, t: Team, u: Team, i: nat, j: nat)
    requires UniqueTeams(teams) && t in teams && u in teams
    requires i < |Sort(Rows(teams, where_))| && j < |Sort(Rows(teams, where_))|
    requires Sort(Rows(teams, where_))[i].id == t.id && Sort(Rows(teams, where_))[j].id == u.id
    ensures if t == u then i == j else i < j <==> RanksAbove(t, u)
  {
    var rows := Sort(Rows(teams, where_));
    RowsAreTeams(teams, where_);
    SortOrders(Rows(teams, where_));
    assert rows[i] in rows && rows[j] in rows;
    TeamById(teams, t);
    TeamById(teams, u);
    BeforeMeaning(t, u);
    PositionsByRank(rows, i, j);
  }

  lemma PositionsByRank(rows: seq<Standing>, i: nat, j: nat)
    requires Ordered(rows) && i < |rows| && j < |rows|
    ensures if rows[i] == rows[j] then i == j else i < j <==> Before(rows[i], rows[j])
  {
    assert i < j ==> Before(rows[i], rows[j]);
    assert j < i ==> Before(rows[j], rows[i]);
  }

  /** Under a lock the frozen rows of the teams that are then not banned and on the board, in frozen order. */
  lemma LockedBoardMeaning(teams: seq<Team>, later: seq<Team>, id: int)
    requires UniqueTeams(teams)
    ensures (exists s <- LockedBoard(Ranked(teams), later) :: s.id == id) <==>
      && (exists t <- teams :: t.id == id && t.started && !t.banned)
      && (exists t <- later :: t.id == id && !t.banned && t.onBoard)
    ensures forall s <- LockedBoard(Ranked(teams), later) :: exists t <- teams :: IsRowOf(s, t)
  {
    LockedBoardIsLive(teams, later);
    RankedIsRanking(teams);
    forall s <- LockedBoard(Ranked(teams), later) ensures exists t <- teams :: IsRowOf(s, t) && t.started && !t.banned {
      var t :| t in teams && t.started && !t.banned && s == StandingOf(t);
      LatestIsLast(t.solvedAt);
    }
    if t :| t in teams && t.id == id && t.started && !t.banned && IsShown(later, id) {
      assert StandingOf(t) in Ranked(teams);
    }
  }
}
