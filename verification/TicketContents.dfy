/** What a page of a ticket shows and in which order, in terms of the rows alone (src/db/ticket.rs:229-237, 626-812). */
module TicketContents {
  import opened Common
  import opened TicketOrder
  import opened TicketPages

  predicate IsOpening(x: Item) {
    x.Operation? && x.action == 1
  }

  predicate IsClosing(x: Item) {
    x.Operation? && x.action != 1
  }

  predicate SameKind(x: Item, y: Item) {
    (x.Message? <==> y.Message?) && (IsOpening(x) <==> IsOpening(y))
  }

  /** By time; at one time openings, then messages, then closings; among these by id. */
  predicate ComesBefore(x: Item, y: Item) {
    || x.at < y.at
    || (x.at == y.at && IsOpening(x) && !IsOpening(y))
    || (x.at == y.at && !IsClosing(x) && IsClosing(y))
    || (x.at == y.at && SameKind(x, y) && x.id < y.id)
  }

  /** An operation of the thread shows this message. */
  predicate InOperation(t: Thread, m: Item) {
    exists o <- t.operations :: o.Operation? && o.messageId == Some(m.id)
  }

  /** A message that the first statement finds in no operation, or an operation of the second. */
  predicate IsShown(r: Reads, x: Item) {
    (x in r.first.messages && !InOperation(r.first, x)) || x in r.second.operations
  }

  lemma OrderMeaning(x: Item, y: Item)
    ensures Precedes(true, x, y) <==> ComesBefore(x, y)
  {
  }

  /** Of two different rows of one thread exactly one comes before the other. */
  lemma OrderIsTotal(t: Thread, x: Item, y: Item)
    requires ValidThread(t)
    requires (x in t.messages || x in t.operations) && (y in t.messages || y in t.operations) && x != y
    ensures ComesBefore(x, y) <==> !ComesBefore(y, x)
  {
    if x in t.messages && y in t.messages {
      var i :| 0 <= i < |t.messages| && t.messages[i] == x;
      var j :| 0 <= j < |t.messages| && t.messages[j] == y;
      assert x.id != y.id by { if i < j { assert x.id != y.id; } }
    } else if x in t.operations && y in t.operations {
      var i :| 0 <= i < |t.operations| && t.operations[i] == x;
      var j :| 0 <= j < |t.operations| && t.operations[j] == y;
      assert x.id != y.id by { if i < j { assert x.id != y.id; } }
    }
  }

  /** The window of a request whose cursors are those of items: after the one, or else before it, and before
      the stop. */
  lemma WindowMeaning(req: Request, x: Item, from: Item, stop: Item)
    ensures InWindow(Request(None, None, None, req.oldest), x)
    ensures InWindow(Request(req.before, Some(Key(from)), None, req.oldest), x) <==> ComesBefore(from, x)
    ensures InWindow(Request(Some(Key(from)), None, None, false), x) <==> ComesBefore(x, from)
    ensures InWindow(Request(req.before, req.after, Some(Key(stop)), req.oldest), x) <==>
      InWindow(Request(req.before, req.after, None, req.oldest), x) && ComesBefore(x, stop)
  {
    OrderMeaning(from, x);
    OrderMeaning(x, from);
    OrderMeaning(x, stop);
  }

  predicate InOrder(items: seq<Item>) {
    forall i, j :: 0 <= i < j < |items| ==> ComesBefore(items[i], items[j])
  }

  /** What lies beyond the page on the side it was cut: later items if it was read upwards, else earlier ones. */
  predicate IsBeyond(req: Request, items: seq<Item>, x: Item) {
    forall y <- items :: if req.after.Some? || req.oldest then ComesBefore(y, x) else ComesBefore(x, y)
  }

  lemma SortedInOrder(s: seq<Item>, k: nat, n: nat)
    requires Sorted(true, s) && k + n <= |s|
    ensures InOrder(s[k..k + n])
  {
    var piece := s[k..k + n];
    forall i, j | 0 <= i < j < n ensures ComesBefore(piece[i], piece[j]) {
      OrderMeaning(s[k + i], s[k + j]);
    }
  }

  lemma PageOrder(r: Reads, req: Request, limit: nat)
    requires ValidThread(r.first) && ValidThread(r.second)
    ensures InOrder(PageOf(Shown(r), req, limit).items)
  {
    ShownDistinct(r);
    WindowIsWindow(Shown(r), req);
    PieceOfWindow(Ascending(req), Window(Shown(r), req), limit);
  }

  lemma PieceOfWindow(asc: bool, window: seq<Item>, limit: nat)
    requires Sorted(true, window)
    ensures InOrder(if asc then Take(window, limit) else Last(window, limit))
  {
    var items := if asc then Take(window, limit) else Last(window, limit);
    var k := if asc || |window| <= limit then 0 else |window| - limit;
    SortedInOrder(window, k, |items|);
    assert items == window[k..k + |items|];
  }

  lemma ShownMeaning(r: Reads)
    requires ValidThread(r.first) && ValidThread(r.second)
    ensures forall x: Item :: x in Shown(r) <==> IsShown(r, x)
  {
    ShownDistinct(r);
    forall x
      ensures x in Shown(r) <==> IsShown(r, x)
    {
      assert Listed(r.first, x) <==> !InOperation(r.first, x);
    }
  }

  /** A page holds shown items of its window, at most `limit`; one that is left out lies beyond a full page. */
  lemma PageShows(r: Reads, req: Request, limit: nat)
    requires ValidThread(r.first) && ValidThread(r.second)
    ensures
      var page := PageOf(Shown(r), req, limit);
      && |page.items| <= limit
      && (forall x <- page.items :: IsShown(r, x) && InWindow(req, x))
      && (forall x :: IsShown(r, x) && InWindow(req, x) && x !in page.items ==>
            |page.items| == limit && IsBeyond(req, page.items, x))
  {
    ShownMeaning(r);
    ShownDistinct(r);
    WindowIsWindow(Shown(r), req);
    var items, window := PageOf(Shown(r), req, limit).items, Window(Shown(r), req);
    forall x | x in window && x !in items
      ensures |items| == limit && IsBeyond(req, items, x)
    {
      LeftOut(req, window, limit, x);
    }
  }

  lemma LeftOut(req: Request, window: seq<Item>, limit: nat, x: Item)
    requires Sorted(true, window) && x in window
    requires x !in if Ascending(req) then Take(window, limit) else Last(window, limit)
    ensures |window| > limit
    ensures IsBeyond(req, if Ascending(req) then Take(window, limit) else Last(window, limit), x)
  {
    var items := if Ascending(req) then Take(window, limit) else Last(window, limit);
    var k := if Ascending(req) then 0 else |window| - limit;
    var i :| 0 <= i < |window| && window[i] == x;
    forall j | k <= j < k + limit ensures window[j] != x {
      assert items[j - k] in items;
    }
    forall y <- items
      ensures if Ascending(req) then ComesBefore(y, x) else ComesBefore(x, y)
    {
      var j :| 0 <= j < limit && items[j] == y;
      assert window[k + j] == y;
      OrderMeaning(x, y);
      OrderMeaning(y, x);
    }
  }

  /** `has_more` tells whether something was left out; the cursors are those of the outermost items. */
  lemma PageHistory(r: Reads, req: Request, limit: nat)
    requires ValidThread(r.first) && ValidThread(r.second)
    ensures
      var page := PageOf(Shown(r), req, limit);
      var upwards, n := req.after.Some? || req.oldest, |page.items|;
      && (page.history.hasMore <==> exists x :: IsShown(r, x) && InWindow(req, x) && x !in page.items)
      && (n > 0 ==> page.history.newer == Some(Key(page.items[n - 1])))
      && (n > 0 && page.history.hasMore && !upwards ==> page.history.before == Some(Key(page.items[0])))
      && (n > 0 && page.history.hasMore && upwards ==> page.history.after == Some(Key(page.items[n - 1])))
      && (!page.history.hasMore || upwards || n == 0 ==> page.history.before.None?)
      && (!page.history.hasMore || !upwards || n == 0 ==> page.history.after.None?)
      && (n == 0 ==> page.history.newer.None?) && page.history.stop == req.stop
  {
    ShownMeaning(r);
    ShownDistinct(r);
    WindowIsWindow(Shown(r), req);
    PageShows(r, req, limit);
    var page, window := PageOf(Shown(r), req, limit), Window(Shown(r), req);
    if page.history.hasMore {
      var x := if Ascending(req) then window[limit] else window[|window| - limit - 1];
      assert x in window;
      OutermostIsOut(Ascending(req), window, limit);
      assert IsShown(r, x) && InWindow(req, x) && x !in page.items;
    }
  }

  lemma OutermostIsOut(asc: bool, window: seq<Item>, limit: nat)
    requires Sorted(true, window) && |window| > limit
    ensures asc ==> window[limit] !in Take(window, limit)
    ensures !asc ==> window[|window| - limit - 1] !in Last(window, limit)
  {
    var x := if asc then window[limit] else window[|window| - limit - 1];
    var items := if asc then Take(window, limit) else Last(window, limit);
    forall j | 0 <= j < limit ensures items[j] != x {
      assert if asc then Precedes(true, items[j], x) else Precedes(true, x, items[j]);
    }
  }

  /** A page that holds its whole window, without cursors: the messages outside operations, and all operations. */
  lemma WholePage(r: Reads, oldest: bool, limit: nat)
    requires ValidThread(r.first) && ValidThread(r.second)
    requires !PageOf(Shown(r), Request(None, None, None, oldest), limit).history.hasMore
    ensures
      var items := PageOf(Shown(r), Request(None, None, None, oldest), limit).items;
      && (forall id, at :: Message(id, at) in items <==>
            Message(id, at) in r.first.messages && !InOperation(r.first, Message(id, at)))
      && (forall x: Item :: x.Operation? ==> (x in items <==> x in r.second.operations))
  {
    var req := Request(None, None, None, oldest);
    PageHistory(r, req, limit);
    PageShows(r, req, limit);
    forall x ensures InWindow(req, x) { WindowMeaning(req, x, x, x); }
  }

  /** When both statements see the same thread, no message is shown on its own and in an operation. */
  lemma NothingTwice(t: Thread, req: Request, limit: nat)
    requires ValidThread(t)
    ensures
      var items := PageOf(Shown(Reads(t, t)), req, limit).items;
      forall x <- items, o <- items :: x.Message? && o.Operation? ==> o.messageId != Some(x.id)
  {
    PageShows(Reads(t, t), req, limit);
    var items := PageOf(Shown(Reads(t, t)), req, limit).items;
    forall x <- items, o <- items | x.Message? && o.Operation?
      ensures o.messageId != Some(x.id)
    {
      assert IsShown(Reads(t, t), x) && IsShown(Reads(t, t), o);
    }
  }

  /** Without cursors the page is the newest end of the thread, or the oldest if that is asked for. */
  lemma EndOfThread(r: Reads, limit: nat, x: Item)
    requires ValidThread(r.first) && ValidThread(r.second) && IsShown(r, x)
    ensures
      var newest, oldest := PageOf(Shown(r), DEFAULT, limit).items, PageOf(Shown(r), OLDEST, limit).items;
      && (x !in newest ==> |newest| == limit && forall y <- newest :: ComesBefore(x, y))
      && (x !in oldest ==> |oldest| == limit && forall y <- oldest :: ComesBefore(y, x))
  {
    PageShows(r, DEFAULT, limit);
    PageShows(r, OLDEST, limit);
  }
}
