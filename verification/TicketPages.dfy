/** Pages of a ticket thread (src/db/ticket.rs:379-418, 626-894). */
module TicketPages {
  import opened Common
  import opened TicketOrder

  /** The two tables, restricted to one ticket. */
  datatype Thread = Thread(messages: seq<Item>, operations: seq<Item>)

  datatype Request = Request(before: Option<Cursor>, after: Option<Cursor>, stop: Option<Cursor>, oldest: bool)

  datatype History = History(
    before: Option<Cursor>,
    after: Option<Cursor>,
    stop: Option<Cursor>,
    newer: Option<Cursor>,
    hasMore: bool
  )

  datatype Page = Page(items: seq<Item>, history: History)

  const DEFAULT: Request := Request(None, None, None, false)
  const PAGE_SIZE: nat := 50

  /** Primary keys: message ids and operation ids are unique in their tables. */
  predicate ValidThread(t: Thread) {
    && (forall m <- t.messages :: m.Message?)
    && (forall o <- t.operations :: o.Operation?)
    && (forall i, j :: 0 <= i < j < |t.messages| ==> t.messages[i].id != t.messages[j].id)
    && (forall i, j :: 0 <= i < j < |t.operations| ==> t.operations[i].id != t.operations[j].id)
  }

  /** `NOT EXISTS (... o.message_id = m.id)`. */
  predicate Listed(t: Thread, m: Item) {
    forall o <- t.operations :: o.Operation? ==> o.messageId != Some(m.id)
  }

  predicate Ascending(req: Request) {
    req.after.Some? || req.oldest
  }

  function CursorOf(req: Request): Option<Cursor> {
    if req.after.Some? then req.after else req.before
  }

  /** The cursor and stop conditions shared by the WHERE clauses of both queries. */
  predicate InWindow(req: Request, item: Item) {
    && (match CursorOf(req)
        case None => true
        case Some(c) => if Ascending(req) then Less(c, Key(item)) else Less(Key(item), c))
    && (match req.stop
        case None => true
        case Some(s) => Less(Key(item), s))
  }

  function Select(req: Request, rows: seq<Item>): seq<Item> {
    if rows == [] then []
    else (if InWindow(req, rows[0]) then [rows[0]] else []) + Select(req, rows[1..])
  }

  function ListedMessages(t: Thread, rows: seq<Item>): seq<Item> {
    if rows == [] then []
    else (if Listed(t, rows[0]) then [rows[0]] else []) + ListedMessages(t, rows[1..])
  }

  /** The states of the ticket that the two statements of one page see: messages are read in the
      first, operations in the second. */
  datatype Reads = Reads(first: Thread, second: Thread)

  /** Everything the two statements can show. */
  function Shown(r: Reads): seq<Item> {
    ListedMessages(r.first, r.first.messages) + r.second.operations
  }

  /** Everything a thread shows. */
  function Visible(t: Thread): seq<Item> {
    Shown(Reads(t, t))
  }

  /** One query: filter, order by the key in the request's direction, limit. */
  function Query(req: Request, rows: seq<Item>, n: nat): seq<Item> {
    Take(Sort(Ascending(req), Select(req, rows)), n)
  }

  function FirstKey(items: seq<Item>): Option<Cursor> {
    if items == [] then None else Some(Key(items[0]))
  }

  function LastKey(items: seq<Item>): Option<Cursor> {
    if items == [] then None else Some(Key(items[|items| - 1]))
  }

  /** The items of the request's window in key order: what a page is a piece of. */
  function Window(items: seq<Item>, req: Request): seq<Item> {
    Sort(true, Select(req, items))
  }

  /** The page a request is for: the first or last `limit` items of the window, with `has_more`
      telling whether the window holds more than that. */
  function PageOf(all: seq<Item>, req: Request, limit: nat): Page {
    var window := Window(all, req);
    var asc := Ascending(req);
    var more := |window| > limit;
    var items := if asc then Take(window, limit) else Last(window, limit);
    Page(items, History(
      if !asc && more then FirstKey(items) else None,
      if asc && more then LastKey(items) else None,
      req.stop, LastKey(items), more))
  }

  lemma {:induction false} SelectKeeps(req: Request, rows: seq<Item>)
    ensures forall x :: x in Select(req, rows) <==> x in rows && InWindow(req, x)
    ensures DistinctKeys(rows) ==> DistinctKeys(Select(req, rows))
  {
    if rows != [] {
      SelectKeeps(req, rows[1..]);
      assert rows == [rows[0]] + rows[1..];
      assert DistinctKeys(rows) ==> forall y <- rows[1..] :: Key(y) != Key(rows[0]);
    }
  }

  lemma {:induction false} SelectConcat(req: Request, a: seq<Item>, b: seq<Item>)
    ensures Select(req, a + b) == Select(req, a) + Select(req, b)
  {
    if a == [] {
      assert a + b == b;
    } else {
      assert (a + b)[1..] == a[1..] + b;
      SelectConcat(req, a[1..], b);
    }
  }

  lemma {:induction false} ListedKeeps(t: Thread, rows: seq<Item>)
    ensures forall x :: x in ListedMessages(t, rows) <==> x in rows && Listed(t, x)
    ensures DistinctKeys(rows) ==> DistinctKeys(ListedMessages(t, rows))
  {
    if rows != [] {
      ListedKeeps(t, rows[1..]);
      assert rows == [rows[0]] + rows[1..];
      assert DistinctKeys(rows) ==> forall y <- rows[1..] :: Key(y) != Key(rows[0]);
    }
  }

  lemma ShownDistinct(r: Reads)
    requires ValidThread(r.first) && ValidThread(r.second)
    ensures DistinctKeys(Shown(r))
    ensures forall x :: x in Shown(r) <==>
      (x in r.first.messages && Listed(r.first, x)) || x in r.second.operations
  {
    ListedKeeps(r.first, r.first.messages);
    DistinctConcat(ListedMessages(r.first, r.first.messages), r.second.operations);
  }

  /** The window holds exactly the items between the cursors, once each and in key order. */
  lemma WindowIsWindow(all: seq<Item>, req: Request)
    requires DistinctKeys(all)
    ensures Sorted(true, Window(all, req))
    ensures forall x :: x in Window(all, req) <==> x in all && InWindow(req, x)
  {
    SelectKeeps(req, all);
    SortSorts(true, Select(req, all));
  }

  /** `get_ticket_messages_page`: two queries cut to limit + 1 rows, sorted together, then truncated
      from the end or split off at the start. */
  method GetMessagesPage(r: Reads, req: Request, limit: nat) returns (page: Page)
    requires ValidThread(r.first) && ValidThread(r.second)
    ensures page == PageOf(Shown(r), req, limit)
  {
    var after := req.after.Some? || req.oldest;
    var queryLimit := limit + 1;
    var items := Query(req, ListedMessages(r.first, r.first.messages), queryLimit);
    items := items + Query(req, r.second.operations, queryLimit);
    PageFromTwoSources(r, req, limit, items);
    items := Sort(true, items);
    var hasMore := |items| > limit;
    if after {
      items := Take(items, limit);
    } else if |items| > limit {
      items := items[|items| - limit..];
    }
    var before := if !after && hasMore then FirstKey(items) else None;
    var nextAfter := if after && hasMore then LastKey(items) else None;
    page := Page(items, History(before, nextAfter, req.stop, LastKey(items), hasMore));
  }

  lemma PageFromTwoSources(r: Reads, req: Request, limit: nat, cut: seq<Item>)
    requires ValidThread(r.first) && ValidThread(r.second)
    requires cut ==
      Query(req, ListedMessages(r.first, r.first.messages), limit + 1) + Query(req, r.second.operations, limit + 1)
    ensures (|Sort(true, cut)| > limit) == PageOf(Shown(r), req, limit).history.hasMore
    ensures PageOf(Shown(r), req, limit).items ==
      if Ascending(req) then Take(Sort(true, cut), limit) else Last(Sort(true, cut), limit)
  {
    var ms, os := Select(req, ListedMessages(r.first, r.first.messages)), Select(req, r.second.operations);
    ShownDistinct(r);
    SelectKeeps(req, Shown(r));
    SelectConcat(req, ListedMessages(r.first, r.first.messages), r.second.operations);
    FirstOrLastOfCut(Ascending(req), ms, os, limit);
  }

  /** Sorting the two cut sources gives the same first, or last, `limit` items as the whole ones. */
  lemma FirstOrLastOfCut(asc: bool, xs: seq<Item>, ys: seq<Item>, limit: nat)
    requires DistinctKeys(xs + ys)
    ensures
      var cut := Sort(true, Take(Sort(asc, xs), limit + 1) + Take(Sort(asc, ys), limit + 1));
      var whole := Sort(true, xs + ys);
      && (|cut| > limit <==> |whole| > limit)
      && (if asc then Take(cut, limit) == Take(whole, limit) else Last(cut, limit) == Last(whole, limit))
  {
    var cut := Take(Sort(asc, xs), limit + 1) + Take(Sort(asc, ys), limit + 1);
    TwoSources(asc, xs, ys, limit + 1, limit);
    SortSorts(true, xs + ys);
    SortSorts(true, cut);
    if !asc {
      LastIsFirstDescending(xs + ys, limit);
      LastIsFirstDescending(cut, limit);
    }
  }

  lemma LastIsFirstDescending(xs: seq<Item>, n: nat)
    requires DistinctKeys(xs)
    ensures Last(Sort(true, xs), n) == Reverse(Take(Sort(false, xs), n))
  {
    SortSorts(true, xs);
    SortSorts(false, xs);
    SortReverse(xs);
    LastOfReverse(Sort(false, xs), n);
  }

  lemma LastOfReverse(s: seq<Item>, n: nat)
    ensures Last(Reverse(s), n) == Reverse(Take(s, n))
  {
  }

  // ----- growth of a thread while a client is paging -----

  /** Everything shown before is still shown. New items may have any key: an operation carries the time
      at which its transaction began, and can appear after items that are newer. */
  predicate StillShows(old_: Thread, t: Thread) {
    ValidThread(t) && forall x <- Visible(old_) :: x in Visible(t)
  }

  /** And everything new has a larger key than all of it. */
  predicate GrewFrom(old_: Thread, t: Thread) {
    && StillShows(old_, t)
    && (forall y <- Visible(t) :: y in Visible(old_) || AboveAll(Visible(old_), y))
  }

  predicate AboveAll(items: seq<Item>, y: Item) {
    forall x <- items :: Less(Key(x), Key(y))
  }

  /** The two statements of a page run at or after t, while items only arrive above. */
  predicate ReadsSince(t: Thread, r: Reads) {
    GrewFrom(t, r.first) && GrewFrom(r.first, r.second)
  }

  /** A page shows all of what its first statement could see and nothing its second could not. */
  lemma ReadsBetween(r: Reads)
    requires ValidThread(r.first) && StillShows(r.first, r.second)
    ensures DistinctKeys(Shown(r))
    ensures forall x <- Visible(r.first) :: x in Shown(r)
    ensures forall x <- Shown(r) :: x in Visible(r.second)
  {
    ShownDistinct(r);
    ShownDistinct(Reads(r.first, r.first));
    ShownDistinct(Reads(r.second, r.second));
  }

  /** What a page read since t shows: all that t shows, and otherwise only items above all of t. */
  lemma ShowsSince(t: Thread, r: Reads)
    requires ValidThread(t) && ReadsSince(t, r)
    ensures DistinctKeys(Shown(r))
    ensures forall x <- Visible(t) :: x in Shown(r)
    ensures forall y <- Shown(r) :: y in Visible(t) || AboveAll(Visible(t), y)
  {
    ReadsBetween(r);
    forall y <- Shown(r)
      ensures y in Visible(t) || AboveAll(Visible(t), y)
    {
      assert y in Visible(r.second);
      if y !in Visible(r.first) {
        assert AboveAll(Visible(r.first), y);
      }
    }
  }

  /** A window that ends at or below an old item is not affected by growth. */
  lemma WindowStable(t: Thread, r: Reads, req: Request, top: Item)
    requires ValidThread(t) && ReadsSince(t, r) && top in Visible(t)
    requires (!Ascending(req) && CursorOf(req) == Some(Key(top))) || req.stop == Some(Key(top))
    ensures Window(Shown(r), req) == Window(Visible(t), req)
  {
    ShownDistinct(Reads(t, t));
    ShowsSince(t, r);
    SelectKeeps(req, Shown(r));
    WindowIsWindow(Visible(t), req);
    forall y <- Select(req, Shown(r)) ensures y in Visible(t) {
      assert !AboveAll(Visible(t), y);
    }
    SortUnique(true, Select(req, Shown(r)), Window(Visible(t), req));
  }

  // ----- the first page of a puzzle ticket -----

  const OLDEST: Request := Request(None, None, None, true)

  function Between(after: Cursor, stop: Option<Cursor>): Request {
    Request(None, Some(after), stop, false)
  }

  function Below(c: Cursor): Request {
    Request(Some(c), None, None, false)
  }

  /** Everything shown, in key order. */
  function ThreadOrder(all: seq<Item>): seq<Item> {
    Window(all, DEFAULT)
  }

  /** The oldest item glued onto the newest page, with cursors that span exactly what lies between. */
  predicate IsGluedPage(latest: seq<Item>, first: Item, gap: seq<Item>, page: Page) {
    && page.items == [first] + latest
    && page.history ==
       if gap == [] then History(None, None, None, LastKey(latest), false)
       else History(None, Some(Key(first)), FirstKey(latest), LastKey(latest), true)
  }

  /** `get_ticket_page`: one page, and on a long puzzle ticket two more. The six statements run one
      after another, so each may see items that the previous ones did not. */
  method GetTicketPage(r0: Reads, r1: Reads, r2: Reads, isPuzzle: bool, req: Request) returns (page: Page)
    requires ValidThread(r0.first) && StillShows(r0.first, r0.second)
    requires StillShows(r0.second, r1.first) && StillShows(r1.first, r1.second)
    requires StillShows(r1.second, r2.first) && StillShows(r2.first, r2.second)
    ensures req.before.Some? || req.after.Some? ==> page == PageOf(Shown(r0), req, PAGE_SIZE)
    ensures req.before.None? && req.after.None? && (!isPuzzle || |ThreadOrder(Shown(r0))| <= PAGE_SIZE) ==>
      page == PageOf(Shown(r0), DEFAULT, PAGE_SIZE)
    ensures req.before.None? && req.after.None? && isPuzzle && |ThreadOrder(Shown(r0))| > PAGE_SIZE ==>
      && ThreadOrder(Shown(r1)) != []
      && var latest, first := Last(ThreadOrder(Shown(r0)), PAGE_SIZE), ThreadOrder(Shown(r1))[0];
         IsGluedPage(latest, first, Window(Shown(r2), Between(Key(first), FirstKey(latest))), page)
  {
    if req.before.Some? || req.after.Some? {
      page := GetMessagesPage(r0, req, PAGE_SIZE);
      return;
    }
    var latest := GetMessagesPage(r0, DEFAULT, PAGE_SIZE);
    if !isPuzzle || latest.history.before.None? {
      return latest;
    }
    var first := GetMessagesPage(r1, OLDEST, 1);
    OldestIsFirst(Shown(r1));
    FirstIsBelowLatest(r0, r1);
    if first.items == [] {
      return latest;
    }
    page := GlueFirst(r2, latest, first.items[0]);
  }

  lemma {:induction false} SelectAll(rows: seq<Item>)
    ensures Select(DEFAULT, rows) == rows && Select(OLDEST, rows) == rows
  {
    if rows != [] { SelectAll(rows[1..]); }
  }

  lemma OldestIsFirst(all: seq<Item>)
    ensures PageOf(all, OLDEST, 1).items == Take(ThreadOrder(all), 1)
  {
    SelectAll(all);
  }

  /** The oldest item of a later page is below all of the newest 50 of a longer thread. */
  lemma FirstIsBelowLatest(r0: Reads, r1: Reads)
    requires ValidThread(r0.first) && StillShows(r0.first, r0.second)
    requires StillShows(r0.second, r1.first) && StillShows(r1.first, r1.second)
    requires |ThreadOrder(Shown(r0))| > PAGE_SIZE
    ensures ThreadOrder(Shown(r1)) != []
    ensures forall x <- Last(ThreadOrder(Shown(r0)), PAGE_SIZE) :: Less(Key(ThreadOrder(Shown(r1))[0]), Key(x))
  {
    ReadsBetween(r0);
    ReadsBetween(r1);
    WindowIsWindow(Shown(r0), DEFAULT);
    WindowIsWindow(Shown(r1), DEFAULT);
    SelectAll(Shown(r0));
    LeastIsBelowLast(ThreadOrder(Shown(r0)), ThreadOrder(Shown(r1)));
  }

  lemma LeastIsBelowLast(s: seq<Item>, t: seq<Item>)
    requires Sorted(true, s) && Sorted(true, t) && |s| > PAGE_SIZE
    requires forall x <- s :: x in t
    ensures t != []
    ensures forall x <- Last(s, PAGE_SIZE) :: Less(Key(t[0]), Key(x))
  {
    assert s[0] in t;
    FirstIsLeast(t, s[0]);
    forall x <- Last(s, PAGE_SIZE)
      ensures Less(Key(t[0]), Key(x))
    {
      var i :| 0 <= i < PAGE_SIZE && Last(s, PAGE_SIZE)[i] == x;
      assert Precedes(true, s[0], s[|s| - PAGE_SIZE + i]);
    }
  }

  lemma FirstIsLeast(s: seq<Item>, x: Item)
    requires Sorted(true, s) && x in s
    ensures s[0] == x || Precedes(true, s[0], x)
  {
    var i :| 0 <= i < |s| && s[i] == x;
  }

  /** The second half of `get_ticket_page`, once the first item is known. */
  method GlueFirst(r2: Reads, latest: Page, firstItem: Item) returns (page: Page)
    requires ValidThread(r2.first) && ValidThread(r2.second) && latest.items != []
    requires forall x <- latest.items :: Less(Key(firstItem), Key(x))
    ensures IsGluedPage(latest.items, firstItem,
                        Window(Shown(r2), Between(Key(firstItem), FirstKey(latest.items))), page)
  {
    var firstCursor := Key(firstItem);
    var stopCursor := FirstKey(latest.items);
    var items := latest.items;
    if forall i :: 0 <= i < |items| ==> Key(items[i]) != firstCursor {
      items := [firstItem] + items;
    }
    var gapProbe := GetMessagesPage(r2, Between(firstCursor, stopCursor), 1);
    if gapProbe.items == [] {
      page := Page(items, History(None, None, None, LastKey(items), false));
    } else {
      page := Page(items, History(None, Some(firstCursor), stopCursor, LastKey(items), true));
    }
  }
}
