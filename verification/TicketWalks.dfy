/** The walks that a client makes over the pages of a ticket (src/db/ticket.rs:626-894). */
module TicketWalks {
  import opened Common
  import opened TicketOrder
  import opened TicketPages

  /** Pages are read one after another: no statement sees less than an earlier one. */
  predicate Successive(visits: seq<Reads>) {
    && (forall k :: 0 <= k < |visits| ==> ValidThread(visits[k].first) && StillShows(visits[k].first, visits[k].second))
    && (forall k :: 0 < k < |visits| ==> StillShows(visits[k - 1].second, visits[k].first))
  }

  lemma {:induction false} SeesMore(visits: seq<Reads>, i: nat, j: nat)
    requires Successive(visits) && i <= j < |visits|
    ensures forall x <- Visible(visits[i].first) :: x in Visible(visits[j].first)
    ensures forall x <- Visible(visits[i].second) :: x in Visible(visits[j].second)
    decreases j - i
  {
    if i < j {
      SeesMore(visits, i, j - 1);
      assert StillShows(visits[j - 1].first, visits[j - 1].second);
      assert StillShows(visits[j - 1].second, visits[j].first);
      assert StillShows(visits[j].first, visits[j].second);
    }
  }

  function Final(visits: seq<Reads>): seq<Item>
    requires visits != []
  {
    Visible(visits[|visits| - 1].second)
  }

  /** What any page of the walk shows: all that its very first statement could see, and nothing that its
      very last could not. */
  lemma ShowsBase(visits: seq<Reads>, k: nat)
    requires Successive(visits) && k < |visits|
    ensures DistinctKeys(Shown(visits[k]))
    ensures forall x <- Visible(visits[0].first) :: x in Shown(visits[k])
    ensures forall x <- Shown(visits[k]) :: x in Final(visits)
  {
    ReadsBetween(visits[k]);
    SeesMore(visits, 0, k);
    SeesMore(visits, k, |visits| - 1);
  }

  /** Every item of `base` once, in key order, and nothing that is not in `arrived`. */
  predicate IsWhole(base: seq<Item>, arrived: seq<Item>, s: seq<Item>) {
    Sorted(true, s) && (forall x <- base :: x in s) && (forall x <- s :: x in arrived)
  }

  /** The whole of a thread that grew from t to u meanwhile is t in thread order, followed by what
      arrived; without arrivals it is exactly the thread. */
  lemma WholeIsThread(t: Thread, u: Thread, s: seq<Item>)
    requires ValidThread(t) && GrewFrom(t, u) && IsWhole(Visible(t), Visible(u), s)
    ensures ThreadOrder(Visible(t)) <= s
    ensures forall y <- s[|ThreadOrder(Visible(t))|..] :: y !in Visible(t) && AboveAll(Visible(t), y)
    ensures (forall y <- Visible(u) :: y in Visible(t)) ==> s == ThreadOrder(Visible(t))
  {
    var a := ThreadOrder(Visible(t));
    ShownDistinct(Reads(t, t));
    WindowIsWindow(Visible(t), DEFAULT);
    forall y | y in s && y !in a
      ensures AboveAll(a, y)
    {
      assert y in Visible(u);
    }
    SortedPrefix(a, s);
    forall y <- s[|a|..]
      ensures y !in Visible(t) && AboveAll(Visible(t), y)
    {
      NotInPrefix(s, |a|, y);
      assert y in Visible(u);
    }
    if forall y <- Visible(u) :: y in Visible(t) {
      forall y <- s ensures y in a {}
      SortedPrefix(s, a);
    }
  }

  lemma {:induction false} SortedPrefix(a: seq<Item>, s: seq<Item>)
    requires Sorted(true, a) && Sorted(true, s)
    requires forall x <- a :: x in s
    requires forall y <- s :: y in a || AboveAll(a, y)
    ensures a <= s
  {
    if a != [] {
      assert a[0] in s && s[0] in s;
      FirstIsLeast(s, a[0]);
      if s[0] in a { FirstIsLeast(a, s[0]); }
      assert s[0] == a[0];
      forall x <- a[1..] ensures x in s[1..] {
        NotInPrefix(a, 1, x);
        assert s == [s[0]] + s[1..] && x in a && a[0] in a[..1];
      }
      forall y <- s[1..] ensures y in a[1..] || AboveAll(a[1..], y) {
        NotInPrefix(s, 1, y);
        assert a == [a[0]] + a[1..] && y in s && s[0] in s[..1];
      }
      SortedPrefix(a[1..], s[1..]);
    }
  }

  lemma NotInPrefix(s: seq<Item>, n: nat, y: Item)
    requires Sorted(true, s) && n <= |s| && y in s[n..]
    ensures y !in s[..n]
  {
    var i :| 0 <= i < |s| - n && s[n..][i] == y;
    forall j | 0 <= j < n ensures s[..n][j] != y {
      assert Precedes(true, s[j], s[n + i]);
    }
  }

  lemma SortedConcat(a: seq<Item>, b: seq<Item>)
    requires Sorted(true, a) && Sorted(true, b)
    requires forall x <- a, y <- b :: Less(Key(x), Key(y))
    ensures Sorted(true, a + b)
  {
    var s := a + b;
    forall i, j | 0 <= i < j < |s|
      ensures Precedes(true, s[i], s[j])
    {
      if i < |a| <= j { assert a[i] in a && b[j - |a|] in b; }
    }
  }

  lemma {:induction false} SortedLength(s: seq<Item>, t: seq<Item>)
    requires Sorted(true, s) && forall x <- s :: x in t
    ensures |s| <= |t|
  {
    if s != [] {
      assert s[0] in t;
      var i :| 0 <= i < |t| && t[i] == s[0];
      var rest := t[..i] + t[i + 1..];
      forall x <- s[1..] ensures x in rest {
        NotInPrefix(s, 1, x);
        assert s[0] in s[..1] && x in s;
        var j :| 0 <= j < |t| && t[j] == x;
        assert rest[if j < i then j else j - 1] == x;
      }
      SortedLength(s[1..], rest);
    }
  }

  // ----- walking back from the newest page -----

  predicate Under(upper: Option<Cursor>, x: Item) {
    upper.None? || Less(Key(x), upper.value)
  }

  function BackRequest(upper: Option<Cursor>): Request {
    Request(upper, None, None, false)
  }

  /** What the client can rely on: the page holds everything shown from its first item up to the
      cursor it was fetched with, and says whether anything lies below. */
  predicate IsBackPiece(all: seq<Item>, upper: Option<Cursor>, page: Page) {
    && Sorted(true, page.items)
    && (forall x <- page.items :: x in all && Under(upper, x))
    && match page.history.before
       case None => forall x <- all :: Under(upper, x) ==> x in page.items
       case Some(c) =>
         && |page.items| == PAGE_SIZE && c == Key(page.items[0])
         && (forall x <- all :: Under(upper, x) && !Less(Key(x), c) ==> x in page.items)
         && HasBelow(all, c)
  }

  predicate HasBelow(all: seq<Item>, c: Cursor) {
    exists x <- all :: Less(Key(x), c)
  }

  lemma BackPageIsPiece(all: seq<Item>, upper: Option<Cursor>, page: Page)
    requires DistinctKeys(all) && page == PageOf(all, BackRequest(upper), PAGE_SIZE)
    ensures IsBackPiece(all, upper, page)
  {
    WindowIsWindow(all, BackRequest(upper));
    LastOfWindowIsPiece(all, upper, Window(all, BackRequest(upper)), page);
  }

  lemma LastOfWindowIsPiece(all: seq<Item>, upper: Option<Cursor>, w: seq<Item>, page: Page)
    requires Sorted(true, w) && forall x :: x in w <==> x in all && Under(upper, x)
    requires page.items == Last(w, PAGE_SIZE)
    requires page.history.before == if |w| > PAGE_SIZE then FirstKey(page.items) else None
    ensures IsBackPiece(all, upper, page)
  {
    LastIsPiece(w);
    assert |w| > PAGE_SIZE ==> w[0] in w;
  }

  lemma NotBefore(w: seq<Item>, i: nat, j: nat)
    requires Sorted(true, w) && i < |w| && j < |w| && !Less(Key(w[j]), Key(w[i]))
    ensures i <= j
  {
  }

  lemma LastIsPiece(w: seq<Item>)
    requires Sorted(true, w)
    ensures
      var items := Last(w, PAGE_SIZE);
      && Sorted(true, items) && (forall x <- items :: x in w)
      && (|w| <= PAGE_SIZE ==> items == w)
      && (|w| > PAGE_SIZE ==>
            && |items| == PAGE_SIZE && Less(Key(w[0]), Key(items[0]))
            && forall x <- w :: !Less(Key(x), Key(items[0])) ==> x in items)
  {
    var items := Last(w, PAGE_SIZE);
    if |w| > PAGE_SIZE {
      var n := |w| - PAGE_SIZE;
      assert Precedes(true, w[0], w[n]);
      forall x <- w | !Less(Key(x), Key(items[0]))
        ensures x in items
      {
        var i :| 0 <= i < |w| && w[i] == x;
        NotBefore(w, n, i);
        assert items[i - n] == x;
      }
    }
  }

  /** The cursor the k-th page is fetched with. */
  function Upper(pages: seq<Page>, k: nat): Option<Cursor>
    requires k <= |pages|
  {
    if k == 0 then None else pages[k - 1].history.before
  }

  /** The k-th answer: the last page only has no further cursor. */
  predicate IsBackPage(visits: seq<Reads>, pages: seq<Page>, k: nat)
    requires k < |pages| == |visits|
  {
    && pages[k] == PageOf(Shown(visits[k]), BackRequest(Upper(pages, k)), PAGE_SIZE)
    && (pages[k].history.before.None? <==> k == |pages| - 1)
  }

  /** From the default page back, following `before` until there is none. */
  predicate IsBackWalk(visits: seq<Reads>, pages: seq<Page>) {
    && |visits| == |pages| > 0
    && forall k: nat :: k < |pages| ==> IsBackPage(visits, pages, k)
  }

  /** Pages from the k-th on, earlier items in front of later ones. */
  function CollectedBack(pages: seq<Page>, k: nat): seq<Item>
    decreases |pages| - k
  {
    if k >= |pages| then [] else CollectedBack(pages, k + 1) + pages[k].items
  }

  /** The facts about the k-th page: it is a piece, and everything on it had arrived by the end of
      the first page. */
  predicate GoodBackPage(base: seq<Item>, arrived: seq<Item>, pages: seq<Page>, k: nat)
    requires k < |pages|
  {
    && GoodBackPiece(base, arrived, Upper(pages, k), pages[k])
    && (pages[k].history.before.None? <==> k == |pages| - 1)
  }

  predicate GoodBackPiece(base: seq<Item>, arrived: seq<Item>, upper: Option<Cursor>, page: Page) {
    && Sorted(true, page.items)
    && (forall x <- page.items :: x in arrived && Under(upper, x))
    && match page.history.before
       case None => forall x <- base :: Under(upper, x) ==> x in page.items
       case Some(c) =>
         && |page.items| == PAGE_SIZE && c == Key(page.items[0])
         && forall x <- base :: Under(upper, x) && !Less(Key(x), c) ==> x in page.items
  }

  lemma {:induction false} BackPagesCollect(base: seq<Item>, arrived: seq<Item>, pages: seq<Page>, k: nat)
    requires k < |pages|
    requires forall i: nat :: i < |pages| ==> GoodBackPage(base, arrived, pages, i)
    ensures Sorted(true, CollectedBack(pages, k))
    ensures forall x <- CollectedBack(pages, k) :: x in arrived && Under(Upper(pages, k), x)
    ensures forall x <- base :: Under(Upper(pages, k), x) ==> x in CollectedBack(pages, k)
    ensures |CollectedBack(pages, k)| >= PAGE_SIZE * (|pages| - 1 - k) + |pages[|pages| - 1].items|
    decreases |pages| - k
  {
    assert GoodBackPage(base, arrived, pages, k);
    if k == |pages| - 1 {
      assert CollectedBack(pages, k) == pages[k].items;
    } else {
      var older := CollectedBack(pages, k + 1);
      BackPagesCollect(base, arrived, pages, k + 1);
      AppendPiece(base, arrived, older, Upper(pages, k), pages[k]);
    }
  }

  /** A page put behind everything below it. */
  lemma AppendPiece(base: seq<Item>, arrived: seq<Item>, older: seq<Item>, upper: Option<Cursor>, page: Page)
    requires GoodBackPiece(base, arrived, upper, page) && page.history.before.Some?
    requires Sorted(true, older) && forall x <- older :: x in arrived && Less(Key(x), page.history.before.value)
    requires forall x <- base :: Less(Key(x), page.history.before.value) ==> x in older
    ensures Sorted(true, older + page.items)
    ensures forall x <- older + page.items :: x in arrived && Under(upper, x)
    ensures forall x <- base :: Under(upper, x) ==> x in older + page.items
  {
    var c := page.history.before.value;
    forall y <- page.items ensures !Less(Key(y), c) {
      FirstIsLeast(page.items, y);
    }
    SortedConcat(older, page.items);
    assert page.items[0] in page.items;
  }

  lemma BackWalkPages(visits: seq<Reads>, pages: seq<Page>, k: nat)
    requires Successive(visits) && IsBackWalk(visits, pages) && k < |pages|
    ensures IsBackPiece(Shown(visits[k]), Upper(pages, k), pages[k])
    ensures pages[k].history.before.None? <==> k == |pages| - 1
  {
    assert IsBackPage(visits, pages, k);
    ShowsBase(visits, k);
    BackPageIsPiece(Shown(visits[k]), Upper(pages, k), pages[k]);
  }

  lemma GoodBackPages(visits: seq<Reads>, pages: seq<Page>, k: nat)
    requires Successive(visits) && IsBackWalk(visits, pages) && k < |pages|
    ensures GoodBackPage(Visible(visits[0].first), Final(visits), pages, k)
  {
    ShowsBase(visits, k);
    BackWalkPages(visits, pages, k);
  }

  /** A page fetched because there was more is not empty. */
  lemma LaterPageHasItems(visits: seq<Reads>, pages: seq<Page>, k: nat)
    requires Successive(visits) && IsBackWalk(visits, pages) && 0 < k < |pages|
    ensures pages[k].items != []
  {
    BackWalkPages(visits, pages, k - 1);
    BackWalkPages(visits, pages, k);
    LaterShowsMore(visits, k);
    SomethingBelow(Shown(visits[k - 1]), Shown(visits[k]), Upper(pages, k).value, pages[k]);
  }

  lemma LaterShowsMore(visits: seq<Reads>, k: nat)
    requires Successive(visits) && 0 < k < |visits|
    ensures forall x <- Shown(visits[k - 1]) :: x in Shown(visits[k])
  {
    ReadsBetween(visits[k - 1]);
    ReadsBetween(visits[k]);
    assert StillShows(visits[k - 1].second, visits[k].first);
  }

  lemma SomethingBelow(all: seq<Item>, later: seq<Item>, c: Cursor, page: Page)
    requires HasBelow(all, c)
    requires forall x <- all :: x in later
    requires IsBackPiece(later, Some(c), page)
    ensures page.items != []
  {
    var x :| x in all && Less(Key(x), c);
    assert x in later && Under(Some(c), x);
  }

  /** Following `before` from the default page: every item that the first statement could see, once
      each and in key order, whatever appears between any two of the statements, and nothing that the last
      could not see; in boundedly many requests. */
  lemma BackWalkIsWhole(visits: seq<Reads>, pages: seq<Page>)
    requires Successive(visits) && IsBackWalk(visits, pages)
    ensures IsWhole(Visible(visits[0].first), Final(visits), CollectedBack(pages, 0))
    ensures |pages| > 1 ==> PAGE_SIZE * (|pages| - 1) < |CollectedBack(pages, 0)| <= |Final(visits)|
  {
    forall k: nat | k < |pages|
      ensures GoodBackPage(Visible(visits[0].first), Final(visits), pages, k)
    {
      GoodBackPages(visits, pages, k);
    }
    BackPagesCollect(Visible(visits[0].first), Final(visits), pages, 0);
    SortedLength(CollectedBack(pages, 0), Final(visits));
    if |pages| > 1 { LaterPageHasItems(visits, pages, |pages| - 1); }
  }

  /** The page whose cursors span the key of y. */
  function CoveringPage(pages: seq<Page>, y: Item, k: nat): nat
    requires k < |pages|
    ensures k <= CoveringPage(pages, y, k) < |pages|
    decreases |pages| - k
  {
    var before := pages[k].history.before;
    if k == |pages| - 1 || before.None? || !Less(Key(y), before.value) then k else CoveringPage(pages, y, k + 1)
  }

  /** Which items the walk returns, late ones included: y if and only if it was shown when the one page
      whose cursors span its key was read. */
  lemma BackWalkReturnsIff(visits: seq<Reads>, pages: seq<Page>, y: Item)
    requires Successive(visits) && IsBackWalk(visits, pages)
    ensures y in CollectedBack(pages, 0) <==> y in Shown(visits[CoveringPage(pages, y, 0)])
  {
    BackWalkReturnsFrom(visits, pages, y, 0);
  }

  lemma {:induction false} BackWalkReturnsFrom(visits: seq<Reads>, pages: seq<Page>, y: Item, k: nat)
    requires Successive(visits) && IsBackWalk(visits, pages) && k < |pages| && Under(Upper(pages, k), y)
    ensures y in CollectedBack(pages, k) <==> y in Shown(visits[CoveringPage(pages, y, k)])
    decreases |pages| - k
  {
    BackWalkPages(visits, pages, k);
    BackPieceHolds(Shown(visits[k]), Upper(pages, k), pages[k], y);
    if k < |pages| - 1 {
      BackPagesBelow(visits, pages, k + 1);
      if Less(Key(y), pages[k].history.before.value) {
        BackWalkReturnsFrom(visits, pages, y, k + 1);
      }
    } else {
      assert CollectedBack(pages, k) == pages[k].items;
    }
  }

  /** A page holds exactly what was shown between its cursors. */
  lemma BackPieceHolds(all: seq<Item>, upper: Option<Cursor>, page: Page, y: Item)
    requires IsBackPiece(all, upper, page) && Under(upper, y)
    ensures y in page.items <==>
      y in all && (page.history.before.None? || !Less(Key(y), page.history.before.value))
  {
    if y in page.items { FirstIsLeast(page.items, y); }
  }

  lemma BackPagesBelow(visits: seq<Reads>, pages: seq<Page>, k: nat)
    requires Successive(visits) && IsBackWalk(visits, pages) && k < |pages|
    ensures forall x <- CollectedBack(pages, k) :: Under(Upper(pages, k), x)
  {
    forall i: nat | i < |pages|
      ensures GoodBackPage(Visible(visits[0].first), Final(visits), pages, i)
    {
      GoodBackPages(visits, pages, i);
    }
    BackPagesCollect(Visible(visits[0].first), Final(visits), pages, k);
  }

  // ----- when items only arrive above -----

  /** Every item that one statement sees and an earlier one did not is above all that the earlier saw. */
  predicate Growing(visits: seq<Reads>) {
    && (forall k :: 0 <= k < |visits| ==> ValidThread(visits[k].first) && GrewFrom(visits[k].first, visits[k].second))
    && (forall k :: 0 < k < |visits| ==> GrewFrom(visits[k - 1].second, visits[k].first))
  }

  lemma GrewTransitive(a: Thread, b: Thread, c: Thread)
    requires GrewFrom(a, b) && GrewFrom(b, c)
    ensures GrewFrom(a, c)
  {
    forall y <- Visible(c)
      ensures y in Visible(a) || AboveAll(Visible(a), y)
    {
      if y !in Visible(b) { assert AboveAll(Visible(b), y); }
    }
  }

  lemma {:induction false} GrewSinceFirstPage(visits: seq<Reads>, k: nat)
    requires Growing(visits) && 0 < k < |visits|
    ensures GrewFrom(visits[0].second, visits[k].second)
  {
    assert GrewFrom(visits[k - 1].second, visits[k].first) && GrewFrom(visits[k].first, visits[k].second);
    GrewTransitive(visits[k - 1].second, visits[k].first, visits[k].second);
    if k > 1 {
      GrewSinceFirstPage(visits, k - 1);
      GrewTransitive(visits[0].second, visits[k - 1].second, visits[k].second);
    }
  }

  lemma SeesFirstPage(visits: seq<Reads>, k: nat)
    requires Growing(visits) && k < |visits|
    ensures Successive(visits)
    ensures forall x <- Visible(visits[0].second) :: x in Visible(visits[k].second)
  {
    assert Successive(visits);
    SeesMore(visits, 0, k);
  }

  /** A whole collection that lies below something of the first page, but for what that page shows, has
      only what had arrived by then. */
  lemma WholeOfFirstPage(visits: seq<Reads>, s: seq<Item>, top: Item)
    requires Growing(visits) && visits != [] && IsWhole(Visible(visits[0].first), Final(visits), s)
    requires top in Visible(visits[0].second)
    requires forall y <- s :: y in Visible(visits[0].second) || Less(Key(y), Key(top))
    ensures IsWhole(Visible(visits[0].first), Visible(visits[0].second), s)
    ensures ThreadOrder(Visible(visits[0].first)) <= s && |s| <= |Visible(visits[0].second)|
    ensures visits[0].first == visits[0].second ==> s == ThreadOrder(Visible(visits[0].first))
  {
    if |visits| > 1 { GrewSinceFirstPage(visits, |visits| - 1); }
    forall y <- s
      ensures y in Visible(visits[0].second)
    {
      assert y in Final(visits);
      if AboveAll(Visible(visits[0].second), y) { assert Less(Key(top), Key(y)); }
    }
    WholeIsThread(visits[0].first, visits[0].second, s);
    SortedLength(s, Visible(visits[0].second));
  }

  /** Then the walk begins with the thread as the first statement saw it, in order, followed by what
      arrived by the second; and it is the thread if nothing did. */
  lemma BackWalkIsThread(visits: seq<Reads>, pages: seq<Page>)
    requires Growing(visits) && IsBackWalk(visits, pages)
    ensures Successive(visits)
    ensures IsWhole(Visible(visits[0].first), Visible(visits[0].second), CollectedBack(pages, 0))
    ensures ThreadOrder(Visible(visits[0].first)) <= CollectedBack(pages, 0)
    ensures visits[0].first == visits[0].second ==> CollectedBack(pages, 0) == ThreadOrder(Visible(visits[0].first))
    ensures |pages| > 1 ==> PAGE_SIZE * (|pages| - 1) < |Visible(visits[0].second)|
  {
    SeesFirstPage(visits, 0);
    BackWalkIsWhole(visits, pages);
    BackWalkPages(visits, pages, 0);
    ReadsBetween(visits[0]);
    if |pages| > 1 {
      BackPagesBelow(visits, pages, 1);
      assert pages[0].items[0] in pages[0].items;
      WholeOfFirstPage(visits, CollectedBack(pages, 0), pages[0].items[0]);
    } else {
      assert CollectedBack(pages, 0) == pages[0].items;
      WholeIsThread(visits[0].first, visits[0].second, CollectedBack(pages, 0));
    }
  }

  // ----- the gap behind the first item of a puzzle ticket -----

  predicate Inside(lower: Cursor, stop: Cursor, x: Item) {
    Less(lower, Key(x)) && Less(Key(x), stop)
  }

  /** The page holds everything of the gap up to its last item, and says whether anything follows. */
  predicate GoodGapPage(base: seq<Item>, arrived: seq<Item>, first: Cursor, stop: Cursor, pages: seq<Page>, k: nat)
    requires k < |pages|
  {
    && Lower(first, pages, k).Some?
    && GoodGapPiece(base, arrived, Lower(first, pages, k).value, stop, pages[k])
    && (pages[k].history.after.None? <==> k == |pages| - 1)
  }

  predicate GoodGapPiece(base: seq<Item>, arrived: seq<Item>, lower: Cursor, stop: Cursor, page: Page) {
    && Sorted(true, page.items)
    && (forall x <- page.items :: x in arrived && Inside(lower, stop, x))
    && match page.history.after
       case None => forall x <- base :: Inside(lower, stop, x) ==> x in page.items
       case Some(c) =>
         && |page.items| == PAGE_SIZE && c == Key(page.items[PAGE_SIZE - 1])
         && forall x <- base :: Inside(lower, stop, x) && !Less(c, Key(x)) ==> x in page.items
  }

  lemma GapPageIsGood(base: seq<Item>, arrived: seq<Item>, all: seq<Item>, lower: Cursor, stop: Cursor, page: Page)
    requires DistinctKeys(all) && page == PageOf(all, Between(lower, Some(stop)), PAGE_SIZE)
    requires forall x <- base :: x in all
    requires forall x <- all :: Less(Key(x), stop) ==> x in arrived
    ensures GoodGapPiece(base, arrived, lower, stop, page)
  {
    var w := Window(all, Between(lower, Some(stop)));
    WindowIsWindow(all, Between(lower, Some(stop)));
    TakeIsPiece(w);
    forall x <- base | Inside(lower, stop, x) && (page.history.after.Some? ==> !Less(page.history.after.value, Key(x)))
      ensures x in page.items
    {
      assert x in w;
    }
  }

  lemma TakeIsPiece(w: seq<Item>)
    requires Sorted(true, w)
    ensures
      var items := Take(w, PAGE_SIZE);
      && Sorted(true, items) && (forall x <- items :: x in w)
      && (|w| <= PAGE_SIZE ==> items == w)
      && (|w| > PAGE_SIZE ==>
            && |items| == PAGE_SIZE
            && forall x <- w :: !Less(Key(items[PAGE_SIZE - 1]), Key(x)) ==> x in items)
  {
    var items := Take(w, PAGE_SIZE);
    if |w| > PAGE_SIZE {
      forall x <- w | !Less(Key(items[PAGE_SIZE - 1]), Key(x))
        ensures x in items
      {
        var i :| 0 <= i < |w| && w[i] == x;
        NotBefore(w, i, PAGE_SIZE - 1);
        assert items[i] == x;
      }
    }
  }

  /** The cursor after which the k-th page begins. */
  function Lower(first: Cursor, pages: seq<Page>, k: nat): Option<Cursor>
    requires k <= |pages|
  {
    if k == 0 then Some(first) else pages[k - 1].history.after
  }

  predicate IsGapPage(visits: seq<Reads>, first: Cursor, stop: Cursor, pages: seq<Page>, k: nat)
    requires k < |pages| == |visits|
  {
    && Lower(first, pages, k).Some?
    && pages[k] == PageOf(Shown(visits[k]), Between(Lower(first, pages, k).value, Some(stop)), PAGE_SIZE)
    && (pages[k].history.after.None? <==> k == |pages| - 1)
  }

  /** From the first item forward, following `after` until there is none; `stop` is passed on. */
  predicate IsGapWalk(visits: seq<Reads>, first: Cursor, stop: Cursor, pages: seq<Page>) {
    && |visits| == |pages| > 0
    && forall k: nat :: k < |pages| ==> IsGapPage(visits, first, stop, pages, k)
  }

  function CollectedForward(pages: seq<Page>, k: nat): seq<Item>
    decreases |pages| - k
  {
    if k >= |pages| then [] else pages[k].items + CollectedForward(pages, k + 1)
  }

  lemma {:induction false} GapPagesCollect(base: seq<Item>, arrived: seq<Item>, first: Cursor, stop: Cursor,
                                           pages: seq<Page>, k: nat)
    requires k < |pages|
    requires forall i: nat :: i < |pages| ==> GoodGapPage(base, arrived, first, stop, pages, i)
    ensures Sorted(true, CollectedForward(pages, k))
    ensures Lower(first, pages, k).Some?
    ensures forall x <- CollectedForward(pages, k) :: x in arrived && Inside(Lower(first, pages, k).value, stop, x)
    ensures forall x <- base :: Inside(Lower(first, pages, k).value, stop, x) ==> x in CollectedForward(pages, k)
    ensures |CollectedForward(pages, k)| >= PAGE_SIZE * (|pages| - 1 - k)
    decreases |pages| - k
  {
    assert GoodGapPage(base, arrived, first, stop, pages, k);
    if k == |pages| - 1 {
      assert CollectedForward(pages, k) == pages[k].items;
    } else {
      GapPagesCollect(base, arrived, first, stop, pages, k + 1);
      PrependPiece(base, arrived, CollectedForward(pages, k + 1), Lower(first, pages, k).value, stop, pages[k]);
    }
  }

  /** A page put in front of everything above it. */
  lemma PrependPiece(base: seq<Item>, arrived: seq<Item>, newer: seq<Item>, lower: Cursor, stop: Cursor, page: Page)
    requires GoodGapPiece(base, arrived, lower, stop, page) && page.history.after.Some?
    requires Sorted(true, newer) && forall x <- newer :: x in arrived && Inside(page.history.after.value, stop, x)
    requires forall x <- base :: Inside(page.history.after.value, stop, x) ==> x in newer
    ensures Sorted(true, page.items + newer)
    ensures forall x <- page.items + newer :: x in arrived && Inside(lower, stop, x)
    ensures forall x <- base :: Inside(lower, stop, x) ==> x in page.items + newer
  {
    forall y <- page.items ensures !Less(page.history.after.value, Key(y)) {
      LastIsMost(page.items, y);
    }
    SortedConcat(page.items, newer);
    assert page.items[PAGE_SIZE - 1] in page.items;
  }

  lemma LastIsMost(s: seq<Item>, x: Item)
    requires Sorted(true, s) && x in s
    ensures s[|s| - 1] == x || Less(Key(x), Key(s[|s| - 1]))
  {
    var i :| 0 <= i < |s| && s[i] == x;
  }

  /** Everything of the gap, in order, over all of its pages. */
  lemma GapIsCollected(base: seq<Item>, arrived: seq<Item>, visits: seq<Reads>, first: Cursor, stop: Cursor,
                       pages: seq<Page>)
    requires IsGapWalk(visits, first, stop, pages)
    requires forall k :: 0 <= k < |visits| ==> ServesGap(base, arrived, stop, Shown(visits[k]))
    ensures Sorted(true, CollectedForward(pages, 0))
    ensures forall x <- CollectedForward(pages, 0) :: x in arrived && Inside(first, stop, x)
    ensures forall x <- base :: Inside(first, stop, x) ==> x in CollectedForward(pages, 0)
    ensures |CollectedForward(pages, 0)| >= PAGE_SIZE * (|pages| - 1)
  {
    forall k: nat | k < |pages|
      ensures GoodGapPage(base, arrived, first, stop, pages, k)
    {
      assert IsGapPage(visits, first, stop, pages, k);
      assert ServesGap(base, arrived, stop, Shown(visits[k]));
      GapPageIsGood(base, arrived, Shown(visits[k]), Lower(first, pages, k).value, stop, pages[k]);
    }
    GapPagesCollect(base, arrived, first, stop, pages, 0);
  }

  predicate ServesGap(base: seq<Item>, arrived: seq<Item>, stop: Cursor, all: seq<Item>) {
    && DistinctKeys(all)
    && (forall x <- base :: x in all)
    && (forall x <- all :: Less(Key(x), stop) ==> x in arrived)
  }

  lemma LaterPageServesGap(visits: seq<Reads>, k: nat, stop: Cursor)
    requires Successive(visits) && k < |visits|
    ensures ServesGap(Visible(visits[0].first), Final(visits), stop, Shown(visits[k]))
  {
    ShowsBase(visits, k);
  }

  /** First item, gap and newest page put together. */
  lemma GlueIsWhole(base: seq<Item>, arrived: seq<Item>, first: Item, gap: seq<Item>, latest: seq<Item>)
    requires Sorted(true, gap) && Sorted(true, latest) && latest != [] && first in arrived
    requires Less(Key(first), Key(latest[0]))
    requires forall x <- latest :: x in arrived
    requires forall x <- gap :: x in arrived && Inside(Key(first), Key(latest[0]), x)
    requires forall x <- base :: x == first || Less(Key(first), Key(x))
    requires forall x <- base :: !Less(Key(x), Key(latest[0])) ==> x in latest
    requires forall x <- base :: Inside(Key(first), Key(latest[0]), x) ==> x in gap
    ensures IsWhole(base, arrived, [first] + gap + latest)
  {
    forall y <- latest ensures y == latest[0] || Less(Key(latest[0]), Key(y)) {
      FirstIsLeast(latest, y);
    }
    SortedConcat(gap, latest);
    assert latest[0] in latest;
    SortedConcat([first], gap + latest);
    assert [first] + gap + latest == [first] + (gap + latest);
  }

  /** The answers that make up a puzzle ticket: `visits` are the three queries of the first page and then
      those of the gap pages. */
  predicate IsPuzzleWalk(visits: seq<Reads>, page: Page, pages: seq<Page>) {
    && |visits| == 3 + |pages|
    && |ThreadOrder(Shown(visits[0]))| > PAGE_SIZE && ThreadOrder(Shown(visits[1])) != []
    && IsGluedPage(Latest(visits), Oldest(visits),
                   Window(Shown(visits[2]), Between(Key(Oldest(visits)), FirstKey(Latest(visits)))), page)
    && (page.history.after.None? ==> pages == [])
    && (page.history.after.Some? ==> IsGapWalk(visits[3..], Key(Oldest(visits)), Key(Latest(visits)[0]), pages))
  }

  function Latest(visits: seq<Reads>): seq<Item>
    requires visits != [] && |ThreadOrder(Shown(visits[0]))| > PAGE_SIZE
    ensures |Latest(visits)| == PAGE_SIZE
  {
    Last(ThreadOrder(Shown(visits[0])), PAGE_SIZE)
  }

  function Oldest(visits: seq<Reads>): Item
    requires |visits| > 1 && ThreadOrder(Shown(visits[1])) != []
  {
    ThreadOrder(Shown(visits[1]))[0]
  }

  function Collected(page: Page, pages: seq<Page>): seq<Item>
    requires page.items != []
  {
    page.items[..1] + CollectedForward(pages, 0) + page.items[1..]
  }

  /** On a puzzle ticket longer than a page the first item, the gap pages and the newest page hold every
      item that the very first statement could see, once each and in key order, whatever appears between
      any two statements, and nothing that the last could not see; in boundedly many requests. */
  lemma FirstGapLatestIsWhole(visits: seq<Reads>, page: Page, pages: seq<Page>)
    requires Successive(visits) && IsPuzzleWalk(visits, page, pages)
    ensures page.items == [Oldest(visits)] + Latest(visits)
    ensures Collected(page, pages) == [Oldest(visits)] + CollectedForward(pages, 0) + Latest(visits)
    ensures IsWhole(Visible(visits[0].first), Final(visits), Collected(page, pages))
    ensures forall x <- CollectedForward(pages, 0) :: Inside(Key(Oldest(visits)), Key(Latest(visits)[0]), x)
    ensures PAGE_SIZE * |pages| < |Collected(page, pages)| <= |Final(visits)|
  {
    var base, arrived := Visible(visits[0].first), Final(visits);
    var latest, first := Latest(visits), Oldest(visits);
    LatestIsPiece(visits);
    FirstIsOldest(visits);
    assert page.items[..1] == [first] && page.items[1..] == latest;
    if page.history.after.None? {
      GapIsEmpty(visits, first, latest[0]);
    } else {
      forall k | 0 <= k < |visits[3..]|
        ensures ServesGap(base, arrived, Key(latest[0]), Shown(visits[3..][k]))
      {
        LaterPageServesGap(visits, k + 3, Key(latest[0]));
      }
      GapIsCollected(base, arrived, visits[3..], Key(first), Key(latest[0]), pages);
    }
    GlueIsWhole(base, arrived, first, CollectedForward(pages, 0), latest);
    SortedLength([first] + CollectedForward(pages, 0) + latest, arrived);
  }

  lemma LatestIsPiece(visits: seq<Reads>)
    requires Successive(visits) && visits != [] && |ThreadOrder(Shown(visits[0]))| > PAGE_SIZE
    ensures Sorted(true, Latest(visits))
    ensures forall x <- Latest(visits) :: x in Shown(visits[0]) && x in Visible(visits[0].second) && x in Final(visits)
    ensures forall x <- Shown(visits[0]) :: !Less(Key(x), Key(Latest(visits)[0])) ==> x in Latest(visits)
    ensures forall x <- Visible(visits[0].first) :: x in Shown(visits[0])
  {
    ReadsBetween(visits[0]);
    ShowsBase(visits, 0);
    WindowIsWindow(Shown(visits[0]), DEFAULT);
    LastIsPiece(ThreadOrder(Shown(visits[0])));
  }

  /** The item fetched as the oldest is below the newest page and all that the first statement could see. */
  lemma FirstIsOldest(visits: seq<Reads>)
    requires Successive(visits) && |visits| >= 2
    requires |ThreadOrder(Shown(visits[0]))| > PAGE_SIZE && ThreadOrder(Shown(visits[1])) != []
    ensures Oldest(visits) in Shown(visits[1]) && Oldest(visits) in Final(visits)
    ensures Less(Key(Oldest(visits)), Key(Latest(visits)[0]))
    ensures forall x <- Shown(visits[1]) :: x == Oldest(visits) || Less(Key(Oldest(visits)), Key(x))
    ensures forall x <- Visible(visits[0].first) :: x == Oldest(visits) || Less(Key(Oldest(visits)), Key(x))
  {
    var t := ThreadOrder(Shown(visits[1]));
    assert StillShows(visits[0].second, visits[1].first);
    FirstIsBelowLatest(visits[0], visits[1]);
    assert Latest(visits)[0] in Latest(visits);
    ShowsBase(visits, 1);
    WindowIsWindow(Shown(visits[1]), DEFAULT);
    assert t[0] in t;
    forall x <- Shown(visits[1])
      ensures x == t[0] || Less(Key(t[0]), Key(x))
    {
      assert x in t;
      FirstIsLeast(t, x);
    }
  }

  lemma GapIsEmpty(visits: seq<Reads>, first: Item, top: Item)
    requires Successive(visits) && |visits| >= 3
    requires Window(Shown(visits[2]), Between(Key(first), Some(Key(top)))) == []
    ensures forall x <- Visible(visits[0].first) :: !Inside(Key(first), Key(top), x)
  {
    ShowsBase(visits, 2);
    WindowIsWindow(Shown(visits[2]), Between(Key(first), Some(Key(top))));
    forall x <- Visible(visits[0].first)
      ensures !Inside(Key(first), Key(top), x)
    {
      assert x !in Window(Shown(visits[2]), Between(Key(first), Some(Key(top))));
    }
  }

  /** When items only arrive above, this too begins with the thread as the first statement saw it, and is
      the thread if nothing arrived by the second. */
  lemma FirstGapLatestIsThread(visits: seq<Reads>, page: Page, pages: seq<Page>)
    requires Growing(visits) && IsPuzzleWalk(visits, page, pages)
    ensures Successive(visits) && page.items != []
    ensures IsWhole(Visible(visits[0].first), Visible(visits[0].second), Collected(page, pages))
    ensures ThreadOrder(Visible(visits[0].first)) <= Collected(page, pages)
    ensures visits[0].first == visits[0].second ==> Collected(page, pages) == ThreadOrder(Visible(visits[0].first))
    ensures PAGE_SIZE * |pages| < |Visible(visits[0].second)|
  {
    SeesFirstPage(visits, 0);
    FirstGapLatestIsWhole(visits, page, pages);
    LatestIsPiece(visits);
    FirstIsOldest(visits);
    var latest := Latest(visits);
    assert latest[0] in latest;
    forall y <- Collected(page, pages)
      ensures y in Visible(visits[0].second) || Less(Key(y), Key(latest[0]))
    {
      GluedItems(Oldest(visits), CollectedForward(pages, 0), latest, y);
    }
    WholeOfFirstPage(visits, Collected(page, pages), latest[0]);
  }

  // ----- which late items a puzzle ticket shows -----

  function CoveringGapPage(pages: seq<Page>, y: Item, k: nat): nat
    requires k < |pages|
    ensures k <= CoveringGapPage(pages, y, k) < |pages|
    decreases |pages| - k
  {
    var after := pages[k].history.after;
    if k == |pages| - 1 || after.None? || !Less(after.value, Key(y)) then k else CoveringGapPage(pages, y, k + 1)
  }

  /** A gap page holds exactly what was shown between its cursors when it was read. */
  lemma GapPageHolds(visits: seq<Reads>, first: Cursor, stop: Cursor, pages: seq<Page>, k: nat)
    requires (forall i :: 0 <= i < |visits| ==> DistinctKeys(Shown(visits[i])))
    requires IsGapWalk(visits, first, stop, pages) && k < |pages|
    ensures GoodGapPage(Shown(visits[k]), Shown(visits[k]), first, stop, pages, k)
  {
    assert IsGapPage(visits, first, stop, pages, k);
    GapPageIsGood(Shown(visits[k]), Shown(visits[k]), Shown(visits[k]), Lower(first, pages, k).value, stop, pages[k]);
  }

  lemma {:induction false} GapPagesAbove(visits: seq<Reads>, first: Cursor, stop: Cursor, pages: seq<Page>, k: nat)
    requires (forall i :: 0 <= i < |visits| ==> DistinctKeys(Shown(visits[i])))
    requires IsGapWalk(visits, first, stop, pages) && k < |pages|
    ensures Lower(first, pages, k).Some?
    ensures forall x <- CollectedForward(pages, k) :: Inside(Lower(first, pages, k).value, stop, x)
    decreases |pages| - k
  {
    GapPageHolds(visits, first, stop, pages, k);
    if k < |pages| - 1 {
      GapPagesAbove(visits, first, stop, pages, k + 1);
      assert pages[k].items[PAGE_SIZE - 1] in pages[k].items;
    } else {
      assert CollectedForward(pages, k) == pages[k].items;
    }
  }

  lemma {:induction false} GapReturnsIff(visits: seq<Reads>, first: Cursor, stop: Cursor, pages: seq<Page>, y: Item,
                                         k: nat)
    requires (forall i :: 0 <= i < |visits| ==> DistinctKeys(Shown(visits[i])))
    requires IsGapWalk(visits, first, stop, pages) && k < |pages|
    requires Lower(first, pages, k).Some? && Inside(Lower(first, pages, k).value, stop, y)
    ensures y in CollectedForward(pages, k) <==> y in Shown(visits[CoveringGapPage(pages, y, k)])
    decreases |pages| - k
  {
    GapPageHolds(visits, first, stop, pages, k);
    GapPieceHolds(Shown(visits[k]), Lower(first, pages, k).value, stop, pages[k], y);
    if k < |pages| - 1 {
      GapPagesAbove(visits, first, stop, pages, k + 1);
      if Less(pages[k].history.after.value, Key(y)) {
        GapReturnsIff(visits, first, stop, pages, y, k + 1);
      }
    } else {
      assert CollectedForward(pages, k) == pages[k].items;
    }
  }

  lemma GapPieceHolds(all: seq<Item>, lower: Cursor, stop: Cursor, page: Page, y: Item)
    requires GoodGapPiece(all, all, lower, stop, page) && Inside(lower, stop, y)
    ensures y in page.items <==>
      y in all && (page.history.after.None? || !Less(page.history.after.value, Key(y)))
  {
    if y in page.items { LastIsMost(page.items, y); }
  }

  /** Which items a puzzle ticket shows, late ones included: none below the oldest; from the newest page's
      first on, what its own query showed; and between them, what was shown when the one gap page whose
      cursors span the key was read. */
  lemma PuzzleWalkReturnsIff(visits: seq<Reads>, page: Page, pages: seq<Page>, y: Item)
    requires Successive(visits) && IsPuzzleWalk(visits, page, pages) && page.items != []
    ensures y in Collected(page, pages) <==>
      if !Less(Key(Oldest(visits)), Key(y)) then y == Oldest(visits)
      else if Less(Key(y), Key(Latest(visits)[0])) then
        pages != [] && y in Shown(visits[3..][CoveringGapPage(pages, y, 0)])
      else y in Shown(visits[0])
  {
    var first, stop, gap := Oldest(visits), Latest(visits)[0], CollectedForward(pages, 0);
    FirstGapLatestIsWhole(visits, page, pages);
    LatestIsPiece(visits);
    FirstIsOldest(visits);
    LatestHolds(visits, y);
    GluedItems(first, gap, Latest(visits), y);
    if Inside(Key(first), Key(stop), y) {
      GapHolds(visits, pages, y);
    }
  }

  lemma LatestHolds(visits: seq<Reads>, y: Item)
    requires Successive(visits) && visits != [] && |ThreadOrder(Shown(visits[0]))| > PAGE_SIZE
    ensures y in Latest(visits) <==> y in Shown(visits[0]) && !Less(Key(y), Key(Latest(visits)[0]))
  {
    LatestIsPiece(visits);
    if y in Latest(visits) { FirstIsLeast(Latest(visits), y); }
  }

  lemma GluedItems(first: Item, gap: seq<Item>, latest: seq<Item>, y: Item)
    requires latest != [] && Sorted(true, latest) && Less(Key(first), Key(latest[0]))
    requires forall x <- gap :: Inside(Key(first), Key(latest[0]), x)
    ensures y in [first] + gap + latest <==>
      if !Less(Key(first), Key(y)) then y == first
      else if Less(Key(y), Key(latest[0])) then y in gap
      else y in latest
  {
    if y in latest { FirstIsLeast(latest, y); }
  }

  /** In the gap, what was shown when the one page whose cursors span the key was read. */
  lemma GapHolds(visits: seq<Reads>, pages: seq<Page>, y: Item)
    requires Successive(visits) && |visits| == 3 + |pages|
    requires |ThreadOrder(Shown(visits[0]))| > PAGE_SIZE && ThreadOrder(Shown(visits[1])) != []
    requires pages != [] ==> IsGapWalk(visits[3..], Key(Oldest(visits)), Key(Latest(visits)[0]), pages)
    requires Inside(Key(Oldest(visits)), Key(Latest(visits)[0]), y)
    ensures y in CollectedForward(pages, 0) <==>
      pages != [] && y in Shown(visits[3..][CoveringGapPage(pages, y, 0)])
  {
    if pages != [] {
      forall i | 0 <= i < |visits[3..]| ensures DistinctKeys(Shown(visits[3..][i])) {
        ShowsBase(visits, i + 3);
      }
      GapReturnsIff(visits[3..], Key(Oldest(visits)), Key(Latest(visits)[0]), pages, y, 0);
    }
  }
}
