/** Thread items, their order, and sorted sequences of them (src/db/ticket.rs:214-245, 379-385). */
module TicketOrder {
  import opened Common

  /** Timestamps are microseconds. An operation may show a message, which then is not listed on its own. */
  datatype Item =
    | Message(id: int, at: int)
    | Operation(id: int, at: int, action: int, messageId: Option<int>)

  datatype Cursor = Cursor(at: int, rank: int, id: int)

  /** `same_time_rank`: an opening first, then messages, then closings. */
  function Rank(item: Item): int {
    match item
    case Message(_, _) => 1
    case Operation(_, _, action, _) => if action == 1 then 0 else 2
  }

  /** `item_cursor`. */
  function Key(item: Item): Cursor {
    Cursor(item.at, Rank(item), item.id)
  }

  predicate Less(a: Cursor, b: Cursor) {
    a.at < b.at || (a.at == b.at && (a.rank < b.rank || (a.rank == b.rank && a.id < b.id)))
  }

  /** x comes strictly before y in ascending or in descending key order. */
  predicate Precedes(asc: bool, x: Item, y: Item) {
    if asc then Less(Key(x), Key(y)) else Less(Key(y), Key(x))
  }

  predicate Sorted(asc: bool, s: seq<Item>) {
    forall i, j :: 0 <= i < j < |s| ==> Precedes(asc, s[i], s[j])
  }

  predicate DistinctKeys(s: seq<Item>) {
    forall i, j :: 0 <= i < j < |s| ==> Key(s[i]) != Key(s[j])
  }

  predicate SameItems(a: seq<Item>, b: seq<Item>) {
    (forall x <- a :: x in b) && (forall x <- b :: x in a)
  }

  function Insert(asc: bool, x: Item, s: seq<Item>): seq<Item> {
    if s == [] || Precedes(asc, x, s[0]) then [x] + s
    else [s[0]] + Insert(asc, x, s[1..])
  }

  /** The database's ORDER BY and the server's `sort_by`. */
  function Sort(asc: bool, s: seq<Item>): seq<Item> {
    if s == [] then [] else Insert(asc, s[0], Sort(asc, s[1..]))
  }

  function Reverse(s: seq<Item>): (r: seq<Item>)
    ensures |r| == |s| && forall i :: 0 <= i < |s| ==> r[i] == s[|s| - 1 - i]
  {
    seq(|s|, i requires 0 <= i < |s| => s[|s| - 1 - i])
  }

  /** The last n items, or all of them if there are fewer. */
  function Last(s: seq<Item>, n: nat): seq<Item> {
    if n <= |s| then s[|s| - n..] else s
  }

  lemma {:induction false} InsertSorts(asc: bool, x: Item, s: seq<Item>)
    requires Sorted(asc, s)
    requires forall y <- s :: Key(y) != Key(x)
    ensures Sorted(asc, Insert(asc, x, s))
    ensures forall y :: y in Insert(asc, x, s) <==> y == x || y in s
    ensures |Insert(asc, x, s)| == |s| + 1
  {
    if s != [] && !Precedes(asc, x, s[0]) {
      assert s == [s[0]] + s[1..];
      InsertSorts(asc, x, s[1..]);
      var r := Insert(asc, x, s[1..]);
      forall i, j | 0 <= i < j < |r| + 1
        ensures Precedes(asc, ([s[0]] + r)[i], ([s[0]] + r)[j])
      {
        if i == 0 { assert r[j - 1] in r; }
      }
    }
  }

  lemma {:induction false} SortSorts(asc: bool, s: seq<Item>)
    requires DistinctKeys(s)
    ensures Sorted(asc, Sort(asc, s))
    ensures forall y :: y in Sort(asc, s) <==> y in s
    ensures |Sort(asc, s)| == |s|
  {
    if s != [] {
      SortSorts(asc, s[1..]);
      assert forall y <- s[1..] :: Key(y) != Key(s[0]);
      InsertSorts(asc, s[0], Sort(asc, s[1..]));
      assert s == [s[0]] + s[1..];
    }
  }

  /** A strictly sorted sequence is determined by the items in it. */
  lemma {:induction false} SortedUnique(asc: bool, a: seq<Item>, b: seq<Item>)
    requires Sorted(asc, a) && Sorted(asc, b) && SameItems(a, b)
    ensures a == b
  {
    assert a != [] ==> a[0] in b;
    assert b != [] ==> b[0] in a;
    if a != [] {
      assert a[0] == b[0];
      assert forall x <- a[1..] :: x in b[1..] by {
        forall x <- a[1..] ensures x in b[1..] { assert x in a && x != a[0] && b == [b[0]] + b[1..]; }
      }
      assert forall x <- b[1..] :: x in a[1..] by {
        forall x <- b[1..] ensures x in a[1..] { assert x in b && x != b[0] && a == [a[0]] + a[1..]; }
      }
      SortedUnique(asc, a[1..], b[1..]);
    }
  }

  lemma SortUnique(asc: bool, s: seq<Item>, sorted: seq<Item>)
    requires DistinctKeys(s) && Sorted(asc, sorted) && SameItems(s, sorted)
    ensures Sort(asc, s) == sorted
  {
    SortSorts(asc, s);
    SortedUnique(asc, Sort(asc, s), sorted);
  }

  lemma SortReverse(s: seq<Item>)
    requires DistinctKeys(s)
    ensures Sort(true, s) == Reverse(Sort(false, s))
  {
    SortSorts(false, s);
    var d := Sort(false, s);
    var r := Reverse(d);
    forall x <- s ensures x in r {
      var i :| 0 <= i < |d| && d[i] == x;
      assert r[|d| - 1 - i] == x;
    }
    SortUnique(true, s, r);
  }

  // ----- merging two sorted sources -----

  function Merge(asc: bool, a: seq<Item>, b: seq<Item>): (m: seq<Item>)
    ensures |m| == |a| + |b|
  {
    if a == [] then b
    else if b == [] then a
    else if Precedes(asc, a[0], b[0]) then [a[0]] + Merge(asc, a[1..], b)
    else [b[0]] + Merge(asc, a, b[1..])
  }

  predicate DisjointKeys(a: seq<Item>, b: seq<Item>) {
    forall x <- a, y <- b :: Key(x) != Key(y)
  }

  lemma {:induction false} MergeHas(asc: bool, a: seq<Item>, b: seq<Item>)
    ensures forall x :: x in Merge(asc, a, b) <==> x in a || x in b
  {
    if a != [] && b != [] {
      assert a == [a[0]] + a[1..] && b == [b[0]] + b[1..];
      if Precedes(asc, a[0], b[0]) {
        MergeHas(asc, a[1..], b);
      } else {
        MergeHas(asc, a, b[1..]);
      }
    }
  }

  /** The front of one side precedes the rest of both. */
  lemma FrontPrecedes(asc: bool, a: seq<Item>, b: seq<Item>)
    requires a != [] && b != [] && Sorted(asc, a) && Sorted(asc, b) && Precedes(asc, a[0], b[0])
    ensures Sorted(asc, a[1..])
    ensures forall y :: y in a[1..] || y in b ==> Precedes(asc, a[0], y)
  {
    forall y | y in a[1..] || y in b
      ensures Precedes(asc, a[0], y)
    {
      if y in a[1..] {
        var i :| 0 <= i < |a[1..]| && a[1..][i] == y;
        assert Precedes(asc, a[0], a[i + 1]);
      } else {
        var i :| 0 <= i < |b| && b[i] == y;
        assert i == 0 || Precedes(asc, b[0], b[i]);
      }
    }
  }

  lemma {:induction false} MergeSorts(asc: bool, a: seq<Item>, b: seq<Item>)
    requires Sorted(asc, a) && Sorted(asc, b) && DisjointKeys(a, b)
    ensures Sorted(asc, Merge(asc, a, b))
    ensures forall x :: x in Merge(asc, a, b) <==> x in a || x in b
  {
    MergeHas(asc, a, b);
    if a != [] && b != [] {
      assert a[0] in a && b[0] in b;
      if Precedes(asc, a[0], b[0]) {
        FrontPrecedes(asc, a, b);
        MergeSorts(asc, a[1..], b);
        FrontSorted(asc, a[0], Merge(asc, a[1..], b));
      } else {
        FrontPrecedes(asc, b, a);
        MergeSorts(asc, a, b[1..]);
        FrontSorted(asc, b[0], Merge(asc, a, b[1..]));
      }
    }
  }

  lemma FrontSorted(asc: bool, x: Item, s: seq<Item>)
    requires Sorted(asc, s) && forall y <- s :: Precedes(asc, x, y)
    ensures Sorted(asc, [x] + s)
  {
    forall i, j | 0 <= i < j < |s| + 1 ensures Precedes(asc, ([x] + s)[i], ([x] + s)[j]) {
      if i == 0 { assert s[j - 1] in s; }
    }
  }

  /** c is s cut to n rows or more. */
  predicate CutTo(n: nat, c: seq<Item>, s: seq<Item>) {
    c <= s && (|c| >= n || c == s)
  }

  lemma TakeCuts(s: seq<Item>, m: nat, n: nat)
    requires n <= m
    ensures CutTo(n, Take(s, m), s)
  {
  }

  lemma CutTail(n: nat, c: seq<Item>, s: seq<Item>)
    requires CutTo(n, c, s) && n > 0 && s != []
    ensures c != [] && c[0] == s[0] && CutTo(n - 1, c[1..], s[1..])
    ensures CutTo(n - 1, c, s)
  {
  }

  /** Cutting each source to at least n rows loses nothing of the first n merged rows. */
  lemma {:induction false} MergeTake(asc: bool, a: seq<Item>, b: seq<Item>, ca: seq<Item>, cb: seq<Item>, n: nat)
    requires CutTo(n, ca, a) && CutTo(n, cb, b)
    ensures Take(Merge(asc, ca, cb), n) == Take(Merge(asc, a, b), n)
    decreases |a| + |b|
  {
    if n == 0 {
    } else if a == [] {
      TakeOfCut(n, cb, b);
    } else if b == [] {
      TakeOfCut(n, ca, a);
    } else {
      CutTail(n, ca, a);
      CutTail(n, cb, b);
      if Precedes(asc, a[0], b[0]) {
        MergeTake(asc, a[1..], b, ca[1..], cb, n - 1);
      } else {
        MergeTake(asc, a, b[1..], ca, cb[1..], n - 1);
      }
      TakeMerge(asc, a, b, ca, cb, n);
    }
  }

  /** The first of n merged rows, if the other n - 1 agree. */
  lemma TakeMerge(asc: bool, a: seq<Item>, b: seq<Item>, ca: seq<Item>, cb: seq<Item>, n: nat)
    requires a != [] && b != [] && ca != [] && cb != [] && n > 0 && ca[0] == a[0] && cb[0] == b[0]
    requires if Precedes(asc, a[0], b[0])
             then Take(Merge(asc, ca[1..], cb), n - 1) == Take(Merge(asc, a[1..], b), n - 1)
             else Take(Merge(asc, ca, cb[1..]), n - 1) == Take(Merge(asc, a, b[1..]), n - 1)
    ensures Take(Merge(asc, ca, cb), n) == Take(Merge(asc, a, b), n)
  {
    if Precedes(asc, a[0], b[0]) {
      TakeFront(a[0], Merge(asc, a[1..], b), n);
      TakeFront(a[0], Merge(asc, ca[1..], cb), n);
    } else {
      TakeFront(b[0], Merge(asc, a, b[1..]), n);
      TakeFront(b[0], Merge(asc, ca, cb[1..]), n);
    }
  }

  lemma TakeOfCut(n: nat, c: seq<Item>, s: seq<Item>)
    requires CutTo(n, c, s)
    ensures Take(c, n) == Take(s, n)
  {
  }

  lemma TakeFront(x: Item, s: seq<Item>, n: nat)
    requires n > 0
    ensures Take([x] + s, n) == [x] + Take(s, n - 1)
  {
  }

  lemma SortIsMerge(asc: bool, xs: seq<Item>, ys: seq<Item>)
    requires DistinctKeys(xs + ys)
    ensures DistinctKeys(xs) && DistinctKeys(ys) && DisjointKeys(xs, ys)
    ensures Sort(asc, xs + ys) == Merge(asc, Sort(asc, xs), Sort(asc, ys))
  {
    var both := xs + ys;
    assert forall i :: 0 <= i < |xs| ==> both[i] == xs[i];
    assert forall i :: 0 <= i < |ys| ==> both[|xs| + i] == ys[i];
    assert DistinctKeys(xs) && DistinctKeys(ys);
    forall x <- xs, y <- ys ensures Key(x) != Key(y) {
      var i :| 0 <= i < |xs| && xs[i] == x;
      var j :| 0 <= j < |ys| && ys[j] == y;
      assert both[i] == x && both[|xs| + j] == y;
    }
    SortSorts(asc, xs);
    SortSorts(asc, ys);
    MergeSorts(asc, Sort(asc, xs), Sort(asc, ys));
    SortUnique(asc, both, Merge(asc, Sort(asc, xs), Sort(asc, ys)));
  }

  lemma TakeDistinct(asc: bool, s: seq<Item>, m: nat)
    requires DistinctKeys(s)
    ensures Sort(asc, Take(Sort(asc, s), m)) == Take(Sort(asc, s), m)
    ensures DistinctKeys(Take(Sort(asc, s), m))
  {
    SortSorts(asc, s);
    var t := Take(Sort(asc, s), m);
    assert Sorted(asc, t);
    SortUnique(asc, t, t);
  }

  /** Two sources, each sorted and cut to m rows, sorted together: the first n rows are those of
      the uncut sources, and there are more than n rows exactly when there were. */
  lemma TwoSources(asc: bool, xs: seq<Item>, ys: seq<Item>, m: nat, n: nat)
    requires DistinctKeys(xs + ys) && n < m
    ensures
      var cut := Take(Sort(asc, xs), m) + Take(Sort(asc, ys), m);
      && DistinctKeys(cut)
      && Take(Sort(asc, cut), n) == Take(Sort(asc, xs + ys), n)
      && |Sort(asc, cut)| == |cut|
      && (|cut| > n <==> |xs + ys| > n)
  {
    var a, b := Sort(asc, xs), Sort(asc, ys);
    SortIsMerge(asc, xs, ys);
    SortSorts(asc, xs);
    SortSorts(asc, ys);
    SortOfCuts(asc, xs, ys, m);
    TakeCuts(a, m, n);
    TakeCuts(b, m, n);
    MergeTake(asc, a, b, Take(a, m), Take(b, m), n);
  }

  lemma SortOfCuts(asc: bool, xs: seq<Item>, ys: seq<Item>, m: nat)
    requires DistinctKeys(xs + ys)
    ensures
      var ca, cb := Take(Sort(asc, xs), m), Take(Sort(asc, ys), m);
      && DistinctKeys(ca + cb)
      && Sort(asc, ca + cb) == Merge(asc, ca, cb)
      && |Sort(asc, ca + cb)| == |ca + cb|
  {
    var ca, cb := Take(Sort(asc, xs), m), Take(Sort(asc, ys), m);
    SortIsMerge(asc, xs, ys);
    SortSorts(asc, xs);
    SortSorts(asc, ys);
    TakeDistinct(asc, xs, m);
    TakeDistinct(asc, ys, m);
    assert forall x <- ca :: x in Sort(asc, xs);
    assert forall y <- cb :: y in Sort(asc, ys);
    DistinctConcat(ca, cb);
    SortIsMerge(asc, ca, cb);
    SortSorts(asc, ca + cb);
  }

  lemma DistinctConcat(a: seq<Item>, b: seq<Item>)
    requires DistinctKeys(a) && DistinctKeys(b) && DisjointKeys(a, b)
    ensures DistinctKeys(a + b)
  {
    var both := a + b;
    forall i, j | 0 <= i < j < |both| ensures Key(both[i]) != Key(both[j]) {
      assert both[i] == if i < |a| then a[i] else b[i - |a|];
      assert both[j] == if j < |a| then a[j] else b[j - |a|];
      if i < |a| <= j { assert a[i] in a && b[j - |a|] in b; }
    }
  }
}
