/** Prefix scan with a cursor (crates/data-node/src/kv.rs): page after page lists every live matching key
    exactly once, in key order. The engine's `LIKE` match is any predicate on keys. */
module KvScan {
  import opened Base
  import opened KvRow
  import opened KvTable

  // ---- ordered listings ----

  predicate Ascending(q: seq<string>) { forall i, j :: 0 <= i < j < |q| ==> Less(q[i], q[j]) }

  /** `q` is what `ORDER BY` makes of the set `s`. */
  ghost predicate Lists(q: seq<string>, s: set<string>) {
    Ascending(q) && (forall k :: k in q <==> k in s)
  }

  lemma {:induction false} LeastExists(s: set<string>) returns (m: string)
    requires s != {}
    ensures m in s && forall k :: k in s && k != m ==> Less(m, k)
    decreases |s|
  {
    var x :| x in s;
    if s == {x} {
      m := x;
    } else {
      var y := LeastExists(s - {x});
      LessTotal(x, y);
      if Less(x, y) {
        m := x;
        forall k | k in s && k != x ensures Less(x, k) {
          if k != y { LessTransitive(x, y, k); }
        }
      } else {
        m := y;
      }
    }
  }

  ghost predicate Least(s: set<string>, m: string) { m in s && forall k :: k in s && k != m ==> Less(m, k) }

  ghost function Sorted(s: set<string>): seq<string>
    decreases |s|
  {
    if s == {} then []
    else
      assert exists m :: Least(s, m) by { var m := LeastExists(s); assert Least(s, m); }
      var m :| Least(s, m);
      [m] + Sorted(s - {m})
  }

  lemma {:induction false} SortedLists(s: set<string>)
    ensures Lists(Sorted(s), s)
    decreases |s|
  {
    if s != {} {
      assert exists m :: Least(s, m) by { var m := LeastExists(s); assert Least(s, m); }
      var m :| Least(s, m) && Sorted(s) == [m] + Sorted(s - {m});
      SortedLists(s - {m});
      ConsLists(m, Sorted(s - {m}), s);
    }
  }

  lemma ConsLists(m: string, rest: seq<string>, s: set<string>)
    requires Least(s, m) && Lists(rest, s - {m})
    ensures Lists([m] + rest, s)
  {
    var q := [m] + rest;
    forall i, j | 0 <= i < j < |q| ensures Less(q[i], q[j]) {
      assert q[j] == rest[j - 1];
      if i == 0 {
        assert q[j] in s - {m};
      }
    }
  }

  /** A set has only one ordered listing. */
  lemma {:induction false} ListingUnique(q: seq<string>, r: seq<string>, s: set<string>)
    requires Lists(q, s) && Lists(r, s)
    ensures q == r
    decreases |q|
  {
    assert q != [] ==> q[0] in s && q[0] in r;
    assert r != [] ==> r[0] in s && r[0] in q;
    if q != [] {
      assert q[0] in s && r[0] in s && q[0] in r && r[0] in q;
      LessTotal(q[0], r[0]);
      assert q[0] == r[0];
      TailLists(q, s);
      TailLists(r, s);
      ListingUnique(q[1..], r[1..], s - {q[0]});
    }
  }

  lemma TailLists(q: seq<string>, s: set<string>)
    requires Lists(q, s) && q != []
    ensures Lists(q[1..], s - {q[0]})
  {
    forall k ensures k in q[1..] <==> k in s - {q[0]} {
      if k in q[1..] {
        var i :| 1 <= i < |q| && q[i] == k;
        LessTotal(q[0], q[i]);
      }
    }
  }

  // ---- one page ----

  datatype Page = Page(keys: seq<string>, next: string)

  ghost function Matching(rows: Table, matches: string -> bool, now: int): set<string> {
    set k | k in rows && Live(SlotOf(rows, k), now) && matches(k)
  }

  ghost function After(s: set<string>, cursor: string): set<string> {
    set k | k in s && (cursor == "" || Less(cursor, k))
  }

  function Clamp(limit: nat): (l: nat)
    ensures 1 <= l <= 1000 && (1 <= limit <= 1000 ==> l == limit)
    ensures limit == 0 ==> l == 1
    ensures limit > 1000 ==> l == 1000
  {
    if limit < 1 then 1 else if limit > 1000 then 1000 else limit
  }

  /** The page the query returns over the live matching keys `all`. */
  ghost function PageOf(all: set<string>, limit: nat, cursor: string): Page {
    var l := Clamp(limit);
    var hits := Sorted(After(all, cursor));
    var fetched := if |hits| > l + 1 then hits[..l + 1] else hits;
    if |fetched| > l then Page(fetched[..l], fetched[l - 1]) else Page(fetched, "")
  }

  lemma PageCases(all: set<string>, limit: nat, cursor: string)
    ensures var q, l := Sorted(After(all, cursor)), Clamp(limit);
            PageOf(all, limit, cursor) == if |q| > l then Page(q[..l], q[l - 1]) else Page(q, "")
  {
    var q, l := Sorted(After(all, cursor)), Clamp(limit);
    if |q| > l + 1 { assert q[..l + 1][..l] == q[..l]; }
  }

  /** A page holds as many of the keys after the cursor as the limit allows, the smallest ones first, and says where
      to go on exactly when some are left. */
  lemma PageHolds(all: set<string>, limit: nat, cursor: string)
    requires "" !in all
    ensures var page, here := PageOf(all, limit, cursor), After(all, cursor);
            && Ascending(page.keys) && (forall k :: k in page.keys ==> k in here)
            && |page.keys| == (if |Sorted(here)| < Clamp(limit) then |Sorted(here)| else Clamp(limit))
            && (forall a, b :: a in page.keys && b in here && b !in page.keys ==> Less(a, b))
            && (page.next == "" <==> forall k :: k in here ==> k in page.keys)
            && (page.next != "" ==> page.next == page.keys[|page.keys| - 1])
  {
    var page, q, l := PageOf(all, limit, cursor), Sorted(After(all, cursor)), Clamp(limit);
    PageCases(all, limit, cursor);
    SortedLists(After(all, cursor));
    if |q| > l { BeyondPage(q, l); }
    PrefixIsSmallest(q, After(all, cursor), |page.keys|);
    assert page.keys == q[..|page.keys|];
  }

  lemma PrefixIsSmallest(q: seq<string>, s: set<string>, n: nat)
    requires Lists(q, s) && n <= |q|
    ensures forall a, b :: a in q[..n] && b in s && b !in q[..n] ==> Less(a, b)
  {
    forall a, b | a in q[..n] && b in s && b !in q[..n] ensures Less(a, b) {
      var i :| 0 <= i < n && q[i] == a;
      assert b in q;
      var j :| 0 <= j < |q| && q[j] == b;
      assert n <= j;
    }
  }

  lemma BeyondPage(q: seq<string>, l: nat)
    requires Ascending(q) && 1 <= l < |q|
    ensures q[l] in q && q[l] !in q[..l] && q[l - 1] in q
  {
    if q[l] in q[..l] {
      var i :| 0 <= i < l && q[i] == q[l];
      LessIrreflexive(q[l]);
      assert false;
    }
  }

  // ---- all pages ----

  lemma AfterAfter(s: set<string>, x: string, y: string)
    requires y != "" && (x == "" || Less(x, y))
    ensures After(After(s, x), y) == After(s, y)
  {
    forall k | k in After(s, y) ensures k in After(s, x) {
      if x != "" { LessTransitive(x, y, k); }
    }
  }

  lemma AfterShrinks(s: set<string>, x: string, y: string)
    requires y != "" && y in After(s, x)
    ensures After(s, y) < After(s, x)
    ensures |After(s, y)| < |After(s, x)|
  {
    AfterAfter(s, x, y);
    LessIrreflexive(y);
    assert After(s, y) <= After(s, x) - {y};
    SubsetSize(After(s, y), After(s, x) - {y});
  }

  lemma {:induction false} SubsetSize(a: set<string>, b: set<string>)
    requires a <= b
    ensures |a| <= |b|
    decreases |a|
  {
    if a != {} {
      var x :| x in a;
      SubsetSize(a - {x}, b - {x});
    }
  }

  lemma NextInside(all: set<string>, limit: nat, cursor: string)
    requires PageOf(all, limit, cursor).next != ""
    ensures PageOf(all, limit, cursor).next in After(all, cursor)
  {
    var q, l := Sorted(After(all, cursor)), Clamp(limit);
    PageCases(all, limit, cursor);
    SortedLists(After(all, cursor));
    assert q[l - 1] in q;
  }

  /** The keys there are to list can only become fewer from page to page. */
  ghost predicate Shrinking(alls: nat -> set<string>) { forall i: nat, j: nat :: i <= j ==> alls(j) <= alls(i) }

  lemma NextStaysInside(alls: nat -> set<string>, i: nat, limit: nat, cursor: string)
    requires Shrinking(alls) && PageOf(alls(i), limit, cursor).next != ""
    ensures |After(alls(0), PageOf(alls(i), limit, cursor).next)| < |After(alls(0), cursor)|
  {
    var next := PageOf(alls(i), limit, cursor).next;
    NextInside(alls(i), limit, cursor);
    assert alls(i) <= alls(0);
    AfterShrinks(alls(0), cursor, next);
  }

  /** What a client gets that follows `next_cursor` until it is empty, page `i` over the keys there are by then. */
  ghost function TimedPages(alls: nat -> set<string>, i: nat, limit: nat, cursor: string): (pages: seq<seq<string>>)
    requires Shrinking(alls)
    ensures pages != []
    decreases |After(alls(0), cursor)|
  {
    var page := PageOf(alls(i), limit, cursor);
    if page.next == "" then [page.keys]
    else
      NextStaysInside(alls, i, limit, cursor);
      [page.keys] + TimedPages(alls, i + 1, limit, page.next)
  }

  function Flat(pages: seq<seq<string>>): seq<string> {
    if pages == [] then [] else pages[0] + Flat(pages[1..])
  }

  /** What the pages from one cursor on must list: only keys after it, in order, and none missing that lasts. */
  ghost predicate ListsLasting(listed: seq<string>, first: set<string>, last: set<string>, cursor: string) {
    && Ascending(listed)
    && (forall k :: k in listed ==> k in After(first, cursor))
    && (forall k :: k in After(last, cursor) ==> k in listed)
  }

  /** A page and what the later pages list make up a listing. */
  lemma PageThenRest(q: seq<string>, l: nat, rest: seq<string>, cursor: string, first: set<string>, second: set<string>,
                     last: set<string>)
    requires last <= second <= first && Lists(q, After(first, cursor)) && 1 <= l <= |q| && q[l - 1] != ""
    requires ListsLasting(rest, second, last, q[l - 1])
    ensures ListsLasting(q[..l] + rest, first, last, cursor)
  {
    var next, listed := q[l - 1], q[..l] + rest;
    assert next in After(first, cursor);
    forall j | 0 <= j < |rest| ensures Less(next, rest[j]) && rest[j] in After(first, cursor) {
      assert rest[j] in After(second, next);
      if cursor != "" { LessTransitive(cursor, next, rest[j]); }
    }
    forall i, j | 0 <= i < j < |listed| ensures Less(listed[i], listed[j]) {
      if j >= l && i < l - 1 { LessTransitive(q[i], next, rest[j - l]); }
    }
    forall k | k in After(last, cursor) ensures k in listed {
      assert k in After(first, cursor) && k in q;
      var j :| 0 <= j < |q| && q[j] == k;
      if j < l {
        assert listed[j] == k;
      } else {
        assert Less(next, k) && k in After(last, next) && k in rest;
      }
    }
  }

  lemma {:induction false} TimedPagesList(alls: nat -> set<string>, i: nat, limit: nat, cursor: string)
    requires Shrinking(alls) && "" !in alls(0)
    ensures var pages := TimedPages(alls, i, limit, cursor);
            ListsLasting(Flat(pages), alls(i), alls(i + |pages| - 1), cursor)
    decreases |After(alls(0), cursor)|
  {
    var q, l := Sorted(After(alls(i), cursor)), Clamp(limit);
    var pages := TimedPages(alls, i, limit, cursor);
    PageCases(alls(i), limit, cursor);
    SortedLists(After(alls(i), cursor));
    if |q| > l {
      var next := q[l - 1];
      assert next in After(alls(i), cursor) && alls(i) <= alls(0);
      NextStaysInside(alls, i, limit, cursor);
      TimedPagesList(alls, i + 1, limit, next);
      var rest := TimedPages(alls, i + 1, limit, next);
      assert pages == [q[..l]] + rest && pages[1..] == rest;
      PageThenRest(q, l, Flat(rest), cursor, alls(i), alls(i + 1), alls(i + |pages| - 1));
    } else {
      assert pages == [q] && Flat(pages) == q + Flat([]) == q;
    }
  }

  lemma PageKeysInside(all: set<string>, limit: nat, cursor: string)
    ensures forall k :: k in PageOf(all, limit, cursor).keys ==> k in all
  {
    PageCases(all, limit, cursor);
    SortedLists(After(all, cursor));
    forall k | k in PageOf(all, limit, cursor).keys ensures k in all {
      assert k in Sorted(After(all, cursor)) && k in After(all, cursor);
    }
  }

  /** Every key of page `j` was there when that page was read. */
  lemma {:induction false} PagesInside(alls: nat -> set<string>, i: nat, limit: nat, cursor: string, j: nat)
    requires Shrinking(alls) && j < |TimedPages(alls, i, limit, cursor)|
    ensures forall k :: k in TimedPages(alls, i, limit, cursor)[j] ==> k in alls(i + j)
    decreases j
  {
    var page := PageOf(alls(i), limit, cursor);
    if j == 0 {
      PageKeysInside(alls(i), limit, cursor);
    } else {
      NextStaysInside(alls, i, limit, cursor);
      PagesInside(alls, i + 1, limit, page.next, j - 1);
    }
  }

  /** While the keys stay as they are, the pages together are their ordered listing. */
  lemma PagesListEverything(all: set<string>, limit: nat, cursor: string)
    requires "" !in all
    ensures Flat(TimedPages((i: nat) => all, 0, limit, cursor)) == Sorted(After(all, cursor))
  {
    var alls := (i: nat) => all;
    TimedPagesList(alls, 0, limit, cursor);
    SortedLists(After(all, cursor));
    ListingUnique(Flat(TimedPages(alls, 0, limit, cursor)), Sorted(After(all, cursor)), After(all, cursor));
  }

  ghost function MatchingAt(rows: Table, matches: string -> bool, nows: nat -> int): nat -> set<string> {
    (i: nat) => Matching(rows, matches, nows(i))
  }

  ghost predicate NeverBack(nows: nat -> int) { forall i: nat, j: nat :: i <= j ==> nows(i) <= nows(j) }

  lemma MatchingShrinks(rows: Table, matches: string -> bool, nows: nat -> int)
    requires NeverBack(nows)
    ensures Shrinking(MatchingAt(rows, matches, nows))
  {
    var alls := MatchingAt(rows, matches, nows);
    forall i: nat, j: nat | i <= j ensures alls(j) <= alls(i) { assert nows(i) <= nows(j); }
  }

  /** The pages list what they should: no key twice, in order, each live when its page was read, and none missing that
      is live at the last reading. */
  ghost predicate GoodScan(rows: Table, matches: string -> bool, nows: nat -> int, pages: seq<seq<string>>)
    requires pages != []
  {
    && Ascending(Flat(pages))
    && (forall j, k :: 0 <= j < |pages| && k in pages[j] ==> Live(SlotOf(rows, k), nows(j)) && matches(k))
    && (forall k :: k in Flat(pages) ==> Live(SlotOf(rows, k), nows(0)) && matches(k))
    && (forall k :: Live(SlotOf(rows, k), nows(|pages| - 1)) && matches(k) ==> k in Flat(pages))
  }

  lemma ListingIsGood(rows: Table, matches: string -> bool, nows: nat -> int, pages: seq<seq<string>>)
    requires pages != []
    requires ListsLasting(Flat(pages), Matching(rows, matches, nows(0)), Matching(rows, matches, nows(|pages| - 1)), "")
    requires forall j, k :: 0 <= j < |pages| && k in pages[j] ==> k in Matching(rows, matches, nows(j))
    ensures GoodScan(rows, matches, nows, pages)
  {
    var last := Matching(rows, matches, nows(|pages| - 1));
    forall k | Live(SlotOf(rows, k), nows(|pages| - 1)) && matches(k) ensures k in Flat(pages) {
      assert k in last && k in After(last, "");
    }
  }

  /** Following the cursor from the start to the end, with a clock reading per page that does not step back, for
      every limit and every match predicate: no key is listed twice, the order holds, every listed key was live when
      its page was read, and every matching key live at the last reading is listed. With all readings the same these
      are exactly the live matching keys. */
  lemma ScanListsLiveMatchingKeys(rows: Table, matches: string -> bool, nows: nat -> int, limit: nat)
    requires NoEmptyKey(rows) && NeverBack(nows)
    ensures Shrinking(MatchingAt(rows, matches, nows))
    ensures GoodScan(rows, matches, nows, TimedPages(MatchingAt(rows, matches, nows), 0, limit, ""))
  {
    var alls := MatchingAt(rows, matches, nows);
    MatchingShrinks(rows, matches, nows);
    var pages := TimedPages(alls, 0, limit, "");
    TimedPagesList(alls, 0, limit, "");
    forall j, k | 0 <= j < |pages| && k in pages[j] ensures k in Matching(rows, matches, nows(j)) {
      PagesInside(alls, 0, limit, "", j);
    }
    ListingIsGood(rows, matches, nows, pages);
  }
}
