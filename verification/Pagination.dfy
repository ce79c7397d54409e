/**
 Keyset pages over rows with unique ids, newest first, and a client that follows `nextCursor` to the end
 while new rows keep arriving.
 */
module Pagination {
  import opened Wrappers
  import opened Texts
  import opened Cursors

  /** What the client sends; 0 and an empty cursor count as absent. */
  datatype Query = Query(pageSize: nat, cursor: Text)

  datatype Args = Args(take: nat, pageSize: nat, below: Option<nat>)

  datatype Page = Page(items: seq<nat>, pageSize: nat, nextCursor: Option<Text>, hasNextPage: bool)

  type PageLimit = m: nat | m >= 1 witness 1

  function SizeOf(requested: nat, limit: PageLimit): (size: nat)
    ensures 1 <= size <= limit
  {
    var wanted := if requested == 0 then 25 else requested;
    if wanted < limit then wanted else limit
  }

  /** `keysetArgs`; a failure is INVALID_CURSOR. */
  function KeysetArgs(rt: Runtime, q: Query, limit: PageLimit): Option<Args> {
    var size := SizeOf(q.pageSize, limit);
    if q.cursor == [] then Some(Args(size + 1, size, None))
    else
      var id := DecodeCursor(rt, q.cursor);
      if id.Some? then Some(Args(size + 1, size, id)) else None
  }

  predicate Descending(ids: seq<nat>) {
    forall i, k | 0 <= i < k < |ids| :: ids[i] > ids[k]
  }

  function Below(ids: seq<nat>, bound: Option<nat>): seq<nat> {
    if ids == [] then []
    else if bound.None? || ids[0] < bound.value then [ids[0]] + Below(ids[1..], bound)
    else Below(ids[1..], bound)
  }

  function Take(ids: seq<nat>, n: nat): seq<nat> {
    if |ids| <= n then ids else ids[..n]
  }

  /** The query the arguments describe, over a table given newest first */
  function Fetch(table: seq<nat>, args: Args): seq<nat> {
    Take(Below(table, args.below), args.take)
  }

  /** `keysetPage` */
  function KeysetPage(rows: seq<nat>, pageSize: nat): Page {
    var hasNextPage := |rows| > pageSize;
    var items := if hasNextPage then rows[..pageSize] else rows;
    Page(items, pageSize, if hasNextPage && items != [] then Some(EncodeCursor(items[|items| - 1])) else None, hasNextPage)
  }

  function GetPage(rt: Runtime, table: seq<nat>, q: Query, limit: PageLimit): Option<Page> {
    var args := KeysetArgs(rt, q, limit);
    if args.None? then None else Some(KeysetPage(Fetch(table, args.value), args.value.pageSize))
  }

  // ---------------------------------------------------------------------------
  // One page
  // ---------------------------------------------------------------------------

  lemma {:induction false} BelowAll(ids: seq<nat>, bound: Option<nat>)
    requires bound.None? || forall i | 0 <= i < |ids| :: ids[i] < bound.value
    ensures Below(ids, bound) == ids
  {
    if ids != [] {
      BelowAll(ids[1..], bound);
    }
  }

  lemma {:induction false} BelowSkips(newer: seq<nat>, ids: seq<nat>, bound: nat)
    requires forall i | 0 <= i < |newer| :: newer[i] >= bound
    ensures Below(newer + ids, Some(bound)) == Below(ids, Some(bound))
  {
    if newer == [] {
      assert newer + ids == ids;
    } else {
      BelowSkips(newer[1..], ids, bound);
      assert (newer + ids)[1..] == newer[1..] + ids;
    }
  }

  /** Rows that arrived after the walk began are newer than all it will visit. */
  ghost predicate Newer(extra: seq<nat>, ids: seq<nat>) {
    forall i, k | 0 <= i < |extra| && 0 <= k < |ids| :: extra[i] > ids[k]
  }

  ghost predicate Walkable(ids: seq<nat>) {
    Descending(ids) && forall i | 0 <= i < |ids| :: ids[i] <= MAX_DATABASE_ID
  }

  /** The cursor that stands after the first p rows. */
  function CursorAfter(ids: seq<nat>, p: nat): Text
    requires p <= |ids|
  {
    if p == 0 then [] else EncodeCursor(ids[p - 1])
  }

  /** The page a reader expects after the first p rows. */
  function PageAt(ids: seq<nat>, p: nat, size: nat): Page
    requires p <= |ids|
  {
    if p + size < |ids| then Page(ids[p..p + size], size, Some(CursorAfter(ids, p + size)), true)
    else Page(ids[p..], size, None, false)
  }

  lemma RestBelow(extra: seq<nat>, ids: seq<nat>, p: nat)
    requires Descending(ids) && Newer(extra, ids) && 0 < p <= |ids|
    ensures Below(extra + ids, Some(ids[p - 1])) == ids[p..]
  {
    BelowSkips(extra + ids[..p], ids[p..], ids[p - 1]);
    assert extra + ids == extra + ids[..p] + ids[p..];
    BelowAll(ids[p..], Some(ids[p - 1]));
  }

  /** Behind p rows already seen, a page holds the next ones, and a cursor exactly when more remain. */
  lemma PageAfter(rt: Runtime, extra: seq<nat>, ids: seq<nat>, p: nat, requested: nat, limit: PageLimit)
    requires ReadsAscii(rt) && Walkable(ids) && Newer(extra, ids) && p <= |ids|
    requires p == 0 ==> extra == []
    ensures GetPage(rt, extra + ids, Query(requested, CursorAfter(ids, p)), limit)
         == Some(PageAt(ids, p, SizeOf(requested, limit)))
  {
    hide EncodeCursor, DecodeCursor, Below;
    var size := SizeOf(requested, limit);
    var args := Args(size + 1, size, if p == 0 then None else Some(ids[p - 1]));
    if p == 0 {
      BelowAll(ids, None);
      assert extra + ids == ids && ids[0..] == ids;
    } else {
      CursorRoundTrip(rt, ids[p - 1]);
      CursorFits(ids[p - 1]);
      RestBelow(extra, ids, p);
    }
    assert KeysetArgs(rt, Query(requested, CursorAfter(ids, p)), limit) == Some(args);
    assert Below(extra + ids, args.below) == ids[p..];
    PageOf(ids, p, size);
  }

  lemma PageOf(ids: seq<nat>, p: nat, size: nat)
    requires p <= |ids| && size >= 1
    ensures KeysetPage(Take(ids[p..], size + 1), size) == PageAt(ids, p, size)
  {
    hide EncodeCursor;
    if p + size < |ids| {
      assert Take(ids[p..], size + 1)[..size] == ids[p..p + size];
      assert ids[p..p + size][size - 1] == ids[p + size - 1];
    }
  }

  /** The size a page has: what was asked for, or 25, but never more than the limit */
  lemma SizeExactly(requested: nat, limit: PageLimit)
    ensures requested == 0 && limit >= 25 ==> SizeOf(requested, limit) == 25
    ensures requested == 0 && limit < 25 ==> SizeOf(requested, limit) == limit
    ensures 0 < requested <= limit ==> SizeOf(requested, limit) == requested
    ensures requested > limit ==> SizeOf(requested, limit) == limit
  {
  }

  /** The query asks for one row more than the page, to see whether there are more, and never gets a second one. */
  lemma FetchesOneMore(rt: Runtime, table: seq<nat>, q: Query, limit: PageLimit)
    requires KeysetArgs(rt, q, limit).Some?
    ensures var args := KeysetArgs(rt, q, limit).value;
            && args.take == args.pageSize + 1 && args.pageSize == SizeOf(q.pageSize, limit)
            && |Fetch(table, args)| <= args.pageSize + 1
  {
    hide DecodeCursor, Below;
  }

  lemma {:induction false} BelowMembers(ids: seq<nat>, bound: Option<nat>, id: nat)
    ensures id in Below(ids, bound) <==> id in ids && (bound.None? || id < bound.value)
  {
    if ids != [] {
      BelowMembers(ids[1..], bound, id);
      assert ids == [ids[0]] + ids[1..];
    }
  }

  lemma TailIsSmaller(ids: seq<nat>, id: nat)
    requires ids != [] && Descending(ids) && id in ids[1..]
    ensures id < ids[0]
  {
    var i :| 0 <= i < |ids[1..]| && ids[1..][i] == id;
    assert ids[i + 1] == id;
  }

  lemma {:induction false} BelowDescends(ids: seq<nat>, bound: Option<nat>)
    requires Descending(ids)
    ensures Descending(Below(ids, bound))
  {
    if ids != [] {
      BelowDescends(ids[1..], bound);
      var rest := Below(ids[1..], bound);
      forall k | 0 <= k < |rest|
        ensures rest[k] < ids[0]
      {
        assert rest[k] in rest;
        BelowMembers(ids[1..], bound, rest[k]);
        TailIsSmaller(ids, rest[k]);
      }
    }
  }

  lemma BelowExactly(ids: seq<nat>, bound: Option<nat>)
    requires Descending(ids)
    ensures Descending(Below(ids, bound))
    ensures forall id :: id in Below(ids, bound) <==> id in ids && (bound.None? || id < bound.value)
  {
    hide Below;
    BelowDescends(ids, bound);
    forall id: nat
      ensures id in Below(ids, bound) <==> id in ids && (bound.None? || id < bound.value)
    {
      BelowMembers(ids, bound, id);
    }
  }

  /** The id a cursor stands for, if it stands for one */
  function BoundOf(rt: Runtime, cursor: Text): Option<nat> {
    if cursor == [] then None else DecodeCursor(rt, cursor)
  }

  predicate Matching(table: seq<nat>, bound: Option<nat>, id: nat) {
    id in table && (bound == None || id < bound.value)
  }

  /** The items are the newest matching rows, and there are more exactly when a matching row is left out. */
  ghost predicate IsPageOf(table: seq<nat>, bound: Option<nat>, size: nat, page: Page) {
    && page.pageSize == size && |page.items| <= size && Descending(page.items)
    && (forall id | id in page.items :: Matching(table, bound, id))
    && (forall id, kept | Matching(table, bound, id) && id !in page.items && kept in page.items :: id < kept)
    && (page.hasNextPage <==> exists id :: Matching(table, bound, id) && id !in page.items)
    && (page.hasNextPage ==> |page.items| == size)
    && page.nextCursor == if page.hasNextPage && page.items != [] then Some(EncodeCursor(page.items[|page.items| - 1])) else None
  }

  /** For any table and any query: an error exactly for a cursor that stands for nothing, and otherwise the right page. */
  lemma PageExactly(rt: Runtime, table: seq<nat>, q: Query, limit: PageLimit)
    requires Descending(table)
    ensures GetPage(rt, table, q, limit).None? <==> q.cursor != [] && DecodeCursor(rt, q.cursor) == None
    ensures GetPage(rt, table, q, limit).Some? ==>
              IsPageOf(table, BoundOf(rt, q.cursor), SizeOf(q.pageSize, limit), GetPage(rt, table, q, limit).value)
  {
    hide EncodeCursor, DecodeCursor, Below, IsPageOf;
    if GetPage(rt, table, q, limit).Some? {
      FetchedPage(table, BoundOf(rt, q.cursor), SizeOf(q.pageSize, limit));
    }
  }

  lemma FetchedPage(table: seq<nat>, bound: Option<nat>, size: nat)
    requires Descending(table) && size >= 1
    ensures IsPageOf(table, bound, size, KeysetPage(Take(Below(table, bound), size + 1), size))
  {
    hide EncodeCursor, Below, IsPageOf;
    BelowExactly(table, bound);
    PageOfMatching(table, bound, size, Below(table, bound));
  }

  lemma PageOfMatching(table: seq<nat>, bound: Option<nat>, size: nat, all: seq<nat>)
    requires size >= 1 && Descending(all) && forall id :: id in all <==> Matching(table, bound, id)
    ensures IsPageOf(table, bound, size, KeysetPage(Take(all, size + 1), size))
  {
    hide EncodeCursor, Matching, Descending;
    var page := KeysetPage(Take(all, size + 1), size);
    var kept := if |all| > size then size else |all|;
    assert page.items == all[..kept] && page.hasNextPage == (|all| > size) by {
      assert |all| > size ==> Take(all, size + 1)[..size] == all[..size];
      assert all[..|all|] == all;
    }
    LeftOut(all, kept);
    assert forall id | id in all[..kept] :: id in all;
    if |all| > size {
      NextIsLeftOut(all, size);
      assert Matching(table, bound, all[size]);
    } else {
      assert all[..kept] == all;
    }
  }

  lemma NextIsLeftOut(all: seq<nat>, n: nat)
    requires n < |all| && Descending(all)
    ensures all[n] in all && all[n] !in all[..n]
  {
  }

  /** What is not among the first is smaller than all of them. */
  lemma LeftOut(all: seq<nat>, n: nat)
    requires n <= |all| && Descending(all)
    ensures Descending(all[..n])
    ensures forall id, kept | id in all && id !in all[..n] && kept in all[..n] :: id < kept
  {
    assert forall i | 0 <= i < n :: all[i] in all[..n] by {
      assert forall i | 0 <= i < n :: all[..n][i] == all[i];
    }
    forall id, kept | id in all && id !in all[..n] && kept in all[..n]
      ensures id < kept
    {
      var i :| 0 <= i < |all| && all[i] == id;
      var k :| 0 <= k < n && all[..n][k] == kept;
    }
  }

  // ---------------------------------------------------------------------------
  // The walk
  // ---------------------------------------------------------------------------

  /** Pages fetched one after the other, each with the cursor the previous one announced. */
  ghost predicate IsWalk(
    rt: Runtime, extra: nat -> seq<nat>, ids: seq<nat>, requested: nat, limit: PageLimit, pages: seq<Page>)
  {
    forall k | 0 <= k < |pages| :: FetchedAt(rt, extra, ids, requested, limit, pages, k)
  }

  ghost predicate FetchedAt(
    rt: Runtime, extra: nat -> seq<nat>, ids: seq<nat>, requested: nat, limit: PageLimit, pages: seq<Page>, k: nat)
    requires k < |pages|
  {
    && (k > 0 ==> pages[k - 1].nextCursor.Some?)
    && GetPage(rt, extra(k) + ids, Query(requested, if k == 0 then [] else pages[k - 1].nextCursor.value), limit)
       == Some(pages[k])
  }

  /** At any moment of the walk the table holds the initial rows and some newer ones; none at its start. */
  ghost predicate OnlyNewerArrive(extra: nat -> seq<nat>, ids: seq<nat>) {
    extra(0) == [] && forall k :: Newer(extra(k), ids)
  }

  function Items(pages: seq<Page>): seq<nat> {
    if pages == [] then [] else Items(pages[..|pages| - 1]) + pages[|pages| - 1].items
  }

  function Multiple(k: nat, size: nat): nat {
    if k == 0 then 0 else Multiple(k - 1, size) + size
  }

  ghost predicate WalkedTo(ids: seq<nat>, size: nat, pages: seq<Page>) {
    && pages != []
    && Multiple(|pages| - 1, size) <= |ids|
    && var done := Multiple(|pages|, size);
       && Items(pages) == ids[..if done < |ids| then done else |ids|]
       && pages[|pages| - 1].nextCursor == (if done < |ids| then Some(CursorAfter(ids, done)) else None)
  }

  /** A walk has seen a prefix of the rows, one full page after another, and announces more exactly when more remain. */
  lemma {:induction false} WalkSeesPrefix(
    rt: Runtime, extra: nat -> seq<nat>, ids: seq<nat>, requested: nat, limit: PageLimit, pages: seq<Page>)
    requires ReadsAscii(rt) && Walkable(ids) && OnlyNewerArrive(extra, ids)
    requires pages != [] && IsWalk(rt, extra, ids, requested, limit, pages)
    ensures WalkedTo(ids, SizeOf(requested, limit), pages)
  {
    hide GetPage, CursorAfter;
    var n, size := |pages| - 1, SizeOf(requested, limit);
    assert FetchedAt(rt, extra, ids, requested, limit, pages, n);
    if n == 0 {
      StartCursor(ids);
      PageAfter(rt, extra(0), ids, 0, requested, limit);
      assert Multiple(1, size) == size;
      assert Items(pages[..0]) == [];
    } else {
      WalkPrefix(rt, extra, ids, requested, limit, pages);
      WalkSeesPrefix(rt, extra, ids, requested, limit, pages[..n]);
      var p := Multiple(n, size);
      assert pages[..n][n - 1] == pages[n - 1];
      PageAfter(rt, extra(n), ids, p, requested, limit);
      assert pages[n] == PageAt(ids, p, size);
      assert p + size < |ids| ==> ids[..p] + ids[p..p + size] == ids[..p + size];
      assert p + size >= |ids| ==> ids[..p] + ids[p..] == ids[..|ids|];
    }
  }

  lemma StartCursor(ids: seq<nat>)
    ensures CursorAfter(ids, 0) == []
  {
  }

  lemma WalkPrefix(
    rt: Runtime, extra: nat -> seq<nat>, ids: seq<nat>, requested: nat, limit: PageLimit, pages: seq<Page>)
    requires pages != [] && IsWalk(rt, extra, ids, requested, limit, pages)
    ensures IsWalk(rt, extra, ids, requested, limit, pages[..|pages| - 1])
  {
    var shorter := pages[..|pages| - 1];
    forall k | 0 <= k < |shorter|
      ensures FetchedAt(rt, extra, ids, requested, limit, shorter, k)
    {
      assert FetchedAt(rt, extra, ids, requested, limit, pages, k);
    }
  }

  /**
   A walk that reached a null cursor visited every row present at its start exactly once, newest first,
   in as many pages as the rows fill; a walk that has not is strictly shorter.
   */
  lemma WalkVisitsEverything(
    rt: Runtime, extra: nat -> seq<nat>, ids: seq<nat>, requested: nat, limit: PageLimit, pages: seq<Page>)
    requires ReadsAscii(rt) && Walkable(ids) && OnlyNewerArrive(extra, ids)
    requires pages != [] && IsWalk(rt, extra, ids, requested, limit, pages)
    ensures var size := SizeOf(requested, limit);
            && Descending(Items(pages)) && Items(pages) <= ids
            && (pages[|pages| - 1].nextCursor.None? ==>
                  Items(pages) == ids && Multiple(|pages| - 1, size) <= |ids| <= Multiple(|pages|, size))
            && (ids != [] ==> Multiple(|pages| - 1, size) < |ids|)
            && (pages[|pages| - 1].nextCursor.Some? <==> Multiple(|pages|, size) < |ids|)
  {
    hide GetPage, CursorAfter, IsWalk, OnlyNewerArrive, Walkable, ReadsAscii, Descending, SizeOf, WalkedTo, Items, Multiple;
    WalkSeesPrefix(rt, extra, ids, requested, limit, pages);
    PagesWereAnnounced(rt, extra, ids, requested, limit, pages);
    WalkEnds(ids, SizeOf(requested, limit), pages);
  }

  /** Every page but the first was announced, so rows were left for it. */
  lemma PagesWereAnnounced(
    rt: Runtime, extra: nat -> seq<nat>, ids: seq<nat>, requested: nat, limit: PageLimit, pages: seq<Page>)
    requires ReadsAscii(rt) && Walkable(ids) && OnlyNewerArrive(extra, ids)
    requires pages != [] && IsWalk(rt, extra, ids, requested, limit, pages)
    ensures |pages| > 1 ==> Multiple(|pages| - 1, SizeOf(requested, limit)) < |ids|
  {
    hide GetPage, CursorAfter, IsWalk, OnlyNewerArrive, Walkable, ReadsAscii, Descending, SizeOf, WalkedTo, Items, Multiple;
    if |pages| > 1 {
      WalkPrefix(rt, extra, ids, requested, limit, pages);
      WalkSeesPrefix(rt, extra, ids, requested, limit, pages[..|pages| - 1]);
      LastIsAnnounced(rt, extra, ids, requested, limit, pages);
      AnnouncedMeansMore(ids, SizeOf(requested, limit), pages[..|pages| - 1]);
    }
  }

  lemma AnnouncedMeansMore(ids: seq<nat>, size: nat, pages: seq<Page>)
    requires WalkedTo(ids, size, pages) && pages[|pages| - 1].nextCursor.Some?
    ensures Multiple(|pages|, size) < |ids|
  {
    hide CursorAfter, Items, Multiple;
  }

  /** What the pages hold, from how far they go */
  lemma WalkEnds(ids: seq<nat>, size: nat, pages: seq<Page>)
    requires Walkable(ids) && WalkedTo(ids, size, pages)
    requires |pages| > 1 ==> Multiple(|pages| - 1, size) < |ids|
    ensures Descending(Items(pages)) && Items(pages) <= ids
    ensures pages[|pages| - 1].nextCursor.None? ==>
              Items(pages) == ids && Multiple(|pages| - 1, size) <= |ids| <= Multiple(|pages|, size)
    ensures ids != [] ==> Multiple(|pages| - 1, size) < |ids|
    ensures pages[|pages| - 1].nextCursor.Some? <==> Multiple(|pages|, size) < |ids|
  {
    hide CursorAfter, Items, Walkable, Descending;
    assert ids[..|ids|] == ids;
    PrefixDescends(ids, Items(pages));
  }

  lemma PrefixDescends(ids: seq<nat>, items: seq<nat>)
    requires Walkable(ids) && items <= ids
    ensures Descending(items)
  {
  }

  lemma LastIsAnnounced(
    rt: Runtime, extra: nat -> seq<nat>, ids: seq<nat>, requested: nat, limit: PageLimit, pages: seq<Page>)
    requires |pages| > 1 && IsWalk(rt, extra, ids, requested, limit, pages)
    ensures pages[..|pages| - 1][|pages| - 2].nextCursor.Some?
  {
    hide GetPage;
    assert FetchedAt(rt, extra, ids, requested, limit, pages, |pages| - 1);
  }

  /** A client that follows the cursors: it ends, and what it collected are the initial rows in order. */
  method Crawl(rt: Runtime, extra: nat -> seq<nat>, ids: seq<nat>, requested: nat, limit: PageLimit)
    returns (visited: seq<nat>, fetched: nat)
    requires ReadsAscii(rt) && Walkable(ids) && OnlyNewerArrive(extra, ids)
    ensures visited == ids
    ensures var size := SizeOf(requested, limit);
            fetched >= 1 && Multiple(fetched - 1, size) <= |ids| <= Multiple(fetched, size)
    ensures ids != [] ==> Multiple(fetched - 1, SizeOf(requested, limit)) < |ids|
  {
    hide GetPage, CursorAfter;
    visited, fetched := [], 0;
    var cursor := [];
    var more := true;
    ghost var size := SizeOf(requested, limit);
    StartCursor(ids);
    while more
      invariant more ==> |visited| == Multiple(fetched, size) && |visited| <= |ids| && cursor == CursorAfter(ids, |visited|)
      invariant more && fetched > 0 ==> |visited| < |ids|
      invariant fetched == 0 ==> more && visited == []
      invariant visited <= ids
      invariant !more ==> visited == ids && Multiple(fetched - 1, size) <= |ids| <= Multiple(fetched, size)
      invariant !more && ids != [] ==> Multiple(fetched - 1, size) < |ids|
      decreases |ids| - |visited|, more
    {
      PageAfter(rt, extra(fetched), ids, |visited|, requested, limit);
      var page := GetPage(rt, extra(fetched) + ids, Query(requested, cursor), limit).value;
      visited := visited + page.items;
      fetched := fetched + 1;
      more := page.nextCursor.Some?;
      if more {
        cursor := page.nextCursor.value;
      }
    }
  }
}
