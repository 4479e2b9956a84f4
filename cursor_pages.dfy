/**
 * What keyset pagination promises its callers, proved of `Paginated`:
 * the first page is the head of the ordered table, a `next:` cursor minted
 * from a row yields the rows right after it, a `prev:` cursor the rows right
 * before it, and following `nextPageCursor` from the first page until
 * `hasNextPage` is false visits every row once, in order.
 *
 * These hold when the ordered columns identify rows (the constructor's
 * documented caution), every row holds them, the codec round-trips and the
 * persistence transform is the identity.
 */
module CursorPages {
  import opened Wrappers
  import opened Ordering
  import opened Sorting
  import opened CursorCodec
  import opened CursorQuery
  import opened CursorPaging

  /**
   * What the page lemmas assume: the codec round-trips, columns are bound
   * without transformation, there is at least one order key and no key is
   * ordered twice, every row holds every ordered column, and no two rows
   * agree on all of them.
   */
  ghost predicate Sound(ob: Orders, codec: Codec, prepare: (string, int) -> int, table: seq<Row>) {
    && RoundTrips(codec)
    && (forall k, v :: prepare(k, v) == v)
    && |ob| > 0
    && DistinctKeys(ob)
    && Covers(table, ob)
    && UniqueKeys(ob, table)
  }

  /** How many of `n` available rows a page holds. */
  function PageSize(limit: Option<nat>, n: nat): (r: nat)
    ensures r <= n
    ensures Paginates(limit) ==> r <= limit.value
  {
    if Paginates(limit) && limit.value < n then limit.value else n
  }

  /** More than a page's worth of rows is available. */
  predicate More(limit: Option<nat>, n: nat) {
    Paginates(limit) && n > limit.value
  }

  /**
   * Fetching one row more than the limit and trimming it keeps the first
   * page's worth of rows and reports whether more were available.
   */
  lemma TrimTake(s: seq<Row>, limit: Option<nat>)
    ensures Trim(Take(s, FetchLimit(limit)), limit) == (s[..PageSize(limit, |s|)], More(limit, |s|))
  {
    var fetched := Take(s, FetchLimit(limit));
    if Paginates(limit) && |s| > limit.value {
      assert |fetched| == limit.value + 1;
      assert fetched[..|fetched| - 1] == s[..limit.value];
    } else {
      assert fetched == s;
    }
  }

  /** The first page's worth of the rows after position `p`, as a slice of the whole. */
  lemma HeadOfSuffix(s: seq<Row>, p: nat, limit: Option<nat>, nodes: seq<Row>)
    requires p < |s|
    requires nodes == s[p + 1..][..PageSize(limit, |s[p + 1..]|)]
    ensures nodes == s[p + 1..p + 1 + PageSize(limit, |s| - p - 1)]
  {
  }

  /** A row of the ordered table comes from the table and holds every ordered column. */
  lemma SortedRow(ob: Orders, table: seq<Row>, p: nat)
    requires Covers(table, ob) && p < |Sort(ob, table)|
    ensures Sort(ob, table)[p] in table && HasColumns(Sort(ob, table)[p], ob)
  {
    var s := Sort(ob, table);
    assert s[p] in multiset(s);
  }

  /**
   * A page is determined by the rows the query would return without a
   * limit: the first page's worth of them, handed back in the declared order.
   */
  lemma PageFromRows(ob: Orders, codec: Codec, prepare: (string, int) -> int, table: seq<Row>,
                     dc: Option<DirectionalCursor>, limit: Option<nat>, rows: seq<Row>)
    requires dc.Some? ==> IsValidCursor(ob, dc.value.cursor)
    requires Fetched(ob, prepare, table, dc, limit) == Take(rows, FetchLimit(limit))
    ensures var r := PageFor(ob, codec, prepare, table, dc, limit);
      var forward := TravelsForward(dc);
      && r.nodes == InDeclaredOrder(rows[..PageSize(limit, |rows|)], forward)
      && r.hasPrevPage == (if forward then dc.Some? else More(limit, |rows|))
      && r.hasNextPage == (if forward then More(limit, |rows|) else dc.Some?)
      && (r.prevPageCursor, r.nextPageCursor) == PageCursors(ob, codec, r.nodes)
  {
    TrimTake(rows, limit);
  }

  /** A stringified valid cursor is accepted, and the page is the one for that cursor. */
  lemma PaginatedCursor(ob: Orders, codec: Codec, prepare: (string, int) -> int, table: seq<Row>,
                        c: Cursor, isNext: bool, limit: Option<nat>)
    requires RoundTrips(codec) && IsValidCursor(ob, c) && |ob| > 0
    ensures Paginated(ob, codec, prepare, table, PaginateParams(Some(Stringify(codec, c, isNext)), limit))
      == Some(PageFor(ob, codec, prepare, table, Some(DirectionalCursor(c, isNext)), limit))
  {
    ParseStringify(ob, codec, c, isNext);
  }

  /** The query behind a `next:` cursor minted from `s[p]` returns the rows after it. */
  lemma FetchedNext(ob: Orders, codec: Codec, prepare: (string, int) -> int, table: seq<Row>,
                    p: nat, limit: Option<nat>)
    requires Sound(ob, codec, prepare, table)
    requires p < |Sort(ob, table)|
    ensures IsValidCursor(ob, CursorFor(ob, Sort(ob, table)[p]))
    ensures Fetched(ob, prepare, table, Some(DirectionalCursor(CursorFor(ob, Sort(ob, table)[p]), true)), limit)
      == Take(Sort(ob, table)[p + 1..], FetchLimit(limit))
  {
    var s := Sort(ob, table);
    var node := s[p];
    SortedRow(ob, table, p);
    CreatedCursorParams(ob, prepare, node);
    var c := CursorFor(ob, node);
    var params := Params(prepare, c);
    ValidParamsCover(ob, prepare, c);
    FilterWhereIsAfter(ob, params, true, table);
    AdjustNext(ob);
    FilterAfterSameKey(ob, params, node, table);
    SortAfter(ob, table, p);
  }

  /** The boundary of a `prev:` cursor minted from `s[p]` keeps the rows before it in the flipped order. */
  lemma PrevBoundaryRows(ob: Orders, codec: Codec, prepare: (string, int) -> int, table: seq<Row>, p: nat)
    requires Sound(ob, codec, prepare, table)
    requires p < |Sort(ob, table)|
    ensures IsValidCursor(ob, CursorFor(ob, Sort(ob, table)[p]))
    ensures FilterWhere(WhereFor(ob, prepare, DirectionalCursor(CursorFor(ob, Sort(ob, table)[p]), false)), table)
      == FilterAfter(Adjust(ob, false), Sort(ob, table)[p], table)
  {
    var node := Sort(ob, table)[p];
    SortedRow(ob, table, p);
    CreatedCursorParams(ob, prepare, node);
    var params := Params(prepare, CursorFor(ob, node));
    ValidParamsCover(ob, prepare, CursorFor(ob, node));
    FilterWhereIsAfter(ob, params, false, table);
    SameKeyAdjust(ob, false, params, node);
    FilterAfterSameKey(Adjust(ob, false), params, node, table);
  }

  /** The query behind a `prev:` cursor minted from `s[p]` returns the rows before it, nearest first. */
  lemma FetchedPrev(ob: Orders, codec: Codec, prepare: (string, int) -> int, table: seq<Row>,
                    p: nat, limit: Option<nat>)
    requires Sound(ob, codec, prepare, table)
    requires p < |Sort(ob, table)|
    ensures IsValidCursor(ob, CursorFor(ob, Sort(ob, table)[p]))
    ensures Fetched(ob, prepare, table, Some(DirectionalCursor(CursorFor(ob, Sort(ob, table)[p]), false)), limit)
      == Take(Reverse(Sort(ob, table)[..p]), FetchLimit(limit))
  {
    PrevBoundaryRows(ob, codec, prepare, table, p);
    SortBefore(ob, table, p);
  }

  /**
   * Without a cursor (or with the empty string) the page is the head of the
   * ordered table `s`: there is no previous page, and a next one iff rows
   * remain.
   */
  lemma FirstPage(ob: Orders, codec: Codec, prepare: (string, int) -> int, table: seq<Row>,
                  s: seq<Row>, params: PaginateParams)
    requires s == Sort(ob, table)
    requires !ProvidedCursor(params)
    ensures var r := Paginated(ob, codec, prepare, table, params);
      && r.Some?
      && r.value.nodes == s[..PageSize(params.limit, |s|)]
      && !r.value.hasPrevPage
      && r.value.hasNextPage == More(params.limit, |s|)
      && (r.value.prevPageCursor, r.value.nextPageCursor) == PageCursors(ob, codec, r.value.nodes)
  {
    AdjustNext(ob);
    PageFromRows(ob, codec, prepare, table, None, params.limit, s);
  }

  /** The cursors of a non-empty run of rows come from its first and last rows. */
  lemma RunCursors(ob: Orders, codec: Codec, s: seq<Row>, a: nat, last: nat)
    requires a <= last < |s|
    ensures PageCursors(ob, codec, s[a..last + 1])
      == (Some(Stringify(codec, CursorFor(ob, s[a]), false)), Some(Stringify(codec, CursorFor(ob, s[last]), true)))
  {
    assert s[a..last + 1][0] == s[a] && s[a..last + 1][last - a] == s[last];
  }

  /** A cursor minted from a row of the table is accepted: the page is the one for that cursor. */
  lemma RowCursorAccepted(ob: Orders, codec: Codec, prepare: (string, int) -> int, table: seq<Row>,
                          p: nat, isNext: bool, limit: Option<nat>)
    requires Sound(ob, codec, prepare, table)
    requires p < |Sort(ob, table)|
    ensures IsValidCursor(ob, CursorFor(ob, Sort(ob, table)[p]))
    ensures var c := CursorFor(ob, Sort(ob, table)[p]);
      Paginated(ob, codec, prepare, table, PaginateParams(Some(Stringify(codec, c, isNext)), limit))
      == Some(PageFor(ob, codec, prepare, table, Some(DirectionalCursor(c, isNext)), limit))
  {
    var s := Sort(ob, table);
    SortedRow(ob, table, p);
    CreatedCursorParams(ob, prepare, s[p]);
    PaginatedCursor(ob, codec, prepare, table, CursorFor(ob, s[p]), isNext, limit);
  }

  /** The page for a `next:` cursor minted from `s[p]`, in terms of the rows after `s[p]`. */
  lemma NextPageRows(ob: Orders, codec: Codec, prepare: (string, int) -> int, table: seq<Row>,
                     p: nat, limit: Option<nat>)
    requires Sound(ob, codec, prepare, table)
    requires p < |Sort(ob, table)|
    ensures IsValidCursor(ob, CursorFor(ob, Sort(ob, table)[p]))
    ensures var rest := Sort(ob, table)[p + 1..];
      var r := PageFor(ob, codec, prepare, table,
                       Some(DirectionalCursor(CursorFor(ob, Sort(ob, table)[p]), true)), limit);
      && r.nodes == rest[..PageSize(limit, |rest|)]
      && r.hasPrevPage
      && r.hasNextPage == More(limit, |rest|)
      && (r.prevPageCursor, r.nextPageCursor) == PageCursors(ob, codec, r.nodes)
  {
    var s := Sort(ob, table);
    FetchedNext(ob, codec, prepare, table, p, limit);
    PageFromRows(ob, codec, prepare, table, Some(DirectionalCursor(CursorFor(ob, s[p]), true)), limit, s[p + 1..]);
  }

  /**
   * `page` holds the run of rows right after `s[p]`, at most a page of
   * them, with the cursors of that run; a page exists before it, and one
   * after it iff rows remain.
   */
  predicate NextRun(ob: Orders, codec: Codec, page: Option<CursorPagination>, s: seq<Row>, p: nat, limit: Option<nat>)
    requires p < |s|
  {
    && page.Some?
    && page.value.nodes == s[p + 1..p + 1 + PageSize(limit, |s| - p - 1)]
    && page.value.hasPrevPage
    && page.value.hasNextPage == More(limit, |s| - p - 1)
    && (page.value.prevPageCursor, page.value.nextPageCursor) == PageCursors(ob, codec, page.value.nodes)
  }

  /**
   * `page` holds the run of rows right before `s[p]`, at most a page of
   * them, in the declared order, with the cursors of that run; a page
   * exists after it, and one before it iff rows remain.
   */
  predicate PrevRun(ob: Orders, codec: Codec, page: Option<CursorPagination>, s: seq<Row>, p: nat, limit: Option<nat>)
    requires p < |s|
  {
    && page.Some?
    && page.value.nodes == s[p - PageSize(limit, p)..p]
    && page.value.hasPrevPage == More(limit, p)
    && page.value.hasNextPage
    && (page.value.prevPageCursor, page.value.nextPageCursor) == PageCursors(ob, codec, page.value.nodes)
  }

  /**
   * A `next:` cursor minted from the row at position `p` of the ordered
   * table `s` yields the rows right after it, at most a page of them; a
   * page exists before, and one after iff rows remain.
   */
  lemma FollowNext(ob: Orders, codec: Codec, prepare: (string, int) -> int, table: seq<Row>,
                   s: seq<Row>, p: nat, limit: Option<nat>)
    requires Sound(ob, codec, prepare, table)
    requires s == Sort(ob, table) && p < |s|
    ensures NextRun(ob, codec, Paginated(ob, codec, prepare, table,
                                         PaginateParams(Some(Stringify(codec, CursorFor(ob, s[p]), true)), limit)),
                    s, p, limit)
  {
    RowCursorAccepted(ob, codec, prepare, table, p, true, limit);
    NextPageRows(ob, codec, prepare, table, p, limit);
    var c := CursorFor(ob, s[p]);
    NextRunOf(ob, codec, Paginated(ob, codec, prepare, table, PaginateParams(Some(Stringify(codec, c, true)), limit)),
              PageFor(ob, codec, prepare, table, Some(DirectionalCursor(c, true)), limit), s, p, limit);
  }

  /** A page for the rows after `s[p]`, as `NextPageRows` describes it, is that run. */
  lemma NextRunOf(ob: Orders, codec: Codec, page: Option<CursorPagination>, pf: CursorPagination,
                  s: seq<Row>, p: nat, limit: Option<nat>)
    requires p < |s| && page == Some(pf)
    requires pf.nodes == s[p + 1..][..PageSize(limit, |s[p + 1..]|)]
    requires pf.hasPrevPage && pf.hasNextPage == More(limit, |s[p + 1..]|)
    requires (pf.prevPageCursor, pf.nextPageCursor) == PageCursors(ob, codec, pf.nodes)
    ensures NextRun(ob, codec, page, s, p, limit)
  {
    HeadOfSuffix(s, p, limit, pf.nodes);
  }

  /** The rows before position `p`, nearest first, cut to a page and turned back: the page's worth right before `p`. */
  lemma TailOfPrefix(s: seq<Row>, p: nat, limit: Option<nat>, nodes: seq<Row>)
    requires p <= |s|
    requires nodes == Reverse(Reverse(s[..p])[..PageSize(limit, |Reverse(s[..p])|)])
    ensures nodes == s[p - PageSize(limit, p)..p]
  {
    var n := PageSize(limit, p);
    ReversePrefix(s[..p], n);
    assert s[..p][p - n..] == s[p - n..p];
    ReverseReverse(s[p - n..p]);
  }

  /** The page for a `prev:` cursor minted from `s[p]`, in terms of the rows before `s[p]`, nearest first. */
  lemma PrevPageRows(ob: Orders, codec: Codec, prepare: (string, int) -> int, table: seq<Row>,
                     p: nat, limit: Option<nat>)
    requires Sound(ob, codec, prepare, table)
    requires p < |Sort(ob, table)|
    ensures IsValidCursor(ob, CursorFor(ob, Sort(ob, table)[p]))
    ensures var before := Reverse(Sort(ob, table)[..p]);
      var r := PageFor(ob, codec, prepare, table,
                       Some(DirectionalCursor(CursorFor(ob, Sort(ob, table)[p]), false)), limit);
      && r.nodes == Reverse(before[..PageSize(limit, |before|)])
      && r.hasPrevPage == More(limit, |before|)
      && r.hasNextPage
      && (r.prevPageCursor, r.nextPageCursor) == PageCursors(ob, codec, r.nodes)
  {
    var s := Sort(ob, table);
    FetchedPrev(ob, codec, prepare, table, p, limit);
    PageFromRows(ob, codec, prepare, table, Some(DirectionalCursor(CursorFor(ob, s[p]), false)), limit, Reverse(s[..p]));
  }

  /**
   * A `prev:` cursor minted from the row at position `p` of the ordered
   * table `s` yields the rows right before it, at most a page of them, in
   * the declared order; a page exists after, and one before iff rows remain.
   */
  lemma FollowPrev(ob: Orders, codec: Codec, prepare: (string, int) -> int, table: seq<Row>,
                   s: seq<Row>, p: nat, limit: Option<nat>)
    requires Sound(ob, codec, prepare, table)
    requires s == Sort(ob, table) && p < |s|
    ensures PrevRun(ob, codec, Paginated(ob, codec, prepare, table,
                                         PaginateParams(Some(Stringify(codec, CursorFor(ob, s[p]), false)), limit)),
                    s, p, limit)
  {
    RowCursorAccepted(ob, codec, prepare, table, p, false, limit);
    PrevPageRows(ob, codec, prepare, table, p, limit);
    var c := CursorFor(ob, s[p]);
    PrevRunOf(ob, codec, Paginated(ob, codec, prepare, table, PaginateParams(Some(Stringify(codec, c, false)), limit)),
              PageFor(ob, codec, prepare, table, Some(DirectionalCursor(c, false)), limit), s, p, limit);
  }

  /**
   * A `next:` cursor for any valid values, such as one minted from a row
   * that was deleted since or before rows were inserted, yields the first
   * page's worth of the rows of the current ordered table `s` after those
   * values. Neither the identity transform nor distinct order keys are
   * needed here.
   */
  lemma NextOfAnyCursor(ob: Orders, codec: Codec, prepare: (string, int) -> int, table: seq<Row>,
                        s: seq<Row>, c: Cursor, limit: Option<nat>)
    requires RoundTrips(codec) && |ob| > 0 && Covers(table, ob) && UniqueKeys(ob, table)
    requires s == Sort(ob, table) && IsValidCursor(ob, c)
    ensures var rest := FilterAfter(ob, Params(prepare, c), s);
      var r := Paginated(ob, codec, prepare, table, PaginateParams(Some(Stringify(codec, c, true)), limit));
      && r.Some?
      && r.value.nodes == rest[..PageSize(limit, |rest|)]
      && r.value.hasPrevPage
      && r.value.hasNextPage == More(limit, |rest|)
      && (r.value.prevPageCursor, r.value.nextPageCursor) == PageCursors(ob, codec, r.value.nodes)
  {
    PaginatedCursor(ob, codec, prepare, table, c, true, limit);
    var params := Params(prepare, c);
    ValidParamsCover(ob, prepare, c);
    FilterWhereIsAfter(ob, params, true, table);
    AdjustNext(ob);
    SortFilterCommute(ob, params, table);
    PageFromRows(ob, codec, prepare, table, Some(DirectionalCursor(c, true)), limit, FilterAfter(ob, params, s));
  }

  /**
   * A `prev:` cursor for any valid values yields the last page's worth of
   * the rows of the current ordered table `s` before those values, in the
   * declared order. `earlier` keeps the rows after the values in the
   * flipped order, which are the rows before them in the declared one
   * (`BeforeAdjustPrev`).
   */
  lemma PrevOfAnyCursor(ob: Orders, codec: Codec, prepare: (string, int) -> int, table: seq<Row>,
                        s: seq<Row>, c: Cursor, limit: Option<nat>)
    requires RoundTrips(codec) && |ob| > 0 && Covers(table, ob) && UniqueKeys(ob, table)
    requires s == Sort(ob, table) && IsValidCursor(ob, c)
    ensures EarlierRun(ob, codec, Paginated(ob, codec, prepare, table, PaginateParams(Some(Stringify(codec, c, false)), limit)),
                       FilterAfter(Adjust(ob, false), Params(prepare, c), s), limit)
  {
    PaginatedCursor(ob, codec, prepare, table, c, false, limit);
    PrevCursorRows(ob, codec, prepare, table, s, c, limit);
    EarlierRunOf(ob, codec, Paginated(ob, codec, prepare, table, PaginateParams(Some(Stringify(codec, c, false)), limit)),
                 PageFor(ob, codec, prepare, table, Some(DirectionalCursor(c, false)), limit),
                 FilterAfter(Adjust(ob, false), Params(prepare, c), s), limit);
  }

  /**
   * `page` holds the last page's worth of the rows `earlier`, in the
   * declared order, with the cursors of that run; a page exists after it,
   * and one before it iff rows remain.
   */
  predicate EarlierRun(ob: Orders, codec: Codec, page: Option<CursorPagination>, earlier: seq<Row>, limit: Option<nat>) {
    && page.Some?
    && page.value.nodes == earlier[|earlier| - PageSize(limit, |earlier|)..]
    && page.value.hasPrevPage == More(limit, |earlier|)
    && page.value.hasNextPage
    && (page.value.prevPageCursor, page.value.nextPageCursor) == PageCursors(ob, codec, page.value.nodes)
  }

  /** A page for the rows before a cursor, as `PrevCursorRows` describes it, is that run. */
  lemma EarlierRunOf(ob: Orders, codec: Codec, page: Option<CursorPagination>, pf: CursorPagination,
                     earlier: seq<Row>, limit: Option<nat>)
    requires page == Some(pf)
    requires pf.nodes == Reverse(Reverse(earlier)[..PageSize(limit, |Reverse(earlier)|)])
    requires pf.hasPrevPage == More(limit, |Reverse(earlier)|) && pf.hasNextPage
    requires (pf.prevPageCursor, pf.nextPageCursor) == PageCursors(ob, codec, pf.nodes)
    ensures EarlierRun(ob, codec, page, earlier, limit)
  {
    TailOfRows(earlier, PageSize(limit, |earlier|), pf.nodes);
  }

  /** The page for a `prev:` cursor for any valid values, in terms of the rows before them, nearest first. */
  lemma PrevCursorRows(ob: Orders, codec: Codec, prepare: (string, int) -> int, table: seq<Row>,
                       s: seq<Row>, c: Cursor, limit: Option<nat>)
    requires Covers(table, ob) && UniqueKeys(ob, table)
    requires s == Sort(ob, table) && IsValidCursor(ob, c)
    ensures var before := Reverse(FilterAfter(Adjust(ob, false), Params(prepare, c), s));
      var r := PageFor(ob, codec, prepare, table, Some(DirectionalCursor(c, false)), limit);
      && r.nodes == Reverse(before[..PageSize(limit, |before|)])
      && r.hasPrevPage == More(limit, |before|)
      && r.hasNextPage
      && (r.prevPageCursor, r.nextPageCursor) == PageCursors(ob, codec, r.nodes)
  {
    var params := Params(prepare, c);
    ValidParamsCover(ob, prepare, c);
    FilterWhereIsAfter(ob, params, false, table);
    SortFilterFlipped(ob, params, table);
    PageFromRows(ob, codec, prepare, table, Some(DirectionalCursor(c, false)), limit,
                 Reverse(FilterAfter(Adjust(ob, false), params, s)));
  }

  /** The first `n` rows of the reversed sequence, turned back: its last `n` rows. */
  lemma TailOfRows(e: seq<Row>, n: nat, nodes: seq<Row>)
    requires n <= |e|
    requires nodes == Reverse(Reverse(e)[..n])
    ensures nodes == e[|e| - n..]
  {
    ReversePrefix(e, n);
    ReverseReverse(e[|e| - n..]);
  }

  /** A page for the rows before `s[p]`, as `PrevPageRows` describes it, is that run. */
  lemma PrevRunOf(ob: Orders, codec: Codec, page: Option<CursorPagination>, pf: CursorPagination,
                  s: seq<Row>, p: nat, limit: Option<nat>)
    requires p < |s| && page == Some(pf)
    requires pf.nodes == Reverse(Reverse(s[..p])[..PageSize(limit, |Reverse(s[..p])|)])
    requires pf.hasPrevPage == More(limit, |Reverse(s[..p])|) && pf.hasNextPage
    requires (pf.prevPageCursor, pf.nextPageCursor) == PageCursors(ob, codec, pf.nodes)
    ensures PrevRun(ob, codec, page, s, p, limit)
  {
    TailOfPrefix(s, p, limit, pf.nodes);
  }

  /** Every page reports the size of the whole table. */
  lemma PageForCount(ob: Orders, codec: Codec, prepare: (string, int) -> int, table: seq<Row>,
                     params: PaginateParams)
    ensures var r := Paginated(ob, codec, prepare, table, params);
      r.Some? ==> r.value.totalCount == |table|
  {
  }

  /** Sorting keeps the number of rows. */
  lemma SortLength(ob: Orders, table: seq<Row>)
    ensures |Sort(ob, table)| == |table|
  {
    assert |multiset(Sort(ob, table))| == |multiset(table)|;
  }

  /** What `FollowNext` says of the page after the last row: it is empty and has no next page. */
  lemma NextPastEnd(ob: Orders, codec: Codec, s: seq<Row>, p: nat, limit: Option<nat>,
                    page: Option<CursorPagination>, count: nat)
    requires p == |s| - 1
    requires NextRun(ob, codec, page, s, p, limit) && page.value.totalCount == count
    ensures page == Some(CursorPagination(count, [], true, false, None, None))
  {
  }

  /** What `FollowPrev` says of the page before the first row: it is empty and has no previous page. */
  lemma PrevPastStart(ob: Orders, codec: Codec, s: seq<Row>, p: nat, limit: Option<nat>,
                      page: Option<CursorPagination>, count: nat)
    requires p == 0 && p < |s|
    requires PrevRun(ob, codec, page, s, p, limit) && page.value.totalCount == count
    ensures page == Some(CursorPagination(count, [], false, true, None, None))
  {
  }

  /** The first page of a table with rows hands out the `prev:` cursor of its first row. */
  lemma FirstPrevCursor(ob: Orders, codec: Codec, prepare: (string, int) -> int, table: seq<Row>,
                        s: seq<Row>, limit: Option<nat>)
    requires s == Sort(ob, table) && |s| > 0
    ensures var first := Paginated(ob, codec, prepare, table, PaginateParams(None, limit));
      first.Some? && first.value.prevPageCursor == Some(Stringify(codec, CursorFor(ob, s[0]), false))
  {
    FirstPage(ob, codec, prepare, table, s, PaginateParams(None, limit));
    var n := PageSize(limit, |s|);
    assert s[..n] == s[0..n];
    RunCursors(ob, codec, s, 0, n - 1);
  }

  /**
   * The `prev:` cursor of the first row of the ordered table `s` leads to
   * an empty page with no cursors and no previous page, but a next one.
   */
  lemma PrevOfFirstRow(ob: Orders, codec: Codec, prepare: (string, int) -> int, table: seq<Row>,
                       s: seq<Row>, limit: Option<nat>)
    requires Sound(ob, codec, prepare, table)
    requires s == Sort(ob, table) && |s| > 0
    ensures Paginated(ob, codec, prepare, table,
                      PaginateParams(Some(Stringify(codec, CursorFor(ob, s[0]), false)), limit))
      == Some(CursorPagination(|table|, [], false, true, None, None))
  {
    var p := 0;
    var params := PaginateParams(Some(Stringify(codec, CursorFor(ob, s[p]), false)), limit);
    FollowPrev(ob, codec, prepare, table, s, p, limit);
    PageForCount(ob, codec, prepare, table, params);
    PrevPastStart(ob, codec, s, p, limit, Paginated(ob, codec, prepare, table, params), |table|);
  }

  /**
   * The first page's `prev:` cursor leads to an empty page with no cursors
   * and no previous page, but a next one.
   */
  lemma PrevOfFirstPage(ob: Orders, codec: Codec, prepare: (string, int) -> int, table: seq<Row>,
                        limit: Option<nat>)
    requires Sound(ob, codec, prepare, table)
    requires |table| > 0
    ensures var first := Paginated(ob, codec, prepare, table, PaginateParams(None, limit));
      && first.Some? && first.value.prevPageCursor.Some?
      && Paginated(ob, codec, prepare, table, PaginateParams(first.value.prevPageCursor, limit))
         == Some(CursorPagination(|table|, [], false, true, None, None))
  {
    var s := Sort(ob, table);
    SortLength(ob, table);
    FirstPrevCursor(ob, codec, prepare, table, s, limit);
    PrevOfFirstRow(ob, codec, prepare, table, s, limit);
  }

  /**
   * The `next:` cursor of the last row of the ordered table `s` leads to an
   * empty page with no cursors and no next page, but a previous one.
   */
  lemma NextOfLastRow(ob: Orders, codec: Codec, prepare: (string, int) -> int, table: seq<Row>,
                      s: seq<Row>, limit: Option<nat>)
    requires Sound(ob, codec, prepare, table)
    requires s == Sort(ob, table) && |s| > 0
    ensures Paginated(ob, codec, prepare, table,
                      PaginateParams(Some(Stringify(codec, CursorFor(ob, s[|s| - 1]), true)), limit))
      == Some(CursorPagination(|table|, [], true, false, None, None))
  {
    NextOfRowAtEnd(ob, codec, prepare, table, s, |s| - 1, limit);
  }

  /** `NextOfLastRow` for the row at position `p`, the last one. */
  lemma NextOfRowAtEnd(ob: Orders, codec: Codec, prepare: (string, int) -> int, table: seq<Row>,
                       s: seq<Row>, p: nat, limit: Option<nat>)
    requires Sound(ob, codec, prepare, table)
    requires s == Sort(ob, table) && p == |s| - 1
    ensures Paginated(ob, codec, prepare, table,
                      PaginateParams(Some(Stringify(codec, CursorFor(ob, s[p]), true)), limit))
      == Some(CursorPagination(|table|, [], true, false, None, None))
  {
    var params := PaginateParams(Some(Stringify(codec, CursorFor(ob, s[p]), true)), limit);
    FollowNext(ob, codec, prepare, table, s, p, limit);
    PageForCount(ob, codec, prepare, table, params);
    NextPastEnd(ob, codec, s, p, limit, Paginated(ob, codec, prepare, table, params), |table|);
  }

  /**
   * The first page of a table with more than `l` rows, `l` at a time,
   * hands out the `next:` cursor of its last row, `s[p]`.
   */
  lemma FirstNextCursor(ob: Orders, codec: Codec, prepare: (string, int) -> int, table: seq<Row>,
                        s: seq<Row>, p: nat, l: nat)
    requires s == Sort(ob, table) && l == p + 1 && l < |s|
    ensures var first := Paginated(ob, codec, prepare, table, PaginateParams(None, Some(l)));
      first.Some? && first.value.nextPageCursor == Some(Stringify(codec, CursorFor(ob, s[p]), true))
  {
    var params := PaginateParams(None, Some(l));
    FirstPage(ob, codec, prepare, table, s, params);
    FirstPageNext(ob, codec, Paginated(ob, codec, prepare, table, params), s, p, l);
  }

  /** A first page of `l` rows at a time, over more than `l` rows, hands out the `next:` cursor of `s[p]`, its last. */
  lemma FirstPageNext(ob: Orders, codec: Codec, page: Option<CursorPagination>, s: seq<Row>, p: nat, l: nat)
    requires l == p + 1 && l < |s|
    requires page.Some? && page.value.nodes == s[..PageSize(Some(l), |s|)]
    requires (page.value.prevPageCursor, page.value.nextPageCursor) == PageCursors(ob, codec, page.value.nodes)
    ensures page.value.nextPageCursor == Some(Stringify(codec, CursorFor(ob, s[p]), true))
  {
    HeadCursors(ob, codec, page, s, l);
  }

  /** A page holding the first `n` rows of `s`, with the cursors of its rows, hands out those of `s[0]` and `s[n - 1]`. */
  lemma HeadCursors(ob: Orders, codec: Codec, page: Option<CursorPagination>, s: seq<Row>, n: nat)
    requires 0 < n <= |s|
    requires page.Some? && page.value.nodes == s[..n]
    requires (page.value.prevPageCursor, page.value.nextPageCursor) == PageCursors(ob, codec, page.value.nodes)
    ensures page.value.prevPageCursor == Some(Stringify(codec, CursorFor(ob, s[0]), false))
    ensures page.value.nextPageCursor == Some(Stringify(codec, CursorFor(ob, s[n - 1]), true))
  {
    assert s[..n] == s[0..n - 1 + 1];
    RunCursors(ob, codec, s, 0, n - 1);
  }

  /** The page after the `next:` cursor of row `p`, `l == p + 1` rows at a time, hands out the `prev:` cursor of row `l`. */
  lemma SecondPrevCursor(ob: Orders, codec: Codec, prepare: (string, int) -> int, table: seq<Row>,
                         s: seq<Row>, p: nat, l: nat)
    requires Sound(ob, codec, prepare, table)
    requires s == Sort(ob, table) && l == p + 1 && l < |s|
    ensures var second := Paginated(ob, codec, prepare, table,
                                    PaginateParams(Some(Stringify(codec, CursorFor(ob, s[p]), true)), Some(l)));
      second.Some? && second.value.prevPageCursor == Some(Stringify(codec, CursorFor(ob, s[l]), false))
  {
    FollowNext(ob, codec, prepare, table, s, p, Some(l));
    NextRunPrev(ob, codec, Paginated(ob, codec, prepare, table,
                                     PaginateParams(Some(Stringify(codec, CursorFor(ob, s[p]), true)), Some(l))),
                s, p, l, Some(l));
  }

  /** A page holding a non-empty run after `s[p]` hands out the `prev:` cursor of the next row, `s[q]`. */
  lemma NextRunPrev(ob: Orders, codec: Codec, page: Option<CursorPagination>, s: seq<Row>, p: nat, q: nat,
                    limit: Option<nat>)
    requires q == p + 1 && q < |s|
    requires NextRun(ob, codec, page, s, p, limit)
    ensures page.value.prevPageCursor == Some(Stringify(codec, CursorFor(ob, s[q]), false))
  {
    var n := PageSize(limit, |s| - p - 1);
    RunCursors(ob, codec, s, p + 1, p + n);
  }

  /**
   * A page holding the first `l` rows, with a next page, no previous one
   * and the cursors of its rows, is the first page.
   */
  lemma SameFirstPage(ob: Orders, codec: Codec, a: Option<CursorPagination>, b: Option<CursorPagination>,
                      s: seq<Row>, l: nat, count: nat)
    requires 0 < l < |s|
    requires PrevRun(ob, codec, a, s, l, Some(l)) && a.value.totalCount == count
    requires b.Some? && b.value.totalCount == count
    requires b.value.nodes == s[..PageSize(Some(l), |s|)]
    requires !b.value.hasPrevPage && b.value.hasNextPage == More(Some(l), |s|)
    requires (b.value.prevPageCursor, b.value.nextPageCursor) == PageCursors(ob, codec, b.value.nodes)
    ensures a == b
  {
    assert s[l - l..l] == s[..l];
  }

  /** The `prev:` cursor of row `l`, `l` rows at a time, leads back to the first page. */
  lemma BackToFirst(ob: Orders, codec: Codec, prepare: (string, int) -> int, table: seq<Row>,
                    s: seq<Row>, l: nat)
    requires Sound(ob, codec, prepare, table)
    requires s == Sort(ob, table) && 0 < l < |s|
    ensures Paginated(ob, codec, prepare, table, PaginateParams(Some(Stringify(codec, CursorFor(ob, s[l]), false)), Some(l)))
      == Paginated(ob, codec, prepare, table, PaginateParams(None, Some(l)))
  {
    var back := PaginateParams(Some(Stringify(codec, CursorFor(ob, s[l]), false)), Some(l));
    var start := PaginateParams(None, Some(l));
    FollowPrev(ob, codec, prepare, table, s, l, Some(l));
    FirstPage(ob, codec, prepare, table, s, start);
    PageForCount(ob, codec, prepare, table, back);
    PageForCount(ob, codec, prepare, table, start);
    SameFirstPage(ob, codec, Paginated(ob, codec, prepare, table, back), Paginated(ob, codec, prepare, table, start),
                  s, l, |table|);
  }

  /**
   * Paging forward from the first page and back again with the second
   * page's `prev:` cursor gives the first page once more.
   */
  lemma SecondPageBack(ob: Orders, codec: Codec, prepare: (string, int) -> int, table: seq<Row>, l: nat)
    requires Sound(ob, codec, prepare, table)
    requires 0 < l < |table|
    ensures var first := Paginated(ob, codec, prepare, table, PaginateParams(None, Some(l)));
      && first.Some? && first.value.nextPageCursor.Some?
      && var second := Paginated(ob, codec, prepare, table, PaginateParams(first.value.nextPageCursor, Some(l)));
      && second.Some? && second.value.prevPageCursor.Some?
      && Paginated(ob, codec, prepare, table, PaginateParams(second.value.prevPageCursor, Some(l))) == first
  {
    var s := Sort(ob, table);
    SortLength(ob, table);
    var p := l - 1;
    FirstNextCursor(ob, codec, prepare, table, s, p, l);
    SecondPrevCursor(ob, codec, prepare, table, s, p, l);
    BackToFirst(ob, codec, prepare, table, s, l);
  }

  /**
   * A client paging forward with `pager` (one `paginate` call per request):
   * request the page, then keep following `nextPageCursor` while
   * `hasNextPage` holds, at most `fuel` more times, and concatenate the
   * pages; `None` if a request fails, a cursor is missing or the fuel runs
   * out.
   */
  function WalkForward(pager: PaginateParams -> Option<CursorPagination>, params: PaginateParams, fuel: nat)
    : Option<seq<Row>>
    decreases fuel
  {
    match pager(params)
    case None => None
    case Some(page) =>
      if !page.hasNextPage then Some(page.nodes)
      else if fuel == 0 || page.nextPageCursor.None? then None
      else match WalkForward(pager, PaginateParams(page.nextPageCursor, params.limit), fuel - 1)
        case None => None
        case Some(rest) => Some(page.nodes + rest)
  }

  /** `paginate` of a paginator over `table`, as the walk sees it. */
  function Pager(ob: Orders, codec: Codec, prepare: (string, int) -> int, table: seq<Row>)
    : PaginateParams -> Option<CursorPagination>
  {
    params => Paginated(ob, codec, prepare, table, params)
  }

  /** The `next:` cursor a page ending at `row` hands out. */
  function NextCursorOf(ob: Orders, codec: Codec): Row -> string {
    row => Stringify(codec, CursorFor(ob, row), true)
  }

  /**
   * `page` is what a walk finds behind the `next:` cursor of `s[q]`: the
   * next run of at most a page of rows, and the cursor of its last row iff
   * rows remain after it.
   */
  predicate StepAt(page: Option<CursorPagination>, s: seq<Row>, q: nat, limit: Option<nat>, cursorOf: Row -> string)
    requires q < |s|
  {
    && page.Some?
    && if More(limit, |s| - q - 1) then
         && page.value.hasNextPage
         && page.value.nodes == s[q + 1..q + limit.value + 1]
         && page.value.nextPageCursor == Some(cursorOf(s[q + limit.value]))
       else !page.value.hasNextPage && page.value.nodes == s[q + 1..]
  }

  /** A run of rows followed by everything after it is everything from its start. */
  lemma JoinRuns(s: seq<Row>, a: nat, b: nat)
    requires a <= b <= |s|
    ensures s[a..b] + s[b..] == s[a..]
  {
  }

  /**
   * Starting from the cursor of `s[p]`, every cursor the walk meets leads
   * to the next run of rows, up to the last one.
   */
  predicate StepsFrom(pager: PaginateParams -> Option<CursorPagination>, cursorOf: Row -> string,
                      s: seq<Row>, p: nat, limit: Option<nat>)
    requires p < |s|
    decreases |s| - p
  {
    && StepAt(pager(PaginateParams(Some(cursorOf(s[p])), limit)), s, p, limit, cursorOf)
    && (More(limit, |s| - p - 1) ==> StepsFrom(pager, cursorOf, s, p + limit.value, limit))
  }

  /** A walk step that goes on: the run after `s[p]`, then the walk from the cursor of that run's last row. */
  lemma WalkOn(pager: PaginateParams -> Option<CursorPagination>, cursorOf: Row -> string,
               s: seq<Row>, p: nat, limit: Option<nat>, fuel: nat)
    requires p < |s| && More(limit, |s| - p - 1) && fuel > 0
    requires StepAt(pager(PaginateParams(Some(cursorOf(s[p])), limit)), s, p, limit, cursorOf)
    requires WalkForward(pager, PaginateParams(Some(cursorOf(s[p + limit.value])), limit), fuel - 1)
      == Some(s[p + limit.value + 1..])
    ensures WalkForward(pager, PaginateParams(Some(cursorOf(s[p])), limit), fuel) == Some(s[p + 1..])
  {
    JoinRuns(s, p + 1, p + limit.value + 1);
  }

  /** A walk step that ends: the run after `s[p]` is the rest of the rows. */
  lemma WalkLast(pager: PaginateParams -> Option<CursorPagination>, cursorOf: Row -> string,
                 s: seq<Row>, p: nat, limit: Option<nat>, fuel: nat)
    requires p < |s| && !More(limit, |s| - p - 1)
    requires StepAt(pager(PaginateParams(Some(cursorOf(s[p])), limit)), s, p, limit, cursorOf)
    ensures WalkForward(pager, PaginateParams(Some(cursorOf(s[p])), limit), fuel) == Some(s[p + 1..])
  {
  }

  /**
   * Whatever the pager, if every cursor the walk meets leads to the next
   * run of rows, walking from the cursor of `s[p]` collects every row
   * after it exactly once, in order.
   */
  lemma {:induction false} WalkSteps(pager: PaginateParams -> Option<CursorPagination>, cursorOf: Row -> string,
                                     s: seq<Row>, p: nat, limit: Option<nat>, fuel: nat)
    requires p < |s| && fuel >= |s| - p - 1
    requires StepsFrom(pager, cursorOf, s, p, limit)
    ensures WalkForward(pager, PaginateParams(Some(cursorOf(s[p])), limit), fuel) == Some(s[p + 1..])
    decreases |s| - p
  {
    if More(limit, |s| - p - 1) {
      WalkSteps(pager, cursorOf, s, p + limit.value, limit, fuel - 1);
      WalkOn(pager, cursorOf, s, p, limit, fuel);
    } else {
      WalkLast(pager, cursorOf, s, p, limit, fuel);
    }
  }

  /**
   * `page` is the first page of the walk: a page's worth of rows from the
   * start, and the cursor of its last row iff rows remain after it.
   */
  predicate FirstAt(page: Option<CursorPagination>, s: seq<Row>, limit: Option<nat>, cursorOf: Row -> string) {
    && page.Some?
    && if More(limit, |s|) then
         && page.value.hasNextPage
         && page.value.nodes == s[..limit.value]
         && page.value.nextPageCursor == Some(cursorOf(s[limit.value - 1]))
       else !page.value.hasNextPage && page.value.nodes == s
  }

  /** When the first page is not the last, every request from its last row on is a step. */
  predicate StepsAfterFirst(pager: PaginateParams -> Option<CursorPagination>, cursorOf: Row -> string,
                            s: seq<Row>, limit: Option<nat>)
  {
    More(limit, |s|) ==> StepsFrom(pager, cursorOf, s, limit.value - 1, limit)
  }

  /** Whatever the pager, a walk from a first page through steps that follow each other collects all of `s`. */
  lemma WalkStart(pager: PaginateParams -> Option<CursorPagination>, cursorOf: Row -> string,
                  s: seq<Row>, limit: Option<nat>, fuel: nat)
    requires fuel >= |s|
    requires FirstAt(pager(PaginateParams(None, limit)), s, limit, cursorOf)
    requires StepsAfterFirst(pager, cursorOf, s, limit)
    ensures WalkForward(pager, PaginateParams(None, limit), fuel) == Some(s)
  {
    if More(limit, |s|) {
      var l := limit.value;
      WalkSteps(pager, cursorOf, s, l - 1, limit, fuel - 1);
      assert s[..l] + s[l..] == s;
    }
  }

  /** A page holding the run after `s[p]`, with the cursors of that run, is the walk's step at `p`. */
  lemma StepOfRun(ob: Orders, codec: Codec, page: Option<CursorPagination>, s: seq<Row>, p: nat, limit: Option<nat>)
    requires p < |s| && NextRun(ob, codec, page, s, p, limit)
    ensures StepAt(page, s, p, limit, NextCursorOf(ob, codec))
  {
    if More(limit, |s| - p - 1) {
      var q := p + limit.value;
      assert page.value.nodes == s[p + 1..q + 1];
      RunCursors(ob, codec, s, p + 1, q);
    } else {
      assert s[p + 1..|s|] == s[p + 1..];
    }
  }

  /** A page holding the head of `s`, with the cursors of that head, is the walk's first page. */
  lemma FirstOfRun(ob: Orders, codec: Codec, page: Option<CursorPagination>, s: seq<Row>, limit: Option<nat>)
    requires page.Some?
    requires page.value.nodes == s[..PageSize(limit, |s|)]
    requires page.value.hasNextPage == More(limit, |s|)
    requires (page.value.prevPageCursor, page.value.nextPageCursor) == PageCursors(ob, codec, page.value.nodes)
    ensures FirstAt(page, s, limit, NextCursorOf(ob, codec))
  {
    if More(limit, |s|) {
      var l := limit.value;
      assert page.value.nodes == s[0..l];
      RunCursors(ob, codec, s, 0, l - 1);
    } else {
      assert s[..|s|] == s;
    }
  }

  /** The page behind the `next:` cursor of `s[p]` is the walk's next step. */
  lemma NextStep(ob: Orders, codec: Codec, prepare: (string, int) -> int, table: seq<Row>,
                 s: seq<Row>, p: nat, limit: Option<nat>)
    requires Sound(ob, codec, prepare, table)
    requires s == Sort(ob, table) && p < |s|
    ensures StepAt(Pager(ob, codec, prepare, table)(PaginateParams(Some(NextCursorOf(ob, codec)(s[p])), limit)),
                   s, p, limit, NextCursorOf(ob, codec))
  {
    FollowNext(ob, codec, prepare, table, s, p, limit);
    var r := Paginated(ob, codec, prepare, table,
                       PaginateParams(Some(Stringify(codec, CursorFor(ob, s[p]), true)), limit));
    StepOfRun(ob, codec, r, s, p, limit);
    assert Pager(ob, codec, prepare, table)(PaginateParams(Some(NextCursorOf(ob, codec)(s[p])), limit)) == r;
  }

  /** Steps at every row from `p` on make every step a walk from `p` can take. */
  lemma {:induction false} StepsFromAll(pager: PaginateParams -> Option<CursorPagination>, cursorOf: Row -> string,
                                        s: seq<Row>, p: nat, limit: Option<nat>)
    requires p < |s|
    requires forall q | p <= q < |s| :: StepAt(pager(PaginateParams(Some(cursorOf(s[q])), limit)), s, q, limit, cursorOf)
    ensures StepsFrom(pager, cursorOf, s, p, limit)
    decreases |s| - p
  {
    if More(limit, |s| - p - 1) {
      StepsFromAll(pager, cursorOf, s, p + limit.value, limit);
    }
  }

  /** Every cursor a walk from `s[p]` meets through `paginate` leads to the next run of rows. */
  lemma StepsFromRow(ob: Orders, codec: Codec, prepare: (string, int) -> int, table: seq<Row>,
                     s: seq<Row>, p: nat, limit: Option<nat>)
    requires Sound(ob, codec, prepare, table)
    requires s == Sort(ob, table) && p < |s|
    ensures StepsFrom(Pager(ob, codec, prepare, table), NextCursorOf(ob, codec), s, p, limit)
  {
    forall q | p <= q < |s|
      ensures StepAt(Pager(ob, codec, prepare, table)(PaginateParams(Some(NextCursorOf(ob, codec)(s[q])), limit)),
                     s, q, limit, NextCursorOf(ob, codec))
    {
      NextStep(ob, codec, prepare, table, s, q, limit);
    }
    StepsFromAll(Pager(ob, codec, prepare, table), NextCursorOf(ob, codec), s, p, limit);
  }

  /** The first page `paginate` returns is the walk's first page. */
  lemma FirstStep(ob: Orders, codec: Codec, prepare: (string, int) -> int, table: seq<Row>,
                  s: seq<Row>, limit: Option<nat>)
    requires s == Sort(ob, table)
    ensures FirstAt(Pager(ob, codec, prepare, table)(PaginateParams(None, limit)), s, limit, NextCursorOf(ob, codec))
  {
    var params := PaginateParams(None, limit);
    FirstPage(ob, codec, prepare, table, s, params);
    var r := Paginated(ob, codec, prepare, table, params);
    FirstOfRun(ob, codec, r, s, limit);
    assert Pager(ob, codec, prepare, table)(params) == r;
  }

  /** What a walk through `paginate` needs: a first page, then steps that follow each other. */
  lemma WalkPrepared(ob: Orders, codec: Codec, prepare: (string, int) -> int, table: seq<Row>,
                     s: seq<Row>, limit: Option<nat>)
    requires Sound(ob, codec, prepare, table)
    requires s == Sort(ob, table)
    ensures |s| == |table|
    ensures FirstAt(Pager(ob, codec, prepare, table)(PaginateParams(None, limit)), s, limit, NextCursorOf(ob, codec))
    ensures StepsAfterFirst(Pager(ob, codec, prepare, table), NextCursorOf(ob, codec), s, limit)
  {
    SortLength(ob, table);
    FirstStep(ob, codec, prepare, table, s, limit);
    LaterSteps(ob, codec, prepare, table, s, limit);
  }

  /** The table's later pages are steps of the walk. */
  lemma LaterSteps(ob: Orders, codec: Codec, prepare: (string, int) -> int, table: seq<Row>,
                   s: seq<Row>, limit: Option<nat>)
    requires Sound(ob, codec, prepare, table)
    requires s == Sort(ob, table)
    ensures StepsAfterFirst(Pager(ob, codec, prepare, table), NextCursorOf(ob, codec), s, limit)
  {
    if More(limit, |s|) {
      StepsFromRow(ob, codec, prepare, table, s, limit.value - 1, limit);
    }
  }

  /**
   * Paging forward with `paginate` from the first page until `hasNextPage`
   * is false returns the whole ordered table `s`: no row is skipped or
   * repeated.
   */
  lemma WalkFromStart(ob: Orders, codec: Codec, prepare: (string, int) -> int, table: seq<Row>,
                      s: seq<Row>, limit: Option<nat>)
    requires Sound(ob, codec, prepare, table)
    requires s == Sort(ob, table)
    ensures WalkForward(Pager(ob, codec, prepare, table), PaginateParams(None, limit), |table|) == Some(s)
  {
    WalkPrepared(ob, codec, prepare, table, s, limit);
    WalkStart(Pager(ob, codec, prepare, table), NextCursorOf(ob, codec), s, limit, |table|);
  }
}
