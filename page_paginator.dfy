/**
 * `PagePaginator` (src/page-paginator.ts): offset pagination. The page
 * number and page size are clamped, the query skips `(page - 1) * take`
 * rows of the ordered table and fetches one row more than `take`, and the
 * extra row only tells whether a next page exists. `promisePaginate` hands
 * back lazy getters that share one node query.
 *
 * The query builder is modelled by an explicit table; `count` is its size.
 */
module PagePaging {
  import opened Wrappers
  import opened Ordering
  import opened Sorting
  import opened OrderNormalizer

  /** The `take` constructor option: a bare number, or an object whose fields may be missing. */
  datatype TakeInput =
    | TakeNumber(n: int)
    | TakeFields(default: Option<int>, min: Option<int>, max: Option<int>)

  /** The resolved `takeOptions`; a `max` of `None` is `Infinity`. */
  datatype TakeOptions = TakeOptions(default: int, min: nat, max: Option<int>)

  /** `{ page?, take?, orderBy? }` of one `paginate` call. */
  datatype PageParams = PageParams(page: Option<int>, take: Option<int>, orderBy: Option<OrderByInput>)

  /** What `paginate` resolves to. */
  datatype PagePagination = PagePagination(count: nat, nodes: seq<Row>, hasNext: bool)

  /** The constructor's `takeOptions`. */
  function TakeOptionsOf(take: Option<TakeInput>): (r: TakeOptions)
    ensures take.None? ==> r == TakeOptions(20, 0, None)
    ensures take.Some? && take.value.TakeNumber? ==> r.default == take.value.n && r.min == 0 && r.max.None?
    ensures take.Some? && take.value.TakeFields? ==>
      && r.default == take.value.default.GetOr(20)
      && r.max == take.value.max
      && (take.value.min.Some? ==> r.min >= take.value.min.value)
      && (take.value.min.None? || take.value.min.value <= 0 ==> r.min == 0)
      && (take.value.min.Some? && take.value.min.value > 0 ==> r.min == take.value.min.value)
  {
    match take
    case Some(TakeNumber(n)) => TakeOptions(n, 0, None)
    case Some(TakeFields(d, lo, hi)) =>
      TakeOptions(d.GetOr(20), if lo.Some? && lo.value > 0 then lo.value else 0, hi)
    case None => TakeOptions(20, 0, None)
  }

  /** `Math.max(params.page ?? 1, 1)`: the requested page when it is at least 1, else the first. */
  function EffectivePage(page: Option<int>): (r: int)
    ensures r >= 1
    ensures page.Some? && page.value >= 1 ==> r == page.value
    ensures page.None? || page.value < 1 ==> r == 1
  {
    var p := page.GetOr(1);
    if p >= 1 then p else 1
  }

  /** `Math.max(min, Math.min(params.take ?? default, max))`. */
  function EffectiveTake(opts: TakeOptions, take: Option<int>): (r: nat)
    ensures r >= opts.min
    ensures opts.max.Some? && opts.min <= opts.max.value ==> r <= opts.max.value
  {
    var want := take.GetOr(opts.default);
    var capped := if opts.max.Some? && opts.max.value < want then opts.max.value else want;
    if capped < opts.min then opts.min else capped
  }

  /** OFFSET: the rows after the first `n`. */
  function Skip(s: seq<Row>, n: nat): (r: seq<Row>)
    ensures |r| == if n <= |s| then |s| - n else 0
    ensures n <= |s| ==> r == s[n..]
  {
    if n <= |s| then s[n..] else []
  }

  /** How many rows precede page `page`: `take` for each earlier page. */
  function Offset(page: int, take: nat): nat
    requires page >= 1
    decreases page
  {
    if page == 1 then 0 else Offset(page - 1, take) + take
  }

  /** The rows the page query returns from the ordered rows `s`: `Offset(page, take)` skipped, at most `take + 1`. */
  function Lookahead(s: seq<Row>, page: int, take: nat): seq<Row>
    requires page >= 1
  {
    Take(Skip(s, Offset(page, take)), Some(take + 1))
  }

  /** The rows of page `page` of the ordered rows `s`: the fetched rows, trimmed to `take`. */
  function Window(s: seq<Row>, page: int, take: nat): seq<Row>
    requires page >= 1
  {
    var fetched := Lookahead(s, page, take);
    fetched[..Min(take, |fetched|)]
  }

  /** The page `paginate` resolves to, for an already clamped page and size. */
  function PageOf(ob: Orders, table: seq<Row>, page: int, take: nat): PagePagination
    requires page >= 1
  {
    var s := Sort(ob, table);
    PagePagination(|table|, Window(s, page, take), |Lookahead(s, page, take)| > take)
  }

  function Min(a: nat, b: nat): nat {
    if a < b then a else b
  }

  /**
   * The trim step both `paginate` and the memoized loader run: fetch, set
   * `hasNext` when more than `take` rows came back, and keep the first
   * `take`.
   */
  method FetchNodes(ob: Orders, table: seq<Row>, page: int, take: nat) returns (nodes: seq<Row>, hasNext: bool)
    requires page >= 1
    ensures nodes == PageOf(ob, table, page, take).nodes
    ensures hasNext == PageOf(ob, table, page, take).hasNext
  {
    var fetched := Lookahead(Sort(ob, table), page, take);
    hasNext := false;
    if |fetched| > take {
      hasNext := true;
    }
    nodes := fetched[..Min(take, |fetched|)];
  }

  class PagePaginator {
    const orderBy: OrderByInput
    const takeOptions: TakeOptions

    constructor (orderBy: OrderByInput, take: Option<TakeInput>)
      ensures this.orderBy == orderBy
      ensures takeOptions == TakeOptionsOf(take)
    {
      this.orderBy := orderBy;
      takeOptions := TakeOptionsOf(take);
    }

    /**
     * `paginate`: the ORDER BY list is the call's `orderBy` when given,
     * else the constructor's, each key ascending iff its flag is set.
     */
    method Paginate(table: seq<Row>, params: PageParams) returns (r: PagePagination)
      ensures r == PageOf(Normalized(params.orderBy.GetOr(orderBy)), table,
                          EffectivePage(params.page), EffectiveTake(takeOptions, params.take))
    {
      var page := EffectivePage(params.page);
      var take := EffectiveTake(takeOptions, params.take);
      var orders := NormalizeOrderBy(params.orderBy.GetOr(orderBy));
      var nodes, hasNext := FetchNodes(orders, table, page, take);
      r := PagePagination(|table|, nodes, hasNext);
    }

    /** `promisePaginate`: the order and page are fixed now, the node query runs on first use. */
    method PromisePaginate(table: seq<Row>, params: PageParams) returns (p: PromisePagePagination)
      ensures fresh(p) && p.Valid() && p.cache.None?
      ensures p.table == table
      ensures p.orders == Normalized(params.orderBy.GetOr(orderBy))
      ensures p.page == EffectivePage(params.page)
      ensures p.take == EffectiveTake(takeOptions, params.take)
    {
      var orders := NormalizeOrderBy(params.orderBy.GetOr(orderBy));
      p := new PromisePagePagination(table, orders, EffectivePage(params.page), EffectiveTake(takeOptions, params.take));
    }
  }

  /**
   * The lazy result of `promisePaginate`: `count` queries the table each
   * time, `nodes` and `hasNext` share one cached node query.
   */
  class PromisePagePagination {
    const table: seq<Row>
    const orders: Orders
    const page: int
    const take: nat
    var cache: Option<(seq<Row>, bool)>
    /** How many times the node query has run. */
    ghost var queries: nat

    /** The node query has run at most once, and what it cached is the page `paginate` would give. */
    ghost predicate Valid()
      reads this
    {
      && page >= 1
      && (cache.None? ==> queries == 0)
      && (cache.Some? ==>
            && queries == 1
            && cache.value == (PageOf(orders, table, page, take).nodes, PageOf(orders, table, page, take).hasNext))
    }

    constructor (table: seq<Row>, orders: Orders, page: int, take: nat)
      requires page >= 1
      ensures Valid() && cache.None?
      ensures this.table == table && this.orders == orders && this.page == page && this.take == take
    {
      this.table := table;
      this.orders := orders;
      this.page := page;
      this.take := take;
      cache := None;
      queries := 0;
    }

    /** `promiseNodes`: run the node query unless a result is cached. */
    method Load() returns (nodes: seq<Row>, hasNext: bool)
      requires Valid()
      modifies this
      ensures Valid() && cache.Some? && queries == 1
      ensures old(cache).Some? ==> cache == old(cache)
      ensures nodes == PageOf(orders, table, page, take).nodes
      ensures hasNext == PageOf(orders, table, page, take).hasNext
    {
      if cache.None? {
        var n, h := FetchNodes(orders, table, page, take);
        cache := Some((n, h));
        queries := queries + 1;
      }
      nodes, hasNext := cache.value.0, cache.value.1;
    }

    /** The `count` getter. */
    method Count() returns (n: nat)
      ensures n == PageOf(orders, table, if page >= 1 then page else 1, take).count
    {
      n := |table|;
    }

    /** The `nodes` getter. */
    method Nodes() returns (nodes: seq<Row>)
      requires Valid()
      modifies this
      ensures Valid() && queries == 1
      ensures nodes == PageOf(orders, table, page, take).nodes
    {
      var h;
      nodes, h := Load();
    }

    /** The `hasNext` getter. */
    method HasNext() returns (hasNext: bool)
      requires Valid()
      modifies this
      ensures Valid() && queries == 1
      ensures hasNext == PageOf(orders, table, page, take).hasNext
    {
      var n;
      n, hasNext := Load();
    }
  }

  /**
   * The clamped size is never below `min`, never above `max` when the
   * bounds are consistent, and is the requested (or default) size when
   * that already lies within them.
   */
  lemma TakeClamped(opts: TakeOptions, take: Option<int>)
    ensures EffectiveTake(opts, take) >= opts.min
    ensures opts.max.Some? && opts.min <= opts.max.value ==> EffectiveTake(opts, take) <= opts.max.value
    ensures var want := take.GetOr(opts.default);
      opts.min <= want && (opts.max.None? || want <= opts.max.value) ==> EffectiveTake(opts, take) == want
    ensures opts.max.Some? && opts.max.value < opts.min ==> EffectiveTake(opts, take) == opts.min
  {
  }

  /**
   * With a numeric `take` option there is no upper bound: a requested size
   * that is not negative is used as it is, and without one the number is.
   */
  lemma NumericTake(n: int, take: Option<int>)
    ensures take.Some? && take.value >= 0 ==> EffectiveTake(TakeOptionsOf(Some(TakeNumber(n))), take) == take.value
    ensures take.None? && n >= 0 ==> EffectiveTake(TakeOptionsOf(Some(TakeNumber(n))), take) == n
    ensures EffectiveTake(TakeOptionsOf(Some(TakeNumber(n))), take) == if take.GetOr(n) < 0 then 0 else take.GetOr(n)
  {
  }

  /** Without a `take` option, pages hold 20 rows unless the call asks for another non-negative size. */
  lemma DefaultTake(take: Option<int>)
    ensures EffectiveTake(TakeOptionsOf(None), take) == if take.GetOr(20) < 0 then 0 else take.GetOr(20)
  {
  }

  /** The skip the query applies, `(page - 1) * take`. */
  lemma {:induction false} OffsetIsProduct(page: int, take: nat)
    requires page >= 1
    ensures Offset(page, take) == (page - 1) * take
    decreases page
  {
    if page > 1 {
      OffsetIsProduct(page - 1, take);
      assert (page - 1) * take == (page - 2) * take + take;
    }
  }

  /** Later pages start no earlier. */
  lemma {:induction false} OffsetMonotone(n: int, m: int, take: nat)
    requires 1 <= n <= m
    ensures Offset(n, take) <= Offset(m, take)
    decreases m - n
  {
    if n < m {
      OffsetMonotone(n, m - 1, take);
    }
  }

  /**
   * Page `page` of the ordered rows `s` holds the rows from `Offset(page,
   * take)` up to `take` further (as many as exist), and more than `take`
   * rows come back iff rows lie beyond that window.
   */
  lemma WindowIsSlice(s: seq<Row>, page: int, take: nat)
    requires page >= 1
    ensures var lo := Offset(page, take);
      && Window(s, page, take) == s[Min(lo, |s|)..Min(lo + take, |s|)]
      && (|Lookahead(s, page, take)| > take <==> |s| > lo + take)
  {
    TrimmedWindow(s, Offset(page, take), take);
  }

  /**
   * Skipping `lo` rows, fetching `take + 1` and keeping `take` of them leaves
   * the rows from `lo` up to `take` further; more than `take` come back iff
   * rows lie beyond that window.
   */
  lemma TrimmedWindow(s: seq<Row>, lo: nat, take: nat)
    ensures var f := Take(Skip(s, lo), Some(take + 1));
      && f[..Min(take, |f|)] == s[Min(lo, |s|)..Min(lo + take, |s|)]
      && (|f| > take <==> |s| > lo + take)
  {
    var f := Take(Skip(s, lo), Some(take + 1));
    if lo <= |s| {
      assert f == s[lo..][..|f|];
      assert f[..Min(take, |f|)] == s[lo..Min(lo + take, |s|)];
    }
  }

  /**
   * A page is a window of the ordered table: the rows from `Offset(page,
   * take)` up to `take` further (as many as exist), with a next page iff the
   * table holds rows beyond the window; `count` is the table's size.
   */
  lemma PageWindow(ob: Orders, table: seq<Row>, s: seq<Row>, page: int, take: nat)
    requires s == Sort(ob, table) && page >= 1
    ensures var r := PageOf(ob, table, page, take);
      var lo := Offset(page, take);
      && r.nodes == s[Min(lo, |s|)..Min(lo + take, |s|)]
      && (r.hasNext <==> |s| > lo + take)
      && r.count == |table|
  {
    WindowIsSlice(s, page, take);
  }

  /** The rows of pages `1..n`, concatenated, where `rows(k)` are the rows of page `k`. */
  function Concat(rows: int -> seq<Row>, n: nat): seq<Row>
    decreases n
  {
    if n == 0 then [] else Concat(rows, n - 1) + rows(n)
  }

  /** The rows of each page of the ordered rows `s`. */
  function PageRows(s: seq<Row>, take: nat): int -> seq<Row> {
    k => if k >= 1 then Window(s, k, take) else []
  }

  /** Pages `1..n` of the ordered rows `s`, concatenated. */
  function Pages(s: seq<Row>, take: nat, n: nat): seq<Row> {
    Concat(PageRows(s, take), n)
  }

  /** Page `k` holds the rows from `Offset(k, take)` up to `take` further, for `k` up to `n`. */
  predicate Tiles(rows: int -> seq<Row>, s: seq<Row>, take: nat, n: nat) {
    forall k | 1 <= k <= n :: rows(k) == s[Min(Offset(k, take), |s|)..Min(Offset(k, take) + take, |s|)]
  }

  lemma {:induction false} ConcatPrefix(rows: int -> seq<Row>, s: seq<Row>, take: nat, n: nat)
    requires Tiles(rows, s, take, n)
    ensures Concat(rows, n) == s[..Min(Offset(n + 1, take), |s|)]
    decreases n
  {
    if n == 0 {
      assert s[..0] == [];
    } else {
      ConcatPrefix(rows, s, take, n - 1);
      WindowAppend(s, Offset(n, take), take);
    }
  }

  /**
   * Concatenating pages `1..n` of a fixed size gives the rows before page
   * `n + 1` (`n * take` of them, or all once the rows run out): no row is
   * skipped or repeated.
   */
  lemma PagesPrefix(s: seq<Row>, take: nat, n: nat)
    ensures Pages(s, take, n) == s[..Min(Offset(n + 1, take), |s|)]
  {
    forall k | 1 <= k <= n
      ensures PageRows(s, take)(k) == s[Min(Offset(k, take), |s|)..Min(Offset(k, take) + take, |s|)]
    {
      WindowIsSlice(s, k, take);
    }
    ConcatPrefix(PageRows(s, take), s, take, n);
  }

  lemma WindowAppend(s: seq<Row>, lo: nat, take: nat)
    ensures s[..Min(lo, |s|)] + s[Min(lo, |s|)..Min(lo + take, |s|)] == s[..Min(lo + take, |s|)]
  {
  }

  /**
   * Once a page reports no next page, the pages up to it, each the nodes
   * `paginate` hands back for it, hold the whole ordered table.
   */
  lemma LastPageCompletes(ob: Orders, table: seq<Row>, s: seq<Row>, take: nat, n: nat)
    requires s == Sort(ob, table)
    requires n >= 1 && !PageOf(ob, table, n, take).hasNext
    ensures forall k | 1 <= k <= n :: PageOf(ob, table, k, take).nodes == Window(s, k, take)
    ensures Pages(s, take, n) == s
  {
    PageWindow(ob, table, s, n, take);
    PagesPrefix(s, take, n);
    assert s[..|s|] == s;
  }

  /** Every page after one that reports no next page is empty and reports none either. */
  lemma PastLastPage(ob: Orders, table: seq<Row>, s: seq<Row>, take: nat, n: nat, later: int)
    requires s == Sort(ob, table)
    requires n >= 1 && !PageOf(ob, table, n, take).hasNext
    requires later > n
    ensures PageOf(ob, table, later, take).nodes == [] && !PageOf(ob, table, later, take).hasNext
  {
    PageWindow(ob, table, s, n, take);
    PageWindow(ob, table, s, later, take);
    OffsetMonotone(n + 1, later, take);
  }
}
