# typeorm-cursor-pagination core, modelled in Dafny

This project models the paging core of a TypeORM pagination library:

- **Cursor paginator** (`src/cursor-paginator.ts`). It pages a query by keyset. Each page hands out a
  `prev:`/`next:` cursor minted from its first and last node. A later request decodes that cursor,
  checks it against the order keys, turns it into a lexicographic "after this row" WHERE clause, and
  flips the sort direction when paging backwards. It fetches one row more than the limit so it can
  tell whether another page exists, and it reverses a backward page into declared order.
- **Page paginator** (`src/page-paginator.ts`). It pages by offset: `page` and `take` are clamped,
  the offset is `(page - 1) * take`, and one row past the window is fetched to compute `hasNext`.
  `promisePaginate` returns an object whose node query runs at most once, however often `nodes` and
  `hasNext` are read.
- **`normalizeOrderBy`** (`src/utils/normalizeOrderBy.ts`). It flattens one or many order-by
  objects into a list of `(column, ascending)` pairs and skips undefined entries.

## How the model is built

The database is a value: a table is a `seq<Row>` and a row maps column names to integers. The
query builder becomes `CursorQuery.Execute`, which:

1. filters the table by a boundary predicate;
2. sorts by the order list (`Sorting.Sort`, an insertion sort with a multiset postcondition);
3. keeps at most `limit` rows.

`Ordering.Before` is the lexicographic order the `ORDER BY` list defines. With this in place the
model proves the following.

- `CursorQuery.BoundaryIsAfter`: the disjunction `_applyWhereQuery` builds holds of a row exactly
  when the row comes strictly after the cursor. The order used is the direction-adjusted one.
- Minting, stringifying, parsing and validating a cursor give back the cursor and its direction
  (`CursorCodec.ParseStringify`), provided the codec round-trips.
- `CursorPages.FollowNext` and `FollowPrev`: following a node's cursor returns exactly the rows
  next to that node in the sorted table, with the right `hasPrevPage`/`hasNextPage` flags.
- `CursorPages.NextOfAnyCursor` and `PrevOfAnyCursor`: a cursor need not name a row of the current
  table. A cursor minted before rows were inserted or deleted, even from a row that is gone, returns
  the current table's rows after (or before) its values.
- `CursorPages.WalkFromStart`: paging forward from the first page until `hasNextPage` is false
  returns the whole sorted table, with no row skipped or repeated.
- The first page's `prev:` cursor and the last node's `next:` cursor lead to empty pages (the
  behaviour the test suite expects). Like the lemmas above, these assume `CursorPages.Sound`.
- `PagePaging.LastPageCompletes`: the offset pages `1..n` tile the sorted table up to the first
  page that reports no next page. `PastLastPage`: every page after that one is empty. Every page
  query here orders tied rows the same way, by table position (see the list of what is left out).

The mutable objects are classes:

- `CursorPaginator` holds the normalized orders, the codec and the column transform.
- `PagePaginator` holds `orderBy` and `takeOptions`.
- `PromisePagePagination` holds a `cache` field that `Load` fills once. A ghost query counter shows
  that the node query runs at most once.

The cursor page lemmas assume six things, bundled as `CursorPages.Sound`:

1. The codec round-trips on cursors without undefined values.
2. The column transform is the identity.
3. The order list is not empty. Without an order key the cursor's WHERE clause is an empty `()`,
   which the database rejects.
4. No column is ordered twice.
5. Every row holds every ordered column.
6. No two rows agree on all ordered columns. This is the caution at
   `src/cursor-paginator.ts:21-25`. Without it the database order of tied rows is not determined.

`CursorCodec.CreatedCursorValid` also shows a consequence of the source's validation. When the
order list names the same column twice, every cursor the paginator mints fails its own validation.
The minted cursor has fewer properties than there are orders. So such a paginator can never move
past its first page.

## Model

| member | source | states |
|---|---|---|
| OrderNormalizer.NormalizeOrderBy | src/utils/normalizeOrderBy.ts:4-15 | The nested loops produce exactly the specification `Normalized(input)`: each clause's entries in order, undefined ones skipped, `ASC` mapped to true. |
| OrderNormalizer.NormalizedIsDefinedEntries | src/utils/normalizeOrderBy.ts:8-12 | The normalized list is the defined entries of all clauses, concatenated, with each direction turned into its ascending flag. |
| OrderNormalizer.NormalizedLength | src/utils/normalizeOrderBy.ts:9-11 | The result has one pair per defined entry across all clauses. |
| OrderNormalizer.SingleIsOneElementList | src/utils/normalizeOrderBy.ts:8 | A single order-by object normalizes exactly like a list holding only it. |
| Ordering.BeforeIrreflexive | src/cursor-paginator.ts:142-147 | No row comes strictly after itself in the lexicographic key order. |
| Ordering.BeforeTransitive | src/cursor-paginator.ts:142-147 | The lexicographic key order is transitive. |
| Ordering.BeforeTotal | src/cursor-paginator.ts:21-25 | Two rows that hold every ordered column are ordered one way or the other, or agree on all keys. |
| Ordering.BeforeAdjustPrev | src/cursor-paginator.ts:70-75 | Flipping every direction (paging backwards) exactly reverses the order. |
| Sorting.SortSorted | src/cursor-paginator.ts:70-75 | Sorting a table whose order keys are unique gives a strictly increasing sequence. |
| Sorting.SortedUnique | src/cursor-paginator.ts:21-25 | Two strictly sorted permutations of the same rows are equal, so with unique keys the database order is determined. |
| Sorting.SortAfter | src/cursor-paginator.ts:67-77 | Sorting the rows after the `p`-th sorted row gives exactly the sorted suffix after position `p`. |
| Sorting.SortBefore | src/cursor-paginator.ts:67-77 | Under the flipped order, the rows before the `p`-th sorted row sort to the reversed prefix before position `p`. |
| Sorting.FilterAfterRows | src/cursor-paginator.ts:67-69 | The rows kept after a boundary are exactly the table's rows strictly after it. |
| Sorting.FilterBeforeRows | src/cursor-paginator.ts:67-75 | Under the flipped order, the rows kept are exactly the table's rows strictly before the boundary in the declared order. |
| Sorting.FilterAfterSorted | src/cursor-paginator.ts:67-75 | Filtering a strictly sorted sequence keeps it strictly sorted. |
| Sorting.SortFilterCommute | src/cursor-paginator.ts:67-77 | With unique keys, sorting the rows after any boundary gives the sorted table's rows after it: WHERE and ORDER BY commute. |
| Sorting.SortFilterFlipped | src/cursor-paginator.ts:67-77 | With unique keys, sorting in the flipped order the rows before any boundary gives the sorted table's rows before it, nearest first. |
| Sorting.SortFlipped | src/cursor-paginator.ts:70-75 | Sorting by the flipped order gives the reverse of sorting by the declared order. |
| CursorCodec.Stringify | src/cursor-paginator.ts:169-176 | The string is the five-character direction tag, `next:` or `prev:`, followed by the codec's text for the cursor. |
| CursorCodec.Parsed | src/cursor-paginator.ts:178-197 | A parse succeeds only with a `next:`/`prev:` prefix. The direction follows the prefix, the codec decodes the remainder, and the decoded cursor validates. |
| CursorCodec.KeySetCard | src/cursor-paginator.ts:204-212 | The distinct order keys number at most the orders, with equality exactly when no key repeats. |
| CursorCodec.ValidCursorExact | src/cursor-paginator.ts:199-222 | A cursor passes validation iff its keys are exactly the order keys, the order keys are distinct and no value is undefined. |
| CursorCodec.CreatedCursorValid | src/cursor-paginator.ts:161-167 | The cursor minted from a node validates iff the order keys are distinct and the node holds every ordered column. |
| CursorCodec.CreatedCursorParams | src/cursor-paginator.ts:161-167 | Without a column transform, a minted cursor's parameters agree with its node on every ordered column. |
| CursorCodec.ParseStringify | src/cursor-paginator.ts:169-197 | With a round-tripping codec, parsing a stringified valid cursor gives back the cursor and its direction. |
| CursorQuery.BoundaryIsAfter | src/cursor-paginator.ts:138-158 | The OR of "equal on earlier keys AND strictly beyond on this key" holds of a row iff the row comes after the cursor in the direction-adjusted order. |
| CursorQuery.FilterWhereIsAfter | src/cursor-paginator.ts:67-69 | Filtering a table by the boundary keeps exactly the rows after the cursor, in table order. |
| CursorQuery.Execute | src/cursor-paginator.ts:77-81 | The fetched rows come from the table, satisfy the WHERE clause, and number at most the limit. |
| CursorPaging.FetchLimit | src/cursor-paginator.ts:77 | `take && take + 1`: one row more than the limit is requested iff a non-zero limit is given. |
| CursorPaging.Trim | src/cursor-paginator.ts:83-97 | The kept nodes are a prefix of the fetched rows, at most `limit` of them when paginating. Without a limit everything is kept and no further page is reported. A further page is reported iff a paginating fetch returned `limit + 1` rows. |
| CursorPaging.Fetched | src/cursor-paginator.ts:67-81 | At most `limit + 1` rows are fetched, all from the table. |
| CursorPaging.InDeclaredOrder | src/cursor-paginator.ts:99-101 | A forward page is kept as fetched. A backward page is reversed: its `i`-th row is the fetched row `i` places from the end. |
| CursorPaging.PageShape | src/cursor-paginator.ts:99-124 | A page has cursors iff it has nodes; without a cursor there is no previous page; a page is assumed in the direction the cursor came from. |
| CursorPaging.PageCursors | src/cursor-paginator.ts:113-123 | A page has both cursors iff it has nodes. |
| CursorPaging.PageBounds | src/cursor-paginator.ts:103-124 | The page counts the whole table, holds at most `limit` nodes when paginating, and only holds rows of the table. |
| CursorPaging.CursorPaginator.constructor | src/cursor-paginator.ts:39-45 | The orders are the normalized order-by, and the codec is the given transformer or else the default. |
| CursorPaging.CursorPaginator.ValidateCursor | src/cursor-paginator.ts:204-222 | Passes iff the cursor is valid. Fails with the property count iff the sizes differ; otherwise it reports an extra or an undefined property. |
| CursorPaging.CursorPaginator.ParseCursor | src/cursor-paginator.ts:178-197 | Succeeds iff the string parses to a valid directional cursor, returning it. Otherwise it reports a missing prefix, an undecodable body, or the validation error. |
| CursorPaging.CursorPaginator.ApplyWhereQuery | src/cursor-paginator.ts:127-159 | The loop builds the boundary. A row satisfies it iff the row comes after the cursor's prepared values in the direction-adjusted order. |
| CursorPaging.CursorPaginator.CreateCursor | src/cursor-paginator.ts:161-167 | The cursor has exactly the order keys, each mapped to the node's value or undefined. |
| CursorPaging.CursorPaginator.OrderByFor | src/cursor-paginator.ts:70-75 | The emitted order keeps each direction when paging forward and flips it when paging backward. |
| CursorPaging.CursorPaginator.MintCursors | src/cursor-paginator.ts:113-123 | The prev cursor comes from the first node and the next cursor from the last node, with none on an empty page. |
| CursorPaging.CursorPaginator.FetchPage | src/cursor-paginator.ts:67-124 | The page `paginate` assembles from the fetched rows equals the specification page. |
| CursorPaging.CursorPaginator.Paginate | src/cursor-paginator.ts:47-125 | Fails only when a cursor is given and either does not parse or meets an empty order list, whose WHERE clause the database rejects. Otherwise it returns the specification page. |
| CursorPages.FirstPage | src/cursor-paginator.ts:59-65 | Without a cursor the page is the head of the sorted table, with no previous page and a next one iff rows remain. |
| CursorPages.FollowNext | src/cursor-paginator.ts:106-122 | A node's `next:` cursor yields the rows right after it, up to `limit`, with a previous page, and a next page iff rows remain. |
| CursorPages.FollowPrev | src/cursor-paginator.ts:99-122 | A node's `prev:` cursor yields the rows right before it in declared order, with a next page, and a previous page iff rows remain. |
| CursorPages.NextOfAnyCursor | src/cursor-paginator.ts:59-122 | A `next:` cursor for any valid values, including one minted from a row deleted since, yields the first page's worth of the current sorted table's rows after those values, with a previous page and a next one iff more remain. |
| CursorPages.PrevOfAnyCursor | src/cursor-paginator.ts:59-122 | A `prev:` cursor for any valid values yields the last page's worth of the current sorted table's rows before those values, in declared order, with a next page and a previous one iff more remain. |
| CursorPages.PrevOfFirstPage | src/cursor-paginator.test.ts:147-157 | The first page's `prev:` cursor leads to an empty page with no cursors and no previous page, but with a next one. |
| CursorPages.NextOfLastRow | src/cursor-paginator.ts:106-124 | The last node's `next:` cursor leads to an empty page with no cursors and no next page, but with a previous one. |
| CursorPages.SecondPageBack | src/cursor-paginator.test.ts:173-184 | Going from the first page to the second with `nextPageCursor`, then back with the second page's `prevPageCursor`, gives the first page again. |
| CursorPages.WalkFromStart | src/cursor-paginator.ts:21-25 | Following `nextPageCursor` from the first page while `hasNextPage` holds returns the whole sorted table, every row once. |
| PagePaging.EffectivePage | src/page-paginator.ts:51 | The page is at least 1: the requested page when it is at least 1, otherwise 1. |
| PagePaging.Skip | src/page-paginator.ts:68 | Skipping `n` rows drops exactly the first `n`, or everything when fewer remain. |
| PagePaging.TakeOptionsOf | src/page-paginator.ts:32-43 | A number becomes the default, with minimum 0 and no maximum. An options object fills a missing default with 20, never goes below its minimum or below 0, and leaves a missing maximum unbounded. No option gives 20 rows with no bounds. |
| PagePaging.EffectiveTake | src/page-paginator.ts:52-55 | The page size is never below `min`, and never above `max` when `min <= max`. |
| PagePaging.TakeClamped | src/page-paginator.ts:52-55 | The take is at least `min`, at most `max` when `min <= max`, otherwise the requested or default take; `min` wins when `max < min`. |
| PagePaging.NumericTake | src/page-paginator.ts:32-38 | A numeric `take` option is the default with minimum 0 and no maximum. |
| PagePaging.DefaultTake | src/page-paginator.ts:39-43 | With no `take` option the default is 20, the minimum 0 and there is no maximum. |
| PagePaging.OffsetIsProduct | src/page-paginator.ts:68 | The offset of page `p` is `(p - 1) * take`. |
| PagePaging.OffsetMonotone | src/page-paginator.ts:68 | Later pages start no earlier. |
| PagePaging.PageWindow | src/page-paginator.ts:65-83 | A page's nodes are the sorted rows from the offset to up to `take` further. `hasNext` holds iff rows lie beyond the window, and `count` is the table size. |
| PagePaging.FetchNodes | src/page-paginator.ts:65-77 | The fetch-then-slice computes the specification page's nodes and `hasNext`. |
| PagePaging.PagesPrefix | src/page-paginator.ts:65-77 | Pages `1..n` laid end to end are the sorted table's prefix up to the end of page `n`. |
| PagePaging.LastPageCompletes | src/page-paginator.test.ts:100-125 | Up to the first page reporting no next page, the pages are windows of the sorted table that tile all of it. |
| PagePaging.PastLastPage | src/page-paginator.test.ts:100-125 | Every page after one reporting no next page is empty and reports no next page. |
| PagePaging.PagePaginator.constructor | src/page-paginator.ts:27-44 | The order-by is stored, and the take options are derived from a number, an options object or nothing. |
| PagePaging.PagePaginator.Paginate | src/page-paginator.ts:46-84 | The result is the specification page for the clamped page and take under the call's order-by, or else the paginator's. |
| PagePaging.PagePaginator.PromisePaginate | src/page-paginator.ts:86-141 | Returns a fresh, unloaded lazy page bound to the clamped page, take and normalized order. |
| PagePaging.PromisePagePagination.Load | src/page-paginator.ts:105-128 | The node query runs once: the first call fills the cache, later calls reuse it, and the result is the specification page. |
| PagePaging.PromisePagePagination.Count | src/page-paginator.ts:131-133 | `count` is the size of the whole table. |
| PagePaging.PromisePagePagination.Nodes | src/page-paginator.ts:134-136 | `nodes` is the specification page's nodes, and the query has run exactly once. |
| PagePaging.PromisePagePagination.HasNext | src/page-paginator.ts:137-139 | `hasNext` is the specification page's flag, and the query has run exactly once. |

## Left out

- The query builder, the SQL text and the database. A query is `CursorQuery.Execute` over a table
  value: filter, sort, limit. The count query is the table's size.
- Promises, `Promise.all` and concurrency. Each query is one call. `promisePaginate`'s getters are
  methods that run in sequence.
- `isRaw`. Raw and entity results are the same rows here.
- The entity class parameter of both constructors. It only names the table.
- The "Metadata is not defined" error in `_applyWhereQuery`. Metadata is taken to be present.
- `preparePersistentValue` and `findColumnWithPropertyPath`. They are one opaque function
  `prepare(column, value)` held by the paginator. The page lemmas assume the identity.
- The default Base64 and the JSON transformers. The codec is a parameter, with the default passed to
  the constructor as `fallback`. The page lemmas assume it round-trips on cursors without undefined
  values.
- Column values are integers. Strings, dates, floating point, NaN and SQL NULL ordering are not
  modelled, and a missing column never compares. A missing column stands for NULL, so a NULL
  column's cursor value is undefined and fails validation here, unlike the source, where `null`
  passes the `!== undefined` check.
- Fractional pages and takes, and negative or fractional cursor limits. The cursor `limit` is a
  `nat`. A limit of 0 or no limit means no pagination, as the code does with `!take`. Negative
  pages and takes are modelled: `EffectivePage` and `EffectiveTake` clamp them.
- An empty `pageCursor` string is treated like no cursor, as `!!params.pageCursor` does.
- The "unexpected number of nodes" error. `Execute` bounds the fetch at `limit + 1` rows, so that
  branch is proved unreachable.
- CursorPaging.CursorPaginator.ValidateCursor: when several properties are wrong, it does not say which one is
  reported first. JavaScript's key order is not modelled.
- CursorPages.FollowNext, CursorPages.FollowPrev, CursorPages.WalkFromStart,
  CursorPages.SecondPageBack, CursorPages.PrevOfFirstPage, CursorPages.NextOfLastRow: they
  assume `CursorPages.Sound`. That means a round-tripping codec,
  the identity column transform, a non-empty order list with no column ordered twice, every row
  holding every ordered column (`Covers`), and no two rows tied on all ordered columns. Without
  unique keys the database order of tied rows is not determined.
- CursorPages.NextOfAnyCursor, CursorPages.PrevOfAnyCursor: they assume a round-tripping codec, a
  non-empty order list, and that the current table holds every ordered column with no two rows
  tied on all of them. They need neither the identity transform nor distinct order keys.
- CursorPaging.CursorPaginator.Paginate: the rejection of the empty `()` WHERE clause is an error
  value. The clause itself is still built as an empty disjunction.
- PagePaging.LastPageCompletes, PagePaging.PastLastPage: every page query is the same
  deterministic `Sort`, so rows tied on all ordered columns keep their table order on every page.
  The source sends a separate `ORDER BY … OFFSET … LIMIT` query per page, and a database may order
  tied rows differently each time, skipping or repeating them. The tiling holds for the database
  only when no two rows tie on all ordered columns (`Sorting.SortedUnique`).
- PagePaging.PromisePagePagination.Count: the count query reruns on each read. It is not cached.
- The result field names. The page-paginator tests read `totalCount`/`hasNextPage`, but the code
  returns `count`/`hasNext`, which the model follows.
- `src/paginate.ts`, `src/index.ts` and the interface and transformer files are not part of this
  model, apart from the result shapes they declare.
