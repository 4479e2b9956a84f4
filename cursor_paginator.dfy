/**
 * `CursorPaginator` (src/cursor-paginator.ts): keyset pagination. A page
 * request carries an optional `next:`/`prev:` cursor and a limit; the
 * paginator turns the cursor into a boundary predicate, orders the query
 * in the direction of travel, fetches one row more than the limit to learn
 * whether a further page exists, and mints cursors from the first and last
 * rows it returns.
 *
 * The query builder is modelled by `CursorQuery.Execute` on an explicit
 * table; `count` is the table's size.
 */
module CursorPaging {
  import opened Wrappers
  import opened Ordering
  import opened Sorting
  import opened OrderNormalizer
  import opened CursorCodec
  import opened CursorQuery

  /**
   * The reasons `_parseCursor` and `_validateCursor` throw, and the query
   * the database rejects: with no order key the WHERE clause
   * `_applyWhereQuery` adds is the empty `()`.
   */
  datatype CursorError =
    | MissingDirectionPrefix
    | Undecodable
    | PropertyCount(expected: nat)
    | ExtraProperty(key: string)
    | UndefinedProperty(key: string)
    | EmptyBoundary

  /** `{ pageCursor?, limit? }`; a limit of 0 or none at all means "no pagination". */
  datatype PaginateParams = PaginateParams(pageCursor: Option<string>, limit: Option<nat>)

  datatype CursorPagination = CursorPagination(
    totalCount: nat,
    nodes: seq<Row>,
    hasPrevPage: bool,
    hasNextPage: bool,
    prevPageCursor: Option<string>,
    nextPageCursor: Option<string>)

  /** `!!params.pageCursor`: present and not the empty string. */
  predicate ProvidedCursor(params: PaginateParams) {
    params.pageCursor.Some? && params.pageCursor.value != ""
  }

  /** The limit actually paginates. */
  predicate Paginates(limit: Option<nat>) {
    limit.Some? && limit.value > 0
  }

  /** `take && take + 1`: one row more than the page, or no limit. */
  function FetchLimit(limit: Option<nat>): (r: Option<nat>)
    ensures Paginates(limit) <==> r.Some?
    ensures r.Some? ==> r.value == limit.value + 1
  {
    if Paginates(limit) then Some(limit.value + 1) else None
  }

  /**
   * The rows kept and whether a page exists in the direction of travel:
   * the extra row, when it came back, is dropped and reported.
   */
  function Trim(fetched: seq<Row>, limit: Option<nat>): (r: (seq<Row>, bool))
    requires Paginates(limit) ==> |fetched| <= limit.value + 1
    ensures |r.0| <= |fetched| && r.0 == fetched[..|r.0|]
    ensures Paginates(limit) ==> |r.0| <= limit.value
    ensures !Paginates(limit) ==> r == (fetched, false)
    ensures r.1 <==> Paginates(limit) && |fetched| == limit.value + 1
  {
    if Paginates(limit) && |fetched| == limit.value + 1 then (fetched[..|fetched| - 1], true)
    else (fetched, false)
  }

  /** The boundary predicate of a parsed cursor. */
  function WhereFor(ob: Orders, prepare: (string, int) -> int, dc: DirectionalCursor): Boundary
    requires IsValidCursor(ob, dc.cursor)
  {
    ValidParamsCover(ob, prepare, dc.cursor);
    BoundaryFor(ob, Params(prepare, dc.cursor), dc.isNext)
  }

  /** Without a cursor the paginator travels forward. */
  predicate TravelsForward(dc: Option<DirectionalCursor>) {
    dc.None? || dc.value.isNext
  }

  /** The rows the query returns: after the cursor, in the direction of travel, one more than the limit. */
  function Fetched(ob: Orders, prepare: (string, int) -> int, table: seq<Row>,
                   dc: Option<DirectionalCursor>, limit: Option<nat>): (r: seq<Row>)
    requires dc.Some? ==> IsValidCursor(ob, dc.value.cursor)
    ensures Paginates(limit) ==> |r| <= limit.value + 1
    ensures forall y | y in r :: y in table
  {
    var where := if dc.Some? then Some(WhereFor(ob, prepare, dc.value)) else None;
    Execute(table, where, Adjust(ob, TravelsForward(dc)), FetchLimit(limit))
  }

  /** The fetched rows handed back in the declared order: reversed after travelling backward. */
  function InDeclaredOrder(kept: seq<Row>, isNext: bool): (r: seq<Row>)
    ensures |r| == |kept| && multiset(r) == multiset(kept)
    ensures isNext ==> r == kept
    ensures !isNext ==> forall i | 0 <= i < |kept| :: r[i] == kept[|kept| - 1 - i]
  {
    ReverseMultiset(kept);
    if isNext then kept else Reverse(kept)
  }

  /**
   * The cursors a page hands out: a `prev:` cursor from its first row and a
   * `next:` cursor from its last, or none for an empty page.
   */
  function PageCursors(ob: Orders, codec: Codec, nodes: seq<Row>): (r: (Option<string>, Option<string>))
    ensures r.0.Some? <==> |nodes| > 0
    ensures r.1.Some? <==> |nodes| > 0
  {
    if |nodes| > 0 then
      (Some(Stringify(codec, CursorFor(ob, nodes[0]), false)),
       Some(Stringify(codec, CursorFor(ob, nodes[|nodes| - 1]), true)))
    else (None, None)
  }

  /**
   * The page `paginate` returns for an accepted cursor (or none): rows after
   * the cursor in the direction of travel, at most `limit` of them, handed
   * back in the declared order.
   */
  function PageFor(ob: Orders, codec: Codec, prepare: (string, int) -> int, table: seq<Row>,
                   dc: Option<DirectionalCursor>, limit: Option<nat>): CursorPagination
    requires dc.Some? ==> IsValidCursor(ob, dc.value.cursor)
  {
    var isNext := TravelsForward(dc);
    var fetched := Fetched(ob, prepare, table, dc, limit);
    var (kept, more) := Trim(fetched, limit);
    var nodes := InDeclaredOrder(kept, isNext);
    var (prev, next) := PageCursors(ob, codec, nodes);
    CursorPagination(|table|, nodes, if isNext then dc.Some? else more, if isNext then more else dc.Some?, prev, next)
  }

  /**
   * A page counts the whole table, holds at most `limit` rows when
   * paginating, and only rows of the table.
   */
  lemma PageBounds(ob: Orders, codec: Codec, prepare: (string, int) -> int, table: seq<Row>,
                 dc: Option<DirectionalCursor>, limit: Option<nat>)
    requires dc.Some? ==> IsValidCursor(ob, dc.value.cursor)
    ensures var r := PageFor(ob, codec, prepare, table, dc, limit);
      && r.totalCount == |table|
      && (Paginates(limit) ==> |r.nodes| <= limit.value)
      && forall y | y in r.nodes :: y in table
  {
    var fetched := Fetched(ob, prepare, table, dc, limit);
    var kept := Trim(fetched, limit).0;
    var nodes := PageFor(ob, codec, prepare, table, dc, limit).nodes;
    assert multiset(nodes) == multiset(kept);
    forall y | y in nodes ensures y in table {
      assert y in multiset(kept);
      var i :| 0 <= i < |kept| && kept[i] == y;
      assert fetched[i] == y;
    }
  }

  /**
   * Whatever the rows: a page has cursors iff it has rows; without a cursor
   * there is no previous page; with one, a page is assumed to exist in the
   * direction the cursor came from.
   */
  lemma PageShape(ob: Orders, codec: Codec, prepare: (string, int) -> int, table: seq<Row>,
                  dc: Option<DirectionalCursor>, limit: Option<nat>)
    requires dc.Some? ==> IsValidCursor(ob, dc.value.cursor)
    ensures var r := PageFor(ob, codec, prepare, table, dc, limit);
      && (r.prevPageCursor.Some? <==> |r.nodes| > 0)
      && (r.nextPageCursor.Some? <==> |r.nodes| > 0)
      && (dc.None? ==> !r.hasPrevPage)
      && (dc.Some? && dc.value.isNext ==> r.hasPrevPage)
      && (dc.Some? && !dc.value.isNext ==> r.hasNextPage)
  {
  }

  /**
   * What `paginate` returns, or `None` where it rejects: the cursor it was
   * given does not parse or validate, or there is no order key, so the
   * cursor's WHERE clause is the empty `()` the database refuses.
   */
  function Paginated(ob: Orders, codec: Codec, prepare: (string, int) -> int, table: seq<Row>,
                     params: PaginateParams): Option<CursorPagination>
  {
    if !ProvidedCursor(params) then Some(PageFor(ob, codec, prepare, table, None, params.limit))
    else match Parsed(ob, codec, params.pageCursor.value)
      case None => None
      case Some(dc) => if |ob| == 0 then None else Some(PageFor(ob, codec, prepare, table, Some(dc), params.limit))
  }

  class CursorPaginator {
    /** The normalized `(key, ascending?)` list. */
    const orders: Orders
    const codec: Codec
    /** `preparePersistentValue` of each ordered column (the raw value when the column is unknown). */
    const prepare: (string, int) -> int

    /** `fallback` stands for the built-in transformer used when none is given. */
    constructor (orderBy: OrderByInput, transformer: Option<Codec>, fallback: Codec,
                 prepare: (string, int) -> int)
      ensures orders == Normalized(orderBy)
      ensures codec == transformer.GetOr(fallback)
      ensures this.prepare == prepare
    {
      var normalized := NormalizeOrderBy(orderBy);
      orders := normalized;
      codec := transformer.GetOr(fallback);
      this.prepare := prepare;
    }

    /**
     * `_validateCursor`: accepts exactly the cursors `IsValidCursor`
     * describes; otherwise reports a count mismatch, or a key it visited
     * that is no order key or whose value is `undefined`.
     */
    method ValidateCursor(cursor: Cursor) returns (r: Outcome<CursorError>)
      ensures r.Pass? <==> IsValidCursor(orders, cursor)
      ensures r == Fail(PropertyCount(|orders|)) <==> |cursor| != |orders|
      ensures r.Fail? && r.error.ExtraProperty? ==>
        r.error.key in cursor && r.error.key !in Keys(orders)
      ensures r.Fail? && r.error.UndefinedProperty? ==>
        r.error.key in Keys(orders) && r.error.key in cursor && cursor[r.error.key].Undefined?
      ensures r.Fail? ==> r.error.PropertyCount? || r.error.ExtraProperty? || r.error.UndefinedProperty?
    {
      var orderByKeys := Keys(orders);
      if |cursor| != |orderByKeys| {
        return Fail(PropertyCount(|orderByKeys|));
      }
      var unvisited := cursor.Keys;
      while unvisited != {}
        invariant unvisited <= cursor.Keys
        invariant forall k | k in cursor && k !in unvisited :: k in orderByKeys && cursor[k].Defined?
        decreases unvisited
      {
        var key :| key in unvisited;
        if key !in orderByKeys {
          return Fail(ExtraProperty(key));
        }
        if cursor[key].Undefined? {
          return Fail(UndefinedProperty(key));
        }
        unvisited := unvisited - {key};
      }
      return Pass;
    }

    /**
     * `_parseCursor`: the direction prefix, then the codec, then
     * validation; it succeeds exactly when `Parsed` does, with its value.
     */
    method ParseCursor(cursorString: string) returns (r: Result<DirectionalCursor, CursorError>)
      ensures r.Ok? <==> Parsed(orders, codec, cursorString).Some?
      ensures r.Ok? ==> r.value == Parsed(orders, codec, cursorString).value
      ensures r == Err(MissingDirectionPrefix) <==> !("next:" <= cursorString) && !("prev:" <= cursorString)
      ensures r == Err(Undecodable) <==>
        ("next:" <= cursorString || "prev:" <= cursorString) && codec.parse(cursorString[5..]).None?
      ensures r.Err? ==> !r.error.EmptyBoundary?
    {
      var rawCursor := "";
      var isNext := false;
      if "next:" <= cursorString {
        rawCursor := cursorString[5..];
        isNext := true;
      } else if "prev:" <= cursorString {
        rawCursor := cursorString[5..];
      } else {
        return Err(MissingDirectionPrefix);
      }
      var cursor := codec.parse(rawCursor);
      if cursor.None? {
        return Err(Undecodable);
      }
      var outcome := ValidateCursor(cursor.value);
      if outcome.Fail? {
        return Err(outcome.error);
      }
      return Ok(DirectionalCursor(cursor.value, isNext));
    }

    /**
     * `_applyWhereQuery`: one disjunct per ordered column, equal on the
     * columns before it and strictly beyond the cursor on it; the predicate
     * holds of exactly the rows after the cursor in the direction of travel.
     */
    method ApplyWhereQuery(cursor: Cursor, isNext: bool) returns (where: Boundary)
      requires IsValidCursor(orders, cursor)
      ensures HasColumns(Params(prepare, cursor), orders)
      ensures where == BoundaryFor(orders, Params(prepare, cursor), isNext)
      ensures forall row :: Eval(where, row) <==> Before(Adjust(orders, isNext), Params(prepare, cursor), row)
    {
      ValidCursorExact(orders, cursor);
      ValidParamsCover(orders, prepare, cursor);
      ghost var params := Params(prepare, cursor);
      ghost var boundary := BoundaryFor(orders, params, isNext);
      var queryPrefix: seq<(string, int)> := [];
      var queryParts: Boundary := [];
      for i := 0 to |orders|
        invariant queryPrefix == EqualityPrefix(orders, params, i)
        invariant queryParts == boundary[..i]
      {
        var (key, asc) := orders[i];
        assert Keys(orders)[i] == key;
        var value := prepare(key, cursor[key].v);
        BoundaryStep(orders, params, isNext, i);
        queryParts := queryParts + [Disjunct(queryPrefix, Comparison(key, asc == isNext, value))];
        queryPrefix := queryPrefix + [(key, value)];
      }
      assert boundary[..|orders|] == boundary;
      where := queryParts;
      BoundaryIsAfterAll(orders, params, isNext);
    }

    /** `_createCursor`: the node's value (or `undefined`) under every order key. */
    method CreateCursor(node: Row) returns (cursor: Cursor)
      ensures cursor.Keys == KeySet(orders)
      ensures forall k | k in cursor :: cursor[k] == ValueAt(node, k)
      ensures cursor == CursorFor(orders, node)
    {
      cursor := map[];
      for i := 0 to |orders|
        invariant cursor.Keys == KeySet(orders[..i])
        invariant forall k | k in cursor :: cursor[k] == ValueAt(node, k)
      {
        var key := orders[i].0;
        assert KeySet(orders[..i + 1]) == KeySet(orders[..i]) + {key} by {
          assert Keys(orders[..i + 1]) == Keys(orders[..i]) + [key];
        }
        cursor := cursor[key := ValueAt(node, key)];
      }
      assert orders[..|orders|] == orders;
    }

    /**
     * `paginate`: the page `Paginated` describes, or the error that made
     * cursor parsing throw; without a cursor it never fails.
     */
    method Paginate(table: seq<Row>, params: PaginateParams) returns (r: Result<CursorPagination, CursorError>)
      ensures r.Ok? <==> Paginated(orders, codec, prepare, table, params).Some?
      ensures r.Ok? ==> r.value == Paginated(orders, codec, prepare, table, params).value
      ensures r.Err? ==> ProvidedCursor(params)
      ensures r == Err(EmptyBoundary) <==>
        ProvidedCursor(params) && Parsed(orders, codec, params.pageCursor.value).Some? && |orders| == 0
    {
      var directionIsProvided := ProvidedCursor(params);
      var directionalCursor: Option<DirectionalCursor> := None;
      if directionIsProvided {
        var parsed := ParseCursor(params.pageCursor.value);
        if parsed.Err? {
          return Err(parsed.error);
        }
        if |orders| == 0 {
          return Err(EmptyBoundary);
        }
        directionalCursor := Some(parsed.value);
      }
      var page := FetchPage(table, directionalCursor, params.limit);
      return Ok(page);
    }

    /** The `addOrderBy` loop: every ordered column, its direction kept when travelling forward and flipped otherwise. */
    method OrderByFor(directionIsNext: bool) returns (orderBy: Orders)
      ensures orderBy == Adjust(orders, directionIsNext)
      ensures forall a, b :: Before(orderBy, a, b) <==>
        if directionIsNext then Before(orders, a, b) else Before(orders, b, a)
    {
      orderBy := [];
      for i := 0 to |orders|
        invariant orderBy == Adjust(orders[..i], directionIsNext)
      {
        var (key, asc) := orders[i];
        orderBy := orderBy + [(key, asc == directionIsNext)];
      }
      assert orders[..|orders|] == orders;
      forall a, b ensures Before(orderBy, a, b) <==> if directionIsNext then Before(orders, a, b) else Before(orders, b, a) {
        AdjustNext(orders);
        BeforeAdjustPrev(orders, a, b);
      }
    }

    /** The page's cursors, minted from its first and last rows. */
    method MintCursors(nodes: seq<Row>) returns (prevPageCursor: Option<string>, nextPageCursor: Option<string>)
      ensures (prevPageCursor, nextPageCursor) == PageCursors(orders, codec, nodes)
    {
      prevPageCursor, nextPageCursor := None, None;
      if |nodes| > 0 {
        var first := CreateCursor(nodes[0]);
        prevPageCursor := Some(Stringify(codec, first, false));
        var last := CreateCursor(nodes[|nodes| - 1]);
        nextPageCursor := Some(Stringify(codec, last, true));
      }
    }

    /**
     * The query and the page built from its rows, once the cursor (if any)
     * has been accepted.
     */
    method FetchPage(table: seq<Row>, directionalCursor: Option<DirectionalCursor>, take: Option<nat>)
      returns (page: CursorPagination)
      requires directionalCursor.Some? ==> IsValidCursor(orders, directionalCursor.value.cursor)
      ensures page == PageFor(orders, codec, prepare, table, directionalCursor, take)
    {
      var directionIsNext := directionalCursor.None? || directionalCursor.value.isNext;
      var where: Option<Boundary> := None;
      if directionalCursor.Some? {
        var boundary := ApplyWhereQuery(directionalCursor.value.cursor, directionIsNext);
        where := Some(boundary);
      }
      var orderBy := OrderByFor(directionIsNext);
      var nodes := Execute(table, where, orderBy, FetchLimit(take));
      ghost var fetched := nodes;
      assert fetched == Fetched(orders, prepare, table, directionalCursor, take);

      var hasPageInThePrimaryDirection := false;
      if !Paginates(take) {
        // no pagination
      } else if |nodes| == take.value + 1 {
        hasPageInThePrimaryDirection := true;
        nodes := nodes[..|nodes| - 1];
      } else {
        assert |nodes| < take.value + 1;
      }
      assert (nodes, hasPageInThePrimaryDirection) == Trim(fetched, take);
      if !directionIsNext {
        nodes := Reverse(nodes);
      }
      ghost var spec := PageFor(orders, codec, prepare, table, directionalCursor, take);
      assert nodes == spec.nodes;

      var prevPageCursor, nextPageCursor := MintCursors(nodes);
      page := CursorPagination(
        |table|,
        nodes,
        if directionIsNext then directionalCursor.Some? else hasPageInThePrimaryDirection,
        if directionIsNext then hasPageInThePrimaryDirection else directionalCursor.Some?,
        prevPageCursor,
        nextPageCursor);
    }
  }
}
