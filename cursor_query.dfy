/**
 * The keyset boundary predicate that `_applyWhereQuery`
 * (src/cursor-paginator.ts) adds to the query, as data rather than SQL text,
 * and the abstract query execution that stands in for the query builder:
 * filter by the predicate, sort by the ORDER BY list, take at most `n`.
 */
module CursorQuery {
  import opened Wrappers
  import opened Ordering
  import opened Sorting

  /** `key > value` when `greater`, else `key < value`; `value` is a bound parameter. */
  datatype Comparison = Comparison(key: string, greater: bool, value: int)

  /** `(k1 = v1 AND ... AND key op value)`: equalities on the earlier columns, then one strict comparison. */
  datatype Disjunct = Disjunct(equalities: seq<(string, int)>, strict: Comparison)

  /** The OR of its disjuncts. */
  type Boundary = seq<Disjunct>

  /** A comparison against a missing column (SQL NULL) is never true. */
  predicate EqualitiesHold(eqs: seq<(string, int)>, row: Row) {
    forall i | 0 <= i < |eqs| :: eqs[i].0 in row && row[eqs[i].0] == eqs[i].1
  }

  predicate ComparisonHolds(c: Comparison, row: Row) {
    c.key in row && (if c.greater then row[c.key] > c.value else row[c.key] < c.value)
  }

  predicate DisjunctHolds(d: Disjunct, row: Row) {
    EqualitiesHold(d.equalities, row) && ComparisonHolds(d.strict, row)
  }

  /** The row satisfies the WHERE clause. */
  predicate Eval(b: Boundary, row: Row) {
    exists i | 0 <= i < |b| :: DisjunctHolds(b[i], row)
  }

  /** `k1 = v1 AND ... AND kn = vn` for the first `n` ordered columns. */
  function EqualityPrefix(ob: Orders, params: Row, n: nat): seq<(string, int)>
    requires n <= |ob| && HasColumns(params, ob)
  {
    seq(n, j requires 0 <= j < n => (ob[j].0, params[ob[j].0]))
  }

  /**
   * The disjunct for column `i`: equal on every earlier column, and strictly
   * beyond the boundary on column `i`, using `>` iff `asc == isNext`.
   */
  function BoundaryFor(ob: Orders, params: Row, isNext: bool): Boundary
    requires HasColumns(params, ob)
  {
    seq(|ob|, i requires 0 <= i < |ob| =>
      Disjunct(EqualityPrefix(ob, params, i), Comparison(ob[i].0, ob[i].1 == isNext, params[ob[i].0])))
  }

  /** One more column: its disjunct joins the boundary, and its equality joins the prefix. */
  lemma BoundaryStep(ob: Orders, params: Row, isNext: bool, i: nat)
    requires i < |ob| && HasColumns(params, ob)
    ensures var b := BoundaryFor(ob, params, isNext);
      b[..i + 1] == b[..i] + [Disjunct(EqualityPrefix(ob, params, i), Comparison(ob[i].0, ob[i].1 == isNext, params[ob[i].0]))]
    ensures EqualityPrefix(ob, params, i + 1) == EqualityPrefix(ob, params, i) + [(ob[i].0, params[ob[i].0])]
  {
    var b := BoundaryFor(ob, params, isNext);
    assert b[..i + 1] == b[..i] + [b[i]];
  }

  /**
   * A row satisfies the boundary predicate iff it is strictly after the
   * boundary values in the lexicographic order whose column `i` runs
   * ascending iff `asc_i == isNext`: the order the ORDER BY list uses.
   */
  lemma BoundaryIsAfter(ob: Orders, params: Row, isNext: bool, row: Row)
    requires HasColumns(params, ob)
    ensures Eval(BoundaryFor(ob, params, isNext), row) <==> Before(Adjust(ob, isNext), params, row)
  {
    var b := BoundaryFor(ob, params, isNext);
    var adj := Adjust(ob, isNext);
    BeforeIndex(adj, params, row);
    forall i | 0 <= i < |ob| ensures DisjunctHolds(b[i], row) <==> BeforeAt(adj, params, row, i) {
      var eqs := EqualityPrefix(ob, params, i);
      assert EqualitiesHold(eqs, row) <==>
        forall j | 0 <= j < i :: adj[j].0 in params && adj[j].0 in row && params[adj[j].0] == row[adj[j].0]
      by {
        if EqualitiesHold(eqs, row) {
          forall j | 0 <= j < i ensures adj[j].0 in params && adj[j].0 in row && params[adj[j].0] == row[adj[j].0] {
            assert eqs[j] == (ob[j].0, params[ob[j].0]);
          }
        }
        if forall j | 0 <= j < i :: adj[j].0 in params && adj[j].0 in row && params[adj[j].0] == row[adj[j].0] {
          forall j | 0 <= j < |eqs| ensures eqs[j].0 in row && row[eqs[j].0] == eqs[j].1 {
            assert eqs[j] == (ob[j].0, params[ob[j].0]) && adj[j].0 == ob[j].0;
          }
        }
      }
    }
    if Eval(b, row) {
      var i :| 0 <= i < |b| && DisjunctHolds(b[i], row);
      assert BeforeAt(adj, params, row, i);
    }
    if Before(adj, params, row) {
      var i: nat :| BeforeAt(adj, params, row, i);
      assert DisjunctHolds(b[i], row);
    }
  }

  /** `BoundaryIsAfter`, for every row at once. */
  lemma BoundaryIsAfterAll(ob: Orders, params: Row, isNext: bool)
    requires HasColumns(params, ob)
    ensures forall row :: Eval(BoundaryFor(ob, params, isNext), row) <==> Before(Adjust(ob, isNext), params, row)
  {
    forall row ensures Eval(BoundaryFor(ob, params, isNext), row) <==> Before(Adjust(ob, isNext), params, row) {
      BoundaryIsAfter(ob, params, isNext, row);
    }
  }

  /** WHERE: the rows that satisfy the boundary predicate, in table order. */
  function FilterWhere(b: Boundary, s: seq<Row>): (r: seq<Row>)
    ensures forall y | y in r :: y in s && Eval(b, y)
    decreases |s|
  {
    if |s| == 0 then []
    else (if Eval(b, s[0]) then [s[0]] else []) + FilterWhere(b, s[1..])
  }

  /** Filtering by the boundary predicate keeps exactly the rows strictly after the boundary. */
  lemma {:induction false} FilterWhereIsAfter(ob: Orders, params: Row, isNext: bool, s: seq<Row>)
    requires HasColumns(params, ob)
    ensures FilterWhere(BoundaryFor(ob, params, isNext), s) == FilterAfter(Adjust(ob, isNext), params, s)
    decreases |s|
  {
    if |s| > 0 {
      BoundaryIsAfter(ob, params, isNext, s[0]);
      FilterWhereIsAfter(ob, params, isNext, s[1..]);
    }
  }

  /** Boundaries that agree on the ordered columns select the same rows. */
  lemma {:induction false} FilterAfterSameKey(ob: Orders, x: Row, x': Row, s: seq<Row>)
    requires SameKey(ob, x, x')
    ensures FilterAfter(ob, x, s) == FilterAfter(ob, x', s)
    decreases |s|
  {
    if |s| > 0 {
      SameKeyBefore(ob, x, x', s[0]);
      FilterAfterSameKey(ob, x, x', s[1..]);
    }
  }

  /**
   * Running the query: the base table, filtered by the optional boundary
   * predicate, sorted by the ORDER BY list and cut to at most `limit` rows.
   */
  function Execute(table: seq<Row>, where: Option<Boundary>, orderBy: Orders, limit: Option<nat>): (r: seq<Row>)
    ensures limit.Some? ==> |r| <= limit.value
    ensures forall y | y in r :: y in table && (where.Some? ==> Eval(where.value, y))
  {
    var filtered := if where.Some? then FilterWhere(where.value, table) else table;
    var sorted := Sort(orderBy, filtered);
    var r := Take(sorted, limit);
    assert forall y | y in r :: y in sorted by {
      forall y | y in r ensures y in sorted {
        var i :| 0 <= i < |r| && r[i] == y;
        assert sorted[i] == y;
      }
    }
    assert forall y | y in sorted :: y in filtered by {
      forall y | y in sorted ensures y in filtered {
        assert y in multiset(sorted);
      }
    }
    r
  }
}
