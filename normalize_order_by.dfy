/**
 * `normalizeOrderBy` (src/utils/normalizeOrderBy.ts): flattens one ordering
 * clause or a list of clauses into the `(key, ascending?)` priority list.
 */
module OrderNormalizer {
  import opened Wrappers
  import opened Ordering

  datatype Order = Asc | Desc

  /**
   * One `OrderBy` object, as its entries in key-iteration order; an entry
   * whose direction is `undefined` is `(key, None)`.
   */
  type Clause = seq<(string, Option<Order>)>

  /** The `orderBy` argument: a single clause or an array of clauses. */
  datatype OrderByInput = Single(clause: Clause) | Many(clauses: seq<Clause>)

  /** A single clause is read as a one-element list. */
  function ClausesOf(input: OrderByInput): seq<Clause> {
    match input
    case Single(c) => [c]
    case Many(cs) => cs
  }

  function NormalizedEntry(e: (string, Option<Order>)): Orders {
    if e.1.None? then [] else [(e.0, e.1.value == Asc)]
  }

  /** The pairs pushed while walking one clause, built up entry by entry. */
  function NormalizedClause(c: Clause): Orders
    decreases |c|
  {
    if |c| == 0 then [] else NormalizedClause(c[..|c| - 1]) + NormalizedEntry(c[|c| - 1])
  }

  /** The pairs pushed while walking the clauses, built up clause by clause. */
  function NormalizedClauses(cs: seq<Clause>): Orders
    decreases |cs|
  {
    if |cs| == 0 then [] else NormalizedClauses(cs[..|cs| - 1]) + NormalizedClause(cs[|cs| - 1])
  }

  function Normalized(input: OrderByInput): Orders {
    NormalizedClauses(ClausesOf(input))
  }

  /** All entries of all clauses, clause order first, then key order. */
  function Entries(cs: seq<Clause>): seq<(string, Option<Order>)>
    decreases |cs|
  {
    if |cs| == 0 then [] else cs[0] + Entries(cs[1..])
  }

  /** The entries whose direction is defined, in order. */
  function Defined(es: seq<(string, Option<Order>)>): seq<(string, Order)>
    decreases |es|
  {
    if |es| == 0 then []
    else (if es[0].1.Some? then [(es[0].0, es[0].1.value)] else []) + Defined(es[1..])
  }

  method NormalizeOrderBy(input: OrderByInput) returns (orders: Orders)
    ensures orders == Normalized(input)
  {
    orders := [];
    var clauses := ClausesOf(input);
    for i := 0 to |clauses|
      invariant orders == NormalizedClauses(clauses[..i])
    {
      var clause := clauses[i];
      for j := 0 to |clause|
        invariant orders == NormalizedClauses(clauses[..i]) + NormalizedClause(clause[..j])
      {
        var (key, value) := clause[j];
        assert clause[..j + 1][..j] == clause[..j];
        if value.None? {
          continue;
        }
        orders := orders + [(key, value.value == Asc)];
      }
      assert clause[..|clause|] == clause;
      assert clauses[..i + 1][..i] == clauses[..i];
    }
    assert clauses[..|clauses|] == clauses;
  }

  lemma DefinedAppend(a: seq<(string, Option<Order>)>, b: seq<(string, Option<Order>)>)
    ensures Defined(a + b) == Defined(a) + Defined(b)
    decreases |a|
  {
    if |a| > 0 {
      assert (a + b)[1..] == a[1..] + b;
      assert (a + b)[0] == a[0];
      DefinedAppend(a[1..], b);
    } else {
      assert a + b == b;
    }
  }

  lemma EntriesAppend(cs: seq<Clause>, c: Clause)
    ensures Entries(cs + [c]) == Entries(cs) + c
    decreases |cs|
  {
    if |cs| > 0 {
      assert (cs + [c])[1..] == cs[1..] + [c];
      EntriesAppend(cs[1..], c);
    }
  }

  /** The key/flag pairs of a list of defined entries: true iff the direction is ASC. */
  function Flags(d: seq<(string, Order)>): Orders {
    seq(|d|, i requires 0 <= i < |d| => (d[i].0, d[i].1 == Asc))
  }

  lemma FlagsAppend(a: seq<(string, Order)>, b: seq<(string, Order)>)
    ensures Flags(a + b) == Flags(a) + Flags(b)
  {
  }

  lemma {:induction false} ClauseIsFlagsOfDefined(c: Clause)
    ensures NormalizedClause(c) == Flags(Defined(c))
    decreases |c|
  {
    if |c| > 0 {
      var init := c[..|c| - 1];
      ClauseIsFlagsOfDefined(init);
      assert c == init + [c[|c| - 1]];
      DefinedAppend(init, [c[|c| - 1]]);
      FlagsAppend(Defined(init), Defined([c[|c| - 1]]));
    }
  }

  lemma {:induction false} ClausesAreFlagsOfDefined(cs: seq<Clause>)
    ensures NormalizedClauses(cs) == Flags(Defined(Entries(cs)))
    decreases |cs|
  {
    if |cs| > 0 {
      var init := cs[..|cs| - 1];
      var last := cs[|cs| - 1];
      ClausesAreFlagsOfDefined(init);
      ClauseIsFlagsOfDefined(last);
      assert cs == init + [last];
      EntriesAppend(init, last);
      DefinedAppend(Entries(init), last);
      FlagsAppend(Defined(Entries(init)), Defined(last));
    }
  }

  /**
   * The normalized list is, position by position, the defined entries of
   * all clauses in clause order and then key order, each flagged true iff
   * its direction is ASC: nothing is sorted, merged or deduplicated, and
   * undefined entries are dropped.
   */
  lemma NormalizedIsDefinedEntries(input: OrderByInput)
    ensures var d := Defined(Entries(ClausesOf(input)));
      && |Normalized(input)| == |d|
      && forall i | 0 <= i < |d| :: Normalized(input)[i] == (d[i].0, d[i].1 == Asc)
  {
    ClausesAreFlagsOfDefined(ClausesOf(input));
  }

  /** The number of entries whose direction is defined. */
  function DefinedCount(es: seq<(string, Option<Order>)>): nat
    decreases |es|
  {
    if |es| == 0 then 0 else (if es[0].1.Some? then 1 else 0) + DefinedCount(es[1..])
  }

  lemma {:induction false} DefinedLength(es: seq<(string, Option<Order>)>)
    ensures |Defined(es)| == DefinedCount(es)
    decreases |es|
  {
    if |es| > 0 {
      DefinedLength(es[1..]);
    }
  }

  /** One pair per defined entry across all clauses. */
  lemma NormalizedLength(input: OrderByInput)
    ensures |Normalized(input)| == DefinedCount(Entries(ClausesOf(input)))
  {
    NormalizedIsDefinedEntries(input);
    DefinedLength(Entries(ClausesOf(input)));
  }

  /** A single clause normalizes exactly as the one-element list holding it. */
  lemma SingleIsOneElementList(c: Clause)
    ensures Normalized(Single(c)) == Normalized(Many([c]))
  {
  }
}
