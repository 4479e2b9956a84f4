/**
 * The abstract query engine's ordering step: a deterministic sort of rows by
 * an order specification, the "strictly after a row" filter, and the facts
 * that pin down which rows a keyset page contains.
 */
module Sorting {
  import opened Wrappers
  import opened Ordering

  /** Every row is strictly before every later row. */
  predicate StrictlySorted(ob: Orders, s: seq<Row>) {
    forall i, j | 0 <= i < j < |s| :: Before(ob, s[i], s[j])
  }

  /** No two rows share the ordered columns' values (the caller's uniqueness duty). */
  predicate UniqueKeys(ob: Orders, s: seq<Row>) {
    forall i, j | 0 <= i < j < |s| :: !SameKey(ob, s[i], s[j])
  }

  function Insert(ob: Orders, x: Row, s: seq<Row>): (r: seq<Row>)
    ensures multiset(r) == multiset(s) + multiset{x}
    decreases |s|
  {
    if |s| == 0 then [x]
    else if Before(ob, s[0], x) then
      assert s == [s[0]] + s[1..];
      [s[0]] + Insert(ob, x, s[1..])
    else [x] + s
  }

  /** ORDER BY: the rows rearranged in the order of `ob`. */
  function Sort(ob: Orders, s: seq<Row>): (r: seq<Row>)
    ensures multiset(r) == multiset(s)
    decreases |s|
  {
    if |s| == 0 then []
    else
      assert s == [s[0]] + s[1..];
      Insert(ob, s[0], Sort(ob, s[1..]))
  }

  /** The rows of `s` strictly after `x` in the order of `ob`, in their order in `s`. */
  function FilterAfter(ob: Orders, x: Row, s: seq<Row>): (r: seq<Row>)
    ensures forall y | y in r :: y in s && Before(ob, x, y)
    decreases |s|
  {
    if |s| == 0 then []
    else (if Before(ob, x, s[0]) then [s[0]] else []) + FilterAfter(ob, x, s[1..])
  }

  /** LIMIT: at most `limit` leading rows; no limit keeps all. */
  function Take(s: seq<Row>, limit: Option<nat>): (r: seq<Row>)
    ensures limit.Some? ==> |r| == if limit.value < |s| then limit.value else |s|
    ensures limit.None? ==> r == s
    ensures r == s[..|r|]
  {
    if limit.None? || limit.value >= |s| then s else s[..limit.value]
  }

  function Reverse(s: seq<Row>): (r: seq<Row>)
    ensures |r| == |s|
    ensures forall i | 0 <= i < |s| :: r[i] == s[|s| - 1 - i]
    decreases |s|
  {
    if |s| == 0 then [] else Reverse(s[1..]) + [s[0]]
  }

  lemma ReverseMultiset(s: seq<Row>)
    ensures multiset(Reverse(s)) == multiset(s)
  {
    if |s| > 0 {
      assert s == [s[0]] + s[1..];
      ReverseMultiset(s[1..]);
    }
  }

  lemma ReverseReverse(s: seq<Row>)
    ensures Reverse(Reverse(s)) == s
  {
  }

  /** The first `k` rows of the reversed sequence are its last `k` rows, reversed. */
  lemma {:induction false} ReversePrefix(s: seq<Row>, k: nat)
    requires k <= |s|
    ensures Reverse(s)[..k] == Reverse(s[|s| - k..])
  {
    var a, b := Reverse(s)[..k], Reverse(s[|s| - k..]);
    assert |a| == k == |b|;
    forall i | 0 <= i < k ensures a[i] == b[i] {
      assert a[i] == s[|s| - 1 - i];
      assert b[i] == s[|s| - k..][k - 1 - i];
    }
  }

  /** The last `k` rows of the reversed sequence are its first `k` rows, reversed. */
  lemma {:induction false} ReverseSuffix(s: seq<Row>, k: nat)
    requires k <= |s|
    ensures Reverse(s)[|s| - k..] == Reverse(s[..k])
  {
    var a, b := Reverse(s)[|s| - k..], Reverse(s[..k]);
    assert |a| == k == |b|;
    forall i | 0 <= i < k ensures a[i] == b[i] {
      assert a[i] == Reverse(s)[|s| - k + i] == s[k - 1 - i];
      assert b[i] == s[..k][k - 1 - i];
    }
  }

  lemma ConsSorted(ob: Orders, a: Row, r: seq<Row>)
    requires StrictlySorted(ob, r)
    requires forall y | y in r :: Before(ob, a, y)
    ensures StrictlySorted(ob, [a] + r)
  {
    forall i, j | 0 <= i < j < |[a] + r| ensures Before(ob, ([a] + r)[i], ([a] + r)[j]) {
      if i == 0 {
        assert ([a] + r)[j] == r[j - 1];
        assert r[j - 1] in r;
      } else {
        assert ([a] + r)[i] == r[i - 1] && ([a] + r)[j] == r[j - 1];
      }
    }
  }

  lemma {:induction false} InsertSorted(ob: Orders, x: Row, s: seq<Row>)
    requires StrictlySorted(ob, s) && Covers(s, ob) && HasColumns(x, ob)
    requires forall y | y in s :: !SameKey(ob, x, y)
    ensures StrictlySorted(ob, Insert(ob, x, s))
    decreases |s|
  {
    if |s| == 0 {
      return;
    }
    if Before(ob, s[0], x) {
      var rest := s[1..];
      assert StrictlySorted(ob, rest) by {
        forall i, j | 0 <= i < j < |rest| ensures Before(ob, rest[i], rest[j]) {
          assert rest[i] == s[i + 1] && rest[j] == s[j + 1];
        }
      }
      InsertSorted(ob, x, rest);
      var ins := Insert(ob, x, rest);
      forall y | y in ins ensures Before(ob, s[0], y) {
        assert y in multiset(ins);
        if y != x {
          assert y in multiset(rest);
          var j :| 0 <= j < |rest| && rest[j] == y;
          assert s[j + 1] == y;
        }
      }
      ConsSorted(ob, s[0], ins);
    } else {
      assert s[0] in s;
      BeforeTotal(ob, x, s[0]);
      forall y | y in s ensures Before(ob, x, y) {
        var j :| 0 <= j < |s| && s[j] == y;
        if j > 0 {
          BeforeTransitive(ob, x, s[0], y);
        }
      }
      ConsSorted(ob, x, s);
    }
  }

  /** Sorting rows with unique keys leaves them strictly sorted. */
  lemma {:induction false} SortSorted(ob: Orders, s: seq<Row>)
    requires Covers(s, ob) && UniqueKeys(ob, s)
    ensures StrictlySorted(ob, Sort(ob, s))
    decreases |s|
  {
    if |s| == 0 {
      return;
    }
    var rest := s[1..];
    assert UniqueKeys(ob, rest) by {
      forall i, j | 0 <= i < j < |rest| ensures !SameKey(ob, rest[i], rest[j]) {
        assert rest[i] == s[i + 1] && rest[j] == s[j + 1];
      }
    }
    SortSorted(ob, rest);
    var sorted := Sort(ob, rest);
    forall y | y in sorted ensures y in rest && !SameKey(ob, s[0], y) && HasColumns(y, ob) {
      assert y in multiset(sorted);
      assert y in multiset(rest);
      var j :| 0 <= j < |rest| && rest[j] == y;
      assert s[j + 1] == y;
    }
    assert s[0] in s;
    InsertSorted(ob, s[0], sorted);
  }

  /** Two strictly sorted arrangements of the same rows start with the same row. */
  lemma SortedSameHead(ob: Orders, s: seq<Row>, t: seq<Row>)
    requires StrictlySorted(ob, s) && StrictlySorted(ob, t)
    requires multiset(s) == multiset(t) && |s| > 0
    ensures |t| > 0 && s[0] == t[0]
  {
    assert s[0] in multiset(t);
    assert t[0] in multiset(s);
    var i :| 0 <= i < |s| && s[i] == t[0];
    var j :| 0 <= j < |t| && t[j] == s[0];
    if s[0] != t[0] {
      BeforeAsymmetric(ob, s[0], t[0]);
    }
  }

  lemma MultisetTail(s: seq<Row>)
    requires |s| > 0
    ensures multiset(s[1..]) == multiset(s) - multiset{s[0]}
  {
    assert s == [s[0]] + s[1..];
  }

  /** A strictly sorted arrangement of a multiset of rows is the only one. */
  lemma {:induction false} SortedUnique(ob: Orders, s: seq<Row>, t: seq<Row>)
    requires StrictlySorted(ob, s) && StrictlySorted(ob, t)
    requires multiset(s) == multiset(t)
    ensures s == t
    decreases |s|
  {
    if |s| == 0 {
      assert |multiset(t)| == 0;
    } else {
      SortedSameHead(ob, s, t);
      MultisetTail(s);
      MultisetTail(t);
      SortedUnique(ob, s[1..], t[1..]);
      assert s == [s[0]] + s[1..] && t == [t[0]] + t[1..];
    }
  }

  lemma {:induction false} FilterAfterCount(ob: Orders, x: Row, s: seq<Row>, y: Row)
    ensures multiset(FilterAfter(ob, x, s))[y] == if Before(ob, x, y) then multiset(s)[y] else 0
    decreases |s|
  {
    if |s| > 0 {
      assert s == [s[0]] + s[1..];
      FilterAfterCount(ob, x, s[1..], y);
    }
  }

  /** Filtering commutes with rearranging the rows. */
  lemma FilterAfterPermutation(ob: Orders, x: Row, s: seq<Row>, t: seq<Row>)
    requires multiset(s) == multiset(t)
    ensures multiset(FilterAfter(ob, x, s)) == multiset(FilterAfter(ob, x, t))
  {
    forall y ensures multiset(FilterAfter(ob, x, s))[y] == multiset(FilterAfter(ob, x, t))[y] {
      FilterAfterCount(ob, x, s, y);
      FilterAfterCount(ob, x, t, y);
    }
  }

  lemma {:induction false} FilterAfterAll(ob: Orders, x: Row, s: seq<Row>)
    requires forall y | y in s :: Before(ob, x, y)
    ensures FilterAfter(ob, x, s) == s
    decreases |s|
  {
    if |s| > 0 {
      assert s[0] in s;
      FilterAfterAll(ob, x, s[1..]);
    }
  }

  /** In a strictly sorted sequence the rows after `s[p]` are exactly the suffix past `p`. */
  lemma {:induction false} FilterAfterSuffix(ob: Orders, s: seq<Row>, p: nat)
    requires StrictlySorted(ob, s) && p < |s|
    ensures FilterAfter(ob, s[p], s) == s[p + 1..]
    decreases |s|
  {
    var rest := s[1..];
    assert StrictlySorted(ob, rest) by {
      forall i, j | 0 <= i < j < |rest| ensures Before(ob, rest[i], rest[j]) {
        assert rest[i] == s[i + 1] && rest[j] == s[j + 1];
      }
    }
    if p == 0 {
      BeforeIrreflexive(ob, s[0]);
      forall y | y in rest ensures Before(ob, s[0], y) {
        var j :| 0 <= j < |rest| && rest[j] == y;
        assert s[j + 1] == y;
      }
      FilterAfterAll(ob, s[0], rest);
    } else {
      BeforeAsymmetric(ob, s[0], s[p]);
      assert rest[p - 1] == s[p];
      FilterAfterSuffix(ob, rest, p - 1);
    }
  }

  lemma {:induction false} FilterAfterUnique(ob: Orders, x: Row, s: seq<Row>)
    requires UniqueKeys(ob, s)
    ensures UniqueKeys(ob, FilterAfter(ob, x, s))
    decreases |s|
  {
    if |s| == 0 {
      return;
    }
    var rest := s[1..];
    assert UniqueKeys(ob, rest) by {
      forall i, j | 0 <= i < j < |rest| ensures !SameKey(ob, rest[i], rest[j]) {
        assert rest[i] == s[i + 1] && rest[j] == s[j + 1];
      }
    }
    FilterAfterUnique(ob, x, rest);
    var f := FilterAfter(ob, x, rest);
    if Before(ob, x, s[0]) {
      var r := [s[0]] + f;
      forall i, j | 0 <= i < j < |r| ensures !SameKey(ob, r[i], r[j]) {
        if i == 0 {
          assert r[j] == f[j - 1] && f[j - 1] in f;
          var k :| 0 <= k < |rest| && rest[k] == f[j - 1];
          assert s[k + 1] == r[j];
        } else {
          assert r[i] == f[i - 1] && r[j] == f[j - 1];
        }
      }
    }
  }

  /**
   * Sorting the rows strictly after the `p`-th row of the sorted table gives
   * the sorted table's suffix after position `p`.
   */
  lemma SortAfter(ob: Orders, table: seq<Row>, p: nat)
    requires Covers(table, ob) && UniqueKeys(ob, table)
    requires p < |Sort(ob, table)|
    ensures Sort(ob, FilterAfter(ob, Sort(ob, table)[p], table)) == Sort(ob, table)[p + 1..]
  {
    var s := Sort(ob, table);
    SortSorted(ob, table);
    var f := FilterAfter(ob, s[p], table);
    FilterAfterUnique(ob, s[p], table);
    SortSorted(ob, f);
    FilterAfterSuffix(ob, s, p);
    FilterAfterPermutation(ob, s[p], table, s);
    SortedSuffix(ob, s, p + 1);
    SortedUnique(ob, Sort(ob, f), s[p + 1..]);
  }

  /**
   * Sorting, in the flipped order, the rows strictly before the `p`-th row
   * of the sorted table gives the sorted table's prefix before position
   * `p`, nearest first.
   */
  lemma SortBefore(ob: Orders, table: seq<Row>, p: nat)
    requires Covers(table, ob) && UniqueKeys(ob, table)
    requires p < |Sort(ob, table)|
    ensures var flipped := Adjust(ob, false);
      Sort(flipped, FilterAfter(flipped, Sort(ob, table)[p], table)) == Reverse(Sort(ob, table)[..p])
  {
    var s := Sort(ob, table);
    var flipped := Adjust(ob, false);
    AdjustPrevKeepsUnique(ob, table);
    SortFlipped(ob, table);
    var q := |s| - 1 - p;
    ReverseAround(s, p);
    assert Sort(flipped, table)[q] == s[p];
    SortAfter(flipped, table, q);
    assert Sort(flipped, table)[q + 1..] == Reverse(s[..p]);
  }

  /** Position `p` of a sequence is position `|s| - 1 - p` of its reverse, and what follows it there is the reversed prefix. */
  lemma ReverseAround(s: seq<Row>, p: nat)
    requires p < |s|
    ensures Reverse(s)[|s| - 1 - p] == s[p]
    ensures Reverse(s)[|s| - p..] == Reverse(s[..p])
  {
    ReverseSuffix(s, p);
  }

  lemma SortedSuffix(ob: Orders, s: seq<Row>, k: nat)
    requires StrictlySorted(ob, s) && k <= |s|
    ensures StrictlySorted(ob, s[k..])
  {
    var suffix := s[k..];
    forall i, j | 0 <= i < j < |suffix| ensures Before(ob, suffix[i], suffix[j]) {
      assert suffix[i] == s[k + i] && suffix[j] == s[k + j];
    }
  }

  /** Flipping every direction keeps coverage and key uniqueness. */
  lemma AdjustPrevKeepsUnique(ob: Orders, table: seq<Row>)
    requires Covers(table, ob) && UniqueKeys(ob, table)
    ensures Covers(table, Adjust(ob, false)) && UniqueKeys(Adjust(ob, false), table)
  {
    forall row | row in table ensures HasColumns(row, Adjust(ob, false)) {
      SameKeyAdjust(ob, false, row, row);
    }
    forall i, j | 0 <= i < j < |table| ensures !SameKey(Adjust(ob, false), table[i], table[j]) {
      SameKeyAdjust(ob, false, table[i], table[j]);
    }
  }

  /** A strictly sorted sequence, reversed, is strictly sorted in the flipped order. */
  lemma ReverseSortedFlipped(ob: Orders, s: seq<Row>)
    requires StrictlySorted(ob, s)
    ensures StrictlySorted(Adjust(ob, false), Reverse(s))
  {
    var r := Reverse(s);
    forall i, j | 0 <= i < j < |r| ensures Before(Adjust(ob, false), r[i], r[j]) {
      BeforeAdjustPrev(ob, r[i], r[j]);
      assert r[i] == s[|s| - 1 - i] && r[j] == s[|s| - 1 - j];
    }
  }

  /** Sorting in the fully flipped order yields the reverse of the declared order. */
  lemma SortFlipped(ob: Orders, table: seq<Row>)
    requires Covers(table, ob) && UniqueKeys(ob, table)
    ensures Sort(Adjust(ob, false), table) == Reverse(Sort(ob, table))
  {
    var s := Sort(ob, table);
    SortSorted(ob, table);
    AdjustPrevKeepsUnique(ob, table);
    SortSorted(Adjust(ob, false), table);
    ReverseSortedFlipped(ob, s);
    ReverseMultiset(s);
    SortedUnique(Adjust(ob, false), Sort(Adjust(ob, false), table), Reverse(s));
  }

  /**
   * Keeping only the rows after `x` in the order `keep`, whichever it is,
   * keeps a sequence strictly sorted by `ob` strictly sorted.
   */
  lemma {:induction false} FilterAfterSorted(ob: Orders, keep: Orders, x: Row, s: seq<Row>)
    requires StrictlySorted(ob, s)
    ensures StrictlySorted(ob, FilterAfter(keep, x, s))
    decreases |s|
  {
    if |s| > 0 {
      SortedSuffix(ob, s, 1);
      FilterAfterSorted(ob, keep, x, s[1..]);
      var f := FilterAfter(keep, x, s[1..]);
      if Before(keep, x, s[0]) {
        forall y | y in f ensures Before(ob, s[0], y) {
          var j :| 0 <= j < |s[1..]| && s[1..][j] == y;
          assert s[j + 1] == y;
        }
        ConsSorted(ob, s[0], f);
      } else {
        assert FilterAfter(keep, x, s) == f;
      }
    }
  }

  /**
   * Sorting the rows after any boundary `x` gives the rows after `x` of the
   * sorted table: `x` need not be a row of the table.
   */
  lemma SortFilterCommute(ob: Orders, x: Row, table: seq<Row>)
    requires Covers(table, ob) && UniqueKeys(ob, table)
    ensures Sort(ob, FilterAfter(ob, x, table)) == FilterAfter(ob, x, Sort(ob, table))
  {
    var f := FilterAfter(ob, x, table);
    FilterAfterUnique(ob, x, table);
    SortSorted(ob, f);
    SortSorted(ob, table);
    FilterAfterSorted(ob, ob, x, Sort(ob, table));
    FilterAfterPermutation(ob, x, table, Sort(ob, table));
    SortedUnique(ob, Sort(ob, f), FilterAfter(ob, x, Sort(ob, table)));
  }

  /**
   * Sorting, in the flipped order, the rows before any boundary `x` gives
   * the rows of the sorted table before `x`, nearest first.
   */
  lemma SortFilterFlipped(ob: Orders, x: Row, table: seq<Row>)
    requires Covers(table, ob) && UniqueKeys(ob, table)
    ensures var flipped := Adjust(ob, false);
      Sort(flipped, FilterAfter(flipped, x, table)) == Reverse(FilterAfter(flipped, x, Sort(ob, table)))
  {
    var flipped := Adjust(ob, false);
    var s := Sort(ob, table);
    var f := FilterAfter(flipped, x, table);
    var e := FilterAfter(flipped, x, s);
    AdjustPrevKeepsUnique(ob, table);
    FilterAfterUnique(flipped, x, table);
    SortSorted(flipped, f);
    SortSorted(ob, table);
    FilterAfterSorted(ob, flipped, x, s);
    ReverseSortedFlipped(ob, e);
    ReverseMultiset(e);
    FilterAfterPermutation(flipped, x, table, s);
    SortedUnique(flipped, Sort(flipped, f), Reverse(e));
  }

  /** Keeping the rows after `x` in the flipped order keeps exactly the rows before `x` in the declared order. */
  lemma FilterBeforeRows(ob: Orders, x: Row, s: seq<Row>, y: Row)
    ensures y in FilterAfter(Adjust(ob, false), x, s) <==> y in s && Before(ob, y, x)
  {
    FilterAfterCount(Adjust(ob, false), x, s, y);
    BeforeAdjustPrev(ob, x, y);
  }

  /** Keeping the rows after `x` keeps exactly the rows of `s` after `x`. */
  lemma FilterAfterRows(ob: Orders, x: Row, s: seq<Row>, y: Row)
    ensures y in FilterAfter(ob, x, s) <==> y in s && Before(ob, x, y)
  {
    FilterAfterCount(ob, x, s, y);
  }
}
