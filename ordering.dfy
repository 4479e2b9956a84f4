/**
 * Rows, order specifications and the lexicographic order they induce.
 *
 * A row maps column keys to stored values; integers stand for any totally
 * ordered column type. An order specification is the normalized list of
 * `(key, ascending?)` pairs, first pair first in priority.
 */
module Ordering {

  type Row = map<string, int>

  type Orders = seq<(string, bool)>

  /** The column keys of an order specification, in order. */
  function Keys(ob: Orders): seq<string> {
    seq(|ob|, i requires 0 <= i < |ob| => ob[i].0)
  }

  /** The row holds a value for every ordered column. */
  predicate HasColumns(row: Row, ob: Orders) {
    forall i | 0 <= i < |ob| :: ob[i].0 in row
  }

  predicate Covers(rows: seq<Row>, ob: Orders) {
    forall r | r in rows :: HasColumns(r, ob)
  }

  /** No column key occurs twice in the specification. */
  predicate DistinctKeys(ob: Orders) {
    forall i, j | 0 <= i < j < |ob| :: ob[i].0 != ob[j].0
  }

  /**
   * `a` comes strictly before `b` in the lexicographic order of `ob`:
   * the first column on which they differ decides, ascending or descending
   * as that column says. A comparison with a missing value is never true.
   */
  predicate Before(ob: Orders, a: Row, b: Row)
    decreases |ob|
  {
    && |ob| > 0
    && ob[0].0 in a && ob[0].0 in b
    && (|| (if ob[0].1 then a[ob[0].0] < b[ob[0].0] else a[ob[0].0] > b[ob[0].0])
        || (a[ob[0].0] == b[ob[0].0] && Before(ob[1..], a, b)))
  }

  /** `a` and `b` agree on every ordered column. */
  predicate SameKey(ob: Orders, a: Row, b: Row)
    decreases |ob|
  {
    || |ob| == 0
    || (&& ob[0].0 in a && ob[0].0 in b
        && a[ob[0].0] == b[ob[0].0]
        && SameKey(ob[1..], a, b))
  }

  /** The order specification with every direction kept when `isNext`, and flipped otherwise. */
  function Adjust(ob: Orders, isNext: bool): Orders {
    seq(|ob|, i requires 0 <= i < |ob| => (ob[i].0, ob[i].1 == isNext))
  }

  /**
   * Index form of `Before`: the rows agree on the first `i` columns and
   * column `i` orders them strictly.
   */
  predicate BeforeAt(ob: Orders, a: Row, b: Row, i: nat) {
    && i < |ob|
    && (forall j | 0 <= j < i :: ob[j].0 in a && ob[j].0 in b && a[ob[j].0] == b[ob[j].0])
    && ob[i].0 in a && ob[i].0 in b
    && (if ob[i].1 then a[ob[i].0] < b[ob[i].0] else a[ob[i].0] > b[ob[i].0])
  }

  lemma {:induction false} BeforeIrreflexive(ob: Orders, a: Row)
    ensures !Before(ob, a, a)
    decreases |ob|
  {
    if |ob| > 0 {
      BeforeIrreflexive(ob[1..], a);
    }
  }

  lemma {:induction false} BeforeAsymmetric(ob: Orders, a: Row, b: Row)
    requires Before(ob, a, b)
    ensures !Before(ob, b, a)
    decreases |ob|
  {
    var k := ob[0].0;
    if a[k] == b[k] {
      BeforeAsymmetric(ob[1..], a, b);
    }
  }

  lemma {:induction false} BeforeTransitive(ob: Orders, a: Row, b: Row, c: Row)
    requires Before(ob, a, b) && Before(ob, b, c)
    ensures Before(ob, a, c)
    decreases |ob|
  {
    var k := ob[0].0;
    if a[k] == b[k] && b[k] == c[k] {
      BeforeTransitive(ob[1..], a, b, c);
    }
  }

  /** On rows holding every ordered column the order is total up to equal keys. */
  lemma {:induction false} BeforeTotal(ob: Orders, a: Row, b: Row)
    requires HasColumns(a, ob) && HasColumns(b, ob)
    ensures Before(ob, a, b) || Before(ob, b, a) || SameKey(ob, a, b)
    decreases |ob|
  {
    if |ob| > 0 {
      assert ob[0].0 in a && ob[0].0 in b;
      assert HasColumns(a, ob[1..]) by {
        forall i | 0 <= i < |ob[1..]| ensures ob[1..][i].0 in a {
          assert ob[1..][i] == ob[i + 1];
        }
      }
      assert HasColumns(b, ob[1..]) by {
        forall i | 0 <= i < |ob[1..]| ensures ob[1..][i].0 in b {
          assert ob[1..][i] == ob[i + 1];
        }
      }
      BeforeTotal(ob[1..], a, b);
    }
  }

  /** `Before` looks at the ordered columns only. */
  lemma {:induction false} SameKeyBefore(ob: Orders, a: Row, a': Row, b: Row)
    requires SameKey(ob, a, a')
    ensures Before(ob, a, b) <==> Before(ob, a', b)
    decreases |ob|
  {
    if |ob| > 0 {
      SameKeyBefore(ob[1..], a, a', b);
    }
  }

  lemma {:induction false} SameKeyReflexive(ob: Orders, a: Row)
    requires HasColumns(a, ob)
    ensures SameKey(ob, a, a)
    decreases |ob|
  {
    if |ob| > 0 {
      assert ob[0].0 in a;
      assert HasColumns(a, ob[1..]) by {
        forall i | 0 <= i < |ob[1..]| ensures ob[1..][i].0 in a {
          assert ob[1..][i] == ob[i + 1];
        }
      }
      SameKeyReflexive(ob[1..], a);
    }
  }

  /** Two rows agree on the ordered columns iff they agree at each ordered index. */
  lemma {:induction false} SameKeyAt(ob: Orders, a: Row, b: Row)
    ensures SameKey(ob, a, b) <==>
      forall i | 0 <= i < |ob| :: ob[i].0 in a && ob[i].0 in b && a[ob[i].0] == b[ob[i].0]
    decreases |ob|
  {
    if |ob| > 0 {
      SameKeyAt(ob[1..], a, b);
      if SameKey(ob, a, b) {
        forall i | 0 <= i < |ob| ensures ob[i].0 in a && ob[i].0 in b && a[ob[i].0] == b[ob[i].0] {
          if i > 0 {
            assert ob[1..][i - 1] == ob[i];
          }
        }
      }
      if forall i | 0 <= i < |ob| :: ob[i].0 in a && ob[i].0 in b && a[ob[i].0] == b[ob[i].0] {
        forall i | 0 <= i < |ob[1..]|
          ensures ob[1..][i].0 in a && ob[1..][i].0 in b && a[ob[1..][i].0] == b[ob[1..][i].0]
        {
          assert ob[1..][i] == ob[i + 1];
        }
      }
    }
  }

  /**
   * The recursive lexicographic order and its index form agree: `a` is
   * before `b` iff some column decides it after a run of equal columns.
   */
  lemma {:induction false} BeforeIndex(ob: Orders, a: Row, b: Row)
    ensures Before(ob, a, b) <==> exists i: nat :: BeforeAt(ob, a, b, i)
    decreases |ob|
  {
    if |ob| == 0 {
      return;
    }
    var k := ob[0].0;
    BeforeIndex(ob[1..], a, b);
    if Before(ob, a, b) {
      if k in a && k in b && (if ob[0].1 then a[k] < b[k] else a[k] > b[k]) {
        assert BeforeAt(ob, a, b, 0);
      } else {
        var i: nat :| BeforeAt(ob[1..], a, b, i);
        forall j | 0 <= j < i + 1 ensures ob[j].0 in a && ob[j].0 in b && a[ob[j].0] == b[ob[j].0] {
          if j > 0 {
            assert ob[1..][j - 1] == ob[j];
          }
        }
        assert ob[1..][i] == ob[i + 1];
        assert BeforeAt(ob, a, b, i + 1);
      }
    }
    if exists i: nat :: BeforeAt(ob, a, b, i) {
      var i: nat :| BeforeAt(ob, a, b, i);
      if i > 0 {
        forall j | 0 <= j < i - 1
          ensures ob[1..][j].0 in a && ob[1..][j].0 in b && a[ob[1..][j].0] == b[ob[1..][j].0]
        {
          assert ob[1..][j] == ob[j + 1];
        }
        assert ob[1..][i - 1] == ob[i];
        assert BeforeAt(ob[1..], a, b, i - 1);
        assert a[k] == b[k];
      }
    }
  }

  lemma AdjustTail(ob: Orders, isNext: bool)
    requires |ob| > 0
    ensures Adjust(ob, isNext)[1..] == Adjust(ob[1..], isNext)
  {
  }

  /** Fetching forward keeps every declared direction. */
  lemma AdjustNext(ob: Orders)
    ensures Adjust(ob, true) == ob
  {
  }

  /** Fetching backward reverses the order: before in the flipped order is after in the declared one. */
  lemma {:induction false} BeforeAdjustPrev(ob: Orders, a: Row, b: Row)
    ensures Before(Adjust(ob, false), a, b) <==> Before(ob, b, a)
    decreases |ob|
  {
    if |ob| > 0 {
      AdjustTail(ob, false);
      BeforeAdjustPrev(ob[1..], a, b);
    }
  }

  /** Adjusting directions changes neither the columns nor key equality. */
  lemma {:induction false} SameKeyAdjust(ob: Orders, isNext: bool, a: Row, b: Row)
    ensures SameKey(Adjust(ob, isNext), a, b) <==> SameKey(ob, a, b)
    ensures HasColumns(a, Adjust(ob, isNext)) <==> HasColumns(a, ob)
    decreases |ob|
  {
    if |ob| > 0 {
      AdjustTail(ob, isNext);
      SameKeyAdjust(ob[1..], isNext, a, b);
    }
  }
}
