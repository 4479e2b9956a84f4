/**
 * Cursors of src/cursor-paginator.ts: the mapping from ordered column to
 * boundary value, the pluggable string codec, the directional `next:` /
 * `prev:` envelope, and the key-set validation a parsed cursor must pass.
 */
module CursorCodec {
  import opened Wrappers
  import opened Ordering

  /** A cursor property: JavaScript `undefined`, or a value. */
  datatype Val = Undefined | Defined(v: int)

  type Cursor = map<string, Val>

  /**
   * The cursor transformer (JSON, base64 of JSON, ...): an opaque pair of
   * total functions; `parse` yields `None` where the source's codec throws.
   */
  datatype Codec = Codec(stringify: Cursor -> string, parse: string -> Option<Cursor>)

  predicate AllDefined(c: Cursor) {
    forall k | k in c :: c[k].Defined?
  }

  /**
   * The codec gives back every cursor without `undefined` properties
   * (JSON drops those, so no round trip is assumed for them).
   */
  ghost predicate RoundTrips(codec: Codec) {
    forall c: Cursor | AllDefined(c) :: codec.parse(codec.stringify(c)) == Some(c)
  }

  datatype DirectionalCursor = DirectionalCursor(cursor: Cursor, isNext: bool)

  function KeySet(ob: Orders): set<string> {
    set k | k in Keys(ob)
  }

  /**
   * `_validateCursor` accepts: as many properties as orders, each one an
   * order key, none of them `undefined`.
   */
  predicate IsValidCursor(ob: Orders, c: Cursor) {
    && |c| == |ob|
    && forall k | k in c :: k in Keys(ob) && c[k].Defined?
  }

  /** `node[key]`: the row's value for the column, or `undefined`. */
  function ValueAt(node: Row, k: string): Val {
    if k in node then Defined(node[k]) else Undefined
  }

  /** `_createCursor`: the node's value under every order key. */
  function CursorFor(ob: Orders, node: Row): Cursor {
    map k | k in KeySet(ob) :: ValueAt(node, k)
  }

  /** The bound parameter values: each cursor value passed through the column's persistence transform. */
  function Params(prepare: (string, int) -> int, c: Cursor): (r: Row)
    requires AllDefined(c)
    ensures r.Keys == c.Keys
    ensures forall k | k in c :: r[k] == prepare(k, c[k].v)
  {
    map k | k in c :: prepare(k, c[k].v)
  }

  /** `_stringifyCursor`: the direction tag, then the codec's text. */
  function Stringify(codec: Codec, c: Cursor, isNext: bool): (r: string)
    ensures |r| >= 5 && r[5..] == codec.stringify(c)
    ensures r[..5] == if isNext then "next:" else "prev:"
  {
    var tag: string := if isNext then "next:" else "prev:";
    var r := tag + codec.stringify(c);
    assert r[..5] == tag;
    r
  }

  /**
   * `_parseCursor` as a partial function: the direction comes from the
   * five-character prefix, the rest goes to the codec, and the decoded
   * cursor must pass validation; any failure is `None`.
   */
  function Parsed(ob: Orders, codec: Codec, s: string): (r: Option<DirectionalCursor>)
    ensures !("next:" <= s) && !("prev:" <= s) ==> r.None?
    ensures r.Some? ==> |s| >= 5 && codec.parse(s[5..]) == Some(r.value.cursor)
    ensures r.Some? ==> (r.value.isNext <==> "next:" <= s) && (!r.value.isNext ==> "prev:" <= s)
    ensures r.Some? ==> IsValidCursor(ob, r.value.cursor)
  {
    if "next:" <= s || "prev:" <= s then
      match codec.parse(s[5..])
      case None => None
      case Some(c) => if IsValidCursor(ob, c) then Some(DirectionalCursor(c, "next:" <= s)) else None
    else None
  }

  /** The number of distinct keys is at most the number of orders, and equal to it iff no key repeats. */
  lemma {:induction false} KeySetCard(ob: Orders)
    ensures |KeySet(ob)| <= |ob|
    ensures |KeySet(ob)| == |ob| <==> DistinctKeys(ob)
    decreases |ob|
  {
    if |ob| == 0 {
      assert KeySet(ob) == {};
    } else {
      KeySetCard(ob[1..]);
      KeySetCons(ob);
      DistinctCons(ob);
    }
  }

  /** The keys of a non-empty list: its first key and the keys of the rest. */
  lemma KeySetCons(ob: Orders)
    requires |ob| > 0
    ensures KeySet(ob) == {ob[0].0} + KeySet(ob[1..])
  {
    var rest := ob[1..];
    forall x | x in KeySet(ob) ensures x in {ob[0].0} + KeySet(rest) {
      var i :| 0 <= i < |ob| && Keys(ob)[i] == x;
      if i > 0 {
        assert Keys(rest)[i - 1] == x;
      }
    }
    forall x | x in KeySet(rest) ensures x in KeySet(ob) {
      var i :| 0 <= i < |rest| && Keys(rest)[i] == x;
      assert Keys(ob)[i + 1] == x;
    }
    assert Keys(ob)[0] == ob[0].0;
  }

  /** A non-empty list has no repeated key iff its first key is not among the rest's and the rest has none. */
  lemma DistinctCons(ob: Orders)
    requires |ob| > 0
    ensures DistinctKeys(ob) <==> ob[0].0 !in KeySet(ob[1..]) && DistinctKeys(ob[1..])
  {
    var rest := ob[1..];
    var k := ob[0].0;
    if k in KeySet(rest) {
      var i :| 0 <= i < |rest| && Keys(rest)[i] == k;
      assert ob[i + 1].0 == k;
    }
    if DistinctKeys(ob) {
      forall i, j | 0 <= i < j < |rest| ensures rest[i].0 != rest[j].0 {
        assert rest[i] == ob[i + 1] && rest[j] == ob[j + 1];
      }
    }
    if k !in KeySet(rest) && DistinctKeys(rest) {
      forall i, j | 0 <= i < j < |ob| ensures ob[i].0 != ob[j].0 {
        if i == 0 {
          assert Keys(rest)[j - 1] == ob[j].0;
        } else {
          assert rest[i - 1] == ob[i] && rest[j - 1] == ob[j];
        }
      }
    }
  }

  /**
   * A cursor passes validation iff its keys are exactly the order keys,
   * the order keys do not repeat and no value is `undefined`.
   */
  lemma ValidCursorExact(ob: Orders, c: Cursor)
    ensures IsValidCursor(ob, c) <==> (c.Keys == KeySet(ob) && DistinctKeys(ob) && AllDefined(c))
  {
    KeySetCard(ob);
    if IsValidCursor(ob, c) {
      assert c.Keys <= KeySet(ob);
      assert |c.Keys| == |c| == |ob|;
      SubsetSameSize(c.Keys, KeySet(ob));
    }
  }

  lemma SubsetSameSize(a: set<string>, b: set<string>)
    requires a <= b && |b| <= |a|
    ensures a == b
  {
    assert |b - a| == |b| - |a| == 0;
  }

  /**
   * The cursor minted from a node passes validation iff the order keys do
   * not repeat and the node holds every ordered column.
   */
  lemma CreatedCursorValid(ob: Orders, node: Row)
    ensures IsValidCursor(ob, CursorFor(ob, node)) <==> DistinctKeys(ob) && HasColumns(node, ob)
  {
    var c := CursorFor(ob, node);
    ValidCursorExact(ob, c);
    assert c.Keys == KeySet(ob);
    if IsValidCursor(ob, c) {
      forall i | 0 <= i < |ob| ensures ob[i].0 in node {
        assert Keys(ob)[i] == ob[i].0;
        assert c[ob[i].0].Defined?;
      }
    }
    if HasColumns(node, ob) {
      forall k | k in c ensures c[k].Defined? {
        var i :| 0 <= i < |ob| && Keys(ob)[i] == k;
      }
    }
  }

  /**
   * Without a column transform, the parameters of a node's cursor agree with
   * the node on every ordered column.
   */
  lemma CreatedCursorParams(ob: Orders, prepare: (string, int) -> int, node: Row)
    requires forall k, v :: prepare(k, v) == v
    requires HasColumns(node, ob) && DistinctKeys(ob)
    ensures IsValidCursor(ob, CursorFor(ob, node))
    ensures SameKey(ob, Params(prepare, CursorFor(ob, node)), node)
  {
    CreatedCursorValid(ob, node);
    var p := Params(prepare, CursorFor(ob, node));
    forall i | 0 <= i < |ob| ensures ob[i].0 in p && ob[i].0 in node && p[ob[i].0] == node[ob[i].0] {
      assert Keys(ob)[i] == ob[i].0;
    }
    SameKeyAt(ob, p, node);
  }

  /** The parameters of a valid cursor supply every ordered column. */
  lemma ValidParamsCover(ob: Orders, prepare: (string, int) -> int, c: Cursor)
    requires IsValidCursor(ob, c)
    ensures HasColumns(Params(prepare, c), ob)
  {
    ValidCursorExact(ob, c);
    forall i | 0 <= i < |ob| ensures ob[i].0 in Params(prepare, c) {
      assert Keys(ob)[i] == ob[i].0;
    }
  }

  /**
   * Parsing a stringified valid cursor gives back the cursor and its
   * direction, for a codec that round-trips.
   */
  lemma ParseStringify(ob: Orders, codec: Codec, c: Cursor, isNext: bool)
    requires RoundTrips(codec) && IsValidCursor(ob, c)
    ensures Parsed(ob, codec, Stringify(codec, c, isNext)) == Some(DirectionalCursor(c, isNext))
  {
    var s := Stringify(codec, c, isNext);
    var tag: string := if isNext then "next:" else "prev:";
    assert s == tag + codec.stringify(c);
    assert s[..5] == tag && s[5..] == codec.stringify(c);
    assert tag <= s;
    assert !isNext ==> s[0] == 'p' && !("next:" <= s);
    assert AllDefined(c);
  }
}
