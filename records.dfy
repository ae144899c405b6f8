/**
 * Database rows as the repair script sees them: a row of `result.to_a` is a
 * Hash from column names to values, where SQL NULL reads as nil. Integer
 * columns (`id`, `community_id`) hold `Int` values; every other value is
 * text. A table is the sequence of its rows in the order a query returns them.
 */
module Records {
  import opened Wrappers

  type Column = string

  datatype Value = Null | Int(n: int) | Text(s: string)

  type Row = map<Column, Value>

  type Table = seq<Row>

  const Id: Column := "id"
  const CommunityId: Column := "community_id"

  /** The value of a column, nil when the row has no such column (`row['c']`). */
  function Get(r: Row, c: Column): Value
  {
    if c in r then r[c] else Null
  }

  /** `community_id = '<c>'`. */
  predicate InCommunity(r: Row, c: int)
  {
    Get(r, CommunityId) == Int(c)
  }

  /** `id = '<n>'`. */
  predicate HasId(r: Row, n: int)
  {
    Get(r, Id) == Int(n)
  }

  /**
   * The rows, in order, whose `community_id` value is among `vs` when
   * `keep` holds, or is not among them when it does not.
   */
  function Among(t: Table, vs: set<Value>, keep: bool): (rs: Table)
    ensures |rs| <= |t|
    ensures forall r :: r in rs <==> r in t && ((Get(r, CommunityId) in vs) == keep)
  {
    if t == [] then []
    else
      var r := t[|t| - 1];
      Among(t[..|t| - 1], vs, keep) + (if (Get(r, CommunityId) in vs) == keep then [r] else [])
  }

  /** `select * from <table> where community_id = '<c>'`. */
  function RowsOf(t: Table, c: int): Table
  {
    Among(t, {Int(c)}, true)
  }

  /** The rows that belong to neither community `a` nor community `b`. */
  function Outside(t: Table, a: int, b: int): Table
  {
    Among(t, {Int(a), Int(b)}, false)
  }

  /** The row re-pointed to community `c` (`SET community_id = '<c>'`). */
  function Repointed(r: Row, c: int): (r': Row)
    ensures InCommunity(r', c)
    ensures forall k :: k != CommunityId ==> (k in r' <==> k in r) && (k in r ==> r'[k] == r[k])
  {
    r[CommunityId := Int(c)]
  }

  lemma {:induction false} AmongAppend(a: Table, b: Table, vs: set<Value>, keep: bool)
    ensures Among(a + b, vs, keep) == Among(a, vs, keep) + Among(b, vs, keep)
    decreases |b|
  {
    if b == [] {
      assert a + b == a;
    } else {
      var b' := b[..|b| - 1];
      var x := b[|b| - 1];
      assert b == b' + [x] && a + b == (a + b') + [x];
      AmongAppend(a, b', vs, keep);
      AmongSnoc(a + b', x, vs, keep);
      AmongSnoc(b', x, vs, keep);
    }
  }

  lemma AmongSnoc(t: Table, x: Row, vs: set<Value>, keep: bool)
    ensures Among(t + [x], vs, keep) == Among(t, vs, keep) + (if (Get(x, CommunityId) in vs) == keep then [x] else [])
  {
    assert (t + [x])[..|t|] == t;
  }

  lemma AmongSingle(r: Row, vs: set<Value>, keep: bool)
    ensures Among([r], vs, keep) == if (Get(r, CommunityId) in vs) == keep then [r] else []
  {
    assert [r][..0] == [];
  }

  /** Selecting rows none of which qualify gives nothing. */
  lemma {:induction false} AmongNone(t: Table, vs: set<Value>, keep: bool)
    requires forall r :: r in t ==> (Get(r, CommunityId) in vs) != keep
    ensures Among(t, vs, keep) == []
  {
    if t != [] {
      AmongNone(t[..|t| - 1], vs, keep);
    }
  }

  /** Dropping the rows of the communities `ws` does not change the rows of the disjoint communities `vs`. */
  lemma {:induction false} AmongAfterDrop(t: Table, vs: set<Value>, ws: set<Value>)
    requires vs !! ws
    ensures Among(Among(t, ws, false), vs, true) == Among(t, vs, true)
  {
    if t != [] {
      var p := t[..|t| - 1];
      var r := t[|t| - 1];
      AmongAfterDrop(p, vs, ws);
      var tail := if Get(r, CommunityId) !in ws then [r] else [];
      AmongAppend(Among(p, ws, false), tail, vs, true);
      if tail != [] {
        AmongSingle(r, vs, true);
      }
    }
  }

  /** The rows kept and the rows dropped by one selection add up to the table. */
  lemma {:induction false} AmongSizes(t: Table, vs: set<Value>)
    ensures |Among(t, vs, true)| + |Among(t, vs, false)| == |t|
  {
    if t != [] {
      AmongSizes(t[..|t| - 1], vs);
    }
  }
}
