/**
 * The write statements the repair script sends, as operations on one table,
 * and the errors that end a run. A WHERE clause that the script builds from
 * a row's column values is modelled as matching that row itself.
 */
module Sql {
  import opened Wrappers
  import opened Records

  /** What makes a run stop: the script rescues every exception at the top level and ends. */
  datatype Error =
    | NoSuchTable(table: string)   // PG::Error from a query on a missing table
    | EmptySetList                 // PG::Error: `UPDATE community SET  WHERE ...`
    | KeyError(column: Column)     // `fetch_values` on a row lacking a column
    | ComparisonFailed             // `max` whose block returned nil
    | NilReceiver                  // `nil['id']` after `max` of no rows

  datatype Statement =
    | DeleteListed(community: int, rows: Table)   // `DELETE ... WHERE community_id = d AND (row1 OR row2 ...)`
    | Repoint(row: Row, from: int, to: int)        // `UPDATE ... SET community_id = to WHERE community_id = from AND row`
    | DeleteCommunity(community: int)              // `DELETE ... WHERE community_id = d`
    | UpdateById(id: int, values: Row)             // `UPDATE ... SET col = val, ... WHERE id = n`
    | DeleteById(id: int)                          // `DELETE ... WHERE id = n`

  /** The rows not deleted by a `DeleteListed`. */
  function WithoutListed(t: Table, d: int, rows: Table): (t': Table)
    ensures forall x :: x in t' <==> x in t && !(InCommunity(x, d) && x in rows)
  {
    if t == [] then []
    else
      var r := t[|t| - 1];
      WithoutListed(t[..|t| - 1], d, rows) + (if InCommunity(r, d) && r in rows then [] else [r])
  }

  /** One row after a `Repoint` of `x`. */
  function RepointOne(r: Row, x: Row, from: int, to: int): Row
  {
    if r == x && InCommunity(r, from) then Repointed(r, to) else r
  }

  function RepointWhere(t: Table, x: Row, from: int, to: int): (t': Table)
    ensures |t'| == |t|
  {
    if t == [] then []
    else RepointWhere(t[..|t| - 1], x, from, to) + [RepointOne(t[|t| - 1], x, from, to)]
  }

  /** The rows not deleted by a `DeleteById`. */
  function WithoutId(t: Table, n: int): (t': Table)
    ensures forall x :: x in t' <==> x in t && !HasId(x, n)
  {
    if t == [] then []
    else
      var r := t[|t| - 1];
      WithoutId(t[..|t| - 1], n) + (if HasId(r, n) then [] else [r])
  }

  /** Each row with id `n` takes the listed values; the others are left alone. */
  function UpdateWhereId(t: Table, n: int, values: Row): (t': Table)
    ensures |t'| == |t|
  {
    seq(|t|, i requires 0 <= i < |t| => if HasId(t[i], n) then t[i] + values else t[i])
  }

  /** After an UPDATE by id, the rows are the rows with id `n` carrying the listed values and the other rows as they were. */
  lemma UpdateWhereIdMembers(t: Table, n: int, values: Row)
    ensures forall x :: x in UpdateWhereId(t, n, values) <==>
      (exists y :: y in t && HasId(y, n) && x == y + values) || (x in t && !HasId(x, n))
  {
    var t' := UpdateWhereId(t, n, values);
    forall x | x in t'
      ensures (exists y :: y in t && HasId(y, n) && x == y + values) || (x in t && !HasId(x, n))
    {
      var i :| 0 <= i < |t'| && t'[i] == x;
      if HasId(t[i], n) {
        assert t[i] in t && x == t[i] + values;
      } else {
        assert x == t[i];
      }
    }
    forall x | (exists y :: y in t && HasId(y, n) && x == y + values) || (x in t && !HasId(x, n))
      ensures x in t'
    {
      if x in t && !HasId(x, n) {
        var i :| 0 <= i < |t| && t[i] == x;
        assert t'[i] == x;
      } else {
        var y :| y in t && HasId(y, n) && x == y + values;
        var i :| 0 <= i < |t| && t[i] == y;
        assert t'[i] == x;
      }
    }
  }

  function Apply(t: Table, st: Statement): Table
  {
    match st
    case DeleteListed(d, rows) => WithoutListed(t, d, rows)
    case Repoint(x, from, to) => RepointWhere(t, x, from, to)
    case DeleteCommunity(d) => Among(t, {Int(d)}, false)
    case UpdateById(n, values) => UpdateWhereId(t, n, values)
    case DeleteById(n) => WithoutId(t, n)
  }

  /** The statements run one after the other. */
  function ApplyAll(t: Table, sts: seq<Statement>): Table
  {
    if sts == [] then t else Apply(ApplyAll(t, sts[..|sts| - 1]), sts[|sts| - 1])
  }

  lemma {:induction false} RepointAppend(a: Table, b: Table, x: Row, from: int, to: int)
    ensures RepointWhere(a + b, x, from, to) == RepointWhere(a, x, from, to) + RepointWhere(b, x, from, to)
    decreases |b|
  {
    if b == [] {
      assert a + b == a;
    } else {
      var b' := b[..|b| - 1];
      assert (a + b)[..|a + b| - 1] == a + b';
      assert (a + b)[|a + b| - 1] == b[|b| - 1];
      RepointAppend(a, b', x, from, to);
    }
  }

  lemma RepointSingle(r: Row, x: Row, from: int, to: int)
    ensures RepointWhere([r], x, from, to) == [RepointOne(r, x, from, to)]
  {
    assert [r][..0] == [];
  }

  /** A `Repoint` changes only the rows equal to `x` in community `from`, and moves each of them to `to`. */
  lemma {:induction false} RepointWhereRows(t: Table, x: Row, from: int, to: int)
    ensures forall i :: 0 <= i < |t| ==>
      (RepointWhere(t, x, from, to)[i] == (if t[i] == x && InCommunity(t[i], from) then Repointed(t[i], to) else t[i]))
  {
    if t != [] {
      RepointWhereRows(t[..|t| - 1], x, from, to);
    }
  }

  /** The first n statements are the first n - 1 followed by the n-th. */
  lemma ApplyAllPrefix(t: Table, sts: seq<Statement>, n: nat)
    requires 0 < n <= |sts|
    ensures ApplyAll(t, sts[..n]) == Apply(ApplyAll(t, sts[..n - 1]), sts[n - 1])
  {
    assert sts[..n][..n - 1] == sts[..n - 1];
  }

  lemma {:induction false} ApplyAllAppend(t: Table, a: seq<Statement>, b: seq<Statement>)
    ensures ApplyAll(t, a + b) == ApplyAll(ApplyAll(t, a), b)
    decreases |b|
  {
    if b == [] {
      assert a + b == a;
    } else {
      var b' := b[..|b| - 1];
      assert (a + b)[..|a + b| - 1] == a + b';
      assert (a + b)[|a + b| - 1] == b[|b| - 1];
      ApplyAllAppend(t, a, b');
    }
  }
}
