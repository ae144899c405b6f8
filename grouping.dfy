/**
 * Grouping CSV rows by the value of one column, as Ruby's insertion-ordered
 * Hash and `group_by` do: the groups come in the order their keys are first
 * seen, and each group keeps its rows in input order. Both scripts group this
 * way (the duplicate finder on column 9, the pair derivation on column 10).
 *
 * The functions recurse on the last row, so that a prefix of the input
 * extends by one row exactly as a left-to-right loop does.
 */
module Grouping {
  import opened Wrappers
  import opened Csv

  /** The rows whose column `col` holds `k`, in input order. */
  function WithKey(rows: seq<CsvRow>, col: nat, k: Field): (g: seq<CsvRow>)
    ensures |g| <= |rows|
    ensures forall i :: 0 <= i < |g| ==> At(g[i], col) == k
  {
    if rows == [] then []
    else
      var last := rows[|rows| - 1];
      WithKey(rows[..|rows| - 1], col, k) + (if At(last, col) == k then [last] else [])
  }

  /** The distinct values of column `col`, in the order they first occur. */
  function FirstSeenKeys(rows: seq<CsvRow>, col: nat): seq<Field>
  {
    if rows == [] then []
    else
      var ks := FirstSeenKeys(rows[..|rows| - 1], col);
      var k := At(rows[|rows| - 1], col);
      if k in ks then ks else ks + [k]
  }

  ghost predicate Distinct<T>(s: seq<T>)
  {
    forall i, j :: 0 <= i < j < |s| ==> s[i] != s[j]
  }

  /** The position of `k` in `ks`. */
  function IndexOf<T(==)>(ks: seq<T>, k: T): (i: nat)
    requires k in ks
    ensures i < |ks| && ks[i] == k
    ensures forall j :: 0 <= j < i ==> ks[j] != k
  {
    if ks[0] == k then 0 else 1 + IndexOf(ks[1..], k)
  }

  /** Every occurrence of `k2` in column `col` comes after some occurrence of `k1`. */
  ghost predicate SeenBefore(rows: seq<CsvRow>, col: nat, k1: Field, k2: Field)
  {
    forall m :: 0 <= m < |rows| && At(rows[m], col) == k2 ==>
      exists n :: 0 <= n < m && At(rows[n], col) == k1
  }

  /** Sum of the group sizes over the keys `ks`. */
  function SumSizes(rows: seq<CsvRow>, col: nat, ks: seq<Field>): nat
  {
    if ks == [] then 0
    else SumSizes(rows, col, ks[..|ks| - 1]) + |WithKey(rows, col, ks[|ks| - 1])|
  }

  /** Number of times `k` occurs in `ks`. */
  function Occurrences<T(==)>(ks: seq<T>, k: T): nat
  {
    if ks == [] then 0
    else Occurrences(ks[..|ks| - 1], k) + (if ks[|ks| - 1] == k then 1 else 0)
  }

  /** Grouping splits concatenated input into the groups of each part. */
  lemma {:induction false} WithKeyAppend(a: seq<CsvRow>, b: seq<CsvRow>, col: nat, k: Field)
    ensures WithKey(a + b, col, k) == WithKey(a, col, k) + WithKey(b, col, k)
    decreases |b|
  {
    if b == [] {
      assert a + b == a;
    } else {
      var b' := b[..|b| - 1];
      assert (a + b)[..|a + b| - 1] == a + b';
      assert (a + b)[|a + b| - 1] == b[|b| - 1];
      WithKeyAppend(a, b', col, k);
    }
  }

  /** A row is in its own key's group exactly when it is in the input. */
  lemma {:induction false} InWithKey(rows: seq<CsvRow>, col: nat, r: CsvRow)
    ensures r in WithKey(rows, col, At(r, col)) <==> r in rows
  {
    if rows != [] {
      var p := rows[..|rows| - 1];
      InWithKey(p, col, r);
      assert rows == p + [rows[|rows| - 1]];
    }
  }

  /** Regrouping a group by its own key gives it back; by another key gives nothing. */
  lemma {:induction false} WithKeyOfGroup(rows: seq<CsvRow>, col: nat, j: Field, k: Field)
    ensures WithKey(WithKey(rows, col, j), col, k) == if j == k then WithKey(rows, col, j) else []
  {
    if rows != [] {
      var p := rows[..|rows| - 1];
      var last := rows[|rows| - 1];
      WithKeyOfGroup(p, col, j, k);
      var tail := if At(last, col) == j then [last] else [];
      WithKeyAppend(WithKey(p, col, j), tail, col, k);
      if At(last, col) == j {
        assert WithKey(tail, col, k) == WithKey([], col, k) + (if j == k then [last] else []) by {
          assert tail[..|tail| - 1] == [];
        }
      }
    }
  }

  /** The first-seen keys are exactly the keys that occur, each once. */
  lemma {:induction false} FirstSeenKeysSpec(rows: seq<CsvRow>, col: nat)
    ensures Distinct(FirstSeenKeys(rows, col))
    ensures forall k :: k in FirstSeenKeys(rows, col) <==> |WithKey(rows, col, k)| > 0
    ensures forall i :: 0 <= i < |rows| ==> At(rows[i], col) in FirstSeenKeys(rows, col)
  {
    if rows != [] {
      var p := rows[..|rows| - 1];
      FirstSeenKeysSpec(p, col);
      forall i | 0 <= i < |rows|
        ensures At(rows[i], col) in FirstSeenKeys(rows, col)
      {
        if i < |p| {
          assert rows[i] == p[i];
        }
      }
    }
  }

  /** First-seen order: a key listed earlier occurs before every occurrence of a key listed later. */
  lemma {:induction false} FirstSeenOrder(rows: seq<CsvRow>, col: nat, a: nat, b: nat)
    requires a < b < |FirstSeenKeys(rows, col)|
    ensures SeenBefore(rows, col, FirstSeenKeys(rows, col)[a], FirstSeenKeys(rows, col)[b])
  {
    var p := rows[..|rows| - 1];
    var ks := FirstSeenKeys(rows, col);
    var ps := FirstSeenKeys(p, col);
    FirstSeenKeysSpec(p, col);
    assert a < |ps|;
    assert ks[a] == ps[a];
    assert ks[a] in ps;
    assert |WithKey(p, col, ks[a])| > 0;
    var w := WithKey(p, col, ks[a]);
    InWithKey(p, col, w[0]);
    var n0 :| 0 <= n0 < |p| && p[n0] == w[0];
    assert At(rows[n0], col) == ks[a] by { assert rows[n0] == p[n0]; }
    forall m | 0 <= m < |rows| && At(rows[m], col) == ks[b]
      ensures exists n :: 0 <= n < m && At(rows[n], col) == ks[a]
    {
      if m == |p| {
        assert 0 <= n0 < m && At(rows[n0], col) == ks[a];
      } else {
        assert rows[m] == p[m];
        assert ks[b] in ps;
        assert b < |ps|;
        FirstSeenOrder(p, col, a, b);
        assert ks[b] == ps[b];
        var n :| 0 <= n < m && At(p[n], col) == ps[a];
        assert rows[n] == p[n];
      }
    }
  }

  /** Occurrences in the first-seen keys: one for a key that occurs, none otherwise. */
  lemma {:induction false} OccurrencesDistinct<T>(ks: seq<T>, k: T)
    requires Distinct(ks)
    ensures Occurrences(ks, k) == if k in ks then 1 else 0
  {
    if ks != [] {
      var p := ks[..|ks| - 1];
      OccurrencesDistinct(p, k);
      assert ks == p + [ks[|ks| - 1]];
      if ks[|ks| - 1] == k {
        assert k !in p;
      }
    }
  }

  /** Adding a row adds it to the group of each listed copy of its key. */
  lemma {:induction false} SumSizesSnoc(p: seq<CsvRow>, r: CsvRow, col: nat, ks: seq<Field>)
    ensures SumSizes(p + [r], col, ks) == SumSizes(p, col, ks) + Occurrences(ks, At(r, col))
  {
    if ks != [] {
      SumSizesSnoc(p, r, col, ks[..|ks| - 1]);
      assert (p + [r])[..|p + [r]| - 1] == p;
    }
  }

  /** The groups together hold every input row once: their sizes add up to the input length. */
  lemma {:induction false} GroupSizesSum(rows: seq<CsvRow>, col: nat)
    ensures SumSizes(rows, col, FirstSeenKeys(rows, col)) == |rows|
  {
    if rows != [] {
      var p := rows[..|rows| - 1];
      var r := rows[|rows| - 1];
      var k := At(r, col);
      var ps := FirstSeenKeys(p, col);
      assert rows == p + [r];
      GroupSizesSum(p, col);
      FirstSeenKeysSpec(p, col);
      SumSizesSnoc(p, r, col, ps);
      OccurrencesDistinct(ps, k);
      if k !in ps {
        var ks := ps + [k];
        assert ks[..|ks| - 1] == ps;
        assert |WithKey(p, col, k)| == 0;
        assert |WithKey(rows, col, k)| == 1;
      }
    }
  }
}
