/**
 * The decision logic of `compare_and_merge_records` and
 * `delete_records_from_duplicate_id` (fix-duplicate-communities.rb, lines
 * 65-170), on values: how the rows of the duplicate community are split into
 * `duplicates` and `unique_rows`, and what deleting the first and re-pointing
 * the second does to the table.
 */
module Merge {
  import opened Wrappers
  import opened Records
  import opened Sql

  /**
   * The comparison key of a row: without `unique_on`, the row less its `id`
   * and `community_id` (lines 82-83); with it, the values of those columns.
   * Rows of one table share one column list, so comparing the remaining
   * columns as a map is comparing `.values` as Ruby does.
   */
  datatype Key = Content(m: Row) | Values(vs: seq<Value>)

  /** `row.except('community_id').except('id')`. */
  function ContentKey(r: Row): map<Column, Value>
  {
    r - {Id, CommunityId}
  }

  /** `row.fetch_values(*cols)`: the values in order, or the KeyError of the first missing column. */
  function FetchValues(r: Row, cols: seq<Column>): (res: Result<seq<Value>, Column>)
    ensures res.Ok? <==> forall i :: 0 <= i < |cols| ==> cols[i] in r
    ensures res.Ok? ==> |res.value| == |cols| && forall i :: 0 <= i < |cols| ==> res.value[i] == r[cols[i]]
    ensures res.Err? ==> res.error in cols && res.error !in r
  {
    if cols == [] then Ok([])
    else if cols[0] !in r then Err(cols[0])
    else
      match FetchValues(r, cols[1..])
      case Err(c) => Err(c)
      case Ok(vs) => Ok([r[cols[0]]] + vs)
  }

  function KeyOf(r: Row, uniqueOn: Option<seq<Column>>): Result<Key, Column>
  {
    match uniqueOn
    case None => Ok(Content(ContentKey(r)))
    case Some(cols) =>
      match FetchValues(r, cols)
      case Err(c) => Err(c)
      case Ok(vs) => Ok(Values(vs))
  }

  /** `rows_id1.map { ... }`: the keys of the original community's rows, or the first KeyError. */
  function Keys(rows: Table, uniqueOn: Option<seq<Column>>): Result<seq<Key>, Column>
  {
    if rows == [] then Ok([])
    else
      match Keys(rows[..|rows| - 1], uniqueOn)
      case Err(c) => Err(c)
      case Ok(ks) =>
        match KeyOf(rows[|rows| - 1], uniqueOn)
        case Err(c) => Err(c)
        case Ok(k) => Ok(ks + [k])
  }

  /** The row's key is among `keys1` (`id1_keys.include?` / `one.include?`). */
  predicate Matches(r: Row, keys1: seq<Key>, uniqueOn: Option<seq<Column>>)
  {
    KeyOf(r, uniqueOn).Ok? && KeyOf(r, uniqueOn).value in keys1
  }

  /** The two lists `compare_and_merge_records` builds from the duplicate community's rows. */
  datatype Split = Split(duplicates: Table, uniqueRows: Table)

  /** `rows_id2.select { ... }` and `rows_id2.reject { ... }` (lines 86-103). */
  function Classify(rows2: Table, keys1: seq<Key>, uniqueOn: Option<seq<Column>>): Result<Split, Column>
  {
    if rows2 == [] then Ok(Split([], []))
    else
      var r := rows2[|rows2| - 1];
      match Classify(rows2[..|rows2| - 1], keys1, uniqueOn)
      case Err(c) => Err(c)
      case Ok(sp) =>
        match KeyOf(r, uniqueOn)
        case Err(c) => Err(c)
        case Ok(k) =>
          if k in keys1 then Ok(Split(sp.duplicates + [r], sp.uniqueRows))
          else Ok(Split(sp.duplicates, sp.uniqueRows + [r]))
  }

  /** The split of lines 82-103: keys of `rows_id1` first, then the rows of `rows_id2` one by one. */
  function SplitRows(rows1: Table, rows2: Table, uniqueOn: Option<seq<Column>>): Result<Split, Column>
  {
    match Keys(rows1, uniqueOn)
    case Err(c) => Err(c)
    case Ok(keys1) => Classify(rows2, keys1, uniqueOn)
  }

  /** Two rows agree on the comparison columns. */
  ghost predicate SameKey(r1: Row, r2: Row, uniqueOn: Option<seq<Column>>)
  {
    match uniqueOn
    case None => ContentKey(r1) == ContentKey(r2)
    case Some(cols) => forall i :: 0 <= i < |cols| ==> cols[i] in r1 && cols[i] in r2 && r1[cols[i]] == r2[cols[i]]
  }

  /** Some column of `unique_on` is missing from the row, so `fetch_values` raises. */
  ghost predicate LacksColumn(r: Row, uniqueOn: Option<seq<Column>>)
  {
    uniqueOn.Some? && exists i :: 0 <= i < |uniqueOn.value| && uniqueOn.value[i] !in r
  }

  /** `s` is `t` with some elements left out, the rest in their order. */
  ghost predicate IsSubsequence(s: Table, t: Table)
    decreases |t|
  {
    if s == [] then true
    else if t == [] then false
    else if s[|s| - 1] == t[|t| - 1] then IsSubsequence(s[..|s| - 1], t[..|t| - 1])
    else IsSubsequence(s, t[..|t| - 1])
  }

  /** What the table looks like after the merge: each row of the duplicate community is dropped or re-pointed. */
  function MergeRow(r: Row, originalId: int, duplicateId: int, keys1: seq<Key>, uniqueOn: Option<seq<Column>>): Table
  {
    if !InCommunity(r, duplicateId) then [r]
    else if Matches(r, keys1, uniqueOn) then []
    else [Repointed(r, originalId)]
  }

  function MergedTable(t: Table, originalId: int, duplicateId: int, keys1: seq<Key>, uniqueOn: Option<seq<Column>>): Table
  {
    if t == [] then []
    else
      var m := MergedTable(t[..|t| - 1], originalId, duplicateId, keys1, uniqueOn);
      m + MergeRow(t[|t| - 1], originalId, duplicateId, keys1, uniqueOn)
  }

  /** `delete_records_from_duplicate_id` on a table: `DELETE ... WHERE community_id = '<dup>'`. */
  function WithoutCommunity(t: Table, duplicateId: int): Table
  {
    Among(t, {Int(duplicateId)}, false)
  }

  // ---------------------------------------------------------------------------
  // The split

  lemma {:induction false} FetchValuesAgree(r1: Row, r2: Row, cols: seq<Column>)
    requires FetchValues(r1, cols).Ok? && FetchValues(r2, cols).Ok?
    ensures FetchValues(r1, cols) == FetchValues(r2, cols) <==>
      forall i :: 0 <= i < |cols| ==> r1[cols[i]] == r2[cols[i]]
  {
    var v1 := FetchValues(r1, cols).value;
    var v2 := FetchValues(r2, cols).value;
    if forall i :: 0 <= i < |cols| ==> r1[cols[i]] == r2[cols[i]] {
      assert v1 == v2;
    }
  }

  /** Equal keys mean agreement on the key columns, for both kinds of key. */
  lemma SameKeyIff(r1: Row, r2: Row, uniqueOn: Option<seq<Column>>)
    requires KeyOf(r1, uniqueOn).Ok? && KeyOf(r2, uniqueOn).Ok?
    ensures KeyOf(r1, uniqueOn) == KeyOf(r2, uniqueOn) <==> SameKey(r1, r2, uniqueOn)
  {
    if uniqueOn.Some? {
      FetchValuesAgree(r1, r2, uniqueOn.value);
    }
  }

  /** The keys of `rows_id1` are one per row, in order; they fail only for a row lacking a column. */
  lemma {:induction false} KeysSpec(rows: Table, uniqueOn: Option<seq<Column>>)
    ensures Keys(rows, uniqueOn).Err? <==> exists r :: r in rows && LacksColumn(r, uniqueOn)
    ensures Keys(rows, uniqueOn).Ok? ==>
      |Keys(rows, uniqueOn).value| == |rows| &&
      forall i :: 0 <= i < |rows| ==> KeyOf(rows[i], uniqueOn) == Ok(Keys(rows, uniqueOn).value[i])
  {
    if rows != [] {
      var p := rows[..|rows| - 1];
      var r := rows[|rows| - 1];
      KeysSpec(p, uniqueOn);
      LacksColumnIffKeyFails(r, uniqueOn);
      assert rows == p + [r];
      if Keys(p, uniqueOn).Err? {
        var x :| x in p && LacksColumn(x, uniqueOn);
        assert x in rows;
      } else if KeyOf(r, uniqueOn).Err? {
        assert r in rows;
      } else {
        forall x | x in rows
          ensures !LacksColumn(x, uniqueOn)
        {
          assert x in p || x == r;
        }
      }
    }
  }

  lemma LacksColumnIffKeyFails(r: Row, uniqueOn: Option<seq<Column>>)
    ensures KeyOf(r, uniqueOn).Err? <==> LacksColumn(r, uniqueOn)
  {
  }

  /**
   * A row of the duplicate community is in `duplicates` exactly when some row
   * of the original community agrees with it on the key columns.
   */
  lemma MatchesIff(rows1: Table, r2: Row, uniqueOn: Option<seq<Column>>)
    requires Keys(rows1, uniqueOn).Ok? && KeyOf(r2, uniqueOn).Ok?
    ensures Matches(r2, Keys(rows1, uniqueOn).value, uniqueOn) <==>
      exists r1 :: r1 in rows1 && SameKey(r1, r2, uniqueOn)
  {
    var keys1 := Keys(rows1, uniqueOn).value;
    KeysSpec(rows1, uniqueOn);
    if Matches(r2, keys1, uniqueOn) {
      var i :| 0 <= i < |keys1| && keys1[i] == KeyOf(r2, uniqueOn).value;
      SameKeyIff(rows1[i], r2, uniqueOn);
    }
    if exists r1 :: r1 in rows1 && SameKey(r1, r2, uniqueOn) {
      var r1 :| r1 in rows1 && SameKey(r1, r2, uniqueOn);
      var i :| 0 <= i < |rows1| && rows1[i] == r1;
      SameKeyIff(r1, r2, uniqueOn);
      assert keys1[i] == KeyOf(r2, uniqueOn).value;
    }
  }

  /** The rows of `s` that match a key: `duplicates`. */
  function Matched(s: Table, keys1: seq<Key>, u: Option<seq<Column>>): Table
  {
    if s == [] then []
    else Matched(s[..|s| - 1], keys1, u) + (if Matches(s[|s| - 1], keys1, u) then [s[|s| - 1]] else [])
  }

  /** The rows of `s` that match no key: `unique_rows`. */
  function Unmatched(s: Table, keys1: seq<Key>, u: Option<seq<Column>>): Table
  {
    if s == [] then []
    else Unmatched(s[..|s| - 1], keys1, u) + (if Matches(s[|s| - 1], keys1, u) then [] else [s[|s| - 1]])
  }

  lemma {:induction false} ClassifyMatched(rows2: Table, keys1: seq<Key>, u: Option<seq<Column>>)
    requires Classify(rows2, keys1, u).Ok?
    ensures Classify(rows2, keys1, u).value == Split(Matched(rows2, keys1, u), Unmatched(rows2, keys1, u))
  {
    if rows2 != [] {
      ClassifyMatched(rows2[..|rows2| - 1], keys1, u);
    }
  }

  /**
   * `duplicates` and `unique_rows` partition the rows: every row lands in
   * exactly one of them, by whether it matches.
   */
  lemma {:induction false} MatchedMembers(s: Table, keys1: seq<Key>, u: Option<seq<Column>>, x: Row)
    ensures x in Matched(s, keys1, u) <==> x in s && Matches(x, keys1, u)
    ensures x in Unmatched(s, keys1, u) <==> x in s && !Matches(x, keys1, u)
  {
    if s != [] {
      var p := s[..|s| - 1];
      MatchedMembers(p, keys1, u, x);
      assert s == p + [s[|s| - 1]];
    }
  }

  /** Together the two lists hold each row of `s` exactly as often as `s` does. */
  lemma {:induction false} MatchedCounts(s: Table, keys1: seq<Key>, u: Option<seq<Column>>)
    ensures |Matched(s, keys1, u)| + |Unmatched(s, keys1, u)| == |s|
    ensures multiset(Matched(s, keys1, u)) + multiset(Unmatched(s, keys1, u)) == multiset(s)
  {
    if s != [] {
      var p := s[..|s| - 1];
      MatchedCounts(p, keys1, u);
      MatchedCountsStep(p, s[|s| - 1], keys1, u);
      assert s == p + [s[|s| - 1]];
    }
  }

  lemma MatchedCountsStep(p: Table, x: Row, keys1: seq<Key>, u: Option<seq<Column>>)
    requires |Matched(p, keys1, u)| + |Unmatched(p, keys1, u)| == |p|
    requires multiset(Matched(p, keys1, u)) + multiset(Unmatched(p, keys1, u)) == multiset(p)
    ensures |Matched(p + [x], keys1, u)| + |Unmatched(p + [x], keys1, u)| == |p + [x]|
    ensures multiset(Matched(p + [x], keys1, u)) + multiset(Unmatched(p + [x], keys1, u)) == multiset(p + [x])
  {
    MatchedSnoc(p, x, keys1, u);
    var m := Matched(p, keys1, u);
    var n := Unmatched(p, keys1, u);
    if Matches(x, keys1, u) {
      assert multiset(m + [x]) == multiset(m) + multiset{x};
    } else {
      assert multiset(n + [x]) == multiset(n) + multiset{x};
    }
    assert multiset(p + [x]) == multiset(p) + multiset{x};
  }

  /** One more row goes to `duplicates` when it matches and to `unique_rows` when it does not. */
  lemma MatchedSnoc(p: Table, x: Row, keys1: seq<Key>, u: Option<seq<Column>>)
    ensures Matched(p + [x], keys1, u) == Matched(p, keys1, u) + (if Matches(x, keys1, u) then [x] else [])
    ensures Unmatched(p + [x], keys1, u) == Unmatched(p, keys1, u) + (if Matches(x, keys1, u) then [] else [x])
  {
    assert (p + [x])[..|p|] == p;
  }

  /** `duplicates` keeps the order of `s`. */
  lemma {:induction false} MatchedKeepsOrder(s: Table, keys1: seq<Key>, u: Option<seq<Column>>)
    ensures IsSubsequence(Matched(s, keys1, u), s)
  {
    if s != [] {
      var p := s[..|s| - 1];
      var x := s[|s| - 1];
      MatchedKeepsOrder(p, keys1, u);
      assert p + [x] == s;
      var m := Matched(p, keys1, u);
      if Matches(x, keys1, u) {
        assert Matched(s, keys1, u) == m + [x];
        assert (m + [x])[..|m|] == m;
      } else {
        assert Matched(s, keys1, u) == m;
        SubsequenceExtend(m, p, x);
      }
    }
  }

  /** `unique_rows` keeps the order of `s`. */
  lemma {:induction false} UnmatchedKeepsOrder(s: Table, keys1: seq<Key>, u: Option<seq<Column>>)
    ensures IsSubsequence(Unmatched(s, keys1, u), s)
  {
    if s != [] {
      var p := s[..|s| - 1];
      var x := s[|s| - 1];
      UnmatchedKeepsOrder(p, keys1, u);
      assert p + [x] == s;
      var n := Unmatched(p, keys1, u);
      if Matches(x, keys1, u) {
        assert Unmatched(s, keys1, u) == n;
        SubsequenceExtend(n, p, x);
      } else {
        assert Unmatched(s, keys1, u) == n + [x];
        assert (n + [x])[..|n|] == n;
      }
    }
  }

  lemma {:induction false} SubsequenceExtend(s: Table, t: Table, x: Row)
    requires IsSubsequence(s, t)
    ensures IsSubsequence(s, t + [x])
    decreases |t|, 1
  {
    var t' := t + [x];
    assert t'[..|t'| - 1] == t;
    if s != [] && s[|s| - 1] == x {
      SubsequenceShorter(s, t);
    }
  }

  lemma {:induction false} SubsequenceShorter(s: Table, t: Table)
    requires s != [] && IsSubsequence(s, t)
    ensures IsSubsequence(s[..|s| - 1], t)
    decreases |t|, 0
  {
    var t' := t[..|t| - 1];
    assert t' + [t[|t| - 1]] == t;
    if s[|s| - 1] != t[|t| - 1] {
      SubsequenceShorter(s, t');
    }
    SubsequenceExtend(s[..|s| - 1], t', t[|t| - 1]);
  }

  /** With `unique_on`, classifying raises exactly when some row of the duplicate community lacks one of its columns. */
  lemma {:induction false} ClassifyFails(rows2: Table, keys1: seq<Key>, uniqueOn: Option<seq<Column>>)
    ensures Classify(rows2, keys1, uniqueOn).Err? <==> exists r :: r in rows2 && LacksColumn(r, uniqueOn)
  {
    if rows2 != [] {
      var p := rows2[..|rows2| - 1];
      var r := rows2[|rows2| - 1];
      ClassifyFails(p, keys1, uniqueOn);
      LacksColumnIffKeyFails(r, uniqueOn);
      assert rows2 == p + [r];
      if Classify(p, keys1, uniqueOn).Err? {
        var x :| x in p && LacksColumn(x, uniqueOn);
        assert x in rows2;
      } else if KeyOf(r, uniqueOn).Err? {
        assert r in rows2;
      } else {
        forall x | x in rows2
          ensures !LacksColumn(x, uniqueOn)
        {
          assert x in p || x == r;
        }
      }
    }
  }

  lemma SplitFails(rows1: Table, rows2: Table, uniqueOn: Option<seq<Column>>)
    ensures SplitRows(rows1, rows2, uniqueOn).Err? <==>
      exists r :: (r in rows1 || r in rows2) && LacksColumn(r, uniqueOn)
  {
    KeysSpec(rows1, uniqueOn);
    if Keys(rows1, uniqueOn).Ok? {
      ClassifyFails(rows2, Keys(rows1, uniqueOn).value, uniqueOn);
    }
  }

  // ---------------------------------------------------------------------------
  // The effect on the table

  lemma {:induction false} MergedTableAppend(a: Table, b: Table, o: int, d: int, keys1: seq<Key>, u: Option<seq<Column>>)
    ensures MergedTable(a + b, o, d, keys1, u) == MergedTable(a, o, d, keys1, u) + MergedTable(b, o, d, keys1, u)
    decreases |b|
  {
    if b == [] {
      assert a + b == a;
    } else {
      var b' := b[..|b| - 1];
      assert (a + b)[..|a + b| - 1] == a + b';
      assert (a + b)[|a + b| - 1] == b[|b| - 1];
      MergedTableAppend(a, b', o, d, keys1, u);
    }
  }

  /** Rows of every community other than the two, and rows of no community, are left exactly as they were. */
  lemma {:induction false} MergeLeavesOthers(t: Table, o: int, d: int, keys1: seq<Key>, u: Option<seq<Column>>)
    ensures Outside(MergedTable(t, o, d, keys1, u), o, d) == Outside(t, o, d)
  {
    if t != [] {
      var p := t[..|t| - 1];
      MergeLeavesOthers(p, o, d, keys1, u);
      MergeLeavesOthersStep(p, t[|t| - 1], o, d, keys1, u);
      assert t == p + [t[|t| - 1]];
    }
  }

  lemma MergeLeavesOthersStep(p: Table, r: Row, o: int, d: int, keys1: seq<Key>, u: Option<seq<Column>>)
    requires Outside(MergedTable(p, o, d, keys1, u), o, d) == Outside(p, o, d)
    ensures Outside(MergedTable(p + [r], o, d, keys1, u), o, d) == Outside(p + [r], o, d)
  {
    var vs := {Int(o), Int(d)};
    var mp := MergedTable(p, o, d, keys1, u);
    var mr := MergeRow(r, o, d, keys1, u);
    assert (p + [r])[..|p|] == p;
    assert MergedTable(p + [r], o, d, keys1, u) == mp + mr;
    AmongAppend(mp, mr, vs, false);
    AmongAppend(p, [r], vs, false);
    MergeRowOutside(r, o, d, keys1, u);
  }

  /** One row's part of the merged table has the same rows outside the two communities as the row itself. */
  lemma MergeRowOutside(r: Row, o: int, d: int, keys1: seq<Key>, u: Option<seq<Column>>)
    ensures Among(MergeRow(r, o, d, keys1, u), {Int(o), Int(d)}, false) == Among([r], {Int(o), Int(d)}, false)
  {
    var vs := {Int(o), Int(d)};
    var mr := MergeRow(r, o, d, keys1, u);
    AmongSingle(r, vs, false);
    if mr != [] {
      assert mr == [mr[0]];
      AmongSingle(mr[0], vs, false);
    }
  }

  /**
   * Every row after the merge is either a row that was not in the duplicate
   * community, unchanged, or a row of the duplicate community that matched
   * nothing, re-pointed to the original community; and each of those is there.
   */
  lemma {:induction false} MergedRows(t: Table, o: int, d: int, keys1: seq<Key>, u: Option<seq<Column>>, x: Row)
    ensures x in MergedTable(t, o, d, keys1, u) <==>
      (x in t && !InCommunity(x, d)) ||
      (exists r :: r in t && InCommunity(r, d) && !Matches(r, keys1, u) && x == Repointed(r, o))
  {
    if t != [] {
      var p := t[..|t| - 1];
      var r := t[|t| - 1];
      MergedRows(p, o, d, keys1, u, x);
      assert t == p + [r];
      assert forall y :: y in t <==> y in p || y == r;
    }
  }

  /** When the two ids differ, no row is left in the duplicate community. */
  lemma MergeEmptiesDuplicate(t: Table, o: int, d: int, keys1: seq<Key>, u: Option<seq<Column>>)
    requires o != d
    ensures RowsOf(MergedTable(t, o, d, keys1, u), d) == []
  {
    var m := MergedTable(t, o, d, keys1, u);
    forall x | x in m
      ensures !InCommunity(x, d)
    {
      MergedRows(t, o, d, keys1, u, x);
    }
    AmongNone(m, {Int(d)}, true);
  }

  /**
   * When the two ids differ, the original community ends with its own rows
   * plus one row for each unmatched row of the duplicate community.
   */
  lemma {:induction false} MergeGrowsOriginal(t: Table, o: int, d: int, keys1: seq<Key>, u: Option<seq<Column>>)
    requires o != d
    ensures |RowsOf(MergedTable(t, o, d, keys1, u), o)| == |RowsOf(t, o)| + |Unmatched(RowsOf(t, d), keys1, u)|
  {
    if t != [] {
      var p := t[..|t| - 1];
      var r := t[|t| - 1];
      MergeGrowsOriginal(p, o, d, keys1, u);
      var mp := MergedTable(p, o, d, keys1, u);
      var mr := MergeRow(r, o, d, keys1, u);
      AmongAppend(mp, mr, {Int(o)}, true);
      var rd := RowsOf(p, d);
      if InCommunity(r, d) {
        assert RowsOf(t, d) == rd + [r];
        assert (rd + [r])[..|rd + [r]| - 1] == rd;
        assert RowsOf(t, o) == RowsOf(p, o);
        if Matches(r, keys1, u) {
          assert mr == [];
          assert mp + mr == mp;
        } else {
          AmongSingle(Repointed(r, o), {Int(o)}, true);
        }
      } else {
        assert RowsOf(t, d) == rd;
        AmongSingle(r, {Int(o)}, true);
      }
    }
  }

  /** The merge removes exactly the matched rows of the duplicate community. */
  lemma {:induction false} MergeSize(t: Table, o: int, d: int, keys1: seq<Key>, u: Option<seq<Column>>)
    ensures |MergedTable(t, o, d, keys1, u)| == |t| - |Matched(RowsOf(t, d), keys1, u)|
  {
    if t != [] {
      var p := t[..|t| - 1];
      var r := t[|t| - 1];
      MergeSize(p, o, d, keys1, u);
      var rd := RowsOf(p, d);
      if InCommunity(r, d) {
        assert RowsOf(t, d) == rd + [r];
        assert (rd + [r])[..|rd + [r]| - 1] == rd;
      } else {
        assert RowsOf(t, d) == rd;
      }
    }
  }

  /** Aggregate cleanup removes the duplicate community's rows and keeps every other community's rows, in order. */
  lemma WithoutCommunitySpec(t: Table, d: int, c: int)
    requires c != d
    ensures RowsOf(WithoutCommunity(t, d), d) == []
    ensures RowsOf(WithoutCommunity(t, d), c) == RowsOf(t, c)
    ensures |WithoutCommunity(t, d)| == |t| - |RowsOf(t, d)|
  {
    AmongNone(WithoutCommunity(t, d), {Int(d)}, true);
    AmongAfterDrop(t, {Int(c)}, {Int(d)});
    AmongSizes(t, {Int(d)});
  }

  // ---------------------------------------------------------------------------
  // The statements the merge sends

  /**
   * Lines 106-147: one DELETE naming every row of `duplicates`, when there is
   * one, then one UPDATE per row of `unique_rows`, in order.
   */
  function MergeStatements(originalId: int, duplicateId: int, sp: Split): seq<Statement>
  {
    (if |sp.duplicates| > 0 then [DeleteListed(duplicateId, sp.duplicates)] else [])
      + Repoints(sp.uniqueRows, duplicateId, originalId)
  }

  /** One UPDATE per row, in order (lines 130-146). */
  function Repoints(rows: Table, from: int, to: int): seq<Statement>
  {
    seq(|rows|, i requires 0 <= i < |rows| => Repoint(rows[i], from, to))
  }

  /**
   * No DELETE is sent for an empty `duplicates`; otherwise the DELETE comes
   * first and lists `duplicates`. Then the i-th UPDATE re-points the i-th row
   * of `unique_rows` from the duplicate to the original community.
   */
  lemma MergeStatementsShape(o: int, d: int, sp: Split)
    ensures |MergeStatements(o, d, sp)| == (if |sp.duplicates| > 0 then 1 else 0) + |sp.uniqueRows|
    ensures |sp.duplicates| > 0 ==> MergeStatements(o, d, sp)[0] == DeleteListed(d, sp.duplicates)
    ensures forall i :: 0 <= i < |sp.uniqueRows| ==>
      MergeStatements(o, d, sp)[(if |sp.duplicates| > 0 then 1 else 0) + i] == Repoint(sp.uniqueRows[i], d, o)
    ensures (exists i :: 0 <= i < |MergeStatements(o, d, sp)| && MergeStatements(o, d, sp)[i].DeleteListed?) <==> |sp.duplicates| > 0
    ensures forall i :: 0 <= i < |MergeStatements(o, d, sp)| && MergeStatements(o, d, sp)[i].Repoint? ==>
      MergeStatements(o, d, sp)[i].from == d && MergeStatements(o, d, sp)[i].to == o
    ensures forall i :: 0 <= i < |MergeStatements(o, d, sp)| && MergeStatements(o, d, sp)[i].DeleteListed? ==>
      MergeStatements(o, d, sp)[i].community == d
  {
    var sts := MergeStatements(o, d, sp);
    if |sp.duplicates| > 0 {
      assert sts[0].DeleteListed?;
    }
    forall i | 0 <= i < |sp.uniqueRows|
      ensures sts[(if |sp.duplicates| > 0 then 1 else 0) + i] == Repoint(sp.uniqueRows[i], d, o)
    {
      MergeStatementAt(o, d, sp, i + 1);
    }
  }

  /** The set of rows of a sequence. */
  function Elems(s: Table): set<Row>
  {
    set x | x in s
  }

  /**
   * One row part-way through the merge: matched rows of the duplicate community
   * are gone, and those of its unmatched rows that are in `done` are re-pointed.
   */
  function StageRow(r: Row, o: int, d: int, keys1: seq<Key>, u: Option<seq<Column>>, done: set<Row>): Table
  {
    if !InCommunity(r, d) then [r]
    else if Matches(r, keys1, u) then []
    else if r in done then [Repointed(r, o)]
    else [r]
  }

  function Staged(t: Table, o: int, d: int, keys1: seq<Key>, u: Option<seq<Column>>, done: set<Row>): Table
  {
    if t == [] then []
    else
      var m := Staged(t[..|t| - 1], o, d, keys1, u, done);
      m + StageRow(t[|t| - 1], o, d, keys1, u, done)
  }

  lemma RepointedSame(r: Row, c: int)
    requires InCommunity(r, c)
    ensures Repointed(r, c) == r
  {
    assert r[CommunityId] == Int(c);
  }

  /** The DELETE of `duplicates` leaves the table at the first stage. */
  lemma {:induction false} DeleteStaged(t: Table, o: int, d: int, keys1: seq<Key>, u: Option<seq<Column>>, dups: Table)
    requires forall x :: x in t && InCommunity(x, d) ==> (x in dups <==> Matches(x, keys1, u))
    ensures WithoutListed(t, d, dups) == Staged(t, o, d, keys1, u, {})
  {
    if t != [] {
      var p := t[..|t| - 1];
      assert forall x :: x in p ==> x in t;
      DeleteStaged(p, o, d, keys1, u, dups);
    }
  }

  /** Each UPDATE of an unmatched row moves the table one stage on. */
  lemma {:induction false} RepointStaged(t: Table, o: int, d: int, keys1: seq<Key>, u: Option<seq<Column>>, done: set<Row>, x: Row)
    requires InCommunity(x, d) && !Matches(x, keys1, u)
    ensures RepointWhere(Staged(t, o, d, keys1, u, done), x, d, o) == Staged(t, o, d, keys1, u, done + {x})
  {
    if t != [] {
      var p := t[..|t| - 1];
      var r := t[|t| - 1];
      RepointStaged(p, o, d, keys1, u, done, x);
      RepointAppend(Staged(p, o, d, keys1, u, done), StageRow(r, o, d, keys1, u, done), x, d, o);
      StageRowRepoint(r, o, d, keys1, u, done, x);
    }
  }

  /** The UPDATE of an unmatched row `x` moves one row of the table one stage on. */
  lemma StageRowRepoint(r: Row, o: int, d: int, keys1: seq<Key>, u: Option<seq<Column>>, done: set<Row>, x: Row)
    requires InCommunity(x, d) && !Matches(x, keys1, u)
    ensures RepointWhere(StageRow(r, o, d, keys1, u, done), x, d, o) == StageRow(r, o, d, keys1, u, done + {x})
  {
    if !InCommunity(r, d) {
      RepointSingle(r, x, d, o);
    } else if Matches(r, keys1, u) {
    } else if r in done {
      RepointSingle(Repointed(r, o), x, d, o);
      RepointedSame(Repointed(r, o), o);
    } else {
      RepointSingle(r, x, d, o);
      assert r in done + {x} <==> r == x;
    }
  }

  /** Once every unmatched row has been updated, the table is the merged table. */
  lemma {:induction false} StagedComplete(t: Table, o: int, d: int, keys1: seq<Key>, u: Option<seq<Column>>, done: set<Row>)
    requires forall x :: x in t && InCommunity(x, d) && !Matches(x, keys1, u) ==> x in done
    ensures Staged(t, o, d, keys1, u, done) == MergedTable(t, o, d, keys1, u)
  {
    if t != [] {
      var p := t[..|t| - 1];
      assert forall x :: x in p ==> x in t;
      StagedComplete(p, o, d, keys1, u, done);
    }
  }

  /** The statements of `unique_rows[..k]`, run after the DELETE, update exactly those rows. */
  lemma {:induction false} RepointsStaged(t: Table, o: int, d: int, keys1: seq<Key>, u: Option<seq<Column>>, sp: Split, k: nat)
    requires forall x :: x in t && InCommunity(x, d) ==> (x in sp.duplicates <==> Matches(x, keys1, u))
    requires forall x :: x in sp.uniqueRows ==> InCommunity(x, d) && !Matches(x, keys1, u)
    requires k <= |sp.uniqueRows|
    ensures var del := if |sp.duplicates| > 0 then 1 else 0;
      ApplyAll(t, MergeStatements(o, d, sp)[..del + k]) == Staged(t, o, d, keys1, u, Elems(sp.uniqueRows[..k]))
  {
    if k == 0 {
      DeleteFirst(t, o, d, keys1, u, sp);
    } else {
      RepointsStaged(t, o, d, keys1, u, sp, k - 1);
      RepointNext(t, o, d, keys1, u, sp, k);
    }
  }

  /** The DELETE, or nothing when `duplicates` is empty, leaves the table at the first stage. */
  lemma DeleteFirst(t: Table, o: int, d: int, keys1: seq<Key>, u: Option<seq<Column>>, sp: Split)
    requires forall x :: x in t && InCommunity(x, d) ==> (x in sp.duplicates <==> Matches(x, keys1, u))
    requires forall x :: x in sp.uniqueRows ==> InCommunity(x, d) && !Matches(x, keys1, u)
    ensures var del := if |sp.duplicates| > 0 then 1 else 0;
      ApplyAll(t, MergeStatements(o, d, sp)[..del]) == Staged(t, o, d, keys1, u, Elems(sp.uniqueRows[..0]))
  {
    var sts := MergeStatements(o, d, sp);
    assert Elems(sp.uniqueRows[..0]) == {};
    DeleteStaged(t, o, d, keys1, u, sp.duplicates);
    if |sp.duplicates| > 0 {
      assert sts[..1][..0] == [];
      assert sts[0] == DeleteListed(d, sp.duplicates);
    } else {
      assert sts[..0] == [];
      WithoutListedNothing(t, d);
    }
  }

  /** The UPDATE of the k-th unique row moves the table from stage k - 1 to stage k. */
  lemma RepointNext(t: Table, o: int, d: int, keys1: seq<Key>, u: Option<seq<Column>>, sp: Split, k: nat)
    requires forall x :: x in t && InCommunity(x, d) ==> (x in sp.duplicates <==> Matches(x, keys1, u))
    requires forall x :: x in sp.uniqueRows ==> InCommunity(x, d) && !Matches(x, keys1, u)
    requires 0 < k <= |sp.uniqueRows|
    requires var del := if |sp.duplicates| > 0 then 1 else 0;
      ApplyAll(t, MergeStatements(o, d, sp)[..del + k - 1]) == Staged(t, o, d, keys1, u, Elems(sp.uniqueRows[..k - 1]))
    ensures var del := if |sp.duplicates| > 0 then 1 else 0;
      ApplyAll(t, MergeStatements(o, d, sp)[..del + k]) == Staged(t, o, d, keys1, u, Elems(sp.uniqueRows[..k]))
  {
    var del := if |sp.duplicates| > 0 then 1 else 0;
    var sts := MergeStatements(o, d, sp);
    var x := sp.uniqueRows[k - 1];
    var done := Elems(sp.uniqueRows[..k - 1]);
    assert x in sp.uniqueRows;
    MergeStatementAt(o, d, sp, k);
    ApplyAllPrefix(t, sts, del + k);
    assert ApplyAll(t, sts[..del + k]) == RepointWhere(Staged(t, o, d, keys1, u, done), x, d, o);
    RepointStaged(t, o, d, keys1, u, done, x);
    ElemsSnoc(sp.uniqueRows, k);
  }

  /** The statement after the DELETE and the first k - 1 UPDATEs is the UPDATE of the k-th unique row. */
  lemma MergeStatementAt(o: int, d: int, sp: Split, k: nat)
    requires 0 < k <= |sp.uniqueRows|
    ensures var del := if |sp.duplicates| > 0 then 1 else 0;
      del + k <= |MergeStatements(o, d, sp)| && MergeStatements(o, d, sp)[del + k - 1] == Repoint(sp.uniqueRows[k - 1], d, o)
  {
    var pre: seq<Statement> := if |sp.duplicates| > 0 then [DeleteListed(d, sp.duplicates)] else [];
    var rs := Repoints(sp.uniqueRows, d, o);
    assert MergeStatements(o, d, sp) == pre + rs;
    assert (pre + rs)[|pre| + k - 1] == rs[k - 1];
  }

  lemma ElemsSnoc(s: Table, k: nat)
    requires 0 < k <= |s|
    ensures Elems(s[..k]) == Elems(s[..k - 1]) + {s[k - 1]}
  {
    assert s[..k] == s[..k - 1] + [s[k - 1]];
  }

  lemma {:induction false} WithoutListedNothing(t: Table, d: int)
    ensures WithoutListed(t, d, []) == t
  {
    if t != [] {
      var p := t[..|t| - 1];
      WithoutListedNothing(p, d);
      assert t == p + [t[|t| - 1]];
    }
  }

  /** Every unmatched row of the duplicate community is among `unique_rows`. */
  lemma UnmatchedCovered(t: Table, d: int, keys1: seq<Key>, u: Option<seq<Column>>)
    ensures forall x :: x in t && InCommunity(x, d) && !Matches(x, keys1, u) ==> x in Elems(Unmatched(RowsOf(t, d), keys1, u))
  {
    forall x | x in t && InCommunity(x, d) && !Matches(x, keys1, u)
      ensures x in Elems(Unmatched(RowsOf(t, d), keys1, u))
    {
      MatchedMembers(RowsOf(t, d), keys1, u, x);
    }
  }

  lemma AllRepointsStaged(t: Table, o: int, d: int, keys1: seq<Key>, u: Option<seq<Column>>, sp: Split)
    requires forall x :: x in t && InCommunity(x, d) ==> (x in sp.duplicates <==> Matches(x, keys1, u))
    requires forall x :: x in sp.uniqueRows ==> InCommunity(x, d) && !Matches(x, keys1, u)
    ensures ApplyAll(t, MergeStatements(o, d, sp)) == Staged(t, o, d, keys1, u, Elems(sp.uniqueRows))
  {
    var sts := MergeStatements(o, d, sp);
    var del := if |sp.duplicates| > 0 then 1 else 0;
    RepointsStaged(t, o, d, keys1, u, sp, |sp.uniqueRows|);
    assert |sts| == del + |sp.uniqueRows|;
    assert sts[..del + |sp.uniqueRows|] == sts;
    assert sp.uniqueRows[..|sp.uniqueRows|] == sp.uniqueRows;
  }

  /** `duplicates` holds exactly the matching rows of the duplicate community, and `unique_rows` only non-matching ones. */
  lemma SplitFacts(t: Table, d: int, keys1: seq<Key>, u: Option<seq<Column>>)
    ensures forall x :: x in t && InCommunity(x, d) ==> (x in Matched(RowsOf(t, d), keys1, u) <==> Matches(x, keys1, u))
    ensures forall x :: x in Unmatched(RowsOf(t, d), keys1, u) ==> InCommunity(x, d) && !Matches(x, keys1, u)
  {
    forall x | x in t && InCommunity(x, d)
      ensures x in Matched(RowsOf(t, d), keys1, u) <==> Matches(x, keys1, u)
    {
      MatchedMembers(RowsOf(t, d), keys1, u, x);
    }
    forall x | x in Unmatched(RowsOf(t, d), keys1, u)
      ensures InCommunity(x, d) && !Matches(x, keys1, u)
    {
      MatchedMembers(RowsOf(t, d), keys1, u, x);
    }
  }

  /** Running the merge's statements gives the merged table. */
  lemma MergeStatementsEffect(t: Table, o: int, d: int, keys1: seq<Key>, u: Option<seq<Column>>)
    ensures var sp := Split(Matched(RowsOf(t, d), keys1, u), Unmatched(RowsOf(t, d), keys1, u));
      ApplyAll(t, MergeStatements(o, d, sp)) == MergedTable(t, o, d, keys1, u)
  {
    var sp := Split(Matched(RowsOf(t, d), keys1, u), Unmatched(RowsOf(t, d), keys1, u));
    SplitFacts(t, d, keys1, u);
    AllRepointsStaged(t, o, d, keys1, u, sp);
    UnmatchedCovered(t, d, keys1, u);
    StagedComplete(t, o, d, keys1, u, Elems(sp.uniqueRows));
  }
}
