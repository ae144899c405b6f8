/**
 * How the repair script turns its input CSV into (original id, duplicate id)
 * pairs (fix-duplicate-communities.rb, lines 507-510 and 529-530): rows marked
 * `fixed` in column 0 are dropped, the rest are grouped by column 10 in
 * first-seen order, each group becomes the list of its column-1 values read
 * with `to_i`, and each list becomes the pair of its minimum and maximum.
 * `fix_posts` (lines 215-222) only reports a pair whose original id exceeds
 * its duplicate id; the pairs derived here never do.
 */
module DuplicatePairs {
  import opened Wrappers
  import opened Csv
  import opened Grouping
  import opened RubyInt

  const StatusColumn: nat := 0
  const IdColumn: nat := 1
  const GroupColumn: nat := 10

  /** `row[0] == 'fixed'`. */
  predicate IsFixed(row: CsvRow)
  {
    At(row, StatusColumn) == Some("fixed")
  }

  /** `.reject { |row| row[0] == 'fixed' }`. */
  function Unfixed(rows: seq<CsvRow>): (kept: seq<CsvRow>)
    ensures forall r :: r in kept <==> r in rows && !IsFixed(r)
  {
    if rows == [] then []
    else
      var r := rows[|rows| - 1];
      Unfixed(rows[..|rows| - 1]) + (if IsFixed(r) then [] else [r])
  }

  /** `v.map { |arr| arr[1].to_i }`. */
  function Ids(rows: seq<CsvRow>): seq<int>
  {
    seq(|rows|, i requires 0 <= i < |rows| => FieldToI(At(rows[i], IdColumn)))
  }

  /** The keys of the groups, in the order `group_by` produces them. */
  function GroupKeys(csv: seq<CsvRow>): seq<Field>
  {
    FirstSeenKeys(Unfixed(csv), GroupColumn)
  }

  /** The id lists of the groups over the keys `ks`. */
  function IdGroupsOver(kept: seq<CsvRow>, ks: seq<Field>): seq<seq<int>>
  {
    seq(|ks|, g requires 0 <= g < |ks| => Ids(WithKey(kept, GroupColumn, ks[g])))
  }

  /** `grouped` (lines 507-510): one id list per group. */
  function IdGroups(csv: seq<CsvRow>): seq<seq<int>>
  {
    IdGroupsOver(Unfixed(csv), GroupKeys(csv))
  }

  /** `ids.min`. */
  function Min(s: seq<int>): (m: int)
    requires |s| > 0
    ensures m in s && forall i :: 0 <= i < |s| ==> m <= s[i]
  {
    if |s| == 1 then s[0]
    else
      var p := s[..|s| - 1];
      var m := Min(p);
      assert forall i :: 0 <= i < |p| ==> s[i] == p[i];
      if s[|s| - 1] < m then s[|s| - 1] else m
  }

  /** `ids.max`. */
  function Max(s: seq<int>): (m: int)
    requires |s| > 0
    ensures m in s && forall i :: 0 <= i < |s| ==> s[i] <= m
  {
    if |s| == 1 then s[0]
    else
      var p := s[..|s| - 1];
      var m := Max(p);
      assert forall i :: 0 <= i < |p| ==> s[i] == p[i];
      if s[|s| - 1] > m then s[|s| - 1] else m
  }

  datatype Pair = Pair(originalId: int, duplicateId: int)

  /** Lines 529-530. */
  function PairOf(ids: seq<int>): Pair
    requires |ids| > 0
  {
    Pair(Min(ids), Max(ids))
  }

  /** The condition under which `fix_posts` reports "THIS WAS INCORRECT" (line 218). */
  predicate FixPostsReports(originalId: int, duplicateId: int)
  {
    originalId > duplicateId
  }

  function TotalLength(gs: seq<seq<int>>): nat
  {
    if gs == [] then 0 else TotalLength(gs[..|gs| - 1]) + |gs[|gs| - 1]|
  }

  /** Every group has at least one id, so `min` and `max` are defined. */
  lemma IdGroupsNonEmpty(csv: seq<CsvRow>)
    ensures forall g :: 0 <= g < |IdGroups(csv)| ==> |IdGroups(csv)[g]| > 0
  {
    FirstSeenKeysSpec(Unfixed(csv), GroupColumn);
  }

  /** A pair's ids bound its group, so `fix_posts` never reports it. */
  lemma PairBoundsGroup(ids: seq<int>)
    requires |ids| > 0
    ensures PairOf(ids).originalId <= PairOf(ids).duplicateId
    ensures PairOf(ids).originalId in ids && PairOf(ids).duplicateId in ids
    ensures forall x :: x in ids ==> PairOf(ids).originalId <= x <= PairOf(ids).duplicateId
    ensures !FixPostsReports(PairOf(ids).originalId, PairOf(ids).duplicateId)
  {
    assert ids[0] in ids;
  }

  lemma {:induction false} TotalLengthOver(kept: seq<CsvRow>, ks: seq<Field>)
    ensures TotalLength(IdGroupsOver(kept, ks)) == SumSizes(kept, GroupColumn, ks)
  {
    if ks != [] {
      var p := ks[..|ks| - 1];
      TotalLengthOver(kept, p);
      assert IdGroupsOver(kept, ks)[..|ks| - 1] == IdGroupsOver(kept, p);
    }
  }

  /** Every row not marked `fixed` gives exactly one id, and the others none. */
  lemma IdCount(csv: seq<CsvRow>)
    ensures TotalLength(IdGroups(csv)) == |Unfixed(csv)|
  {
    TotalLengthOver(Unfixed(csv), GroupKeys(csv));
    GroupSizesSum(Unfixed(csv), GroupColumn);
  }

  /** Each id of a group is the column-1 value of a row not marked `fixed` whose column 10 is the group's key. */
  lemma IdsComeFromUnfixedRows(csv: seq<CsvRow>, g: nat, x: int)
    requires g < |IdGroups(csv)| && x in IdGroups(csv)[g]
    ensures exists r :: (r in csv && !IsFixed(r) && At(r, GroupColumn) == GroupKeys(csv)[g] &&
                         FieldToI(At(r, IdColumn)) == x)
  {
    var kept := Unfixed(csv);
    var ks := GroupKeys(csv);
    var w := WithKey(kept, GroupColumn, ks[g]);
    var i :| 0 <= i < |w| && Ids(w)[i] == x;
    InWithKey(kept, GroupColumn, w[i]);
    assert w[i] in csv && !IsFixed(w[i]);
  }

  /** The column-1 value of each row not marked `fixed` is in the group of its column-10 key. */
  lemma UnfixedRowsGiveIds(csv: seq<CsvRow>, r: CsvRow)
    requires r in csv && !IsFixed(r)
    ensures |IdGroups(csv)| == |GroupKeys(csv)|
    ensures exists g :: (0 <= g < |IdGroups(csv)| && GroupKeys(csv)[g] == At(r, GroupColumn) &&
                         FieldToI(At(r, IdColumn)) in IdGroups(csv)[g])
  {
    var kept := Unfixed(csv);
    var ks := GroupKeys(csv);
    FirstSeenKeysSpec(kept, GroupColumn);
    assert r in kept;
    var i :| 0 <= i < |kept| && kept[i] == r;
    assert At(kept[i], GroupColumn) in ks;
    var g := IndexOf(ks, At(r, GroupColumn));
    var w := WithKey(kept, GroupColumn, ks[g]);
    InWithKey(kept, GroupColumn, r);
    var j :| 0 <= j < |w| && w[j] == r;
    assert Ids(w)[j] == FieldToI(At(r, IdColumn));
    assert g < |IdGroups(csv)|;
  }
}
