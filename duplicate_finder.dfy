/**
 * The duplicate finder (`find_duplicates`): one pass over the data rows of a
 * CSV builds an insertion-ordered Hash from the value in column 9 to a record
 * `{count, data}`; a second pass writes out the rows of every key counted more
 * than once, group after group in the order the keys were first seen.
 *
 * The methods follow the two loops. `Duplicates` is the specification of the
 * output; the lemmas after it say what that output is.
 */
module DuplicateFinder {
  import opened Wrappers
  import opened Csv
  import opened Grouping

  /** The key column, `row[9]`. */
  const KeyColumn: nat := 9

  /** A record of the dictionary: how many rows had the key, and those rows. */
  datatype Entry = Entry(count: nat, data: seq<CsvRow>)

  /** A Ruby Hash from keys to records; `order` is its key order, which is insertion order. */
  datatype Dict = Dict(order: seq<Field>, entries: map<Field, Entry>)

  ghost predicate Valid(d: Dict)
  {
    Distinct(d.order) && forall k :: k in d.entries <==> k in d.order
  }

  /** `lines.fetch(k, default)`. */
  function Fetch(d: Dict, k: Field, default: Entry): Entry
  {
    if k in d.entries then d.entries[k] else default
  }

  /** `lines[k] = v`: a new key goes to the end of the key order, an existing key keeps its place. */
  function Store(d: Dict, k: Field, v: Entry): (d': Dict)
    requires Valid(d)
    ensures Valid(d')
    ensures k in d'.entries && d'.entries[k] == v
    ensures forall j :: j != k ==> (j in d'.entries <==> j in d.entries)
    ensures forall j :: j in d.entries && j != k ==> d'.entries[j] == d.entries[j]
    ensures d'.order == if k in d.entries then d.order else d.order + [k]
  {
    Dict(if k in d.entries then d.order else d.order + [k], d.entries[k := v])
  }

  /** The sum of the counts over the keys `ks`. */
  function CountSum(ks: seq<Field>, entries: map<Field, Entry>): nat
    requires forall k :: k in ks ==> k in entries
  {
    if ks == [] then 0 else CountSum(ks[..|ks| - 1], entries) + entries[ks[|ks| - 1]].count
  }

  /** What the output pass writes for key `k`: its rows when it was counted more than once. */
  function Block(rows: seq<CsvRow>, k: Field): seq<CsvRow>
  {
    var g := WithKey(rows, KeyColumn, k);
    if |g| > 1 then g else []
  }

  /** The blocks of the keys `ks`, one after the other. */
  function Gather(rows: seq<CsvRow>, ks: seq<Field>): seq<CsvRow>
  {
    if ks == [] then [] else Gather(rows, ks[..|ks| - 1]) + Block(rows, ks[|ks| - 1])
  }

  /** The rows `find_duplicates` writes for the data rows `rows`. */
  function Duplicates(rows: seq<CsvRow>): seq<CsvRow>
  {
    Gather(rows, FirstSeenKeys(rows, KeyColumn))
  }

  /** The rows of `s`, in order, whose key occurs more than once in `all`. */
  function Kept(all: seq<CsvRow>, s: seq<CsvRow>): seq<CsvRow>
  {
    if s == [] then []
    else
      var r := s[|s| - 1];
      Kept(all, s[..|s| - 1]) + (if |WithKey(all, KeyColumn, At(r, KeyColumn))| > 1 then [r] else [])
  }

  /** `d` is the dictionary the grouping pass has built after reading `rows`. */
  ghost predicate Describes(d: Dict, rows: seq<CsvRow>)
  {
    && Valid(d)
    && d.order == FirstSeenKeys(rows, KeyColumn)
    && forall k :: k in d.entries ==>
         d.entries[k] == Entry(|WithKey(rows, KeyColumn, k)|, WithKey(rows, KeyColumn, k))
  }

  /** One iteration of the grouping loop: fetch the record of the row's key, count the row, store it back. */
  lemma DescribesStep(d: Dict, rows: seq<CsvRow>, row: CsvRow, current: Entry)
    requires Describes(d, rows)
    requires var was := Fetch(d, At(row, KeyColumn), Entry(0, []));
      current == Entry(was.count + 1, was.data + [row])
    ensures Describes(Store(d, At(row, KeyColumn), current), rows + [row])
  {
    var k := At(row, KeyColumn);
    var s := rows + [row];
    assert s[..|s| - 1] == rows;
    FirstSeenKeysSpec(rows, KeyColumn);
    var d' := Store(d, k, current);
    forall j | j in d'.entries
      ensures d'.entries[j] == Entry(|WithKey(s, KeyColumn, j)|, WithKey(s, KeyColumn, j))
    {
      if j == k && k !in d.entries {
        assert |WithKey(rows, KeyColumn, k)| == 0;
      }
    }
  }

  /** The grouping pass (lines 8-19): every key seen maps to its count and its rows. */
  method BuildGroups(rows: seq<CsvRow>) returns (lines: Dict)
    ensures Valid(lines)
    ensures lines.order == FirstSeenKeys(rows, KeyColumn)
    ensures forall k :: k in lines.entries ==> lines.entries[k].count == |lines.entries[k].data|
    ensures forall k :: k in lines.entries ==> lines.entries[k].data == WithKey(rows, KeyColumn, k)
    ensures CountSum(lines.order, lines.entries) == |rows|
  {
    lines := Dict([], map[]);
    var i := 0;
    while i < |rows|
      invariant 0 <= i <= |rows|
      invariant Describes(lines, rows[..i])
    {
      var row := rows[i];
      var actorId := At(row, KeyColumn);
      var current := Fetch(lines, actorId, Entry(0, []));
      current := current.(count := current.count + 1);
      current := current.(data := current.data + [row]);
      DescribesStep(lines, rows[..i], row, current);
      assert rows[..i + 1] == rows[..i] + [row];
      lines := Store(lines, actorId, current);
      i := i + 1;
    }
    assert rows[..i] == rows;
    CountSumIsGroupSizes(rows, FirstSeenKeys(rows, KeyColumn), lines.entries);
    GroupSizesSum(rows, KeyColumn);
  }

  /** `find_duplicates` on the lines of the input file, header first (lines 4-31). */
  method FindDuplicates(input: seq<CsvRow>) returns (output: seq<CsvRow>)
    ensures output == Duplicates(DataRows(input))
  {
    var rows := DataRows(input);
    var lines := BuildGroups(rows);
    output := WriteDuplicates(rows, lines);
  }

  /** The output pass (lines 22-30): the rows of every key counted more than once, key after key. */
  method WriteDuplicates(rows: seq<CsvRow>, lines: Dict) returns (output: seq<CsvRow>)
    requires Valid(lines)
    requires forall k :: k in lines.entries ==>
      lines.entries[k].count == |lines.entries[k].data| && lines.entries[k].data == WithKey(rows, KeyColumn, k)
    ensures output == Gather(rows, lines.order)
  {
    output := [];
    var j := 0;
    while j < |lines.order|
      invariant 0 <= j <= |lines.order|
      invariant output == Gather(rows, lines.order[..j])
    {
      var key := lines.order[j];
      var obj := lines.entries[key];
      GatherSnoc(rows, lines.order, j);
      if obj.count > 1 {
        output := WriteRows(output, obj.data);
      }
      j := j + 1;
    }
    assert lines.order[..j] == lines.order;
  }

  lemma GatherSnoc(rows: seq<CsvRow>, ks: seq<Field>, j: nat)
    requires j < |ks|
    ensures Gather(rows, ks[..j + 1]) == Gather(rows, ks[..j]) + Block(rows, ks[j])
  {
    assert ks[..j + 1][..j] == ks[..j];
  }

  /** `obj[:data].each { |row| csv << row }` (lines 26-28): the rows go out in their order. */
  method WriteRows(written: seq<CsvRow>, data: seq<CsvRow>) returns (output: seq<CsvRow>)
    ensures output == written + data
  {
    output := written;
    var i := 0;
    while i < |data|
      invariant 0 <= i <= |data|
      invariant output == written + data[..i]
    {
      assert data[..i + 1] == data[..i] + [data[i]];
      output := output + [data[i]];
      i := i + 1;
    }
    assert data[..i] == data;
  }

  lemma {:induction false} CountSumIsGroupSizes(rows: seq<CsvRow>, ks: seq<Field>, entries: map<Field, Entry>)
    requires forall k :: k in ks ==> k in entries && entries[k].count == |WithKey(rows, KeyColumn, k)|
    ensures CountSum(ks, entries) == SumSizes(rows, KeyColumn, ks)
  {
    if ks != [] {
      CountSumIsGroupSizes(rows, ks[..|ks| - 1], entries);
    }
  }

  /** For distinct keys, the rows of key `k` in the gathered blocks are exactly the block of `k`. */
  lemma {:induction false} GatherPerKey(rows: seq<CsvRow>, ks: seq<Field>, k: Field)
    requires Distinct(ks)
    ensures WithKey(Gather(rows, ks), KeyColumn, k) == if k in ks then Block(rows, k) else []
  {
    if ks != [] {
      var p := ks[..|ks| - 1];
      var last := ks[|ks| - 1];
      assert ks == p + [last];
      assert Distinct(p);
      GatherPerKey(rows, p, k);
      var b := Block(rows, last);
      assert Gather(rows, ks) == Gather(rows, p) + b;
      WithKeyAppend(Gather(rows, p), b, KeyColumn, k);
      BlockPerKey(rows, last, k);
      if k == last {
        assert k !in p;
      }
      assert k in ks <==> k in p || k == last;
    }
  }

  /** The rows of key `k` in the block of key `j`: the whole block when `k` is `j`, none otherwise. */
  lemma BlockPerKey(rows: seq<CsvRow>, j: Field, k: Field)
    ensures WithKey(Block(rows, j), KeyColumn, k) == if k == j then Block(rows, j) else []
  {
    if |WithKey(rows, KeyColumn, j)| > 1 {
      WithKeyOfGroup(rows, KeyColumn, j, k);
    }
  }

  /**
   * Within the output, the rows of each key are exactly the input rows of
   * that key, all of them and in input order, when the key occurs more than
   * once, and none otherwise. Rows are told apart by key only: rows with the
   * same key and different content are all written.
   */
  lemma DuplicatesPerKey(rows: seq<CsvRow>, k: Field)
    ensures WithKey(Duplicates(rows), KeyColumn, k) ==
      if |WithKey(rows, KeyColumn, k)| > 1 then WithKey(rows, KeyColumn, k) else []
  {
    FirstSeenKeysSpec(rows, KeyColumn);
    GatherPerKey(rows, FirstSeenKeys(rows, KeyColumn), k);
  }

  /** Every written row's key occurs at least twice; no row of a key seen exactly once is written. */
  lemma EmittedKeysRepeat(rows: seq<CsvRow>)
    ensures forall i :: 0 <= i < |Duplicates(rows)| ==>
      |WithKey(rows, KeyColumn, At(Duplicates(rows)[i], KeyColumn))| >= 2
    ensures forall k, i :: |WithKey(rows, KeyColumn, k)| == 1 && 0 <= i < |Duplicates(rows)| ==>
      At(Duplicates(rows)[i], KeyColumn) != k
  {
    var d := Duplicates(rows);
    forall i | 0 <= i < |d|
      ensures |WithKey(rows, KeyColumn, At(d[i], KeyColumn))| >= 2
    {
      InWithKey(d, KeyColumn, d[i]);
      DuplicatesPerKey(rows, At(d[i], KeyColumn));
    }
  }

  lemma {:induction false} MultisetByKey(s: seq<CsvRow>, r: CsvRow)
    ensures multiset(s)[r] == multiset(WithKey(s, KeyColumn, At(r, KeyColumn)))[r]
  {
    if s != [] {
      var p := s[..|s| - 1];
      assert s == p + [s[|s| - 1]];
      MultisetByKey(p, r);
    }
  }

  lemma {:induction false} KeptPerKey(all: seq<CsvRow>, s: seq<CsvRow>, k: Field)
    ensures WithKey(Kept(all, s), KeyColumn, k) ==
      if |WithKey(all, KeyColumn, k)| > 1 then WithKey(s, KeyColumn, k) else []
  {
    if s != [] {
      var p := s[..|s| - 1];
      var r := s[|s| - 1];
      KeptPerKey(all, p, k);
      var tail := if |WithKey(all, KeyColumn, At(r, KeyColumn))| > 1 then [r] else [];
      WithKeyAppend(Kept(all, p), tail, KeyColumn, k);
      assert tail != [] ==> tail[..|tail| - 1] == [];
    }
  }

  /** The output holds exactly the input rows whose key occurs more than once, each as often as in the input. */
  lemma DuplicatesMultiset(rows: seq<CsvRow>)
    ensures multiset(Duplicates(rows)) == multiset(Kept(rows, rows))
  {
    var d := Duplicates(rows);
    var kept := Kept(rows, rows);
    forall r
      ensures multiset(d)[r] == multiset(kept)[r]
    {
      var k := At(r, KeyColumn);
      MultisetByKey(d, r);
      MultisetByKey(kept, r);
      DuplicatesPerKey(rows, k);
      KeptPerKey(rows, rows, k);
    }
  }

  lemma {:induction false} IndexOfPrefix(ks: seq<Field>, n: nat, k: Field)
    requires n <= |ks| && k in ks[..n]
    ensures IndexOf(ks, k) == IndexOf(ks[..n], k)
  {
    if ks[0] != k {
      assert ks[..n][1..] == ks[1..][..n - 1];
      IndexOfPrefix(ks[1..], n - 1, k);
    }
  }

  /** The gathered blocks are sorted by the position of their keys in `ks`. */
  lemma {:induction false} GatherSorted(rows: seq<CsvRow>, ks: seq<Field>)
    requires Distinct(ks)
    ensures forall i :: 0 <= i < |Gather(rows, ks)| ==> At(Gather(rows, ks)[i], KeyColumn) in ks
    ensures forall i, j :: 0 <= i <= j < |Gather(rows, ks)| ==>
      IndexOf(ks, At(Gather(rows, ks)[i], KeyColumn)) <= IndexOf(ks, At(Gather(rows, ks)[j], KeyColumn))
  {
    if ks != [] {
      var p := ks[..|ks| - 1];
      var last := ks[|ks| - 1];
      assert Distinct(p);
      GatherSorted(rows, p);
      var g := Gather(rows, ks);
      var gp := Gather(rows, p);
      var b := Block(rows, last);
      assert g == gp + b;
      assert last !in p;
      assert IndexOf(ks, last) == |p| by {
        forall j | 0 <= j < |p| ensures ks[j] != last { assert ks[j] == p[j]; }
      }
      forall i | 0 <= i < |gp|
        ensures At(g[i], KeyColumn) in ks
        ensures IndexOf(ks, At(g[i], KeyColumn)) == IndexOf(p, At(gp[i], KeyColumn)) < |p|
      {
        assert g[i] == gp[i];
        assert ks[..|ks| - 1] == p;
        IndexOfPrefix(ks, |ks| - 1, At(gp[i], KeyColumn));
      }
      forall i | |gp| <= i < |g|
        ensures At(g[i], KeyColumn) == last
      {
        assert g[i] == b[i - |gp|];
      }
    }
  }

  /**
   * The output is made of contiguous groups, one per repeated key, and the
   * groups come in the order their keys first occur in the input.
   */
  lemma DuplicatesGroupedInFirstSeenOrder(rows: seq<CsvRow>)
    ensures var d := Duplicates(rows);
      forall i, m, j :: 0 <= i <= m <= j < |d| && At(d[i], KeyColumn) == At(d[j], KeyColumn) ==>
        At(d[m], KeyColumn) == At(d[i], KeyColumn)
    ensures var d := Duplicates(rows);
      forall i, j :: 0 <= i <= j < |d| && At(d[i], KeyColumn) != At(d[j], KeyColumn) ==>
        SeenBefore(rows, KeyColumn, At(d[i], KeyColumn), At(d[j], KeyColumn))
  {
    var ks := FirstSeenKeys(rows, KeyColumn);
    var d := Duplicates(rows);
    FirstSeenKeysSpec(rows, KeyColumn);
    GatherSorted(rows, ks);
    forall i, m, j | 0 <= i <= m <= j < |d| && At(d[i], KeyColumn) == At(d[j], KeyColumn)
      ensures At(d[m], KeyColumn) == At(d[i], KeyColumn)
    {
      assert IndexOf(ks, At(d[i], KeyColumn)) <= IndexOf(ks, At(d[m], KeyColumn));
      assert IndexOf(ks, At(d[m], KeyColumn)) <= IndexOf(ks, At(d[j], KeyColumn));
    }
    forall i, j | 0 <= i <= j < |d| && At(d[i], KeyColumn) != At(d[j], KeyColumn)
      ensures SeenBefore(rows, KeyColumn, At(d[i], KeyColumn), At(d[j], KeyColumn))
    {
      var a := IndexOf(ks, At(d[i], KeyColumn));
      var b := IndexOf(ks, At(d[j], KeyColumn));
      assert a <= b;
      assert a != b;
      FirstSeenOrder(rows, KeyColumn, a, b);
    }
  }
}
