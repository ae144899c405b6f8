/**
 * The repair script's database side (fix-duplicate-communities.rb): a
 * database is a map from table names to tables, and each operation of the
 * script is a method on it, proved against a function that says what the
 * operation does to the tables. A failing operation writes nothing; a
 * failing transaction is rolled back; the first error ends the run.
 */
module Repair {
  import opened Wrappers
  import opened Csv
  import opened Records
  import opened Sql
  import opened Merge
  import opened Cleanup
  import opened DuplicatePairs

  type Tables = map<string, Table>

  /** One call in the body of a pair's transactions (lines 539-566). */
  datatype Step =
    | MergeStep(table: string, uniqueOn: seq<Column>)
    | FixPostsStep
    | DeleteAggregates(table: string)
    | FinalCleanup

  /** The transactions run for a pair found to be a duplicate, each a list of steps, in order. */
  const PairTransactions: seq<seq<Step>> := [
    [ MergeStep("admin_purge_post", ["admin_person_id"]),
      MergeStep("community_block", ["person_id"]),
      MergeStep("community_follower", ["person_id"]),
      MergeStep("community_language", ["language_id"]),
      MergeStep("community_moderator", ["person_id"]) ],
    [ MergeStep("community_person_ban", ["person_id"]),
      MergeStep("mod_add_community", ["mod_person_id", "other_person_id"]),
      MergeStep("mod_ban_from_community", ["mod_person_id", "other_person_id"]),
      MergeStep("mod_hide_community", ["mod_person_id"]),
      MergeStep("mod_remove_community", ["mod_person_id"]),
      MergeStep("mod_transfer_community", ["mod_person_id", "other_person_id"]),
      MergeStep("post", ["ap_id"]) ],
    [ FixPostsStep ],
    [ DeleteAggregates("community_aggregates") ],
    [ DeleteAggregates("post_aggregates") ],
    [ FinalCleanup ]
  ]

  const PostTable: string := "post"

  /** The hash `compare_and_merge_records` returns (lines 151-154). */
  datatype Counts = Counts(duplicatesDeleted: nat, rowsUpdated: nat)

  /** The tables after a run or a part of one, and the error that ended it, if any. */
  datatype Outcome = Outcome(tables: Tables, error: Option<Error>)

  /** A method's final tables and error agree with a specification's result; on an error nothing changed. */
  ghost predicate Agrees(res: Result<Tables, Error>, before: Tables, after: Tables, err: Option<Error>)
  {
    match res
    case Ok(ts) => err == None && after == ts
    case Err(e) => err == Some(e) && after == before
  }

  // ---------------------------------------------------------------------------
  // What each operation does to the tables

  /** `is_duplicate_community?` (lines 50-62). */
  function GateSpec(ts: Tables, a: int, b: int): Result<bool, Error>
  {
    if CommunityTable !in ts then Err(NoSuchTable(CommunityTable))
    else Ok(|CommunityQuery(ts[CommunityTable], a, b)| > 1)
  }

  /** `compare_and_merge_records` (lines 65-155). */
  function MergeSpec(ts: Tables, name: string, o: int, d: int, u: Option<seq<Column>>): Result<Tables, Error>
  {
    if name !in ts then Err(NoSuchTable(name))
    else
      var t := ts[name];
      match Keys(RowsOf(t, o), u)
      case Err(c) => Err(KeyError(c))
      case Ok(keys1) =>
        match Classify(RowsOf(t, d), keys1, u)
        case Err(c) => Err(KeyError(c))
        case Ok(_) => Ok(ts[name := MergedTable(t, o, d, keys1, u)])
  }

  /** `delete_records_from_duplicate_id` (lines 159-170); the original id plays no part. */
  function AggregateSpec(ts: Tables, name: string, d: int): Result<Tables, Error>
  {
    if name !in ts then Err(NoSuchTable(name))
    else Ok(ts[name := WithoutCommunity(ts[name], d)])
  }

  /** `final_community_cleanup` (lines 173-213). */
  function CleanupSpec(ts: Tables, o: int, d: int): Result<Tables, Error>
  {
    if CommunityTable !in ts then Err(NoSuchTable(CommunityTable))
    else
      match PlanCleanup(ts[CommunityTable], o, d)
      case Err(e) => Err(e)
      case Ok(p) =>
        if PostTable !in ts then Err(NoSuchTable(PostTable))
        else if p.values == map[] then Err(EmptySetList)
        else Ok(ts[CommunityTable := ApplyAll(ts[CommunityTable], CleanupStatements(p))])
  }

  function StepSpec(ts: Tables, s: Step, o: int, d: int): Result<Tables, Error>
  {
    match s
    case MergeStep(name, cols) => MergeSpec(ts, name, o, d, Some(cols))
    case FixPostsStep => Ok(ts)
    case DeleteAggregates(name) => AggregateSpec(ts, name, d)
    case FinalCleanup => CleanupSpec(ts, o, d)
  }

  /** The steps of one transaction, stopping at the first error. */
  function TransactionSpec(ts: Tables, steps: seq<Step>, o: int, d: int): Result<Tables, Error>
  {
    if steps == [] then Ok(ts)
    else
      match TransactionSpec(ts, steps[..|steps| - 1], o, d)
      case Err(e) => Err(e)
      case Ok(ts') => StepSpec(ts', steps[|steps| - 1], o, d)
  }

  /** Transactions in turn: each commits, and a failing one is rolled back and ends the run. */
  function TransactionsSpec(ts: Tables, txs: seq<seq<Step>>, o: int, d: int): Outcome
  {
    if txs == [] then Outcome(ts, None)
    else
      var before := TransactionsSpec(ts, txs[..|txs| - 1], o, d);
      if before.error.Some? then before
      else
        match TransactionSpec(before.tables, txs[|txs| - 1], o, d)
        case Err(e) => Outcome(before.tables, Some(e))
        case Ok(ts') => Outcome(ts', None)
  }

  /** One pair of the main loop (lines 533-567): the gate, and the transactions when it holds. */
  function PairSpec(ts: Tables, o: int, d: int): Outcome
  {
    match GateSpec(ts, o, d)
    case Err(e) => Outcome(ts, Some(e))
    case Ok(isDuplicate) => if isDuplicate then TransactionsSpec(ts, PairTransactions, o, d) else Outcome(ts, None)
  }

  /** The (original id, duplicate id) pairs of the main loop, one per group of the input CSV. */
  function Pairs(csv: seq<CsvRow>): (ps: seq<Pair>)
    ensures |ps| == |IdGroups(csv)|
    ensures forall i :: 0 <= i < |ps| ==> ps[i].originalId <= ps[i].duplicateId && !FixPostsReports(ps[i].originalId, ps[i].duplicateId)
    ensures forall i :: 0 <= i < |ps| ==> ps[i].originalId in IdGroups(csv)[i] && ps[i].duplicateId in IdGroups(csv)[i]
    ensures forall i :: 0 <= i < |ps| ==> |IdGroups(csv)[i]| > 0 && ps[i] == PairOf(IdGroups(csv)[i])
  {
    IdGroupsNonEmpty(csv);
    var gs := IdGroups(csv);
    var ps := seq(|gs|, i requires 0 <= i < |gs| => PairOf(gs[i]));
    assert forall i :: 0 <= i < |gs| ==> ps[i] == PairOf(gs[i]);
    forall i | 0 <= i < |gs|
      ensures ps[i].originalId <= ps[i].duplicateId && ps[i].originalId in gs[i] && ps[i].duplicateId in gs[i]
    {
      PairBoundsGroup(gs[i]);
    }
    ps
  }

  /** The main loop (lines 521-575): the pairs in turn, until one fails. */
  function RunSpec(ts: Tables, ps: seq<Pair>): Outcome
  {
    if ps == [] then Outcome(ts, None)
    else
      var before := RunSpec(ts, ps[..|ps| - 1]);
      if before.error.Some? then before
      else PairSpec(before.tables, ps[|ps| - 1].originalId, ps[|ps| - 1].duplicateId)
  }

  // ---------------------------------------------------------------------------
  // Properties of the specification

  /** A failed merge writes nothing; otherwise only the merged table changes, and only in the two communities. */
  lemma MergeSpecFrame(ts: Tables, name: string, o: int, d: int, u: Option<seq<Column>>)
    requires MergeSpec(ts, name, o, d, u).Ok?
    ensures var ts' := MergeSpec(ts, name, o, d, u).value;
      && ts'.Keys == ts.Keys
      && (forall n :: n in ts && n != name ==> ts'[n] == ts[n])
      && Outside(ts'[name], o, d) == Outside(ts[name], o, d)
  {
    var keys1 := Keys(RowsOf(ts[name], o), u).value;
    MergeLeavesOthers(ts[name], o, d, keys1, u);
  }

  /** A pair that the gate rejects changes nothing (line 538). */
  lemma PairNeedsGate(ts: Tables, o: int, d: int)
    requires GateSpec(ts, o, d) != Ok(true)
    ensures PairSpec(ts, o, d).tables == ts
  {
  }

  /**
   * A group whose ids are all equal (a header row alone in its group, say)
   * gives a pair with the same original and duplicate id; under the primary
   * key its query returns at most one row, so the gate is false and the pair
   * changes nothing and raises nothing.
   */
  lemma EqualIdsPairSkipped(ts: Tables, ids: seq<int>)
    requires |ids| > 0 && forall i :: 0 <= i < |ids| ==> ids[i] == ids[0]
    requires CommunityTable in ts && UniqueIds(ts[CommunityTable])
    ensures PairOf(ids).originalId == PairOf(ids).duplicateId
    ensures GateSpec(ts, PairOf(ids).originalId, PairOf(ids).duplicateId) == Ok(false)
    ensures PairSpec(ts, PairOf(ids).originalId, PairOf(ids).duplicateId) == Outcome(ts, None)
  {
    var p := PairOf(ids);
    assert p.originalId == ids[0] && p.duplicateId == ids[0];
    GateIff(ts[CommunityTable], p.originalId, p.duplicateId);
  }

  /** After pairs that all succeed, the next pair runs on the tables they leave. */
  lemma RunSpecStep(ts: Tables, ps: seq<Pair>, k: nat)
    requires k < |ps| && RunSpec(ts, ps[..k]).error.None?
    ensures RunSpec(ts, ps[..k + 1]) == PairSpec(RunSpec(ts, ps[..k]).tables, ps[k].originalId, ps[k].duplicateId)
  {
    assert ps[..k + 1][..k] == ps[..k];
  }

  /** The run stops at the first pair that fails: later pairs are not processed. */
  lemma {:induction false} RunStopsAtError(ts: Tables, ps: seq<Pair>, k: nat)
    requires k <= |ps| && RunSpec(ts, ps[..k]).error.Some?
    ensures RunSpec(ts, ps) == RunSpec(ts, ps[..k])
    decreases |ps|
  {
    if k < |ps| {
      var p := ps[..|ps| - 1];
      assert p[..k] == ps[..k];
      RunStopsAtError(ts, p, k);
    } else {
      assert ps[..k] == ps;
    }
  }

  /** A transaction stops at its first failing step. */
  lemma {:induction false} TransactionStopsAtError(ts: Tables, steps: seq<Step>, k: nat, o: int, d: int)
    requires k <= |steps| && TransactionSpec(ts, steps[..k], o, d).Err?
    ensures TransactionSpec(ts, steps, o, d) == TransactionSpec(ts, steps[..k], o, d)
    decreases |steps|
  {
    if k < |steps| {
      var p := steps[..|steps| - 1];
      assert p[..k] == steps[..k];
      TransactionStopsAtError(ts, p, k, o, d);
    } else {
      assert steps[..k] == steps;
    }
  }

  /** A pair's transactions stop at the first one that fails. */
  lemma {:induction false} TransactionsStopAtError(ts: Tables, txs: seq<seq<Step>>, k: nat, o: int, d: int)
    requires k <= |txs| && TransactionsSpec(ts, txs[..k], o, d).error.Some?
    ensures TransactionsSpec(ts, txs, o, d) == TransactionsSpec(ts, txs[..k], o, d)
    decreases |txs|
  {
    if k < |txs| {
      var p := txs[..|txs| - 1];
      assert p[..k] == txs[..k];
      TransactionsStopAtError(ts, p, k, o, d);
    } else {
      assert txs[..k] == txs;
    }
  }

  /** The table a step writes, if any. */
  function StepTable(s: Step): Option<string>
  {
    match s
    case MergeStep(name, _) => Some(name)
    case FixPostsStep => None
    case DeleteAggregates(name) => Some(name)
    case FinalCleanup => Some(CommunityTable)
  }

  /** A step writes only its own table, and creates or drops none. */
  lemma StepFrame(ts: Tables, s: Step, o: int, d: int)
    requires StepSpec(ts, s, o, d).Ok?
    ensures var ts' := StepSpec(ts, s, o, d).value;
      ts'.Keys == ts.Keys && forall n :: n in ts && StepTable(s) != Some(n) ==> ts'[n] == ts[n]
  {
  }

  /** What a step leaves behind in its table: no row of the duplicate community, or no community row with the larger id. */
  ghost predicate Cleared(ts: Tables, s: Step, o: int, d: int)
  {
    match s
    case MergeStep(name, _) => name in ts && RowsOf(ts[name], d) == []
    case FixPostsStep => true
    case DeleteAggregates(name) => name in ts && RowsOf(ts[name], d) == []
    case FinalCleanup => CommunityTable in ts && forall x :: x in ts[CommunityTable] ==> !HasId(x, MaxInt(o, d))
  }

  lemma StepClears(ts: Tables, s: Step, o: int, d: int)
    requires o != d && StepSpec(ts, s, o, d).Ok?
    ensures Cleared(StepSpec(ts, s, o, d).value, s, o, d)
  {
    match s
    case MergeStep(name, cols) =>
      var keys1 := Keys(RowsOf(ts[name], o), Some(cols)).value;
      MergeEmptiesDuplicate(ts[name], o, d, keys1, Some(cols));
    case FixPostsStep =>
    case DeleteAggregates(name) =>
      WithoutCommunitySpec(ts[name], d, o);
    case FinalCleanup =>
      var p := PlanCleanup(ts[CommunityTable], o, d).value;
      PlanSpec(ts[CommunityTable], o, d);
      CleanupEffect(ts[CommunityTable], p);
  }

  /** No two steps write the same table. */
  ghost predicate DistinctTables(steps: seq<Step>)
  {
    forall i, j :: 0 <= i < j < |steps| && StepTable(steps[i]).Some? ==> StepTable(steps[i]) != StepTable(steps[j])
  }

  /** What a step has cleared stays cleared while the later steps write other tables. */
  lemma ClearedKept(ts: Tables, s: Step, s2: Step, o: int, d: int)
    requires Cleared(ts, s, o, d) && StepSpec(ts, s2, o, d).Ok?
    requires StepTable(s).Some? ==> StepTable(s) != StepTable(s2)
    ensures Cleared(StepSpec(ts, s2, o, d).value, s, o, d)
  {
    StepFrame(ts, s2, o, d);
  }

  /** After a transaction that commits, every one of its steps has cleared its table. */
  lemma {:induction false} TransactionClears(ts: Tables, steps: seq<Step>, o: int, d: int)
    requires o != d && DistinctTables(steps) && TransactionSpec(ts, steps, o, d).Ok?
    ensures forall i :: 0 <= i < |steps| ==> Cleared(TransactionSpec(ts, steps, o, d).value, steps[i], o, d)
  {
    if steps != [] {
      var p := steps[..|steps| - 1];
      var last := steps[|steps| - 1];
      assert DistinctTables(p);
      TransactionClears(ts, p, o, d);
      var mid := TransactionSpec(ts, p, o, d).value;
      StepClears(mid, last, o, d);
      forall i | 0 <= i < |p|
        ensures Cleared(TransactionSpec(ts, steps, o, d).value, steps[i], o, d)
      {
        assert steps[i] == p[i];
        ClearedKept(mid, p[i], last, o, d);
      }
    }
  }

  /** The steps of all transactions, in order. */
  function Flatten(txs: seq<seq<Step>>): seq<Step>
  {
    if txs == [] then [] else Flatten(txs[..|txs| - 1]) + txs[|txs| - 1]
  }

  /** A committed transaction writes only the tables its steps name. */
  lemma {:induction false} TransactionFrame(ts: Tables, steps: seq<Step>, o: int, d: int)
    requires TransactionSpec(ts, steps, o, d).Ok?
    ensures var ts' := TransactionSpec(ts, steps, o, d).value;
      ts'.Keys == ts.Keys &&
      forall n :: n in ts && (forall i :: 0 <= i < |steps| ==> StepTable(steps[i]) != Some(n)) ==> ts'[n] == ts[n]
  {
    if steps != [] {
      var p := steps[..|steps| - 1];
      TransactionFrame(ts, p, o, d);
      StepFrame(TransactionSpec(ts, p, o, d).value, steps[|steps| - 1], o, d);
    }
  }

  lemma ClearedKeptByTransaction(ts: Tables, s: Step, steps: seq<Step>, o: int, d: int)
    requires Cleared(ts, s, o, d) && TransactionSpec(ts, steps, o, d).Ok?
    requires forall i :: 0 <= i < |steps| && StepTable(s).Some? ==> StepTable(s) != StepTable(steps[i])
    ensures Cleared(TransactionSpec(ts, steps, o, d).value, s, o, d)
  {
    TransactionFrame(ts, steps, o, d);
  }

  /** After transactions that all commit, every step of every one of them has cleared its table. */
  lemma {:induction false} TransactionsClear(ts: Tables, txs: seq<seq<Step>>, o: int, d: int)
    requires o != d && DistinctTables(Flatten(txs)) && TransactionsSpec(ts, txs, o, d).error.None?
    ensures forall i :: 0 <= i < |Flatten(txs)| ==> Cleared(TransactionsSpec(ts, txs, o, d).tables, Flatten(txs)[i], o, d)
  {
    if txs != [] {
      var p := txs[..|txs| - 1];
      var last := txs[|txs| - 1];
      assert Flatten(txs) == Flatten(p) + last;
      DistinctSplit(Flatten(p), last);
      TransactionsClear(ts, p, o, d);
      var mid := TransactionsSpec(ts, p, o, d).tables;
      assert TransactionSpec(mid, last, o, d) == Ok(TransactionsSpec(ts, txs, o, d).tables);
      TransactionClears(mid, last, o, d);
      ClearedAfterTransaction(mid, Flatten(p), last, o, d);
    }
  }

  /** Distinct tables over two step lists: within each, and between them. */
  lemma DistinctSplit(a: seq<Step>, b: seq<Step>)
    requires DistinctTables(a + b)
    ensures DistinctTables(a) && DistinctTables(b)
    ensures forall i, j :: 0 <= i < |a| && 0 <= j < |b| && StepTable(a[i]).Some? ==> StepTable(a[i]) != StepTable(b[j])
  {
    var ab := a + b;
    forall i, j | 0 <= i < j < |a| && StepTable(a[i]).Some?
      ensures StepTable(a[i]) != StepTable(a[j])
    {
      assert a[i] == ab[i] && a[j] == ab[j];
    }
    forall i, j | 0 <= i < j < |b| && StepTable(b[i]).Some?
      ensures StepTable(b[i]) != StepTable(b[j])
    {
      assert b[i] == ab[|a| + i] && b[j] == ab[|a| + j];
    }
    forall i, j | 0 <= i < |a| && 0 <= j < |b| && StepTable(a[i]).Some?
      ensures StepTable(a[i]) != StepTable(b[j])
    {
      assert a[i] == ab[i] && b[j] == ab[|a| + j];
    }
  }

  /** Steps cleared before a committed transaction stay cleared when it writes other tables; its own steps are cleared by it. */
  lemma ClearedAfterTransaction(mid: Tables, before: seq<Step>, steps: seq<Step>, o: int, d: int)
    requires TransactionSpec(mid, steps, o, d).Ok?
    requires forall i :: 0 <= i < |before| ==> Cleared(mid, before[i], o, d)
    requires forall i :: 0 <= i < |steps| ==> Cleared(TransactionSpec(mid, steps, o, d).value, steps[i], o, d)
    requires forall i, j :: 0 <= i < |before| && 0 <= j < |steps| && StepTable(before[i]).Some? ==> StepTable(before[i]) != StepTable(steps[j])
    ensures forall i :: 0 <= i < |before + steps| ==> Cleared(TransactionSpec(mid, steps, o, d).value, (before + steps)[i], o, d)
  {
    var all := before + steps;
    forall i | 0 <= i < |all|
      ensures Cleared(TransactionSpec(mid, steps, o, d).value, all[i], o, d)
    {
      if i < |before| {
        assert all[i] == before[i];
        ClearedKeptByTransaction(mid, before[i], steps, o, d);
      } else {
        assert all[i] == steps[i - |before|];
      }
    }
  }

  /** The steps of a pair, flattened. */
  lemma PairStepsList()
    ensures Flatten(PairTransactions) == PairTransactions[0] + PairTransactions[1] + PairTransactions[2]
      + PairTransactions[3] + PairTransactions[4] + PairTransactions[5]
  {
    var t := PairTransactions;
    assert t[..1][..0] == [];
    assert Flatten(t[..1]) == t[0];
    assert t[..2][..1] == t[..1];
    assert Flatten(t[..2]) == t[0] + t[1];
    assert t[..3][..2] == t[..2];
    assert Flatten(t[..3]) == t[0] + t[1] + t[2];
    assert t[..4][..3] == t[..3];
    assert Flatten(t[..4]) == t[0] + t[1] + t[2] + t[3];
    assert t[..5][..4] == t[..4];
    assert Flatten(t[..5]) == t[0] + t[1] + t[2] + t[3] + t[4];
    assert t[..6][..5] == t[..5];
    assert t[..6] == t;
  }

  lemma PairTablesDistinct()
    ensures DistinctTables(Flatten(PairTransactions))
  {
    PairStepsList();
  }

  /**
   * After a pair that the gate accepts and that runs without error, no row
   * of the duplicate community is left in any merged or aggregate table, and
   * the community row with the larger id is gone.
   */
  lemma PairClearsDuplicate(ts: Tables, o: int, d: int)
    requires o != d && GateSpec(ts, o, d) == Ok(true) && PairSpec(ts, o, d).error.None?
    ensures forall i :: 0 <= i < |Flatten(PairTransactions)| ==>
      Cleared(PairSpec(ts, o, d).tables, Flatten(PairTransactions)[i], o, d)
  {
    PairTablesDistinct();
    TransactionsClear(ts, PairTransactions, o, d);
  }

  // ---------------------------------------------------------------------------
  // The database

  class Database {
    var tables: Tables

    constructor (ts: Tables)
      ensures tables == ts
    {
      tables := ts;
    }

    /** `transaction.exec` of a write statement on one table. */
    method Exec(name: string, st: Statement) returns (err: Option<Error>)
      modifies this
      ensures name in old(tables) ==> err == None && tables == old(tables)[name := Apply(old(tables)[name], st)]
      ensures name !in old(tables) ==> err == Some(NoSuchTable(name)) && tables == old(tables)
    {
      if name !in tables {
        return Some(NoSuchTable(name));
      }
      tables := tables[name := Apply(tables[name], st)];
      return None;
    }

    /** `is_duplicate_community?` (lines 50-62): the flag is set when the query returns more than one row. */
    method IsDuplicateCommunity(id1: int, id2: int) returns (r: Result<bool, Error>)
      ensures r == GateSpec(tables, id1, id2)
    {
      var isDuplicate := false;
      if CommunityTable !in tables {
        return Err(NoSuchTable(CommunityTable));
      }
      var result := CommunityQuery(tables[CommunityTable], id1, id2);
      if |result| > 1 {
        isDuplicate := true;
      }
      return Ok(isDuplicate);
    }

    /**
     * `compare_and_merge_records` (lines 65-155): read both communities' rows,
     * split the duplicate community's rows, send one DELETE for `duplicates`
     * when there are any and one UPDATE per row of `unique_rows`.
     */
    method CompareAndMergeRecords(name: string, originalId: int, duplicateId: int, uniqueOn: Option<seq<Column>>)
      returns (r: Result<Counts, Error>, sent: seq<Statement>)
      modifies this
      ensures r.Err? ==> (MergeSpec(old(tables), name, originalId, duplicateId, uniqueOn) == Err(r.error) &&
                          tables == old(tables) && sent == [])
      ensures r.Ok? ==> MergeSpec(old(tables), name, originalId, duplicateId, uniqueOn) == Ok(tables)
      ensures r.Ok? ==>
        var t := old(tables)[name];
        var sp := SplitRows(RowsOf(t, originalId), RowsOf(t, duplicateId), uniqueOn).value;
        sent == MergeStatements(originalId, duplicateId, sp) &&
        r.value == Counts(|sp.duplicates|, |sp.uniqueRows|) &&
        r.value.duplicatesDeleted + r.value.rowsUpdated == |RowsOf(t, duplicateId)|
    {
      if name !in tables {
        return Err(NoSuchTable(name)), [];
      }
      var t := tables[name];
      var rows1 := RowsOf(t, originalId);
      var rows2 := RowsOf(t, duplicateId);
      var keys1 := Keys(rows1, uniqueOn);
      if keys1.Err? {
        return Err(KeyError(keys1.error)), [];
      }
      var split := Classify(rows2, keys1.value, uniqueOn);
      if split.Err? {
        return Err(KeyError(split.error)), [];
      }
      ClassifyMatched(rows2, keys1.value, uniqueOn);
      MatchedCounts(rows2, keys1.value, uniqueOn);
      sent := SendMerge(name, t, originalId, duplicateId, split.value);
      MergeStatementsEffect(t, originalId, duplicateId, keys1.value, uniqueOn);
      return Ok(Counts(|split.value.duplicates|, |split.value.uniqueRows|)), sent;
    }

    /** Lines 106-147: the DELETE of `duplicates` when there are any, then the UPDATEs of `unique_rows`. */
    method SendMerge(name: string, t: Table, originalId: int, duplicateId: int, sp: Split) returns (sent: seq<Statement>)
      requires name in tables && tables[name] == t
      modifies this
      ensures sent == MergeStatements(originalId, duplicateId, sp)
      ensures tables == old(tables)[name := ApplyAll(t, sent)]
    {
      var deletes := [];
      if |sp.duplicates| > 0 {
        var e := Exec(name, DeleteListed(duplicateId, sp.duplicates));
        deletes := [DeleteListed(duplicateId, sp.duplicates)];
        assert deletes[..0] == [];
      }
      assert tables == old(tables)[name := ApplyAll(t, deletes)];
      var updates := UpdateUniqueRows(name, sp.uniqueRows, duplicateId, originalId);
      sent := deletes + updates;
      ApplyAllAppend(t, deletes, updates);
    }

    /** Lines 130-146: one UPDATE per unique row, each re-pointing the row to the original community. */
    method UpdateUniqueRows(name: string, uniqueRows: Table, duplicateId: int, originalId: int) returns (sent: seq<Statement>)
      requires name in tables
      modifies this
      ensures sent == Repoints(uniqueRows, duplicateId, originalId)
      ensures tables == old(tables)[name := ApplyAll(old(tables)[name], sent)]
    {
      sent := [];
      var i := 0;
      while i < |uniqueRows|
        invariant 0 <= i <= |uniqueRows|
        invariant name in tables && tables == old(tables)[name := ApplyAll(old(tables)[name], sent)]
        invariant sent == Repoints(uniqueRows[..i], duplicateId, originalId)
      {
        var st := Repoint(uniqueRows[i], duplicateId, originalId);
        var e := Exec(name, st);
        assert (sent + [st])[..|sent|] == sent;
        assert uniqueRows[..i + 1][..i] == uniqueRows[..i];
        sent := sent + [st];
        i := i + 1;
      }
      assert uniqueRows[..i] == uniqueRows;
    }

    /** `delete_records_from_duplicate_id` (lines 159-170). */
    method DeleteRecordsFromDuplicateId(name: string, originalId: int, duplicateId: int) returns (err: Option<Error>)
      modifies this
      ensures Agrees(AggregateSpec(old(tables), name, duplicateId), old(tables), tables, err)
    {
      err := Exec(name, DeleteCommunity(duplicateId));
    }

    /**
     * `final_community_cleanup` (lines 173-213): pick the most recently
     * refreshed of the two rows, then give the smaller id its columns and
     * delete the larger id.
     */
    method FinalCommunityCleanup(originalId: int, duplicateId: int) returns (err: Option<Error>)
      modifies this
      ensures Agrees(CleanupSpec(old(tables), originalId, duplicateId), old(tables), tables, err)
    {
      if CommunityTable !in tables {
        return Some(NoSuchTable(CommunityTable));
      }
      var result := CommunityQuery(tables[CommunityTable], originalId, duplicateId);
      var mostRecent := MostRecent(result);
      if mostRecent.Err? {
        return Some(mostRecent.error);
      }
      if mostRecent.value.None? {
        return Some(NilReceiver);
      }
      var survivor := mostRecent.value.value;
      var targetId := MinInt(originalId, duplicateId);
      var deletedId := MaxInt(originalId, duplicateId);
      var setList := SetList(survivor);
      if PostTable !in tables {
        return Some(NoSuchTable(PostTable));
      }
      if setList == map[] {
        return Some(EmptySetList);
      }
      var plan := Plan(survivor, targetId, deletedId, setList);
      assert PlanCleanup(tables[CommunityTable], originalId, duplicateId) == Ok(plan);
      WriteCleanup(plan);
      return None;
    }

    /** Lines 205-210: the UPDATE of the target row, then the DELETE of the larger id. */
    method WriteCleanup(plan: Plan)
      requires CommunityTable in tables
      modifies this
      ensures tables == old(tables)[CommunityTable := ApplyAll(old(tables)[CommunityTable], CleanupStatements(plan))]
    {
      CleanupStatementsApply(tables[CommunityTable], plan);
      var e := Exec(CommunityTable, UpdateById(plan.targetId, plan.values));
      e := Exec(CommunityTable, DeleteById(plan.deletedId));
    }

    /** `fix_posts` (lines 215-222): reports when the original id is the larger. */
    method FixPosts(originalId: int, duplicateId: int) returns (reports: bool)
      ensures reports <==> FixPostsReports(originalId, duplicateId)
    {
      reports := false;
      if originalId > duplicateId {
        reports := true;
      }
    }

    method RunStep(s: Step, originalId: int, duplicateId: int) returns (err: Option<Error>)
      modifies this
      ensures Agrees(StepSpec(old(tables), s, originalId, duplicateId), old(tables), tables, err)
    {
      match s
      case MergeStep(name, cols) =>
        var r, sent := CompareAndMergeRecords(name, originalId, duplicateId, Some(cols));
        err := if r.Err? then Some(r.error) else None;
      case FixPostsStep =>
        var reports := FixPosts(originalId, duplicateId);
        err := None;
      case DeleteAggregates(name) =>
        err := DeleteRecordsFromDuplicateId(name, originalId, duplicateId);
      case FinalCleanup =>
        err := FinalCommunityCleanup(originalId, duplicateId);
    }

    /** `@conn.transaction do ... end`: the steps in turn; on an error the transaction is rolled back. */
    method Transaction(steps: seq<Step>, originalId: int, duplicateId: int) returns (err: Option<Error>)
      modifies this
      ensures Agrees(TransactionSpec(old(tables), steps, originalId, duplicateId), old(tables), tables, err)
    {
      var snapshot := tables;
      var i := 0;
      while i < |steps|
        invariant 0 <= i <= |steps|
        invariant TransactionSpec(snapshot, steps[..i], originalId, duplicateId) == Ok(tables)
      {
        assert steps[..i + 1][..i] == steps[..i];
        err := RunStep(steps[i], originalId, duplicateId);
        if err.Some? {
          TransactionStopsAtError(snapshot, steps, i + 1, originalId, duplicateId);
          tables := snapshot;
          return;
        }
        i := i + 1;
      }
      assert steps[..i] == steps;
      return None;
    }

    /** One pass of the main loop's body (lines 533-567). */
    method ProcessPair(originalId: int, duplicateId: int) returns (err: Option<Error>)
      modifies this
      ensures Outcome(tables, err) == PairSpec(old(tables), originalId, duplicateId)
    {
      var duplicateCommunity := IsDuplicateCommunity(originalId, duplicateId);
      if duplicateCommunity.Err? {
        return Some(duplicateCommunity.error);
      }
      if !duplicateCommunity.value {
        return None;
      }
      ghost var start := tables;
      var k := 0;
      while k < |PairTransactions|
        invariant 0 <= k <= |PairTransactions|
        invariant TransactionsSpec(start, PairTransactions[..k], originalId, duplicateId) == Outcome(tables, None)
      {
        assert PairTransactions[..k + 1][..k] == PairTransactions[..k];
        err := Transaction(PairTransactions[k], originalId, duplicateId);
        if err.Some? {
          TransactionsStopAtError(start, PairTransactions, k + 1, originalId, duplicateId);
          return;
        }
        k := k + 1;
      }
      assert PairTransactions[..k] == PairTransactions;
      return None;
    }

    /** The main loop (lines 521-575): each group's pair in turn; the first error ends the run. */
    method Run(csv: seq<CsvRow>) returns (err: Option<Error>)
      modifies this
      ensures Outcome(tables, err) == RunSpec(old(tables), Pairs(csv))
    {
      var grouped := IdGroups(csv);
      ghost var ps := Pairs(csv);
      ghost var start := tables;
      IdGroupsNonEmpty(csv);
      var index := 0;
      err := None;
      while index < |grouped|
        invariant 0 <= index <= |grouped|
        invariant RunSpec(start, ps[..index]) == Outcome(tables, None) && err == None
      {
        var ids := grouped[index];
        var originalId := Min(ids);
        var duplicateId := Max(ids);
        assert ps[index] == Pair(originalId, duplicateId);
        RunSpecStep(start, ps, index);
        err := ProcessPair(originalId, duplicateId);
        if err.Some? {
          RunStopsAtError(start, ps, index + 1);
          return;
        }
        index := index + 1;
      }
      assert ps[..index] == ps;
    }
  }
}
