# fix-lemmy-db, modelled in Dafny

Two Ruby scripts repair a Lemmy database in which some communities exist
twice.

- `find_duplicate_csv_rows.rb` reads an export of the community table. It
  groups the rows by the actor id in column 9 and writes out every row
  whose actor id occurs more than once. The rows of one id stay together,
  and the groups come out in the order their ids were first seen.
- `fix-duplicate-communities.rb` reads that list back. It drops rows marked
  `fixed`, groups the ids by column 10 and repairs each group's pair: the
  smallest id is the original and the largest is the duplicate. For each
  pair it:
  1. checks that both communities exist;
  2. merges twelve community-scoped tables, in two transactions. A row of
     the duplicate community that matches an original row on the
     `unique_on` columns is deleted. Every other row is re-pointed to the
     original community;
  3. deletes the duplicate's rows from the two aggregate tables;
  4. copies the most recently refreshed community row's columns onto the
     smaller id, then deletes the larger id.

  Each step runs in its own transaction, and the first error ends the run.

The model has one module per concern:

| module | file | what it holds |
|---|---|---|
| `Wrappers` | `wrappers.dfy` | `Option` and `Result` |
| `Csv` | `csv.dfy` | CSV rows as sequences of nil-able fields |
| `Grouping` | `grouping.dfy` | grouping rows by a column, keys in first-seen order |
| `DuplicateFinder` | `duplicate_finder.dfy` | `find_duplicates`: the Hash-building loop and the output loop as methods, proved against the function `Duplicates` |
| `RubyInt` | `ruby_int.dfy` | `String#to_i`, used on column 1 |
| `DuplicatePairs` | `pairs.dfy` | the id groups and the (min, max) pair of each |
| `Records` | `records.dfy` | database rows (column name to value), tables, and `where community_id` selections |
| `Sql` | `sql.dfy` | the write statements the script sends, as functions on a table, and the errors that end a run |
| `Merge` | `merge.dfy` | `compare_and_merge_records` as functions: keys, the `duplicates` / `unique_rows` split, the statements sent, and the table that results |
| `Cleanup` | `cleanup.dfy` | the duplicate gate and `final_community_cleanup`: the survivor by `last_refreshed_at`, the kept id and the deleted id, and the SET list |
| `Repair` | `repair.dfy` | the class `Database`, whose methods are the script's functions and main loop. Each method is proved equal to a specification function over the tables |

Modelling choices:

- **Rows.** A database row is a map from column names to `Null`, `Int` or
  `Text`. The integer columns (`id`, `community_id`) hold `Int` values.
- **WHERE clauses.** The script builds each WHERE clause from a row's
  column values. The model treats such a clause as matching exactly that
  row.
- **Query order.** A query returns rows in the table's stored order.
- **The input CSV.** `CSV.readlines(..., headers: false)` keeps the header
  line as a row, whose id reads as `"id".to_i = 0`. The header joins the
  group of its column-10 value like any other row. A group whose ids are
  all equal, such as a header row alone in its group, has the same original
  and duplicate id. With `id` as the community table's primary key such a
  pair never passes the gate (`Repair.EqualIdsPairSkipped`).
- **Logged and executed DELETE.** `final_community_cleanup` logs a DELETE
  of the survivor's id (line 199) but executes a DELETE of the larger id
  (line 208). The model follows the executed statement.
  `Cleanup.LoggedDeleteMayDiffer` shows a table on which the two
  statements differ. Only the log is affected, so this is not listed as a
  finding.
- **`DRY_RUN`.** The constant is `false` in the source, so the model
  always writes.

## Model

| member | source | states |
|---|---|---|
| `DuplicateFinder.Store` | find_duplicate_csv_rows.rb:12-18 | `lines[actor_id] = ...` sets that key, keeps every other key, and appends a new key to the insertion order only when the key is new |
| `DuplicateFinder.BuildGroups` | find_duplicate_csv_rows.rb:8-19 | after the loop, the Hash's keys are the actor ids in first-seen order; each entry's count equals the number of its rows; its rows are exactly the input rows with that id, in input order; the counts add up to the number of rows |
| `DuplicateFinder.FindDuplicates` | find_duplicate_csv_rows.rb:4-31 | the output is `Duplicates` of the data rows, with the header row skipped (`headers: true`) |
| `DuplicateFinder.WriteDuplicates` | find_duplicate_csv_rows.rb:22-30 | given the Hash the first pass built, the output loop writes, key after key in insertion order, the rows of each key counted more than once |
| `DuplicateFinder.WriteRows` | find_duplicate_csv_rows.rb:26-28 | writes one group's rows after those already written, in order |
| `DuplicateFinder.CountSumIsGroupSizes` | find_duplicate_csv_rows.rb:16 | the counts the loop keeps add up to the sizes of the groups |
| `DuplicateFinder.GatherPerKey` | find_duplicate_csv_rows.rb:23-29 | emitting the groups of distinct keys gives, for each key, exactly that key's group |
| `DuplicateFinder.DuplicatesPerKey` | find_duplicate_csv_rows.rb:24 | for each actor id, the output holds all of its rows when it occurs at least twice, and none otherwise |
| `DuplicateFinder.EmittedKeysRepeat` | find_duplicate_csv_rows.rb:24 | every output row's actor id occurs at least twice in the input; no row of an id that occurs once is written |
| `DuplicateFinder.MultisetByKey` | find_duplicate_csv_rows.rb:9 | a row occurs as often in a sequence as in that sequence's group for the row's id |
| `DuplicateFinder.KeptPerKey` | find_duplicate_csv_rows.rb:24 | filtering rows by repeated id can be done group by group |
| `DuplicateFinder.DuplicatesMultiset` | find_duplicate_csv_rows.rb:22-30 | the output is a permutation of the input rows whose actor id repeats |
| `DuplicateFinder.GatherSorted` | find_duplicate_csv_rows.rb:23 | emitted rows are ordered by the position of their key in the key order |
| `DuplicateFinder.DuplicatesGroupedInFirstSeenOrder` | find_duplicate_csv_rows.rb:23-28 | the rows of one id are contiguous, and the groups appear in the order their ids were first seen |
| `DuplicateFinder.Fetch` | find_duplicate_csv_rows.rb:12-15 | `lines.fetch(actor_id, {count: 0, data: []})`: the key's record, or the default record when the key is absent |
| `DuplicateFinder.Block` | find_duplicate_csv_rows.rb:24-28 | what the output pass writes for one key: all of its rows when there is more than one, nothing otherwise |
| `DuplicateFinder.Gather` | find_duplicate_csv_rows.rb:23-29 | the blocks of the given keys, one after the other |
| `DuplicateFinder.Duplicates` | find_duplicate_csv_rows.rb:22-30 | the specification of the output: the blocks of the actor ids in first-seen order. `DuplicatesPerKey`, `DuplicatesMultiset` and `DuplicatesGroupedInFirstSeenOrder` say what it holds |
| `DuplicateFinder.Kept` | find_duplicate_csv_rows.rb:24 | an independent reference for the output's contents: the input rows, in input order, whose actor id occurs more than once |
| `Grouping.WithKey` | find_duplicate_csv_rows.rb:17 | a group holds only rows with its key and is no longer than the input |
| `Grouping.WithKeyAppend` | find_duplicate_csv_rows.rb:17 | grouping distributes over concatenation |
| `Grouping.InWithKey` | find_duplicate_csv_rows.rb:17 | a row is in its own key's group exactly when it is in the input |
| `Grouping.WithKeyOfGroup` | find_duplicate_csv_rows.rb:8-19 | regrouping a group by the same column gives the group for the same key, and nothing for any other key |
| `Grouping.FirstSeenKeysSpec` | find_duplicate_csv_rows.rb:12-18 | the insertion order has no repeats, and it holds a key exactly when some row has that key |
| `Grouping.FirstSeenOrder` | find_duplicate_csv_rows.rb:23 | a key earlier in the insertion order first occurs earlier in the input |
| `Grouping.IndexOf` | find_duplicate_csv_rows.rb:23 | the position of a key is its first occurrence |
| `Grouping.OccurrencesDistinct` | find_duplicate_csv_rows.rb:18 | a key occurs once in a repeat-free key list that contains it, and not at all otherwise |
| `Grouping.SumSizesSnoc` | find_duplicate_csv_rows.rb:16 | one more row adds one to its own group's size only |
| `Grouping.GroupSizesSum` | fix-duplicate-communities.rb:509 | the groups' sizes add up to the number of rows |
| `Grouping.FirstSeenKeys` | fix-duplicate-communities.rb:509 | the keys of `group_by` and of an insertion-ordered Hash: each distinct column value once, in order of first occurrence; `FirstSeenKeysSpec` and `FirstSeenOrder` state this |
| `Csv.At` | fix-duplicate-communities.rb:508-510 | `row[i]`: the i-th field, nil when the field is empty or past the end of the row |
| `Csv.DataRows` | find_duplicate_csv_rows.rb:8 | `CSV.foreach(..., headers: true)` yields every line but the first |
| `RubyInt.Digits` | fix-duplicate-communities.rb:510 | the decimal digits of a natural number are non-empty and all digits |
| `RubyInt.FoldSnoc` | fix-duplicate-communities.rb:510 | reading one more digit multiplies by ten and adds the digit |
| `RubyInt.ScanAllDigits` | fix-duplicate-communities.rb:510 | `to_i` scanning a run of digits is their decimal value |
| `RubyInt.FoldDigits` | fix-duplicate-communities.rb:510 | a natural number's digits read back as that number |
| `RubyInt.ToIDecimal` | fix-duplicate-communities.rb:510 | `n.to_s.to_i == n` for every integer, negative ones included |
| `RubyInt.ToI` | fix-duplicate-communities.rb:510 | `String#to_i` in base 10: leading white space is skipped, then an optional sign, an optional `0d`/`0D` prefix, and the digits, with single underscores allowed between digits; no digits read as 0 |
| `RubyInt.ToIPrefixed` | fix-duplicate-communities.rb:510 | `"0d<digits>"`, `"0D<digits>"` and their negations read as the number the digits spell |
| `RubyInt.FieldToI` | fix-duplicate-communities.rb:510 | `arr[1].to_i`, where a nil field reads as 0 |
| `DuplicatePairs.Unfixed` | fix-duplicate-communities.rb:508 | a row is kept exactly when it is in the input and column 0 is not `fixed` |
| `DuplicatePairs.Min` | fix-duplicate-communities.rb:529 | `ids.min` is one of the ids and no id is smaller |
| `DuplicatePairs.Max` | fix-duplicate-communities.rb:530 | `ids.max` is one of the ids and no id is larger |
| `DuplicatePairs.IdGroupsNonEmpty` | fix-duplicate-communities.rb:509-510 | `group_by` makes no empty group, so `min` and `max` never give nil |
| `DuplicatePairs.PairBoundsGroup` | fix-duplicate-communities.rb:529-530 | original id ≤ every id of the group ≤ duplicate id; both ids come from the group; `fix_posts` never reports a pair |
| `DuplicatePairs.TotalLengthOver` | fix-duplicate-communities.rb:509-510 | the id lists are as long as the groups |
| `DuplicatePairs.IdCount` | fix-duplicate-communities.rb:507-510 | the id lists together hold one id per row not marked `fixed` |
| `DuplicatePairs.IdsComeFromUnfixedRows` | fix-duplicate-communities.rb:507-510 | each id of group g is `to_i` of column 1 of an unfixed row whose column 10 is group g's key |
| `DuplicatePairs.UnfixedRowsGiveIds` | fix-duplicate-communities.rb:507-510 | every unfixed row gives its id to the group of its column-10 key |
| `DuplicatePairs.IsFixed` | fix-duplicate-communities.rb:508 | a row is marked fixed when its column 0 is exactly `fixed` |
| `DuplicatePairs.Ids` | fix-duplicate-communities.rb:510 | `v.map` with `arr[1].to_i`: one id per row of a group, in row order |
| `DuplicatePairs.IdGroups` | fix-duplicate-communities.rb:507-510 | `grouped`: the unfixed rows grouped by column 10 in first-seen order, each group as its list of ids; `IdCount`, `IdsComeFromUnfixedRows` and `UnfixedRowsGiveIds` say what it holds |
| `DuplicatePairs.PairOf` | fix-duplicate-communities.rb:529-530 | a group's pair: its smallest id as the original and its largest as the duplicate |
| `Repair.Pairs` | fix-duplicate-communities.rb:521-530 | one pair per group; each pair is that group's (min, max); original ≤ duplicate, both in the group |
| `Records.Among` | fix-duplicate-communities.rb:71-77 | `where community_id` keeps exactly the rows whose community is (or is not) among the given ones |
| `Records.Repointed` | fix-duplicate-communities.rb:140-142 | `SET community_id = o` changes that column and no other |
| `Records.AmongAppend` | fix-duplicate-communities.rb:71-77 | a selection distributes over concatenation |
| `Records.AmongNone` | fix-duplicate-communities.rb:71-77 | a selection that no row qualifies for is empty |
| `Records.AmongAfterDrop` | fix-duplicate-communities.rb:164 | deleting some communities leaves the rows of every other community, in order |
| `Records.AmongSizes` | fix-duplicate-communities.rb:164 | the rows selected and the rows left add up to the table |
| `Records.RowsOf` | fix-duplicate-communities.rb:71-77 | `select * from <table> where community_id = c`: the rows of community c, in stored order |
| `Sql.WithoutListed` | fix-duplicate-communities.rb:106-126 | the DELETE removes exactly the listed rows of the duplicate community |
| `Sql.RepointWhere` | fix-duplicate-communities.rb:140-144 | an UPDATE keeps the number of rows |
| `Sql.RepointWhereRows` | fix-duplicate-communities.rb:140-144 | an UPDATE changes only the rows equal to its row in the duplicate community, and moves each to the original |
| `Sql.WithoutId` | fix-duplicate-communities.rb:208 | `DELETE ... WHERE id = n` removes exactly the rows with id n |
| `Sql.UpdateWhereId` | fix-duplicate-communities.rb:205 | `UPDATE ... WHERE id = n` keeps the number of rows |
| `Sql.UpdateWhereIdMembers` | fix-duplicate-communities.rb:205 | after `UPDATE ... WHERE id = n`, the table holds exactly the rows with id n with the SET values applied, and the other rows as they were |
| `Sql.ApplyAllAppend` | fix-duplicate-communities.rb:106-147 | running two statement lists in turn is running their concatenation |
| `Sql.Apply` | fix-duplicate-communities.rb:120-210 | what one `transaction.exec` write does to its table: the multi-row DELETE (line 122), a re-pointing UPDATE (line 142), the aggregate DELETE (line 164), the UPDATE by id (line 205) and the DELETE by id (line 208) |
| `Sql.ApplyAll` | fix-duplicate-communities.rb:106-147 | the writes sent one after the other, each on the table the previous one left |
| `Merge.FetchValues` | fix-duplicate-communities.rb:89-91 | `fetch_values` succeeds exactly when every column is present, and gives their values in order; otherwise it raises for a missing column |
| `Merge.FetchValuesAgree` | fix-duplicate-communities.rb:91 | two rows' fetched values are equal exactly when the rows agree on every column |
| `Merge.SameKeyIff` | fix-duplicate-communities.rb:82-91 | two rows' keys are equal exactly when the rows agree on the compared columns. These are all columns but `id` and `community_id`, or else the `unique_on` columns |
| `Merge.KeysSpec` | fix-duplicate-communities.rb:82-91 | the keys of `rows_id1` fail exactly when a row lacks a `unique_on` column; otherwise there is one key per row, in order |
| `Merge.MatchesIff` | fix-duplicate-communities.rb:86-93 | a duplicate row is in `duplicates` exactly when some original row has the same key |
| `Merge.ClassifyMatched` | fix-duplicate-communities.rb:86-103 | the `select` and the `reject` are the rows that match and the rows that do not |
| `Merge.MatchedMembers` | fix-duplicate-communities.rb:86-103 | a row is in `duplicates` exactly when it matches, and in `unique_rows` exactly when it does not |
| `Merge.MatchedCounts` | fix-duplicate-communities.rb:86-103 | `duplicates` and `unique_rows` partition the duplicate rows as a multiset, so the two counts add up to their number |
| `Merge.MatchedKeepsOrder` | fix-duplicate-communities.rb:87-92 | `duplicates` is a subsequence of `rows_id2` |
| `Merge.UnmatchedKeepsOrder` | fix-duplicate-communities.rb:97-102 | `unique_rows` is a subsequence of `rows_id2` |
| `Merge.ClassifyFails` | fix-duplicate-communities.rb:90-92 | the split raises exactly when a duplicate row lacks a `unique_on` column |
| `Merge.SplitFails` | fix-duplicate-communities.rb:82-103 | the merge fails before writing exactly when a row of either community lacks a `unique_on` column |
| `Merge.MergedTableAppend` | fix-duplicate-communities.rb:106-147 | the merged table distributes over concatenation |
| `Merge.MergeLeavesOthers` | fix-duplicate-communities.rb:106-147 | rows outside the two communities are left exactly as they were, in order |
| `Merge.MergedRows` | fix-duplicate-communities.rb:106-147 | characterises every row of the merged table: a row of another community, an original row, or a re-pointed unmatched duplicate row |
| `Merge.MergeEmptiesDuplicate` | fix-duplicate-communities.rb:106-147 | when the ids differ, no row of the duplicate community is left |
| `Merge.MergeGrowsOriginal` | fix-duplicate-communities.rb:129-147 | the original community gains exactly one row per row of `unique_rows` |
| `Merge.MergeSize` | fix-duplicate-communities.rb:106-126 | the table shrinks by exactly the size of `duplicates` |
| `Merge.WithoutCommunitySpec` | fix-duplicate-communities.rb:159-170 | the aggregate DELETE leaves no row of the duplicate, keeps every other community's rows in order, and shrinks the table by the duplicate's row count |
| `Merge.MergeStatementsShape` | fix-duplicate-communities.rb:106-147 | a DELETE is sent exactly when `duplicates` is non-empty; it comes first, names the duplicate community and lists `duplicates`. The i-th UPDATE after it re-points the i-th row of `unique_rows` from the duplicate to the original |
| `Merge.DeleteStaged` | fix-duplicate-communities.rb:106-126 | the DELETE of the matching rows is the first stage of the merge |
| `Merge.RepointStaged` | fix-duplicate-communities.rb:140-144 | each UPDATE of an unmatched row advances the merge by that row |
| `Merge.StagedComplete` | fix-duplicate-communities.rb:129-147 | once every unmatched row is updated, the table is the merged table |
| `Merge.RepointsStaged` | fix-duplicate-communities.rb:130-146 | the DELETE and the first k UPDATEs give the stage with the first k unique rows updated |
| `Merge.WithoutListedNothing` | fix-duplicate-communities.rb:106 | with no duplicates the DELETE would change nothing |
| `Merge.UnmatchedCovered` | fix-duplicate-communities.rb:96-103 | every unmatched row of the duplicate community is in `unique_rows` |
| `Merge.AllRepointsStaged` | fix-duplicate-communities.rb:106-147 | all the statements together give the stage with every unique row updated |
| `Merge.MergeStatementsEffect` | fix-duplicate-communities.rb:106-147 | the statements the merge sends, run in order, turn the table into the merged table |
| `Merge.KeyOf` | fix-duplicate-communities.rb:82-91 | a row's comparison key: its columns except `id` and `community_id`, or with `unique_on` the values `fetch_values` gives, raising for a missing column |
| `Merge.Keys` | fix-duplicate-communities.rb:82-91 | `id1_keys` / `one`: the keys of `rows_id1` in order, or the first KeyError; `KeysSpec` states this |
| `Merge.Classify` | fix-duplicate-communities.rb:86-103 | the `select` and the `reject` over `rows_id2` together; `ClassifyMatched`, `MatchedCounts` and the order lemmas state what they give |
| `Merge.SplitRows` | fix-duplicate-communities.rb:82-103 | the keys of the original rows first, then the classification of the duplicate rows; `SplitFails` gives its error cases |
| `Merge.MergedTable` | fix-duplicate-communities.rb:106-147 | the table after the merge: each duplicate-community row is dropped when it matches and re-pointed otherwise; `MergeStatementsEffect` proves the sent statements produce it |
| `Merge.MergeStatements` | fix-duplicate-communities.rb:106-147 | the statements the merge sends; `MergeStatementsShape` gives their shape |
| `Merge.Repoints` | fix-duplicate-communities.rb:129-146 | one re-pointing UPDATE per row of `unique_rows`, in order |
| `Merge.WithoutCommunity` | fix-duplicate-communities.rb:159-170 | the aggregate DELETE of every row of the duplicate community; `WithoutCommunitySpec` states its effect |
| `Cleanup.CommunityQuery` | fix-duplicate-communities.rb:52 | the query returns exactly the community rows with either id |
| `Cleanup.QueryUniqueIds` | fix-duplicate-communities.rb:52 | under the primary key, the query's rows have distinct ids |
| `Cleanup.GateIff` | fix-duplicate-communities.rb:52-58 | the query returns more than one row exactly when the ids differ and both communities exist |
| `Cleanup.Compare` | fix-duplicate-communities.rb:177 | `<=>` is defined exactly for two values of the same class |
| `Cleanup.CompareTextProps` | fix-duplicate-communities.rb:177 | `String#<=>` gives -1, 0 or 1, swapping the operands negates it, and it gives 0 exactly on equal strings |
| `Cleanup.CompareTextTrans` | fix-duplicate-communities.rb:177 | `String#<=>` is transitive |
| `Cleanup.CompareOrder` | fix-duplicate-communities.rb:177 | on values of one class `<=>` is reflexive, antisymmetric, total and transitive, strictly so when one step is strict |
| `Cleanup.MostRecentIsFirstMax` | fix-duplicate-communities.rb:177 | `max` gives a row of the result that no row is more recent than, and every earlier row is strictly older |
| `Cleanup.MostRecentEmpty` | fix-duplicate-communities.rb:177-179 | `max` gives nil exactly for no rows |
| `Cleanup.MostRecentFails` | fix-duplicate-communities.rb:177 | `max` raises exactly when two rows' `last_refreshed_at` are of different classes |
| `Cleanup.SetList` | fix-duplicate-communities.rb:185-194 | the SET list holds exactly the survivor's columns except `id` and `description`, with the survivor's values |
| `Cleanup.CleanupStatementsApply` | fix-duplicate-communities.rb:205-210 | the two writes are the UPDATE of the target id, then the DELETE of the other id |
| `Cleanup.PlanSpec` | fix-duplicate-communities.rb:176-194 | the smaller of the two ids is kept and the larger deleted, whichever row survives; the survivor is a queried row no queried row is more recent than; the SET list is as above |
| `Cleanup.PlanFails` | fix-duplicate-communities.rb:176-179 | the cleanup stops before any write exactly when `max` raises or no row exists |
| `Cleanup.CleanupEffect` | fix-duplicate-communities.rb:205-210 | for a SET list without `id`, as every plan's is: afterwards every row that had the target id is in the table with the SET values applied, no row has the deleted id, and every other row is unchanged |
| `Cleanup.LoggedDeleteMayDiffer` | fix-duplicate-communities.rb:199-208 | on a concrete table, the logged DELETE names id 1 while id 2 is deleted |
| `Cleanup.MostRecent` | fix-duplicate-communities.rb:177 | `result.max` by `last_refreshed_at`: nil for no rows, an error when `<=>` gives nil, else the first maximal row; `MostRecentIsFirstMax`, `MostRecentEmpty` and `MostRecentFails` state this |
| `Cleanup.PlanCleanup` | fix-duplicate-communities.rb:177-194 | what the cleanup decides before writing: the survivor, the kept and deleted ids, and the SET list; `PlanSpec` and `PlanFails` state this |
| `Cleanup.CleanupStatements` | fix-duplicate-communities.rb:205-208 | the UPDATE of the target id, then the DELETE of the larger id |
| `Cleanup.LoggedDeleteId` | fix-duplicate-communities.rb:199 | the id the logged DELETE names: the survivor's |
| `Repair.MergeSpecFrame` | fix-duplicate-communities.rb:65-155 | a merge changes only its own table, and only the two communities' rows in it |
| `Repair.PairNeedsGate` | fix-duplicate-communities.rb:538 | a pair that fails the gate changes nothing |
| `Repair.EqualIdsPairSkipped` | fix-duplicate-communities.rb:529-538 | a group whose ids are all equal gives a pair whose ids are equal; under the primary key its gate is false, and the pair changes nothing and raises nothing |
| `Repair.RunStopsAtError` | fix-duplicate-communities.rb:521-575 | once a pair fails, later pairs do not change the outcome |
| `Repair.TransactionStopsAtError` | fix-duplicate-communities.rb:539-545 | once a step fails, the transaction's outcome is that failure |
| `Repair.TransactionsStopAtError` | fix-duplicate-communities.rb:539-566 | once a transaction fails, later transactions do not run |
| `Repair.StepClears` | fix-duplicate-communities.rb:540-565 | after a successful step, its table has no row of the duplicate community, or for the cleanup no row with the larger id |
| `Repair.ClearedKept` | fix-duplicate-communities.rb:539-566 | a step on one table keeps another table cleared |
| `Repair.TransactionClears` | fix-duplicate-communities.rb:539-545 | after a successful transaction, every table it touched is cleared |
| `Repair.TransactionsClear` | fix-duplicate-communities.rb:539-566 | after the pair's transactions all succeed, every table each of them touched is cleared |
| `Repair.PairTablesDistinct` | fix-duplicate-communities.rb:539-566 | no table is touched by two steps of a pair |
| `Repair.PairClearsDuplicate` | fix-duplicate-communities.rb:533-567 | after a pair that passes the gate and runs without error, no merged or aggregate table holds a row of the duplicate community, and the larger id's community row is gone |
| `Repair.GateSpec` | fix-duplicate-communities.rb:49-62 | the gate: more than one row with either id, or an error without a community table; `GateIff` states when it holds |
| `Repair.MergeSpec` | fix-duplicate-communities.rb:65-155 | the tables after one merge, or a missing table or KeyError; `MergeSpecFrame` and `StepClears` state its effect |
| `Repair.AggregateSpec` | fix-duplicate-communities.rb:159-170 | the tables after the aggregate DELETE, or a missing table |
| `Repair.CleanupSpec` | fix-duplicate-communities.rb:173-213 | the tables after the final cleanup, or its error: a missing `community` or `post` table, a failed `max`, no community row, or an empty SET list |
| `Repair.StepSpec` | fix-duplicate-communities.rb:540-565 | one call in a transaction body, by its kind |
| `Repair.TransactionSpec` | fix-duplicate-communities.rb:539-545 | the calls of one transaction in turn, ending at the first error |
| `Repair.TransactionsSpec` | fix-duplicate-communities.rb:539-566 | the transactions in turn; a failing one is rolled back and ends the run |
| `Repair.PairSpec` | fix-duplicate-communities.rb:533-567 | one pair: the gate, then the transactions when it holds |
| `Repair.RunSpec` | fix-duplicate-communities.rb:521-575 | the main loop: the pairs in turn until one fails |
| `Repair.PairTransactions` | fix-duplicate-communities.rb:539-566 | the six transactions of a duplicate pair, in order: five merges, then seven merges, each with its `unique_on` columns; `fix_posts`; the two aggregate deletes; the final cleanup |
| `Repair.Database.constructor` | fix-duplicate-communities.rb:495-501 | the database holds the given tables |
| `Repair.Database.Exec` | fix-duplicate-communities.rb:122 | a write to an existing table applies the statement to that table alone; a missing table raises and writes nothing |
| `Repair.Database.IsDuplicateCommunity` | fix-duplicate-communities.rb:49-62 | reads the tables and returns the gate: true when the query returns more than one row, or an error when there is no community table |
| `Repair.Database.CompareAndMergeRecords` | fix-duplicate-communities.rb:65-155 | on an error, nothing is written or sent. Otherwise the table becomes the merge specification's result, the statements sent are the DELETE and UPDATEs of the split, and the counts are the sizes of `duplicates` and `unique_rows`, adding up to the duplicate community's rows |
| `Repair.Database.SendMerge` | fix-duplicate-communities.rb:106-147 | sends the merge's statements and applies them to the one table |
| `Repair.Database.UpdateUniqueRows` | fix-duplicate-communities.rb:129-147 | the loop sends one re-pointing UPDATE per unique row, in order, and applies each |
| `Repair.Database.DeleteRecordsFromDuplicateId` | fix-duplicate-communities.rb:159-170 | the table loses the duplicate community's rows, or nothing changes and the error is returned |
| `Repair.Database.FinalCommunityCleanup` | fix-duplicate-communities.rb:173-213 | agrees with the cleanup specification: on success the community table is updated and the larger id deleted; on error nothing changes |
| `Repair.Database.WriteCleanup` | fix-duplicate-communities.rb:205-210 | applies the UPDATE and the DELETE to the community table alone |
| `Repair.Database.FixPosts` | fix-duplicate-communities.rb:215-222 | reports exactly when the original id exceeds the duplicate id, and changes nothing |
| `Repair.Database.RunStep` | fix-duplicate-communities.rb:540-565 | one call of a transaction body agrees with its specification |
| `Repair.Database.Transaction` | fix-duplicate-communities.rb:539-545 | runs the steps in turn; on an error it restores the tables from before the transaction |
| `Repair.Database.ProcessPair` | fix-duplicate-communities.rb:533-567 | runs the gate, then the six transactions when the gate holds, stopping at the first error; the tables and error equal the pair specification |
| `Repair.Database.Run` | fix-duplicate-communities.rb:521-575 | processes the groups' pairs in order, stopping at the first error; the final tables and error equal the run specification on `Pairs(csv)` |

## Left out

- Logging is left out because it has no effect on the data: `log`, `puts`, `p`, and the printed query results and row listings.
- `Benchmark.realtime` is left out because it only measures time.
- The SSH tunnel and the PG connection (lines 10-35 and 486-505) are left out. They are I/O, and the database is the `Database` object.
- `SELECT version()` is left out because it does not touch the data.
- The DDL constants and the commented-out DDL (disabling triggers, dropping and recreating) are left out. None of it runs in the core.
- The `ensure` block that re-enables triggers (lines 596-603) is left out because it runs DDL outside the core.
- The SQL text is left out: the WHERE clauses, `escape_string`, and the `E'...'` quoting. A clause built from a row is modelled as matching that row.
- A row that agrees with a listed row on every column but `id` and `body` is not modelled. The real WHERE clause would match it too, but the model does not.
- `SELECT * FROM post WHERE community_id = ...` (line 201) is modelled only by its failure when the `post` table is missing. Its result is only printed.
- Database-side errors from the UPDATEs are left out: constraint violations, unique-key clashes and type errors. The model's only statement error is a missing table.
- Reading and writing the CSV files is left out because it is file I/O. `find_duplicates` takes the file's lines and returns the rows it would write. No header line is written, as in the source.
- Disagreements between the column names of one table's rows are left out. A table's rows are assumed to share one schema.
- PostgreSQL returns every value as text; the model gives `id` and `community_id` integer values. `to_i` on the ids read from the CSV is modelled (`RubyInt.ToI`).
- `DRY_RUN` is fixed at `false`, as in the source. The dry-run branch, which only logs, is left out.
- Exceptions other than the ones listed in `Sql.Error` are left out, and so is the rescue's message. The rescue at the top (lines 592-595) makes every error end the run.
