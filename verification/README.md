# QueryLens detection engine: a verified model

QueryLens takes snapshots of a PostgreSQL or MySQL server and its detection
engine turns each one into findings. This project models the five parts of the
engine whose answers depend on each other and proves what their users rely on.

| files | component |
|---|---|
| `UnusedIndex`, `UnusedIndexRules`, `UnusedIndexSafety`, `UnusedIndexStability` | AP-05, the advice to drop redundant and unused indexes: the detector, what dropping everything it reports costs, and what the rule reports after that |
| `IndexTree`, `IndexTreeRules`, `MissingIndex`, `NonSargable`, `IndexFixRules`, `IndexRules` | AP-04 and AP-03, which read an AND/OR predicate and repair it with an index or with a rewriting, and how the two rules meet |
| `DeadlockReports`, `DeadlockRules`, `DeadlockClassification` | CT-01 to CT-04 and unclassified: the rules on a deadlock report, the cycle behind it, which rules can accept the same report |
| `WaitGraphs`, `Cascade`, `CascadeRules`, `DeadlockDetector`, `DeadlockDetectorRules`, `Contention`, `ContentionRules`, `ContentionFacade`, `ContentionRaces` | the contention state machine: graph search, CT-05 over samples, duplicate reports and recurrence, one step per job, the stored rows, runs with redelivered and late jobs, workers that interleave |
| `StatementHistory`, `StatementRules` | the counters kept per query, their windows, the ring of means and the stored table |

`dafny verify dfyconfig.toml` checks the whole project.

## How it is modelled

Loops and objects of the engine are methods and classes here, each proved
against a function or predicate that says what it computes; lemmas then prove
the promises about those functions. The rest is functions.

A module named `...Rules` says of each rule, in terms of the snapshot alone and with
its numbers written out, exactly when it accepts and what it then names, so that the
functions of its component cannot say otherwise.

- An instant is an integer count of microseconds and a time in milliseconds is a
  `real`. `detected_at` and `transaction_start_time` are texts in the snapshot;
  the model takes them as instants, so two texts of one instant are the same.
- Lower-casing of names is a parameter, `fold`, and so every statement holds for
  any lower-casing. Names are ordered by code point (`Precedes`).
- Index objects are told apart by their position in the snapshot, as `is` does.
- The model starts from parsed predicates, parsed index definitions and, for
  CT-04, from the parsed statement. In AP-03 and AP-04 the leading columns of
  the table are a set that is given.
- Whether the statistics window is long enough (`mature`), the citations of indexes
  in plans, with their tables resolved, and the queries that filtered a table are
  inputs of AP-05. Which index a citation counts for depends on the indexes.
- The signature of a deadlock is any function of the report and its pattern.
- A table of the database is a map with the columns of its key; a transaction is
  one method. A worker that loads a state and saves it later is two actions.

## What turned out otherwise than documented

- `detection_engine/anti_patterns/unused_index.py:563` says that of two exact
  duplicates the two are never both reported. They are, as redundant, when a wider
  index covers both (`BothDuplicatesReported`) and, as unused, when nothing reads
  them (`BothUnreadDuplicatesReported`). `DuplicatesBothReportedExactlyWhen` says
  exactly when. What holds is that no two indexes cover each other
  (`CoversIsOneWay`) and that two duplicates are never reported one as redundant
  and the other as unused (`DuplicatesReportedAlike`).
- One round of AP-05 need not be the last. A plan that cites a dropped index then
  counts for another schema's index of that table and name, which can make a
  third one redundant (`AdviceNotSettled`) or report the keeper of a foreign key
  (`KeeperNotSettled`). `ReportedAfterExactlyWhen` says exactly what the next round
  reports, and `AdviceEnds` that the rounds end.
- AP-05 matches foreign keys to tables by lower-cased names and drops indexes by
  exact name. A foreign key always keeps an index under its lower-cased names,
  but a table can lose the index of its own foreign key to a table whose name
  differs only by case. `OwnBackersSurviveExactlyWhen` says on which snapshots.
- `detection_engine/deadlocks/deadlock_detector.py:37-39` says that the rules
  exclude each other. CT-04 and unclassified can both accept a report
  (`AmplifiedWithoutTargetsMatchesTwice`), and so can CT-01 and CT-02
  (`TwoRowWaitsMatchTwice`; `OrderIsConversionExactlyWhen` for all reports).
  `OrderDecidesNothing` says exactly for which reports the order is irrelevant.
- `detection_engine/deadlocks/state.py:206-207` says that a deadlock is in
  `deadlock_events` if and only if the memory has it. The memory forgets after
  ten minutes and the table does not (`MemoryForgets`). `MemoryMirrorsTable` is
  what always holds; `MemoryIsTableExactlyWhen`, `MemoryIsTableAgainExactlyWhen`
  and `RunRemembersTableExactlyWhen` say when the two agree.
- `detection_engine/deadlocks/deadlock_detector.py:4-8` says that each deadlock
  is found once. A report that comes back after ten minutes can be found again:
  `ReportsFoundInTurn` and `ReportFoundExactlyWhen` say exactly when.
- Two workers that load the same state and save one after the other can leave an
  event in the table that the memory lacks, even within the ten minutes
  (`RaceForgetsReport`); `SaveMirrorsExactlyWhen`, `OvertakenMirrorsExactlyWhen`
  and `RaceMirrorsExactlyWhen` say exactly when they do not. They can also both
  find one report (`RaceFindsTwice`, and `FoundTwiceExactlyWhen`).
- A job that is run again leaves `statement_samples` as it was, unless it dropped
  the row of an idle query that it brings (`RerunChangesNothing`, an if and only
  if).

## Model

| member | source | states |
|---|---|---|
| UnusedIndex.UsedIndexKeys | detection_engine/anti_patterns/unused_index.py:143-157 | the loop keeps of each citation its schema exactly when that schema has the index |
| UnusedIndex.SeenExactlyWhen | detection_engine/anti_patterns/unused_index.py:160-171 | an index is seen exactly when a plan cites it in its schema, or cites its table and name without a schema or in one that has no such index |
| UnusedIndex.KeepsOverTransitive | detection_engine/anti_patterns/unused_index.py:558-574 | the order that decides between exact duplicates is transitive |
| UnusedIndex.KeepsOverIsStrictTotal | detection_engine/anti_patterns/unused_index.py:558-574 | no index is kept over itself, and of two duplicates with different names exactly one is kept over the other |
| UnusedIndex.GroupByTable | detection_engine/anti_patterns/unused_index.py:592-595 | each table with its indexes in snapshot order, tables in order of first appearance, nothing lost |
| UnusedIndex.FindCover | detection_engine/anti_patterns/unused_index.py:614-642 | the search loop finds the first acceptable cover of an index of its table, says whether it is a duplicate, and finds none only if there is none in the whole snapshot |
| UnusedIndex.DetectRedundant | detection_engine/anti_patterns/unused_index.py:577-704 | reports exactly the redundant indexes, each with its first cover, table by table |
| UnusedIndex.Narrowest | detection_engine/anti_patterns/unused_index.py:462 | the minimum of the backers, the first on a tie |
| UnusedIndex.KeeperOf | detection_engine/anti_patterns/unused_index.py:453-463 | a foreign key gets a keeper exactly when it has backers and none of them stays anyway, and then it is the narrowest |
| UnusedIndex.FkProtectedIndexes | detection_engine/anti_patterns/unused_index.py:420-464 | the protected indexes are exactly the keepers of some foreign key |
| UnusedIndex.DetectUnused | detection_engine/anti_patterns/unused_index.py:467-555 | reports exactly the unused indexes, in snapshot order |
| UnusedIndex.DetectUnusedIndexes | detection_engine/anti_patterns/unused_index.py:707-730 | the whole rule: exactly the redundant and the unused indexes, with a valid explanation, and no index twice |
| UnusedIndexRules.UniqueIsNeverReported | detection_engine/anti_patterns/unused_index.py:609-612 | no unique index is ever reported |
| UnusedIndexRules.UniqueStays | detection_engine/anti_patterns/unused_index.py:609-612 | and so every unique index is still there after all the advice is followed |
| UnusedIndexRules.ReadExactlyWhen | detection_engine/anti_patterns/unused_index.py:411-417 | an index is read exactly when it has scans or a last scan, or a plan means it |
| UnusedIndexRules.RedundantExactlyWhen | detection_engine/anti_patterns/unused_index.py:596-642 | an index is redundant exactly when it is readable, not unique, with plain columns, of a table that queries filter, and another index of its table and method, not partial and read if the window is mature, starts with its columns or is a duplicate of it worth more |
| UnusedIndexRules.ExplanationHolds | detection_engine/anti_patterns/unused_index.py:614-642 | a finding of redundancy names the first such index, and says that it is a duplicate exactly when the columns are the same |
| UnusedIndexRules.DuplicateIsWorthLess | detection_engine/anti_patterns/unused_index.py:558-574 | an index reported as a duplicate is never unique, never read when its cover is unread and, where those agree, has no more scans than its cover |
| UnusedIndexRules.BacksExactlyWhen | detection_engine/anti_patterns/unused_index.py:435-459 | an index backs a foreign key exactly when it is not partial and its first columns, as many as the foreign key has, are those of the foreign key in any order |
| UnusedIndexRules.NeedsKeeperWhen | detection_engine/anti_patterns/unused_index.py:455-461 | a foreign key needs a keeper exactly when some index left backs it and none of those is unique or read |
| UnusedIndexRules.KeeperIsNarrowest | detection_engine/anti_patterns/unused_index.py:462-463 | the keeper has the fewest columns of them, and then the first name |
| UnusedIndexRules.UnusedIsIdle | detection_engine/anti_patterns/unused_index.py:475-506 | an index is unused exactly when the window is mature, it has zero scans, no plan means it, it is not unique, its table is filtered, and it is neither redundant nor kept for a foreign key |
| UnusedIndexSafety.RedundantHasKeptSubstitute | detection_engine/anti_patterns/unused_index.py:617-642 | every redundant index has an index that no finding reports, of the same table and method, not partial, that its columns are a prefix of |
| UnusedIndexSafety.CoverIsNeverUnused | detection_engine/anti_patterns/unused_index.py:586-589 | the index a finding recommends to keep is never reported as unused |
| UnusedIndexSafety.CoversIsOneWay | detection_engine/anti_patterns/unused_index.py:562-567 | no two indexes cover each other, so the advice never says of a pair to drop each in favour of the other |
| UnusedIndexSafety.DuplicatesBothRedundantExactlyWhen | detection_engine/anti_patterns/unused_index.py:562-567 | of two exact duplicates both are reported as redundant exactly when both are comparable and a third index covers the one to keep |
| UnusedIndexSafety.BothDuplicatesReported | detection_engine/anti_patterns/unused_index.py:563 | a snapshot where both are |
| UnusedIndexSafety.DuplicatesReportedAlike | detection_engine/anti_patterns/unused_index.py:586-589 | two exact duplicates are never reported one as redundant and the other as unused |
| UnusedIndexSafety.DuplicatesBothReportedExactlyWhen | detection_engine/anti_patterns/unused_index.py:562-567 | both are reported exactly when both are redundant by the condition above, or both look unused and no foreign key keeps either |
| UnusedIndexSafety.BothUnreadDuplicatesReported | detection_engine/anti_patterns/unused_index.py:588-589 | a snapshot where both are reported as unused |
| UnusedIndexSafety.ForeignKeysStayBacked | detection_engine/anti_patterns/unused_index.py:425-433 | drop everything that is reported: each foreign key that had an index still has one |
| UnusedIndexSafety.OwnBackersSurviveWithoutTwins | detection_engine/anti_patterns/unused_index.py:432-442 | and an index of its own table, if no two tables have names that differ only by case |
| UnusedIndexSafety.CaseTwinsLoseABacker | detection_engine/anti_patterns/unused_index.py:432-464 | for any lower-casing that merges two names, a snapshot where the only index of the table with the foreign key is reported |
| UnusedIndexSafety.UnusedExactlyWhen | detection_engine/anti_patterns/unused_index.py:475-506 | an index is reported as unused exactly when it looks unused, is not redundant and is the keeper of no foreign key |
| UnusedIndexSafety.KeepsOwnExactlyWhen | detection_engine/anti_patterns/unused_index.py:432-464 | a table keeps an index of its foreign key exactly when one of its backers is redundant, does not look unused or is a keeper |
| UnusedIndexSafety.OwnBackersSurviveExactlyWhen | detection_engine/anti_patterns/unused_index.py:432-464 | on each snapshot, tables keep the indexes of all their foreign keys exactly when each has such a backer |
| UnusedIndexSafety.LostToCaseTwin | detection_engine/anti_patterns/unused_index.py:432-464 | if one has none, a table whose name differs only by case keeps an index of the foreign key |
| UnusedIndexSafety.OwnBackersAlwaysSurviveExactlyWhen | detection_engine/anti_patterns/unused_index.py:432-464 | this is so on every snapshot exactly when lower-casing merges no two names |
| UnusedIndexStability.CleanedKeepsUnreported | detection_engine/anti_patterns/unused_index.py:707-730 | the cleaned snapshot is the snapshot without exactly the reported indexes |
| UnusedIndexStability.NewlySeenExactlyWhen | detection_engine/anti_patterns/unused_index.py:142-156 | dropping the reported indexes makes a kept one seen exactly when it was not and a plan cites a dropped index of the same table and name in another schema |
| UnusedIndexStability.RedundantAfterExactlyWhen | detection_engine/anti_patterns/unused_index.py:617-642 | a kept index is redundant on the cleaned snapshot exactly when it is comparable there and a newly seen one covers it |
| UnusedIndexStability.NeedsKeeperExactlyWhen | detection_engine/anti_patterns/unused_index.py:440-461 | in a mature window a foreign key needs a keeper exactly when it has backers and none of them stays anyway, redundant ones included |
| UnusedIndexStability.NeedsKeeperAfterExactlyWhen | detection_engine/anti_patterns/unused_index.py:440-461 | on the cleaned snapshot it needs one exactly when it needed one and no kept backer is newly seen |
| UnusedIndexStability.KeeperStaysKeeper | detection_engine/anti_patterns/unused_index.py:453-463 | and then the keeper is the same |
| UnusedIndexStability.UnusedAfterExactlyWhen | detection_engine/anti_patterns/unused_index.py:475-506 | a kept index is unused on the cleaned snapshot exactly when it looks unused, is not newly seen or redundant, and each foreign key that kept it has a newly seen backer |
| UnusedIndexStability.ReportedAfterExactlyWhen | detection_engine/anti_patterns/unused_index.py:707-730 | exactly what the rule reports on the cleaned snapshot |
| UnusedIndexStability.AdviceSettles | detection_engine/anti_patterns/unused_index.py:707-730 | where no kept index is newly seen it reports nothing |
| UnusedIndexStability.AdviceNotSettled | detection_engine/anti_patterns/unused_index.py:142-156 | a snapshot where the second round reports another index as redundant |
| UnusedIndexStability.KeeperNotSettled | detection_engine/anti_patterns/unused_index.py:453-463 | one where it reports the keeper of a foreign key |
| UnusedIndexStability.AdviceEnds | detection_engine/anti_patterns/unused_index.py:707-730 | followed again and again the advice ends, after no more rounds than there are indexes |
| UnusedIndexStability.ForeignKeysStayBackedAllAlong | detection_engine/anti_patterns/unused_index.py:425-433 | and all along each foreign key that had an index still has one |
| IndexTree.BuildConditionTree | detection_engine/anti_patterns/missing_index.py:173-183 | the loops that gather children build the flattened tree of the predicate |
| IndexTree.FlatteningKeepsUsable | detection_engine/anti_patterns/missing_index.py:173-193 | flattening AND and OR changes nothing about what can be used |
| IndexTree.ConditionTreeIsFlat | detection_engine/anti_patterns/missing_index.py:174-183 | no node has a child of its own kind, and each has two children or more |
| IndexTree.UsableMeansCovered | detection_engine/anti_patterns/missing_index.py:186-193 | a tree is usable exactly when, for every truth assignment to the conditions, a true predicate makes some indexed condition true |
| IndexTree.FixLeavesAreFixable | detection_engine/anti_patterns/missing_index.py:200-212 | a tree in need of a repair yields conditions to repair, and each of them can be |
| IndexTree.MarksNeverMix | detection_engine/anti_patterns/missing_index.py:200-212 | on a flattened tree the conditions to repair are all inside an OR or none is, and if none is they are plain parts of one AND |
| IndexTree.FixingAllWorks | detection_engine/anti_patterns/missing_index.py:200-212 | repairing every picked condition makes the tree usable |
| IndexTreeRules.EachConditionIsPicked | detection_engine/anti_patterns/missing_index.py:210-212 | every plain part of an AND that can be repaired is picked |
| IndexTreeRules.AndPicksItsConditions | detection_engine/anti_patterns/missing_index.py:210-212 | an AND with such parts picks all of them, in order, and nothing else |
| IndexTreeRules.AndOfOrsPicksInEach | detection_engine/anti_patterns/missing_index.py:210-212 | an AND of nothing but ORs picks, in order, what each OR that can be repaired picks |
| IndexTreeRules.OrPicksInEach | detection_engine/anti_patterns/missing_index.py:204-207 | an OR picks what each branch that needs a repair picks |
| IndexTreeRules.ChildrenAreParts | detection_engine/anti_patterns/missing_index.py:173-183 | the children of a flattened node are the parts of the predicate between its ANDs, or between its ORs, as they were written |
| IndexTreeRules.HasOrExactlyWhen | detection_engine/anti_patterns/missing_index.py:196-197 | a part is passed over in favour of plain ones exactly when an OR occurs in it |
| IndexTreeRules.FirstColumnByLevels | detection_engine/anti_patterns/non_sargable_predicate.py:214-228 | the first column of an expression is found level by level, the leftmost of each level first |
| IndexTreeRules.ValueExactlyWhen | detection_engine/anti_patterns/missing_index.py:126-129 | an operand is a value exactly when no column occurs in it |
| MissingIndex.IndexFix | detection_engine/anti_patterns/missing_index.py:225-263 | AP-04's fix of a predicate: none, or the columns of the picked conditions |
| MissingIndex.CollectColumns | detection_engine/anti_patterns/missing_index.py:247-263 | the loop collects each column once, in order, as equality, range and unverified, a column of both only as equality |
| IndexFixRules.ReadExactly | detection_engine/anti_patterns/missing_index.py:132-170 | a condition is read by exactly the column it is searched by: usable if that leads an index, else to repair |
| IndexFixRules.AndFixIsComposite | detection_engine/anti_patterns/missing_index.py:225-263 | for an AND with conditions that an index would serve the fix is exactly the columns of all of them, in order, as one composite index |
| IndexFixRules.EachSearchedColumnIsNamed | detection_engine/anti_patterns/missing_index.py:251-255 | so the column of every equality or range condition of the AND is in it |
| IndexFixRules.ConditionFixIsItsColumn | detection_engine/anti_patterns/missing_index.py:225-263 | for a single condition the fix is its column |
| IndexFixRules.OrFixIsPerBranch | detection_engine/anti_patterns/missing_index.py:204-207 | for an OR of conditions it is the columns without an index, one index each |
| IndexFixRules.NestedFixNamesExactly | detection_engine/anti_patterns/missing_index.py:200-212 | for an OR, and for an AND of nothing but ORs, it names exactly the columns that the fix of some part names by itself |
| IndexFixRules.SuggestionOrder | detection_engine/anti_patterns/missing_index.py:451-457 | the composite index has the equality columns in front; in an OR there is one index for each column |
| Basics.Distinct | detection_engine/anti_patterns/missing_index.py:253-255 | the same elements, none twice |
| Basics.DistinctKeepsOrder | detection_engine/anti_patterns/missing_index.py:253-255 | in order of first appearance |
| MissingIndex.FixNamesEveryColumn | detection_engine/anti_patterns/missing_index.py:251-263 | equality and range columns together are those of all the picked conditions |
| MissingIndex.ReadIsSearch | detection_engine/anti_patterns/missing_index.py:132-170 | what a condition is read as is a search of a bare column of the table against values, and every such search is read |
| MissingIndex.FixSeparatesKinds | detection_engine/anti_patterns/missing_index.py:251-263 | equality columns come from conditions searched by one value, range columns from range conditions, none is both and none leads an index |
| MissingIndex.SuggestionMakesUsable | detection_engine/anti_patterns/missing_index.py:243-263 | with the suggested indexes created the same predicate is usable and AP-04 has nothing left to say |
| MissingIndex.CompositeLeadIsEnough | detection_engine/anti_patterns/missing_index.py:451-457 | of a single composite index the first column alone is enough |
| MissingIndex.FixExactlyWhenIndexesHelp | detection_engine/anti_patterns/missing_index.py:233-245 | AP-04 speaks exactly when no index serves the predicate and some set of new indexes would |
| NonSargable.DetectPredicateSubtypes | detection_engine/anti_patterns/non_sargable_predicate.py:308-324 | the wrapped columns to report, each once, in order of first appearance |
| IndexFixRules.WrappedReadExactly | detection_engine/anti_patterns/non_sargable_predicate.py:231-263 | a condition is usable exactly when it compares a bare leading column with values, and to rewrite exactly when it compares an expression around one |
| IndexFixRules.AndReportsItsConditions | detection_engine/anti_patterns/non_sargable_predicate.py:296-305 | for an AND with conditions to rewrite all of them are reported, in order, and nothing else |
| IndexFixRules.EachWrappedColumnIsReported | detection_engine/anti_patterns/non_sargable_predicate.py:304-305 | so the column that each condition of the AND wraps is reported |
| IndexFixRules.NestedReportsExactly | detection_engine/anti_patterns/non_sargable_predicate.py:296-305 | for an OR, and for an AND of nothing but ORs, exactly what some part reports by itself |
| NonSargable.ReportedIsWrapped | detection_engine/anti_patterns/non_sargable_predicate.py:221-263 | whatever AP-03 reports is a column that leads an index and that some condition wraps in what the subtype says |
| NonSargable.RewriteReadsOk | detection_engine/anti_patterns/non_sargable_predicate.py:231-263 | a rewritten condition can use its index, and the others read as before |
| NonSargable.RewritingMakesUsable | detection_engine/anti_patterns/non_sargable_predicate.py:308-347 | rewriting the reported columns makes the predicate usable, and AP-03 then reports nothing |
| NonSargable.ReportsExactlyWhenRewritingHelps | detection_engine/anti_patterns/non_sargable_predicate.py:344-347 | AP-03 speaks exactly when no index serves the predicate today and rewriting some set of its wrapped columns would let one |
| IndexRules.RulesReadAlike | detection_engine/anti_patterns/non_sargable_predicate.py:231-263 | on one table both rules agree on what is usable, and no condition can be repaired by both |
| IndexRules.BothReportExactlyOnSplitAnd | detection_engine/anti_patterns/missing_index.py:243-245 | the predicates on which both rules report are exactly those with an AND split between them |
| IndexRules.BothReportNeedsAnd | detection_engine/anti_patterns/non_sargable_predicate.py:38-43 | when both report, an AND inside the predicate has a side for each rule; so never without an AND |
| IndexRules.BothReportOnMixedPair | detection_engine/anti_patterns/non_sargable_predicate.py:344-347 | a family of predicates on which both report |
| IndexRules.BothCanReport | detection_engine/tests/test_or_conditions.py:41 | `code = $1 AND lower(note) = $2` with an index on `note` is such a predicate |
| DeadlockReports.ByPidFinds | detection_engine/deadlocks/cycles.py:91-93 | looking a process up finds it exactly when it is in the report |
| DeadlockReports.AmplifierIsHighest | detection_engine/deadlocks/ct04_lock_amplification.py:118-128 | the amplifier is missing exactly when there is no candidate, and no candidate exceeds it |
| DeadlockReports.FindAmplifier | detection_engine/deadlocks/ct04_lock_amplification.py:118-128 | gathering candidates and taking the maximum yields the amplifier |
| DeadlockReports.LeadColumnsExact | detection_engine/deadlocks/ct04_lock_amplification.py:179-186 | a table is listed exactly when it has an index, with exactly the columns that lead one |
| DeadlockReports.LeadColumnsByTable | detection_engine/deadlocks/ct04_lock_amplification.py:179-186 | the loop over the indexes builds that map |
| DeadlockReports.AfterLastColon | detection_engine/deadlocks/ct03_range_contention.py:102 | what follows the last colon of a record |
| DeadlockReports.Gaps | detection_engine/deadlocks/ct03_range_contention.py:90-107 | the gaps of a CT-03 report are exactly those some transaction wanted to insert into, each once, and there is one |
| DeadlockRules.CycleExactlyWhen | detection_engine/deadlocks/cycles.py:52-61 | a report is a cycle exactly when it is complete, has two transactions or more, and each waits for a lock and is blocked by one of the report |
| DeadlockRules.AmplifiedExactlyWhen | detection_engine/deadlocks/cycles.py:96-109 | a transaction is amplified exactly when it locks ten times the rows it modified, or more |
| DeadlockRules.BlockedExactlyWhen | detection_engine/deadlocks/cycles.py:86-93 | a wait is held up exactly when a transaction that blocks it holds, in a lock of the kind, a resource it wants |
| DeadlockRules.OrderExactlyWhen | detection_engine/deadlocks/ct01_inconsistent_order.py:42-60 | exactly the reports of CT-01, from their waits and holds |
| DeadlockRules.ConversionExactlyWhen | detection_engine/deadlocks/ct02_mode_conversion.py:62-79 | exactly the reports of CT-02 |
| DeadlockRules.RangeExactlyWhen | detection_engine/deadlocks/ct03_range_contention.py:53-59 | exactly the reports of CT-03 |
| DeadlockRules.LacksIndexExactlyWhen | detection_engine/deadlocks/ct04_lock_amplification.py:74-87 | CT-04 takes an index to be missing exactly when no index of the table of the statement starts with one of its columns; without a schema all tables of that name count, and only one may have indexes |
| DeadlockRules.AmplifierExactly | detection_engine/deadlocks/ct04_lock_amplification.py:118-128 | the amplifier is the first of the amplified transactions with a statement that no other one exceeds in rows locked for each row modified |
| DeadlockRules.AmplificationExactlyWhen | detection_engine/deadlocks/ct04_lock_amplification.py:74-87 | exactly the reports of CT-04 |
| DeadlockRules.UnclassifiedExactlyWhen | detection_engine/deadlocks/unclassified_deadlock.py:53-54 | exactly the cycles left unclassified: those with a wait that does not tell what it is for |
| DeadlockRules.ClassifyExactly | detection_engine/deadlocks/deadlock_detector.py:40-55 | which pattern a report gets: CT-01 before CT-02, CT-04 before unclassified, and otherwise that of the one rule that accepts it |
| DeadlockRules.GapsExactly | detection_engine/deadlocks/ct03_range_contention.py:90-107 | a gap is of a resource that a kept-out insert wants, with its table and index, and at the end of the index exactly when its record is 1 or ends in :1 |
| DeadlockClassification.ReportHoldsCycle | detection_engine/deadlocks/cycles.py:52-61 | a report accepted as a cycle holds a closed walk of sessions that wait for each other, of two or more when none waits for itself |
| DeadlockClassification.HoldsCloseCycle | detection_engine/deadlocks/cycles.py:86-93 | when some blocker holds part of every wait, sessions close a cycle in which each waits for a resource that the next one holds |
| DeadlockClassification.OrderReportCrossesHolds | detection_engine/deadlocks/ct01_inconsistent_order.py:48-60 | a report of CT-01 with known holds is an opposite order: such a cycle with holds in X, and all its resources are different |
| DeadlockClassification.ConversionReportCrossesHolds | detection_engine/deadlocks/ct02_mode_conversion.py:73-79 | a report of CT-02 with known holds: such a cycle with holds in S |
| DeadlockClassification.RangeExcludesOrders | detection_engine/deadlocks/ct03_range_contention.py:53-59 | CT-03 excludes CT-01, CT-02 and unclassified |
| DeadlockClassification.AmplificationExcludesOthers | detection_engine/deadlocks/ct04_lock_amplification.py:74-87 | CT-04 excludes CT-01, CT-02 and CT-03 |
| DeadlockClassification.OrdersExcludeWithoutHolds | detection_engine/deadlocks/ct01_inconsistent_order.py:48-56 | with holds unknown CT-01 excludes CT-02 |
| DeadlockClassification.OrderIsConversionExactlyWhen | detection_engine/deadlocks/ct02_mode_conversion.py:62-79 | a report of CT-01 is one of CT-02 exactly when holds are known and shared holds meet every wait on both sides |
| DeadlockClassification.BothNeedTwoTargets | detection_engine/deadlocks/ct01_inconsistent_order.py:48-60 | with compatible locks that takes two resources or more in every wait |
| DeadlockClassification.OverlapsAre | detection_engine/deadlocks/deadlock_detector.py:37-46 | the only pairs of rules that can accept one report, and what each pair needs |
| DeadlockClassification.FirstMatchMatches | detection_engine/deadlocks/deadlock_detector.py:49-55 | classification yields a pattern whose rule accepts, or none accepts |
| DeadlockClassification.OrderDecidesNothing | detection_engine/deadlocks/deadlock_detector.py:37-55 | all orders of the rules classify a report alike exactly when CT-04 does not accept it with targets missing, and CT-01 and CT-02 do not both accept it |
| DeadlockClassification.SoundLocksFixOrder | detection_engine/deadlocks/deadlock_detector.py:37-55 | with sound locks only the first of the two can happen |
| DeadlockClassification.AmplifiedWithoutTargetsMatchesTwice | detection_engine/deadlocks/deadlock_detector.py:37-39 | a report that CT-04 and unclassified both accept, and what each order calls it |
| DeadlockClassification.TwoRowWaitsMatchTwice | detection_engine/deadlocks/deadlock_detector.py:37-39 | a report with compatible locks that CT-01 and CT-02 both accept |
| WaitGraphs.WaitGraph.constructor | detection_engine/deadlocks/wait_graph.py:19-27 | a new graph is empty |
| WaitGraphs.WaitGraph.AddRow | detection_engine/deadlocks/wait_graph.py:50-56 | a row adds itself and the edges it declares, and blockers and waiters stay inverse without empty entries |
| WaitGraphs.BuildWaitGraph | detection_engine/deadlocks/wait_graph.py:48-57 | the graph represents exactly the rows, the last row of each pid |
| WaitGraphs.WaitGraph.Roots | detection_engine/deadlocks/wait_graph.py:29-32 | exactly the sessions that block and wait for nobody, in strict order |
| WaitGraphs.WaitGraph.BlockedUnder | detection_engine/deadlocks/wait_graph.py:34-45 | on any graph, cyclic or not, ends with exactly the sessions other than the root reachable along waiting edges |
| WaitGraphs.WaitingLiesUnderRoot | detection_engine/deadlocks/wait_graph.py:29-32 | without cycles every waiting session lies under some root |
| WaitGraphs.CyclesHaveNoRoot | detection_engine/deadlocks/wait_graph.py:31-32 | no session on a cycle, or blocked by one, is a root |
| Cascade.JudgeRoot | detection_engine/deadlocks/ct05_long_transaction_cascade.py:62-77 | a root is accepted exactly when its transaction meets the rule, with the exact number of long waiters |
| Cascade.DetectCascade | detection_engine/deadlocks/ct05_long_transaction_cascade.py:46-93 | remembers exactly the transactions that meet the rule and reports exactly those due, by pid |
| CascadeRules.CascadeExactlyWhen | detection_engine/deadlocks/ct05_long_transaction_cascade.py:59-77 | a transaction meets the rule exactly when it began 30 s ago or more, its session waits for no other, and two sessions under it have waited 5 s or more |
| CascadeRules.ReportedExactlyWhen | detection_engine/deadlocks/ct05_long_transaction_cascade.py:79-91 | it is reported exactly with the second sample in a row, a minute apart at most, in which it does |
| Cascade.RootsSummarizeStreaks | detection_engine/deadlocks/ct05_long_transaction_cascade.py:79-91 | the remembered roots are a summary of the streaks of samples, and a report comes exactly on the second sample of a streak |
| Cascade.StreakReportedOnce | detection_engine/deadlocks/state.py:137-140 | along a streak with gaps of at most 60 s: never for one sample, else once, on the second, with one first instant |
| DeadlockDetector.SortIsStable | detection_engine/deadlocks/deadlock_detector.py:112 | reports are processed by time, a permutation that keeps the order within each instant |
| DeadlockDetector.DetectDeadlocks | detection_engine/deadlocks/deadlock_detector.py:96-148 | the loop takes each new report and skips each known one |
| DeadlockDetectorRules.KeyExactly | detection_engine/deadlocks/deadlock_detector.py:58-65 | a report is known by its instant and the pid of its first victim |
| DeadlockDetectorRules.SeenExactlyWhen | detection_engine/deadlocks/deadlock_detector.py:68-93 | exactly the reports taken for one already remembered, with the two seconds and whole seconds written out |
| DeadlockDetectorRules.PrunedExactly | detection_engine/deadlocks/state.py:66-78 | what is forgotten: exactly the reports over ten minutes old and the signatures not seen for seven days |
| DeadlockDetectorRules.ProcessTellsReports | detection_engine/deadlocks/deadlock_detector.py:112-148 | every finding, event and remembered signature tells the pattern, signature, source and database of a report that was new in its turn |
| DeadlockDetector.ProcessConserves | detection_engine/deadlocks/deadlock_detector.py:105-148 | over a call: signature counts grow by the findings, each finding carries its ordinal, new keys are exactly the recorded reports, and findings are the recorded reports with a pattern, in order |
| DeadlockDetector.ProcessTallies | detection_engine/deadlocks/deadlock_detector.py:131-137 | after a call the count, first and last instant of each signature are what its findings tell, one by one |
| DeadlockDetector.ProcessSeesAll | detection_engine/deadlocks/deadlock_detector.py:112-137 | after a call every report of the snapshot counts as seen |
| DeadlockDetector.SecondPassIsSilent | detection_engine/deadlocks/deadlock_detector.py:1-8 | reports that come again while they are remembered add nothing |
| DeadlockDetector.ProcessKeepsNoTwins | detection_engine/deadlocks/deadlock_detector.py:76-93 | a call leaves no two keys of one deadlock under two precisions if there were none before |
| DeadlockDetector.ProcessFindsNew | detection_engine/deadlocks/deadlock_detector.py:112-137 | findings are about reports of the snapshot that were not remembered, each about another one |
| DeadlockDetector.JudgedInTurn | detection_engine/deadlocks/deadlock_detector.py:112-137 | a report is new when it repeats nothing remembered and no earlier report that was new; exactly the new reports are recorded, and exactly those of them that a rule accepts are found |
| DeadlockDetector.UnrelatedIsFoundAlone | detection_engine/deadlocks/deadlock_detector.py:112-137 | a report that repeats no other one is found exactly when a rule accepts it and it repeats nothing remembered |
| Contention.HandleTwice | detection_engine/deadlocks/state.py:103-134 | a job retried at once gives the same findings, state and events, also when there was no state before |
| ContentionRules.HandleTellsReports | detection_engine/deadlocks/facade.py:51-66 | so do the findings of a job and the events it adds to the table; the events already there stay as they were |
| Contention.OldJobIsDropped | detection_engine/deadlocks/state.py:111-112 | a job older than the stored state finds and changes nothing |
| Contention.InstantAdvances | detection_engine/deadlocks/state.py:236-237 | the stored instant never goes back, and a job that is not old becomes the last |
| Contention.DeliveriesCollapse | detection_engine/deadlocks/state.py:1-8 | any deliveries, repeated, late or out of order, leave the world as if each job that was new on arrival had come once, in order |
| Contention.DeliveryFindsTheSame | detection_engine/deadlocks/state.py:1-8 | a delivery finds what its job found first, or nothing once a later job came in between |
| Contention.PrunedIsTableWindow | detection_engine/deadlocks/state.py:66-78 | what a new job looks up is exactly the last ten minutes of the event table |
| Contention.MemoryIsTableExactlyWhen | detection_engine/deadlocks/state.py:206-207 | after a new job of recent reports memory and table agree exactly when no event was over ten minutes old |
| Contention.MemoryIsTableAgainExactlyWhen | detection_engine/deadlocks/state.py:206-207 | after any new job, exactly when each event over ten minutes old is of a report that the job brings back, as new to the recent events |
| Contention.RunRemembersTableExactlyWhen | detection_engine/deadlocks/state.py:206-207 | after any deliveries of recent reports, exactly when no event is over ten minutes old |
| Contention.MemoryForgets | detection_engine/deadlocks/state.py:48-50 | two jobs in order after which table and memory differ as soon as the report is over ten minutes old |
| Contention.MemoryMirrorsTable | detection_engine/deadlocks/state.py:206-217 | after any deliveries a remembered report is in the table and one in the table within ten minutes is remembered |
| Contention.RepeatedOnlyWhenOld | detection_engine/deadlocks/state.py:48-52 | a report found twice in a run was over ten minutes old the second time |
| Contention.EachReportFoundOnce | detection_engine/deadlocks/deadlock_detector.py:4-8 | in a run whose reports arrive within ten minutes each report is found at most once |
| Contention.FindingRepeatsNothingRecent | detection_engine/deadlocks/deadlock_detector.py:68-93 | a finding of a new job is about a report that repeats no event of the last ten minutes, under either precision |
| Contention.TwinFoundOnlyWhenOld | detection_engine/deadlocks/deadlock_detector.py:30-35 | a run finds one deadlock under two precisions only if the first was over ten minutes old by then, and with recent reports by no more than two seconds |
| Contention.ReportsFoundInTurn | detection_engine/deadlocks/deadlock_detector.py:112-137 | a new job finds exactly the reports that a rule accepts and that are new to the events of the last ten minutes |
| Contention.ReportFoundExactlyWhen | detection_engine/deadlocks/deadlock_detector.py:112-137 | if its reports do not repeat each other it finds one exactly when a rule accepts it and it repeats no event of the last ten minutes |
| Contention.ReportFoundAfterDeliveries | detection_engine/deadlocks/deadlock_detector.py:4-8 | so after any deliveries, repeated, late or out of order |
| Contention.FoundAgainExactlyWhenOld | detection_engine/deadlocks/state.py:48-50 | in a run of two jobs that bring one classified report and nothing else, the second finds it exactly when it is over ten minutes old |
| Contention.NoTwinsInAnyRun | detection_engine/deadlocks/deadlock_detector.py:30-35 | after any deliveries no memory holds one deadlock under its exact time and under a whole-second time |
| Contention.RecurrenceIsTally | detection_engine/deadlocks/state.py:51-52 | over a run, what is remembered of a signature is what the findings tell since the last pause of seven days |
| Contention.FindingTellsTally | detection_engine/deadlocks/state.py:51-52 | every finding of a run carries its place in that recurrence |
| Contention.RunIsHistory | detection_engine/deadlocks/facade.py:51-66 | the roots that a run stores are a history of its samples |
| Contention.RunReportsStreaksOnce | detection_engine/deadlocks/ct05_long_transaction_cascade.py:54-57 | in any run in order a transaction is reported exactly on the second sample of each of its streaks |
| ContentionRules.RunReportsExactly | detection_engine/deadlocks/ct05_long_transaction_cascade.py:46-93 | a job of a run reports exactly the transactions that meet the rule for the second sample in a row, on the rows and with the numbers written out |
| ContentionRules.CascadeFindingTells | detection_engine/deadlocks/ct05_long_transaction_cascade.py:79-91 | such a finding tells the instant of the sample before and how many sessions wait long |
| ContentionFacade.ContentionStore.constructor | detection_engine/deadlocks/state.py:167-183 | a database without a row has the initial state |
| ContentionFacade.ContentionStore.Save | detection_engine/deadlocks/state.py:194-249 | inserts the events not there yet, replaces the state unless a newer one is stored, and leaves other databases alone |
| ContentionFacade.ContentionStore.Run | detection_engine/deadlocks/facade.py:44-77 | loading, detecting and saving a snapshot is one step of the state machine for its database, with the findings of CT-05 by pid, and nothing for the others |
| ContentionRaces.UninterruptedIsHandle | detection_engine/deadlocks/facade.py:51-66 | a worker that nobody interrupts takes the step of a whole job |
| ContentionRaces.ActKeepsSound | detection_engine/deadlocks/state.py:203-249 | every load or save keeps what is remembered recorded, loses no event and never goes back |
| ContentionRaces.AnyInterleavingIsSound | detection_engine/deadlocks/state.py:236-237 | so does any interleaving of workers, with jobs repeated or never finished |
| ContentionRaces.SaveMirrorsExactlyWhen | detection_engine/deadlocks/state.py:206-237 | a save that nothing overtook leaves memory and table in step exactly when each recent event was remembered when its worker loaded, or its job brings the report back as new |
| ContentionRaces.OvertakenMirrorsExactlyWhen | detection_engine/deadlocks/state.py:236-237 | a save that a later job overtook does exactly when the later memory holds every recent report that its job brought as new |
| ContentionRaces.RaceMirrorsExactlyWhen | detection_engine/deadlocks/state.py:206-237 | from any state, two workers that load together and save one after the other leave them in step exactly when the second brings every recent report that was new in the first, whoever saves last |
| ContentionRaces.RaceForgetsReport | detection_engine/deadlocks/state.py:206-207 | the smallest such race: its event is stored, its report not remembered, and found again if it comes back |
| ContentionRaces.FoundTwiceExactlyWhen | detection_engine/deadlocks/facade.py:51-66 | two workers that load together find one report both exactly when both jobs bring it as new and a rule accepts it in both |
| ContentionRaces.RaceFindsTwice | detection_engine/deadlocks/facade.py:51-66 | so a report that comes in both jobs is found twice, however recent |
| StatementHistory.AggregateStatements | detection_engine/anti_patterns/statement_history.py:63-83 | one entry for each query with a counted statement, in order of first appearance, its counters the sums over its statements, absent ones absent, its epoch the first |
| StatementRules.EntryOfOne | detection_engine/anti_patterns/statement_history.py:69-73 | a statement counts exactly when it has the query, its calls and its time, and alone it is the entry |
| StatementRules.EntriesAddUp | detection_engine/anti_patterns/statement_history.py:74-82 | the entries of any two halves of the statements add up, counter by counter, with the epoch of the first |
| StatementRules.WindowExactly | detection_engine/anti_patterns/statement_history.py:86-104 | there is a window exactly when calls grew, the time did not shrink and no reset is known, and it is the difference |
| StatementRules.FirstRow | detection_engine/anti_patterns/statement_history.py:129-153 | a query without a row gets one with its counters and no windows |
| StatementRules.NextRow | detection_engine/anti_patterns/statement_history.py:116-153 | a row is renewed exactly unless the query was idle: all counters from the sample, and its window in the ring of ninety if it holds five calls or more |
| StatementHistory.WindowIsGrowth | detection_engine/anti_patterns/statement_history.py:86-104 | with no reset in between a window is the growth of the stored row |
| StatementHistory.RowComesFromSample | detection_engine/anti_patterns/statement_history.py:116-153 | all counters of a stored row are those of one sample, and in the samples since then the query did not run |
| StatementHistory.WindowSpansSamples | detection_engine/anti_patterns/statement_history.py:86-104 | every window measures exactly what happened between two samples of one epoch, the query ran in it, and no sample in between saw it run |
| StatementHistory.WindowsAddUp | detection_engine/anti_patterns/statement_history.py:116-153 | within one epoch calls and times of the windows add up to last stored minus first, whatever samples were idle |
| StatementHistory.RingHoldsLastWindows | detection_engine/anti_patterns/statement_history.py:132-136 | the stored means and ends are exactly the last 90 valid windows, across idle samples and resets |
| StatementHistory.RowsStayOrdered | detection_engine/anti_patterns/statement_history.py:132-152 | after any run, in whatever order, each row has as many means as ends, at most 90, with increasing ends none after the row |
| StatementHistory.RowAfterJob | detection_engine/storage.py:127-169 | the row of each query after a job: as before, updated if newer, or dropped if stale |
| StatementRules.StoredExactly | detection_engine/storage.py:127-169 | the same with its numbers: an update replaces an older row, and a row over 24 hours old goes |
| StatementHistory.RowIsHistory | detection_engine/main.py:86-88 | after any run in order the row of a query is the history of its samples since the job that last dropped it |
| StatementHistory.RowsNeverGoBack | detection_engine/storage.py:130-153 | a row never goes back in time and an older job leaves it alone |
| StatementHistory.RerunChangesNothing | detection_engine/storage.py:130-131 | the same job again leaves the table as it is exactly when it dropped no idle row of a query it brings |
| StatementHistory.NextStatementHistories | detection_engine/anti_patterns/statement_history.py:156-167 | the loop yields exactly the rows to store, in order |
| StatementHistory.StoringIsUpsertAll | detection_engine/storage.py:128-156 | storing them one by one is one upsert of each query |
| StatementHistory.UpsertRows | detection_engine/storage.py:128-156 | row by row, what is stored or its update if that is newer, in other databases nothing |
| StatementHistory.StatementStore.Save | detection_engine/storage.py:104-169 | upserts, then drops the stale rows of the database, and leaves other databases alone |
| StatementHistory.StatementStore.Load | detection_engine/storage.py:71-101 | the rows of the database |
| StatementHistory.StatementStore.Process | detection_engine/main.py:86-146 | loading, evaluating and saving a snapshot is one job on the rows of its database, and nothing for a snapshot of no database |

## Left out

- SQL text: parsing with sqlglot, internal plan markers, alias resolution and reading index definitions (`_parse_index_ref`, `_index_lead_column`); the predicate that fails to parse yields no finding and is not modelled.
- Databases, the PGMQ queue, JSON, logging, schema creation (`_ensured`) and the catch-all of `run_contention` that drops the findings of a snapshot after an error.
- `parse_instant`, time zones and unparseable times; a text that differs only in format from another of the same instant counts as the same here.
- `deadlock_signature` and its hash, and with them which reports share a signature.
- Texts, severities and evidence of findings; of CT-05 the accumulated wait, of AP-05 the query picked for a finding (`_pick_query`).
- CT-04's reading of a statement (`_statement`, `_schema_of`): an input of a transaction.
- How AP-05 collects plans and traffic and decides that the statistics window is fresh; the thresholds and windows of AP-03 and AP-04 around their predicate test.
- AP-01, AP-02, AP-06, AP-07 and AP-08: threshold tests that would only add easy members.
- Rounding of floating-point milliseconds: `real` adds exactly.
- Several workers on the counters of one query: `StatementStore.Process` runs whole.
- UnusedIndexSafety.ForeignKeysStayBacked: assumes that a name identifies one index of its table, as in the database catalog.
