# A Dafny model of five pieces of DuckDB's core

This project models five pieces of sequential, pure logic from DuckDB and
proves properties about them:

- **Join-strategy selection** (`JoinPlanning`, `JoinPlanningProperties`).
  It picks a physical operator for a comparison join: a cross product, a
  left or right index join, a hash join, a piecewise merge join or a nested
  loop join. For index joins it also fixes the condition swap, the child
  order and the projection-map order. Index eligibility of a side (table
  scan, no transaction-local storage, no table filters) and each index's
  lead-expression alias are explicit inputs.
- **Statistics propagation through a function call** (`FunctionStatistics`).
  Propagating a child expression and the function's statistics rule are
  function values. Propagating a child may rewrite it or fail, and a
  failure ends the propagation. The rule is optional.
- **The index catalog entry lifecycle** (`IndexEntry`, `IndexEntryProperties`).
  Entries share an `IndexDataTableInfo` handle through a shared pointer,
  modelled as an explicit use count. When the last sharer goes away, the
  handle's destructor removes the index name from the table's index list.
  The state is a catalog of tables, handles and entries. An invariant ties
  every use count to the set of entries sharing the handle.
- **JSON structure inference** (`JsonStructure`, `JsonStructureProperties`),
  the `json_structure` scalar function:
  - `BuildStructure` maps a JSON document to a shape.
  - `GetConsistentArrayStructure` merges sibling shapes. It skips NULLs,
    rejects kind mismatches, unions object keys in first-seen order and
    widens scalar type names with `GetMaxTypeString`. The merge reads each
    key as a C string, so a key ends before its first NUL character.
- **Column list counts and iterator** (`ColumnListing`). This covers the
  logical and physical counts, `empty`, the duplicate-name flag, and the
  iterator that walks positions by logical or physical index. Looking a
  column up by position is a function value.

`Outcomes` holds the `Option` (a nullable pointer) and `Result` (a value or a thrown error) types used throughout.

## Model

| member | source | states |
|---|---|---|
| JoinPlanning.CanPlanIndexJoin | src/execution/physical_plan/plan_comparison_join.cpp:17-32 | Models `can_plan_index_join`: a side qualifies only as a table scan with table-scan bind data, no transaction-local appends and no table filters. |
| JoinPlanning.FindIndex | src/execution/physical_plan/plan_comparison_join.cpp:45-50 | Models the loop over the table's indexes that stops at the first index whose lead expression carries the condition's alias. FindIndexFirst and FindIndexMember state what it returns. |
| JoinPlanning.TransformIndexJoin | src/execution/physical_plan/plan_comparison_join.cpp:34-66 | An index slot is filled only for an inner join with exactly one condition, and only for a side that passes the eligibility test. |
| JoinPlanning.ChoosePlan | src/execution/physical_plan/plan_comparison_join.cpp:68-133 | The result is a cross product exactly when there are no conditions. An index join is only ever chosen for an inner join with one condition. The null-equality assertion is a precondition. |
| JoinPlanningProperties.FindIndexFirst | src/execution/physical_plan/plan_comparison_join.cpp:45-50 | The index search finds an index exactly when some index's lead alias equals the condition alias. It then returns the first such index in list order. |
| JoinPlanningProperties.FindIndexMember | src/execution/physical_plan/plan_comparison_join.cpp:57-62 | A found index is one of the table's indexes and carries the requested alias. |
| JoinPlanningProperties.IndexSlotFilledIff | src/execution/physical_plan/plan_comparison_join.cpp:34-66 | A side's index slot is filled exactly when the join is an inner join with one condition, the side passes the eligibility test, and one of its table's indexes leads with that side's condition alias. The slot then holds the first such index. |
| JoinPlanningProperties.CrossProductOfChildren | src/execution/physical_plan/plan_comparison_join.cpp:77-80 | With no conditions the plan is a cross product of exactly the two children, whatever the cardinalities and the override flag. |
| JoinPlanningProperties.LeftIndexJoinChosen | src/execution/physical_plan/plan_comparison_join.cpp:105-111 | A left index join is chosen if and only if its conditions hold: inner join, one equality, an eligible left index, and the override or `rhs < 0.01*lhs`. It swaps the condition's sides, takes children and projection maps as (right, left), reads the left scan's column ids and has flag false. |
| JoinPlanningProperties.RightIndexJoinChosen | src/execution/physical_plan/plan_comparison_join.cpp:112-117 | A right index join is chosen if and only if the left one is not and the right side's conditions hold. It keeps child and map order, reads the right scan's column ids and has flag true. |
| JoinPlanningProperties.EqualityFallsBackToHashJoin | src/execution/physical_plan/plan_comparison_join.cpp:102-120 | A hash join is chosen if and only if some condition is an equality and neither index join applies. It keeps children, conditions, join type and projection maps in order. |
| JoinPlanningProperties.RangeJoins | src/execution/physical_plan/plan_comparison_join.cpp:121-131 | Without an equality, one condition that is not NOTEQUAL gives a piecewise merge join and anything else a nested loop join. Both keep children, conditions and join type. |
| JoinPlanningProperties.NoEligibleIndexHashJoin | src/execution/physical_plan/plan_comparison_join.cpp:17-32 | An equality join where neither side offers an eligible index on its join column is a hash join, whatever the cardinalities. |
| JoinPlanningProperties.NullEqualityNeedsEqualityJoin | src/execution/physical_plan/plan_comparison_join.cpp:94-99 | A join with a condition that treats NULLs as equal always becomes a hash or index join. So the range-join branch never meets such a condition, as its debug assertion expects. |
| JoinPlanningProperties.IndexJoinWellFormed | src/execution/physical_plan/plan_comparison_join.cpp:102-117 | Every index join has one equality condition. That condition's indexed side is the index's lead alias. The indexed child is an eligible scan that owns the index and supplies the column ids. |
| JoinPlanningProperties.SwapSidesInvolution | src/execution/physical_plan/plan_comparison_join.cpp:107 | Swapping a condition's sides exchanges left and right, keeps the comparison, and undone once gives the condition back. |
| JoinPlanningProperties.IndexJoinKeepsCondition | src/execution/physical_plan/plan_comparison_join.cpp:102-117 | An index join has one condition, and that condition, read back in the logical join's left/right order, is the join's own condition. |
| JoinPlanningProperties.PlanKeepsChildren | src/execution/physical_plan/plan_comparison_join.cpp:73-131 | Every plan consumes exactly the two planned children. They are in order, except in a left index join, which takes them reversed. |
| JoinPlanningProperties.ForcedLeftIndexWins | src/execution/physical_plan/plan_comparison_join.cpp:105-111 | With the override set, an eligible left index always wins, whatever the right side offers. |
| JoinPlanningProperties.ScenarioIndexJoin | src/execution/physical_plan/plan_comparison_join.cpp:105-111 | A 10M-row indexed table joined with a 500-row scan is answered by an index join. It probes from the small side with the condition swapped. |
| JoinPlanningProperties.ScenarioLocalInsertHashJoin | src/execution/physical_plan/plan_comparison_join.cpp:23-26 | The same join over a table with uncommitted local inserts becomes a hash join. |
| FunctionStatistics.PropagateChildren | src/optimizer/statistics/expression/propagate_function.cpp:11-15 | Models the loop over the children: each child is propagated in argument order, leaving a possibly rewritten expression in its slot and its statistics at its position; the first failing child's error ends the loop. PropagateChildrenSpec states it. |
| FunctionStatistics.PropagateAsWritten | src/optimizer/statistics/expression/propagate_function.cpp:6-20 | Models the function as written, including the second test for a missing rule after the children are propagated. The rule reads the call with its rewritten children. RecheckNeverFires relates it to `Propagate`. |
| FunctionStatistics.Propagate | src/optimizer/statistics/expression/propagate_function.cpp:6-20 | The reference definition: no rule gives unknown statistics, a failing child gives its error, and otherwise the rule is applied to the call with its rewritten children and to the positional statistics vector. PropagateFunction is proved equal to it. |
| FunctionStatistics.PropagateFunction | src/optimizer/statistics/expression/propagate_function.cpp:6-20 | Without a rule the result is unknown statistics and no child is visited. With a rule, children are visited in order. Either all succeed, every child is visited, and the rule reads the call with each child replaced by its rewritten form plus each child's statistics at its position. Or the last child visited failed, every earlier one succeeded, and its error is the result. The result equals `Propagate`. |
| FunctionStatistics.FailureSticks | src/optimizer/statistics/expression/propagate_function.cpp:13-15 | Once a child's propagation fails, the loop's outcome is that failure, whatever the later children would do. |
| FunctionStatistics.StepSuccess | src/optimizer/statistics/expression/propagate_function.cpp:13-15 | After a successful prefix, a child whose propagation succeeds extends the slots by its rewritten form and the vector by its statistics. |
| FunctionStatistics.StepFailure | src/optimizer/statistics/expression/propagate_function.cpp:13-15 | After a successful prefix, a child whose propagation fails decides the outcome for the whole call: its error. |
| FunctionStatistics.PropagateChildrenSpec | src/optimizer/statistics/expression/propagate_function.cpp:11-15 | The children propagate successfully exactly when each child does. Then the slots hold the rewritten children and the vector holds each child's statistics at its position. Otherwise the error is that of the first failing child. |
| FunctionStatistics.RecheckNeverFires | src/optimizer/statistics/expression/propagate_function.cpp:8-18 | The second test for a missing rule never changes the outcome. |
| FunctionStatistics.PropagateWithoutRule | src/optimizer/statistics/expression/propagate_function.cpp:8-10 | Without a statistics rule the result is unknown statistics. |
| FunctionStatistics.PropagateByRule | src/optimizer/statistics/expression/propagate_function.cpp:13-19 | When every child propagates, the rule is applied to the context, the call with each child replaced by its rewritten form, the bind data and each child's statistics at its position. |
| FunctionStatistics.PropagateStopsAtFailure | src/optimizer/statistics/expression/propagate_function.cpp:13-15 | When child k is the first whose propagation fails, its error is the result and the rule is never applied. |
| FunctionStatistics.PropagateChildrenAppend | src/optimizer/statistics/expression/propagate_function.cpp:13-15 | Each child is propagated on its own: propagating a concatenation gives the concatenated results when both parts succeed, and otherwise the first part's error if it fails, else the second's. |
| FunctionStatistics.PropagateChildrenCongruent | src/optimizer/statistics/expression/propagate_function.cpp:14 | Children that propagate alike give the same outcome. |
| IndexEntry.CreateEntry | src/catalog/catalog_entry/duck_index_entry.cpp:20-27 | A fresh entry gets a new handle naming the table and the entry's own name. The entry is the handle's only sharer, has initial index size zero and leaves the tables untouched. The invariant is kept. |
| IndexEntry.AddEntry | src/catalog/catalog_entry/duck_index_entry.cpp:29-32 | Adding an entry that holds a shared handle, or none, adds exactly that entry under a fresh identity. The handle's use count rises by one and every other handle, the tables and the removal log are unchanged. The invariant is kept. |
| IndexEntry.CreateEntryFromHandle | src/catalog/catalog_entry/duck_index_entry.cpp:29-32 | An entry built around an existing handle, possibly none, adds exactly that entry with initial index size zero. That handle's use count rises by one. Other handles, the tables and the removal log are unchanged, and the invariant is kept. |
| IndexEntry.Copy | src/catalog/catalog_entry/duck_index_entry.cpp:34-42 | A copy is a new entry equal to the original: same name, same handle, same initial index size. The invariant is kept. |
| IndexEntry.DestroyHandle | src/catalog/catalog_entry/duck_index_entry.cpp:13-18 | Models the handle's destructor: a handle naming no table changes nothing, otherwise its index name leaves that table's index list. ReleaseLastSharer states its effect. |
| IndexEntry.Release | src/catalog/catalog_entry/duck_index_entry.cpp:13-18 | Releasing an entry removes exactly that entry and keeps the invariant. The invariant includes every handle's count matching its sharers and every index-list removal being logged once. |
| IndexEntry.GetSchemaName | src/catalog/catalog_entry/duck_index_entry.cpp:44-46 | Models reading the schema name of the table the entry's handle refers to. CopyReadsSameNames and CommitDropMarksOwnName state its properties. |
| IndexEntry.GetTableName | src/catalog/catalog_entry/duck_index_entry.cpp:48-50 | Models reading the table name of the table the entry's handle refers to. CopyReadsSameNames and CommitDropMarksOwnName state its properties. |
| IndexEntry.CommitDrop | src/catalog/catalog_entry/duck_index_entry.cpp:56-59 | Committing a drop keeps the invariant and changes no entry, handle or removal log. |
| IndexEntryProperties.ReleaseWithoutHandle | src/catalog/catalog_entry/duck_index_entry.cpp:13-16 | Releasing an entry without a handle changes nothing but the entry map. |
| IndexEntryProperties.ReleaseSharedHandle | src/catalog/catalog_entry/duck_index_entry.cpp:13-18 | Releasing one of several sharers only lowers the handle's count. The tables and the removal log stay as they were. |
| IndexEntryProperties.ReleaseLastSharer | src/catalog/catalog_entry/duck_index_entry.cpp:13-18 | Releasing the last sharer destroys the handle. A handle naming a table removes exactly its own index name from that table and is logged once. A handle naming no table changes no table. |
| IndexEntryProperties.ReleaseLogsOnce | src/catalog/catalog_entry/duck_index_entry.cpp:13-18 | One release adds at most one entry to the removal log. That entry is the released entry's handle, which was live and never logged before. |
| IndexEntryProperties.CopySharesHandle | src/catalog/catalog_entry/duck_index_entry.cpp:34-42 | A copy shares the original's handle instead of making one. The handle gains one sharer and keeps its data. |
| IndexEntryProperties.CopyReadsSameNames | src/catalog/catalog_entry/duck_index_entry.cpp:44-54 | A copy reads the same schema and table names as its original, through the shared handle. |
| IndexEntryProperties.ReleaseSomeKeepsIndex | src/catalog/catalog_entry/duck_index_entry.cpp:13-18 | Releasing fewer than all entries that share a handle leaves the handle alive with the remaining count. Tables and removal log are unchanged. |
| IndexEntryProperties.ReleaseAllRemovesOnce | src/catalog/catalog_entry/duck_index_entry.cpp:13-18 | Releasing every entry that shares a table-bound handle removes the index name from its table exactly once and logs the handle once. |
| IndexEntryProperties.CommitDropMarksOwnName | src/catalog/catalog_entry/duck_index_entry.cpp:56-59 | A committed drop marks the entry's own name in its table's index list. Registered names, schema and table names, and every other table are unchanged. |
| IndexEntryProperties.DropWithCachedCopy | src/catalog/catalog_entry/duck_index_entry.cpp:34-59 | After the drop is committed and the catalog's entry is released, a surviving copy keeps the index registered and still reads the same names. |
| IndexEntryProperties.CreateThenRelease | src/catalog/catalog_entry/duck_index_entry.cpp:20-27 | Creating an entry registers nothing. Releasing it removes its name from the table it was created for. |
| ColumnListing.NewColumnList | src/include/duckdb/parser/column_list.hpp:22 | A new list has no columns and refuses duplicate names unless told otherwise. |
| ColumnListing.LogicalColumnCount | src/include/duckdb/parser/column_list.hpp:40-42 | Models the logical count, the number of column definitions. |
| ColumnListing.PhysicalColumnCount | src/include/duckdb/parser/column_list.hpp:43-45 | Models the physical count, the number of physical columns. |
| ColumnListing.Empty | src/include/duckdb/parser/column_list.hpp:46-48 | Models `empty`: whether there are no column definitions. CountsAndEmpty ties it to the logical count. |
| ColumnListing.SetAllowDuplicates | src/include/duckdb/parser/column_list.hpp:57-59 | Only the duplicate-name flag changes. |
| ColumnListing.CountsAndEmpty | src/include/duckdb/parser/column_list.hpp:40-48 | `empty` holds exactly when the logical count is zero. A new list is empty and refuses duplicates. |
| ColumnListing.SetAllowDuplicatesLaws | src/include/duckdb/parser/column_list.hpp:57-59 | Setting the flag keeps both counts. Only the last setting counts, and setting the current value changes nothing. |
| ColumnListing.Size | src/include/duckdb/parser/column_list.hpp:114-116 | Models the iteration's size: the physical count in physical mode, the logical count otherwise. |
| ColumnListing.Begin | src/include/duckdb/parser/column_list.hpp:118-120 | Models `begin`: a cursor on the iteration's list at position 0 whose end is the size. |
| ColumnListing.End | src/include/duckdb/parser/column_list.hpp:121-123 | Models `end`: a cursor whose position and end are both the size. |
| ColumnListing.Next | src/include/duckdb/parser/column_list.hpp:97-100 | Models `operator++`: the position moves forward by one. |
| ColumnListing.NotEqual | src/include/duckdb/parser/column_list.hpp:101-103 | Models `operator!=`: positions, ends or list identities differ. NotEqualWithinIteration states what it decides. |
| ColumnListing.Deref | src/include/duckdb/parser/column_list.hpp:104-110 | Models `operator*`: the column at the position, looked up by physical or logical index as the mode says. DerefUsesMode states it per step. |
| ColumnListing.Traverse | src/include/duckdb/parser/column_list.hpp:97-123 | A range loop from `begin` to `end` visits positions 0 to Size-1 once each, in order. At each position it yields the lookup by physical or logical index, as the mode says. |
| ColumnListing.AdvanceFromBegin | src/include/duckdb/parser/column_list.hpp:97-123 | After k steps from `begin` the position is k. The cursor differs from `end` exactly until Size steps have been taken. |
| ColumnListing.EmptyIteration | src/include/duckdb/parser/column_list.hpp:114-123 | An iteration is empty exactly when its mode has no columns. A logical iteration is empty exactly when the list is empty. |
| ColumnListing.IterationCursorsAgree | src/include/duckdb/parser/column_list.hpp:118-123 | All cursors of one iteration refer to one list object, read the same list and share the mode. |
| ColumnListing.NotEqualWithinIteration | src/include/duckdb/parser/column_list.hpp:101-103 | For cursors in one mode whose equal list identities mean equal lists, as within one iteration, the inequality test is exactly cursor inequality. |
| ColumnListing.DerefUsesMode | src/include/duckdb/parser/column_list.hpp:104-110 | Dereferencing at position k looks up `PhysicalIndex(k)` in physical mode and `LogicalIndex(k)` otherwise. |
| JsonStructure.MaxTypeString | extension/json/json_functions/json_structure.cpp:60-80 | Models `GetMaxTypeString`. The result is absent only when both inputs are absent. The MaxTypeString lemmas below state its order laws. |
| JsonStructure.CKey | extension/json/json_functions/json_structure.cpp:35-41 | Models a key read through `const char*` into a `std::string`: it ends before the first NUL. CKeyCut states this exactly. |
| JsonStructure.AllKeys | extension/json/json_functions/json_structure.cpp:32-41 | Models the keys the merge collects: each object entry's keys, each cut at its first NUL, in encounter order, repeats included. |
| JsonStructure.Merge | extension/json/json_functions/json_structure.cpp:82-117 | Models `GetConsistentArrayStructure`: an empty list gives "NULL", otherwise the loop settles the kind and MergeAs builds the result. The merge lemmas below state its behaviour. |
| JsonStructure.MergeAs | extension/json/json_functions/json_structure.cpp:107-116 | Models the switch after the loop: arrays merge nested elements into one element, objects merge per key, strings keep the widened name, any other kind is the internal error. |
| JsonStructure.MergeMembers | extension/json/json_functions/json_structure.cpp:43-48 | Models the loop over the recorded keys: one member per key in key order, each value the merge of the values that key collected. MergeMembersShape states it. |
| JsonStructure.Build | extension/json/json_functions/json_structure.cpp:152-161 | Models `BuildStructure`: a scalar gives its type name, an array the merge of its element shapes in a one-element array, an object its built members. BuildShape states it. |
| JsonStructure.BuildAll | extension/json/json_functions/json_structure.cpp:122-130 | Models the loop over an array's elements: every element's shape, in order; the first error stops it. BuildAllLength states it. |
| JsonStructure.BuildMembers | extension/json/json_functions/json_structure.cpp:139-150 | Models the loop over an object's members: every key kept whole, each value built, in order; the first error stops it. BuildMembersValues states it. |
| JsonStructure.Scan | extension/json/json_functions/json_structure.cpp:89-106 | The merge loop ends with a consistent head, where the kind is string exactly when a name is held, or else fails with the inconsistency error. |
| JsonStructure.DedupElements | extension/json/json_functions/json_structure.cpp:37-38 | The key order holds every key seen exactly once and nothing else. |
| JsonStructure.DedupFirstSeenOrder | extension/json/json_functions/json_structure.cpp:37-38 | Keys appear in the order of their first occurrence. |
| JsonStructureProperties.MaxTypeStringIdentity | extension/json/json_functions/json_structure.cpp:60-66 | An absent side yields the other side, and equal names yield that name. |
| JsonStructureProperties.MaxTypeStringIsMax | extension/json/json_functions/json_structure.cpp:67-74 | On the five names the result is the higher one under BOOLEAN < UBIGINT < BIGINT < DOUBLE < VARCHAR. |
| JsonStructureProperties.MaxTypeStringCommutes | extension/json/json_functions/json_structure.cpp:60-80 | The order of the two inputs does not matter. |
| JsonStructureProperties.MaxTypeStringAssociates | extension/json/json_functions/json_structure.cpp:60-80 | Widening is associative, so a running name does not depend on grouping. |
| JsonStructureProperties.MaxTypeStringChoosesInput | extension/json/json_functions/json_structure.cpp:67-79 | On the five names the result is one of the inputs. Two different names outside them widen to BOOLEAN. |
| JsonStructureProperties.MaxTypeStringNotNull | extension/json/json_functions/json_structure.cpp:60-80 | Widening two names that are not NULL never yields NULL. |
| JsonStructureProperties.ScanSkipsNulls | extension/json/json_functions/json_structure.cpp:98-101 | Once a non-NULL head is found, later NULL entries do not affect the loop. |
| JsonStructureProperties.MergeSkipsLeadingNull | extension/json/json_functions/json_structure.cpp:92-97 | A leading NULL is replaced by whatever follows it. |
| JsonStructureProperties.MergeIgnoresNulls | extension/json/json_functions/json_structure.cpp:92-101 | The merge of a list equals the merge of its non-NULL entries. |
| JsonStructureProperties.MergeAllNull | extension/json/json_functions/json_structure.cpp:84-101 | An empty or all-NULL list merges to the string "NULL". |
| JsonStructureProperties.MergeKindMismatch | extension/json/json_functions/json_structure.cpp:102-104 | Two non-NULL entries of different kinds make the merge fail with "Inconsistent JSON structure". |
| JsonStructureProperties.MergeKeepsKind | extension/json/json_functions/json_structure.cpp:87-116 | A successful merge has the common kind of all non-NULL entries, or is "NULL" when there are none. |
| JsonStructureProperties.MergeWidestName | extension/json/json_functions/json_structure.cpp:105-113 | Over non-NULL type names the merge is a name present in the list and ranks at least as high as every entry. |
| JsonStructureProperties.MergeScalarNames | extension/json/json_functions/json_structure.cpp:84-113 | Merging type names never fails. It yields the widest non-NULL name present, or "NULL" when there is none. |
| JsonStructureProperties.MergeArrayShape | extension/json/json_functions/json_structure.cpp:10-24 | A merged array has exactly one element: the merge of all nested elements of all entries, in order. |
| JsonStructureProperties.MergeMembersShape | extension/json/json_functions/json_structure.cpp:43-48 | Merging members yields one member per key, in key order. Each value is the merge of that key's collected values. |
| JsonStructureProperties.CKeyCut | extension/json/json_functions/json_structure.cpp:35-41 | The key the merge reads is the longest NUL-free prefix of the stored key: it has no NUL, and the stored key either ends there or continues with a NUL. |
| JsonStructureProperties.CKeyOfNulFree | extension/json/json_functions/json_structure.cpp:35-41 | A key without a NUL is read unchanged. |
| JsonStructureProperties.AllKeysNulFree | extension/json/json_functions/json_structure.cpp:32-48 | No key a merge collects, and so no key of a merged object, contains a NUL. |
| JsonStructureProperties.MergeObjectShape | extension/json/json_functions/json_structure.cpp:26-50 | A merged object has every key of every object entry exactly once, each read up to its first NUL, in order of first appearance. Each key's value is the merge of the values it collected, in encounter order. |
| JsonStructureProperties.MergeWellFormed | extension/json/json_functions/json_structure.cpp:107-116 | Merging shapes made of strings, arrays and objects never reaches the internal "unexpected JSON type" error, and the result is such a shape again. |
| JsonStructureProperties.BuildWellFormed | extension/json/json_functions/json_structure.cpp:152-161 | Building a structure never raises the internal error and never creates a value of another kind. |
| JsonStructureProperties.BuildMembersValues | extension/json/json_functions/json_structure.cpp:139-150 | A built object has the document's members in order, with the same keys, each value built recursively. |
| JsonStructureProperties.BuildAllLength | extension/json/json_functions/json_structure.cpp:122-130 | An array's element shapes are the built shapes of its elements, one per element, in order. |
| JsonStructureProperties.BuildShape | extension/json/json_functions/json_structure.cpp:122-161 | A scalar maps to its type name and an array to a one-element array holding the merge of its element shapes. An object maps to an object with the same keys in the same order, each value built recursively. |
| JsonStructureProperties.BuildScalarArray | extension/json/json_functions/json_structure.cpp:122-137 | An array of scalars is described by the widest non-NULL scalar type it holds, or by "NULL" when it holds only nulls or nothing. |
| JsonStructureProperties.MergeNormal | extension/json/json_functions/json_structure.cpp:10-50 | A merge produces only one-element arrays and objects whose keys are distinct and contain no NUL. |
| JsonStructureProperties.MergeSingletonNormal | extension/json/json_functions/json_structure.cpp:82-117 | A shape of the form a merge produces, merged on its own, is itself. |
| JsonStructureProperties.MergeIdempotent | extension/json/json_functions/json_structure.cpp:82-117 | Merging a merge result on its own gives the same result. |
| JsonStructureProperties.ExampleNumbersWiden | extension/json/json_functions/json_structure.cpp:122-137 | `[1, 2.5, null]` is described as an array of DOUBLE. |
| JsonStructureProperties.ExampleNulKeysMerge | extension/json/json_functions/json_structure.cpp:35-48 | `[{"a\u0000b": 1, "a\u0000c": true}]` is described as `[{"a": "UBIGINT"}]`: building keeps both keys whole, the merge reads both as "a" and widens their values. |
| JsonStructureProperties.ExampleMixedKinds | extension/json/json_functions/json_structure.cpp:102-104 | `[true, [1]]` is rejected as inconsistent. |

## Left out

- Join planning runs against a transaction, a client context, cardinality estimation and the planning of the children. These are not modelled. Each child arrives already planned, with its eligibility facts: table scan with table-scan bind data, transaction-local storage, filter count, indexes with their lead aliases. Cardinalities and the index-join override flag are plain inputs.
- JoinPlanning.ChoosePlan: `x < 0.01 * y` on 64-bit counts is modelled as the exact comparison `100 * x < y`. Double rounding for very large counts is not modelled.
- JoinPlanning.ChoosePlan: the result type list (`op.types`) and the physical operator objects are left out. A plan is a tagged value with the children, conditions, join type, projection maps, column ids and index it receives.
- JoinPlanning.ChoosePlan: the debug assertion that a null-equal condition is an equality is a precondition. The later debug assertion on the range-join branch is proved to hold by NullEqualityNeedsEqualityJoin.
- FunctionStatistics: statistics objects, the context, bind data and expressions are abstract types. Ownership transfer through `unique_ptr` is not modelled: a child's slot is a position in the call's child sequence, and what a child's propagation leaves there is part of its outcome. Child propagation and the rule's own behaviour belong to code outside this model and are function values that may return an error.
- IndexEntry: atomic reference counting and concurrent release are not modelled. The shared pointer is a sequential use count.
- IndexEntry: the bodies of the index list's `RemoveIndex` and `CommitDrop` are not part of this model. They are a set removal and a set insertion on the table's index list.
- IndexEntry.CreateEntry: the cast of the table entry to a DuckDB table is not modelled. The table must exist, which is a precondition. Catalog bookkeeping from the base class constructor (schema, catalog, create info) is reduced to the entry's name.
- IndexEntry.Release: entries are released one at a time. Destruction order across entries is the order of the release calls.
- ColumnListing: `AddColumn`, `Finalize`, the name map, name lookup, `LogicalToPhysical`, `Copy` and serialisation are not part of this model. Their bodies are not part of the modelled header. Column definitions are an abstract type, and `GetColumn` is a function value.
- ColumnListing: the 64-bit wrap of `idx_t` positions is not modelled. Positions never exceed the column count.
- JsonStructure: the yyjson documents, iterators, string copies, `JSONCommon::WriteVal`, vector execution and function registration (json_structure.cpp:163-177) are not modelled. A parsed document is the `Json` datatype and a result document is the `Shape` datatype. Iterating a non-array or non-object value yields nothing, which is the library's behaviour.
- JsonStructureProperties.MaxTypeStringChoosesInput: "the result is one of the inputs" is proved only for the five type names. `GetMaxTypeString` returns BOOLEAN for two different names outside them. Its debug assertion that both are BOOLEAN there is not assumed.
- JsonStructure.MaxTypeString: `GetMaxTypeString` and the NULL test compare type names with `strcmp`, which stops at a NUL, and a string shape is written back through a C string. The model compares whole strings. Built shapes only carry the six type names, which contain no NUL.

Two behaviours of the code worth noting:

- IndexEntry.CreateEntry does not register the index name in the table's index list; neither does the fresh-entry constructor (duck_index_entry.cpp:20-27). Registration happens elsewhere, so the index list is an input.
- FunctionStatistics.PropagateFunction looks for the rule before visiting any child (propagate_function.cpp:8-10). So without a rule no child is propagated at all.
