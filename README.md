# typed_dag closure maintenance, in Dafny

typed_dag keeps a directed acyclic graph of nodes in a relational table.
The table holds every direct edge and every path of the graph as a closure row,
so that queries about ancestors and descendants are single lookups.
The Ruby code builds SQL statements that keep this table consistent whenever an
edge is created, updated or destroyed.
This project models what those statements do to the table and proves
properties of that meaning.

Two generations of the engine are modelled separately.

- **The typed engine.** A row is `(id, ancestor, descendant, one weight per
  configured type column)`, and a relation is direct when its weights sum
  to 1. It covers:
  - the closure insertion (`AddClosure`);
  - the rank-limited closure truncation (`TruncateClosure`), with its
    PostgreSQL `ROW_NUMBER` and its MySQL session-variable counter;
  - the create/update/destroy callbacks (`ClosureMaintenance`);
  - the two validations (`Validations`);
  - the rebuild steps (`InsertClosureOfDepth`, `GetCircular`,
    `InsertReflexive`);
  - the column and option accessors (`RelationAccess`, `Configuration`).
- **The single-type engine.** A row is `(id, from, to, relation_type, depth)`.
  It covers the edge callbacks (`HierarchyEdge`) and the node queries
  (`HierarchyNode`).

Shared pieces are:

- `ClosureTable`: the row, the key, sums of weights, `DELETE … WHERE id IN`;
- `Joins`: a self-join `t r1 JOIN t r2 ON cond` as the lexicographic sequence of
  joined index pairs, each listed once;
- `Wrappers`: `Option`.

The table is a `seq` of rows, which SQL reads as a multiset. An `INSERT … SELECT`
appends one row per joined pair, with ids taken from the id sequence. A `DELETE`
removes the rows whose ids the sub-select returns. The callbacks are methods of
classes holding the table (`RelationTable`, `Relations`) and the destroyed edge's
memo (`Edge`). The MySQL ranking is a loop.

Assumptions about code the model does not contain:

- `Sql::Helper.sum_of_type_columns` is the sum of the type columns.
- `type_select_summed_columns('r1', 'r2')` is the per-column sum `r1.c + r2.c`.
- `direct?` means the type columns sum to 1.
- `new_record?` means the relation has no id; a `dup` has none.
- `truncate_closure.rb` reads `from_column`, `to_column` and `from_id_value`, but
  the shown `relation_access.rb` only defines the ancestor and descendant
  accessors. The model reads `from` as the ancestor and `to` as the descendant.
- `SelectClosure` is not part of this model. The candidate pairs and their
  weights follow the statement the truncation tests expect
  (spec/typed_dag/sql/truncate_closure_spec.rb:23-47).

The plain readers are modelled as functions without rows of their own. They are:

- `RelationAccess.AncestorColumn`, `DescendantColumn` and `TypeColumns`;
- `RelationAccess.AncestorIdValue`, `DescendantIdValue`, `KeyOfRelation` and `RowOfRelation`;
- `Configuration.NodeClassName` and `EdgeClassName`.

What they promise together is stated by `RelationAccess.KeyIffColumnsAgree` and by the `Configuration` defaults.

## Model

| member | source | states |
|---|---|---|
| Joins.Join | lib/typed_dag/sql/add_closure.rb:25-32 | a pair of positions is listed exactly when the join condition holds for its two rows, and no pair is listed twice |
| Joins.JoinedExactlyOnce | lib/typed_dag/sql/add_closure.rb:28-32 | a joined pair appears at one and only one position of the join, however many OR'd conditions it meets |
| Joins.JoinInRange | lib/typed_dag/sql/add_closure.rb:25-32 | every listed pair indexes two rows of the table that satisfy the condition |
| ClosureTable.RemoveIds | lib/typed_dag/sql/truncate_closure.rb:17-19 | `DELETE … WHERE id IN`: a row remains exactly when its id is not selected; the result is a sub-multiset of the table |
| ClosureTable.RemoveIdsKeepsIds | lib/typed_dag/sql/truncate_closure.rb:17-19 | deleting rows keeps ids unique and below the id sequence |
| ClosureTable.AppendFreshKeepsIds | lib/typed_dag/sql/add_closure.rb:17-20 | rows appended with consecutive fresh ids keep ids unique and below the advanced sequence |
| ClosureTable.SumZero | lib/typed_dag/sql/add_closure.rb:42-46 | the type columns sum to 0 exactly when every column is 0 |
| ClosureTable.ColumnAtMostSum | lib/typed_dag/sql/add_closure.rb:42-46 | every type column is at most the sum of all columns |
| ClosureTable.SumOfAddWeights | lib/typed_dag/sql/insert_closure_of_depth.rb:37 | summing two weight vectors column by column adds their totals |
| ClosureTable.CountKeyAbsent | lib/typed_dag/sql/truncate_closure.rb:99-101 | a key no row carries is counted zero times |
| ClosureTable.CountKeySnoc | lib/typed_dag/sql/truncate_closure.rb:99-101 | a row appended to a table adds one to the count of its own key and nothing to any other |
| ClosureTable.CountKeyConcat | lib/typed_dag/sql/truncate_closure.rb:99-101 | the count of a key over two tables in a row is the sum of the two counts |
| ClosureTable.CountKeyRemoveAt | lib/typed_dag/sql/truncate_closure.rb:99-101 | taking one row out of a table lowers the count of its key by one and removes one copy of it from the multiset |
| ClosureTable.CountKeyPermutation | lib/typed_dag/sql/truncate_closure.rb:99-101 | the number of rows of a key depends only on the multiset of rows, not on their order |
| AddClosure.ColumnSum | lib/typed_dag/sql/add_closure.rb:38-49 | a column neither row takes part in stays 0; a participating column is at least `r1.c + r2.c` and at most one more, and equals `r1.c + r2.c` exactly on a hand-off |
| AddClosure.DepthSumCase | lib/typed_dag/sql/add_closure.rb:20-49 | the c-th CASE value is the c-th type column of the new row, computed from the c-th columns of `r1` and `r2` |
| AddClosure.Pairs | lib/typed_dag/sql/add_closure.rb:28-62 | a pair is joined exactly when `r1` ends at the edge's ancestor and `r2` starts at its descendant, or `r1` hands off to `r2` and one of them carries the edge's id |
| AddClosure.Inserted | lib/typed_dag/sql/add_closure.rb:15-34 | one new row per joined pair, in join order, with a fresh id, `r1`'s ancestor, `r2`'s descendant and the CASE weights |
| AddClosure.Apply | lib/typed_dag/sql/add_closure.rb:17 | the statement only appends: the old rows are an unchanged prefix of the new table |
| AddClosure.InsertedRowsAreJoinedPairs | lib/typed_dag/sql/add_closure.rb:21-32 | every inserted row comes from a joined pair and every joined pair yields a row, each pair once |
| AddClosure.BothConditionsOnlyOnSelfLoop | lib/typed_dag/sql/add_closure.rb:28-32 | a pair meets both OR'd conditions only when the edge is a self-loop |
| AddClosure.HandOffAddsWeights | lib/typed_dag/sql/add_closure.rb:42-43 | on a hand-off the CASE is the per-column sum, so the new row's total is the two totals added |
| AddClosure.InsertedWeighsAtLeastSources | lib/typed_dag/sql/add_closure.rb:42-46 | every new row weighs at least as much as its two source rows together |
| TruncateClosure.CandidateColumn | spec/typed_dag/sql/truncate_closure_spec.rb:26-39 | on a hand-off the candidate column is the sum when positive and 0 otherwise; off a hand-off it is `r1.c + r2.c` plus the deleted relation's own value, unguarded |
| TruncateClosure.CandidateWeights | spec/typed_dag/sql/truncate_closure_spec.rb:26-39 | the c-th candidate weight is that CASE on the c-th columns |
| TruncateClosure.CandidatePairs | spec/typed_dag/sql/truncate_closure_spec.rb:41-46 | a pair is a candidate exactly when `r1` ends at the deleted relation's ancestor and `r2` starts at its descendant, unless the pair spans the relation itself |
| TruncateClosure.Candidates | spec/typed_dag/sql/truncate_closure_spec.rb:23-47 | one key per candidate pair: `r1`'s ancestor, `r2`'s descendant and the candidate weights |
| TruncateClosure.Criteria | lib/typed_dag/sql/truncate_closure.rb:22-25 | the candidates grouped by key: a key has a group exactly when a candidate produces it, and its count is the number of candidate pairs producing it |
| TruncateClosure.ScopedCount | lib/typed_dag/sql/truncate_closure.rb:97-114 | the number of rows in the neighbourhood filter carrying a key never exceeds the rows counted |
| TruncateClosure.RowNumber | lib/typed_dag/sql/truncate_closure.rb:97-107 | the row number of position `i` is between 1 and `i + 1` |
| TruncateClosure.RowNumberCountsEarlierRows | lib/typed_dag/sql/truncate_closure.rb:99-101 | within a key, a later row of the neighbourhood gets a strictly greater row number |
| TruncateClosure.ScopedCountPrefix | lib/typed_dag/sql/truncate_closure.rb:99-101 | counting over a longer prefix of the table never gives less |
| TruncateClosure.DeletedIds | lib/typed_dag/sql/truncate_closure.rb:19-57 | an id is returned exactly when a row carrying it is in the neighbourhood, its key has a group, and its row number is at most the group's count |
| TruncateClosure.Truncated | lib/typed_dag/sql/truncate_closure.rb:15-32 | the statement only deletes: the result is a sub-multiset of the table, and a row remains exactly when its id was not returned |
| TruncateClosure.DeletedIdIffSelected | lib/typed_dag/sql/truncate_closure.rb:19-30 | with unique ids, a row's id is returned exactly when that row is selected |
| TruncateClosure.DeletedExactlySelected | lib/typed_dag/sql/truncate_closure.rb:50-114 | with unique ids, a row is deleted exactly when it passes the neighbourhood filter, its key matches a group and its row number is within the group's count |
| TruncateClosure.SelectedCountIsMin | lib/typed_dag/sql/truncate_closure.rb:55-101 | among the first `m` rows, the rows selected for a key with a group are the smaller of the group's count and the rows of that key in the neighbourhood; a key without a group has none selected |
| TruncateClosure.RemainingCount | lib/typed_dag/sql/truncate_closure.rb:17-30 | the rows left with a key plus the rows selected with it are the rows that had it |
| TruncateClosure.RemoveIdsCountKey | lib/typed_dag/sql/truncate_closure.rb:17-19 | for any id set, the rows of a key left after the delete plus the rows of that key carrying a listed id are the rows of that key |
| TruncateClosure.SelectedCountIsRemovedCount | lib/typed_dag/sql/truncate_closure.rb:17-30 | with unique ids, the rows of a key carrying a returned id are exactly the selected rows of that key |
| TruncateClosure.RemoveIdsLast | lib/typed_dag/sql/truncate_closure.rb:17-19 | the rows of a key left after deleting, counted through the last row |
| TruncateClosure.DeletesMinOfCountAndRanked | lib/typed_dag/sql/truncate_closure.rb:55-101 | for every key exactly `min(count, rows of that key in the neighbourhood)` rows go, never more than the count, and keys without a group keep all their rows |
| TruncateClosure.WeightsLeAntisymmetric | lib/typed_dag/sql/truncate_closure.rb:93 | the `ORDER BY` on type columns is antisymmetric |
| TruncateClosure.SortedKeysContiguous | lib/typed_dag/sql/truncate_closure.rb:93 | in rows sorted by key, a key that differs from the previous row's has not occurred before |
| TruncateClosure.RunningCount | lib/typed_dag/sql/truncate_closure.rb:82-93 | over sorted rows, the partition row number restarts at 1 when the key changes and otherwise is one more than the previous row's |
| TruncateClosure.RankSortedRows | lib/typed_dag/sql/truncate_closure.rb:75-149 | the MySQL counter loop (`@cur_count`, `@cur_<key>` starting NULL) over key-sorted rows yields exactly the PostgreSQL partition row numbers |
| TruncateClosure.Scoped | lib/typed_dag/sql/truncate_closure.rb:97-114 | the rows the neighbourhood filter lets into `ranked`, in table order, never more than the rows given |
| TruncateClosure.ScopedCountIsCountKey | lib/typed_dag/sql/truncate_closure.rb:97-114 | the rows of a key in `ranked` are exactly the rows of that key the filter lets through |
| TruncateClosure.ScopedPrefix | lib/typed_dag/sql/truncate_closure.rb:97-114 | the ranked rows of a shorter prefix of the table are a prefix of those of a longer one |
| TruncateClosure.RowNumberIsPartitionRowNumber | lib/typed_dag/sql/truncate_closure.rb:97-107 | an in-scope row's `RowNumber` is its `ROW_NUMBER() OVER (PARTITION BY <key>)` among the ranked rows in table order, at the position it takes there |
| TruncateClosure.RankedWithin | lib/typed_dag/sql/truncate_closure.rb:50-57 | the rows of a key numbered at most `c` are never more than the positions scanned |
| TruncateClosure.RankedWithinIsMin | lib/typed_dag/sql/truncate_closure.rb:50-57 | in any order of rows, `count >= row_number` keeps exactly `min(count, rows of the key)` rows of each key |
| TruncateClosure.RankingSelectsAsManyInAnyOrder | lib/typed_dag/sql/truncate_closure.rb:50-107 | for any arrangement of the ranked rows, the MySQL key order among them, the rows of a key numbered within the group's count are `min(count, rows of the key in the neighbourhood)`, as many as the table-order numbering selects |
| RelationAccess.TypeValues | lib/typed_dag/sql/relation_access.rb:37-41 | one value per type column, same length and order as the columns |
| RelationAccess.KeyIffColumnsAgree | lib/typed_dag/sql/relation_access.rb:13-41 | two relations have the same key exactly when they agree on the configured ancestor, descendant and type columns, and with the same id the same row: nothing else about a relation reaches the statements |
| RelationAccess.TypeSelectList | lib/typed_dag/sql/relation_access.rb:43-45 | the type columns joined by `", "` in configured order |
| RelationAccess.SplitNames | lib/typed_dag/sql/relation_access.rb:43-45 | reading a list back always gives at least one name |
| RelationAccess.SplitAfterName | lib/typed_dag/sql/relation_access.rb:43-45 | a name without a comma reads back whole, and the text after its separator is read on |
| RelationAccess.TypeSelectListRoundTrip | lib/typed_dag/sql/relation_access.rb:43-45 | for at least one type column and no column name containing a comma, reading the select list back gives exactly the configured columns |
| Configuration.AncestorColumn | lib/typed_dag/configuration.rb:18-20 | the configured name, else `ancestor_id` |
| Configuration.DescendantColumn | lib/typed_dag/configuration.rb:22-24 | the configured name, else `descendant_id` |
| Configuration.TypeColumn | lib/typed_dag/configuration.rb:26-28 | the configured name, else `type` |
| Configuration.DepthColumn | lib/typed_dag/configuration.rb:30-32 | the configured name, else `depth` |
| Configuration.DefaultColumnsDistinct | lib/typed_dag/configuration.rb:18-32 | without configured names the four columns are `ancestor_id`, `descendant_id`, `type`, `depth`; configuring only the ancestor column changes that column and leaves the descendant default |
| Validations.Errors | lib/typed_dag/edge/validations.rb:6-21 | `taken` on `from` is recorded exactly when another row between the same nodes sums to at most 1; `typed_dag.circular_dependency` on `:base` exactly when a row runs from the descendant to the ancestor; nothing else |
| Validations.ValidIffNeitherError | lib/typed_dag/edge/validations.rb:6-21 | a relation is valid exactly when neither condition holds |
| Validations.ErrorsDependOnlyOnRowsBetween | lib/typed_dag/edge/validations.rb:6-21 | two tables that agree on the rows between the relation's nodes, in either direction, give the same errors |
| Validations.OnlyNearDirectRowsBlock | lib/typed_dag/edge/validations.rb:9 | for a new relation, rows summing to more than 1 never make it taken; adding a row between its two nodes makes it taken exactly when that row sums to at most 1 |
| ClosureMaintenance.FormerValues | lib/typed_dag/edge/closure_maintenance.rb:26-36 | the `dup` has no id; each changed attribute takes its previous value, every other attribute keeps its current one |
| ClosureMaintenance.FormerValuesHasColumns | lib/typed_dag/edge/closure_maintenance.rb:26-38 | every column the truncation reads is still readable on the former-values relation |
| ClosureMaintenance.FormerKeyUnchanged | lib/typed_dag/edge/closure_maintenance.rb:26-38 | when no column the statements read changed, the former key is the current key (a corollary of `RelationAccess.KeyIffColumnsAgree`) |
| ClosureMaintenance.WithRow | lib/typed_dag/edge/closure_maintenance.rb:7 | an update by primary key replaces the rows carrying the id and keeps every other row |
| ClosureMaintenance.RelationTable.constructor | lib/typed_dag/edge/closure_maintenance.rb:5-8 | an empty table with a fresh id sequence |
| ClosureMaintenance.RelationTable.AddClosures | lib/typed_dag/edge/closure_maintenance.rb:12-16 | for a direct relation the table becomes the closure insertion applied to it; otherwise nothing changes |
| ClosureMaintenance.RelationTable.Truncate | lib/typed_dag/edge/closure_maintenance.rb:23-38 | the table becomes the closure truncation for the relation's key |
| ClosureMaintenance.RelationTable.TruncateClosures | lib/typed_dag/edge/closure_maintenance.rb:18-24 | only a direct relation that is not a new record truncates; anything else leaves the table as it was |
| ClosureMaintenance.RelationTable.TruncateClosuresWithFormerValues | lib/typed_dag/edge/closure_maintenance.rb:26-39 | truncates with the former values' key, without checking the `dup` for being direct or saved |
| ClosureMaintenance.RelationTable.AlterClosure | lib/typed_dag/edge/closure_maintenance.rb:41-46 | for a relation direct after the update, truncation with the former values, then insertion with the current values; otherwise nothing changes |
| ClosureMaintenance.RelationTable.Insert | lib/typed_dag/edge/closure_maintenance.rb:6 | the new row is appended with the next id |
| ClosureMaintenance.RelationTable.Create | lib/typed_dag/edge/closure_maintenance.rb:6-16 | the row is saved with the next id, then closures are added only when it is direct; the id sequence advances by one plus the number of closure rows added |
| ClosureMaintenance.RelationTable.Update | lib/typed_dag/edge/closure_maintenance.rb:7-46 | the row is rewritten in place; for a direct relation the updated table is truncated with the former key and then gets the closures of the current values, the id sequence advancing by the rows added; for a non-direct one the updated table is the result and the sequence is unchanged |
| ClosureMaintenance.RelationTable.Destroy | lib/typed_dag/edge/closure_maintenance.rb:8-24 | the row is deleted; for a direct relation the remaining table is then truncated with its key, and for a non-direct one the remaining table is the result |
| InsertClosureOfDepth.Pairs | lib/typed_dag/sql/insert_closure_of_depth.rb:41-47 | a pair is joined exactly when `r1` hands off to `r2`, `r1` sums to `depth` and `r2` sums to 1 |
| InsertClosureOfDepth.Inserted | lib/typed_dag/sql/insert_closure_of_depth.rb:13-39 | one row per joined pair: `r1`'s ancestor, `r2`'s descendant, the per-column sums |
| InsertClosureOfDepth.Apply | lib/typed_dag/sql/insert_closure_of_depth.rb:15 | the statement only appends to the table |
| InsertClosureOfDepth.InsertedRowsExtendByOne | lib/typed_dag/sql/insert_closure_of_depth.rb:33-46 | every inserted row extends a path of weight `depth` by a direct relation and weighs `depth + 1` |
| InsertClosureOfDepth.EveryExtensionInserted | lib/typed_dag/sql/insert_closure_of_depth.rb:41-47 | every path of weight `depth` followed by a direct relation yields a row |
| InsertClosureOfDepth.OnlyRowsOfDepthAreExtended | lib/typed_dag/sql/insert_closure_of_depth.rb:44 | a row whose sum is not `depth` never acts as `r1` |
| GetCircular.Circular | lib/typed_dag/sql/get_circular.rb:13-35 | one `(ancestor, descendant)` pair of `r1` per joined pair, where `r1` is direct and `r2` runs back with weight `depth` |
| GetCircular.ReturnedPairsCloseCycles | lib/typed_dag/sql/get_circular.rb:15-33 | every returned pair is the endpoints of a direct row, and a row of weight `depth` runs back between them |
| GetCircular.EmptyIffNoReverseRow | lib/typed_dag/sql/get_circular.rb:28-35 | the result is empty exactly when no direct row has a reverse row of weight `depth` |
| InsertReflexive.Inserted | lib/typed_dag/sql/insert_reflexive.rb:13-21 | one row per node, from the node to itself, with every type column at its default 0 |
| InsertReflexive.Apply | lib/typed_dag/sql/insert_reflexive.rb:15 | the statement only appends to the table |
| InsertReflexive.EveryNodeReachesItself | lib/typed_dag/sql/insert_reflexive.rb:13-21 | every node gets a reflexive row of weight 0 that is not direct; ids stay unique and rows well-formed |
| InsertReflexive.ReflexiveRowsNeverJoin | lib/typed_dag/sql/insert_reflexive.rb:18 | a reflexive row never takes part in a closure-of-depth join or a cycle check |
| HierarchyEdge.Without | lib/typed_dag/edge.rb:77 | `where(id: …).delete_all` never grows the table |
| HierarchyEdge.WithoutMembers | lib/typed_dag/edge.rb:77 | a row remains exactly when its id is not listed |
| HierarchyEdge.UniqueIdsSnoc | lib/typed_dag/edge.rb:77 | ids are unique in a table exactly when they are unique before its last row and the last id is new |
| HierarchyEdge.WithoutUniqueIds | lib/typed_dag/edge.rb:77 | deleting rows keeps ids unique |
| HierarchyEdge.WithoutKeepsIds | lib/typed_dag/edge.rb:77 | deleting rows keeps ids unique and below the sequence |
| HierarchyEdge.ClosureDepth | lib/typed_dag/edge.rb:24-29 | the depth is the sum of the two depths on a hand-off, and one more otherwise |
| HierarchyEdge.InsertedFor | lib/typed_dag/edge.rb:17-29 | one `hierarchy` row per listed pair: `r1.from`, `r2.to`, the CASE depth |
| HierarchyEdge.InsertedAsWritten | lib/typed_dag/edge.rb:14-38 | the rows the statement as written inserts, one per pair its `ON` clause joins |
| HierarchyEdge.Inserted | lib/typed_dag/edge.rb:14-38 | the rows the intended statement inserts, one per pair of a sandwich or a hand-off involving the link |
| HierarchyEdge.InsertedRowsRunThroughLink | lib/typed_dag/edge.rb:17-36 | every row the intended statement inserts stands for a path through the new link, of type `hierarchy`, and its depth is that path's length |
| HierarchyEdge.EveryJoinedPairInserted | lib/typed_dag/edge.rb:30-36 | every pair the intended condition joins yields a row |
| HierarchyEdge.EveryPairJoinedAsWrittenInserted | lib/typed_dag/edge.rb:30-36 | every pair the condition as written joins yields a row |
| HierarchyEdge.CorrectedPairsJoinedAsWritten | lib/typed_dag/edge.rb:30-36 | with the link saved and ids unique, every pair the corrected condition joins is joined by the condition as written |
| HierarchyEdge.CorrectedRowsInsertedAsWritten | lib/typed_dag/edge.rb:14-38 | every row the corrected statement inserts is inserted as written too, with the same endpoints, type and depth |
| HierarchyEdge.AsWrittenDuplicatesUnrelatedPaths | lib/typed_dag/edge.rb:33-36 | the condition as written inserts a copy of the existing path `1 -> 3` that does not run through the new link `2 -> 4` |
| HierarchyEdge.MemorableIds | lib/typed_dag/edge.rb:43-55 | at most one id per row scanned |
| HierarchyEdge.MemorableIdsMembers | lib/typed_dag/edge.rb:43-55 | an id is listed exactly when a memorable row carries it |
| HierarchyEdge.MemorizedIds | lib/typed_dag/edge.rb:43-55 | at most one id per row of the table |
| HierarchyEdge.MemorizedIdsMembers | lib/typed_dag/edge.rb:43-55 | the memo lists exactly the rows `r1` with a row from `r1.from` to the link's target and a row from the link's source to `r1.to` |
| HierarchyEdge.LinkMemorizesItself | lib/typed_dag/edge.rb:11-55 | a link still in the table memorises its own id |
| HierarchyEdge.AfterAddClosures | lib/typed_dag/edge.rb:14-15 | the old rows are an unchanged prefix of the new table |
| HierarchyEdge.Destroyed | lib/typed_dag/edge.rb:11-80 | destroying never grows the table |
| HierarchyEdge.DestroyedMembers | lib/typed_dag/edge.rb:11-80 | the link's row goes; for a hierarchy link exactly the memorised rows go, for any other relation only its own row |
| HierarchyEdge.Relations.constructor | lib/typed_dag/edge.rb:10 | an empty table with a fresh id sequence |
| HierarchyEdge.Relations.Insert | lib/typed_dag/edge.rb:10 | the new row is appended with the next id |
| HierarchyEdge.Edge.constructor | lib/typed_dag/edge.rb:10-12 | a saved relation with no memo |
| HierarchyEdge.Edge.AddClosures | lib/typed_dag/edge.rb:14-38 | for a hierarchy link the table grows by the inserted rows and the id sequence by their number; otherwise nothing changes |
| HierarchyEdge.Edge.MemorizeClosuresToDestroy | lib/typed_dag/edge.rb:40-56 | for a hierarchy link the memo becomes the memorised ids; otherwise it is left alone |
| HierarchyEdge.Edge.TruncateClosures | lib/typed_dag/edge.rb:74-80 | with a non-empty memo exactly the memorised ids are deleted and the memo is reset to `nil`; with a `nil` or empty memo nothing changes |
| HierarchyEdge.Create | lib/typed_dag/edge.rb:10-38 | the row is saved with the next id, then the closure rows of a hierarchy link are added; the id sequence advances by one plus the rows added |
| HierarchyEdge.Destroy | lib/typed_dag/edge.rb:11-80 | memorise, delete the row, delete the memorised rows, the id sequence unchanged; with no earlier memo the table becomes `Destroyed` and the memo ends `nil` or empty |
| HierarchyNode.Collect | lib/typed_dag/node.rb:28-48 | a scoped association never lists more values than rows |
| HierarchyNode.CollectMembers | lib/typed_dag/node.rb:28-48 | a value is listed exactly when a selected row carries it |
| HierarchyNode.CollectSnoc | lib/typed_dag/node.rb:28-48 | the list follows table order row by row |
| HierarchyNode.Children | lib/typed_dag/node.rb:20-30 | `c` is a child exactly when a depth-1 `hierarchy` row runs from the node to `c`, so a grandchild is excluded |
| HierarchyNode.Descendants | lib/typed_dag/node.rb:32-39 | `d` is a descendant exactly when a `hierarchy` row of any depth runs from the node to `d` |
| HierarchyNode.Ancestors | lib/typed_dag/node.rb:41-48 | `a` is an ancestor exactly when a `hierarchy` row of any depth runs from `a` to the node |
| HierarchyNode.ParentRelation | lib/typed_dag/node.rb:7-13 | a depth-1 `hierarchy` row into the node, `nil` exactly when there is none |
| HierarchyNode.Parent | lib/typed_dag/node.rb:15-18 | the source of a depth-1 `hierarchy` row into the node, `nil` exactly when there is none |
| HierarchyNode.ChildrenAreDescendants | lib/typed_dag/node.rb:20-39 | every child is a descendant |
| HierarchyNode.LeafIffNoDescendants | lib/typed_dag/node.rb:50-52 | `leaf?` holds exactly when the node has no descendants |
| HierarchyNode.ChildIffParent | lib/typed_dag/node.rb:54-56 | `child?` holds exactly when there is a parent, and the parent is an ancestor |
| HierarchyNode.InClosureIffAncestorOrDescendant | lib/typed_dag/node.rb:58-63 | `in_closure?(o)` holds exactly when `o` is an ancestor or a descendant |
| HierarchyNode.LinkingChainsJoinsDescendants | spec/typed_dag_spec.rb:288-300 | with `1 -> 2` and `3 -> 4` saved, creating `2 -> 3` makes exactly `2`, `3` and `4` the descendants of `1` |
| HierarchyNode.LinkedChainsDescendant | spec/typed_dag_spec.rb:288-300 | the same, one node at a time |
| HierarchyNode.LinkAddsRowFromOne | lib/typed_dag/edge.rb:30-36 | the new link extends `1 -> 2` to `3` and, through `3 -> 4`, to `4` |
| HierarchyNode.RowsFromOneEndBelowLink | lib/typed_dag/edge.rb:30-36 | every row the new link adds from `1` ends at `3` or `4` |
| HierarchyNode.WithoutSnoc | lib/typed_dag/edge.rb:77 | the deletion keeps table order, row by row |
| HierarchyNode.MemorableIdsSnoc | lib/typed_dag/edge.rb:43-55 | the memo keeps table order, row by row |
| HierarchyNode.MemorableIdsSnoc3 | lib/typed_dag/edge.rb:43-55 | the same, three rows at a time |
| HierarchyNode.MiddleLinkMemorable | lib/typed_dag/edge.rb:43-55 | in the chain `1 -> 2 -> 3 -> 4`, destroying `2 -> 3` memorises the rows from `1` or `2` into `3` or `4` and no others |
| HierarchyNode.MemoOfChain | lib/typed_dag/edge.rb:43-55 | the memo of the six closure rows of a four-node chain |
| HierarchyNode.MiddleLinkMemo | lib/typed_dag/edge.rb:40-56 | destroying `2 -> 3` memorises the ids of `2 -> 3`, `1 -> 3`, `2 -> 4` and `1 -> 4` |
| HierarchyNode.MiddleLinkRowDeleted | lib/typed_dag/edge.rb:11 | deleting the link's row leaves the other five rows in order |
| HierarchyNode.MemorizedRowsDeleted | lib/typed_dag/edge.rb:74-80 | deleting the memorised ids leaves `1 -> 2` and `3 -> 4` |
| HierarchyNode.MiddleLinkDestroyed | lib/typed_dag/edge.rb:40-80 | destroying `2 -> 3` leaves exactly `1 -> 2` and `3 -> 4` |
| HierarchyNode.RemovingMiddleLinkSplitsChain | spec/typed_dag_spec.rb:341-375 | after the removal `2` has no children and no descendants, `3` is the only ancestor of `4`, and `2` is still the only child of `1` |

## Left out

- SQL text is not modelled: whitespace and the interpolation of table and column names. The model states what each statement does to the rows.
- ActiveRecord machinery is not modelled: callback dispatch, associations, `has_one through`, `belongs_to` errors, `connection.execute` and `constantize`. Its effect is kept in the methods' order of steps.
- `Configuration.edge_table_name` is not modelled. It resolves a class by name at run time.
- `SelectClosure`, `Sql::Helper`, `direct?`, `of_from_and_to` and the rebuild driver are not part of this model. Their assumed meaning is stated at the top of this file, and no retry or attempt limit is modelled.
- Transactions, isolation and concurrent writers are not modelled.
- The table is a multiset without the test schema's unique index on `(ancestor_id, descendant_id, hierarchy, invalidate)` (spec/test_app/db/schema.rb:28). That index would forbid the duplicate rows the truncation ranks.
- The test schema's `count` column (spec/test_app/db/schema.rb:27) is not modelled. The PostgreSQL ranking selects `*` (lib/typed_dag/sql/truncate_closure.rb:99), which carries that column into `ranked`. The unqualified `count` of `count >= row_number` (line 55) then names both `criteria.count` and `ranked.count`, and PostgreSQL would reject it as ambiguous on that schema. The model reads it as the criteria's `COUNT(*)`, as the MySQL branch's explicit column list does. Nothing was executed; this is a reading of the SQL.
- PostgreSQL leaves the order of rows within a `ROW_NUMBER` partition unspecified. `TruncateClosure.RowNumber` numbers rows in table order. `TruncateClosure.RankingSelectsAsManyInAnyOrder` proves that the number of rows of each key numbered within the count is the same in any order. Which rows of a key go does depend on the order.
- TruncateClosure.RankingSelectsAsManyInAnyOrder: for an order other than table order, including the MySQL key order, the per-key count is proved over the ranked rows. It is not traced back through the deleted ids to the rows left in the table; `TruncateClosure.DeletesMinOfCountAndRanked` does that for table order.
- TruncateClosure.RankSortedRows assumes that MySQL evaluates the `@cur_*` assignments row by row in `ORDER BY` order (lib/typed_dag/sql/truncate_closure.rb:82-93). MySQL does not guarantee the order in which user variables in a select list are evaluated.
- NULL weights and NULL session variables are not modelled beyond the counter's starting state. All columns hold natural numbers.
- No lemma relates adding then truncating the same relation. The insertion adds 1 to every participating column, while the truncation candidates add the deleted relation's own column value with no guard. The code does not promise that one undoes the other.
- HierarchyEdge.AfterAddClosures appends the rows of the corrected join of the "## Findings" row, not those of lib/typed_dag/edge.rb:33-36 as written. As written the statement also inserts the duplicate rows `HierarchyEdge.AsWrittenDuplicatesUnrelatedPaths` exhibits. `HierarchyEdge.CorrectedRowsInsertedAsWritten` proves it inserts every corrected row as well.
- HierarchyEdge.Edge.AddClosures models the corrected statement through `AfterAddClosures`, for the same reason.
- HierarchyEdge.Create models creation with the corrected statement, and so does the `Created` it states the table by.
- HierarchyEdge.Destroy: the table is stated only for an edge object with no earlier memo. The memo comes from `before_destroy` of the same destroy.
- HierarchyEdge.MemorizedIds: `select_values` may return an id more than once. The deletion uses it as a set, so multiplicity is not stated.
- HierarchyNode.ParentRelation: `has_one` with several matching rows picks one in an unspecified order. The model takes the first in table order.
- HierarchyNode.RemovingMiddleLinkSplitsChain: the chain's closure table is given as the six rows that creating its three links in order produces. It is not derived from an empty table.
- The model does not state that rows keep their order when the truncation deletes some of them.

## Findings

| source | as written | input that shows it | evidently intended | confidence | as-written member | corrected member |
|---|---|---|---|---|---|---|
| lib/typed_dag/edge.rb:33-36 | the second `ON` disjunct joins any hand-off `r1.to = r2.from` at the new link's source or target, whether or not either row is the link | rows `1 -> 2` (id 1), `2 -> 3` (id 2), `1 -> 3` depth 2 (id 3), then the new link `2 -> 4` (id 4): the pair (`1 -> 2`, `2 -> 3`) hands off at `2` and a second `1 -> 3` of depth 2 is inserted, a path that does not run through `2 -> 4` | only hand-offs in which one row is the new link, as in the typed engine's `relations_join_extends_paths_condition` (lib/typed_dag/sql/add_closure.rb:58-62); then every inserted row is a path through the link | not executed | HierarchyEdge.AsWrittenDuplicatesUnrelatedPaths | HierarchyEdge.InsertedRowsRunThroughLink |
