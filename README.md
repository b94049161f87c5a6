# lineupjs core, modelled in Dafny

This project models five pieces of sequential logic from the LineUp ranking library:

- **`TaskScheduler`** (`src/internal/scheduler.ts`) is the cooperative scheduler. It holds a FIFO queue of keyed,
  resumable tasks and runs them in idle-time slices. Module `Scheduler`, class `TaskScheduler`.
- **`LocalDataProvider`** (`src/provider/LocalDataProvider.ts`) is the provider over an in-memory array. It covers:
  - the ranking pipeline `sortImpl`: filter, group, two-level sort, partition into runs, group sort;
  - the row bookkeeping of `setData`, `appendData` and `clearData`;
  - the index maps `viewRaw`, `viewRawRows` and `fetch`;
  - the lazy row cache of `stats`;
  - the index collection of `searchAndJump`.

  Module `LocalData`, classes `LocalDataProvider` and `StatsRows`.
- **`ADataProvider`** (`src/provider/ADataProvider.ts`) is the provider state. It covers:
  - the selection, with its "no change, no event" guards;
  - the list of rankings;
  - the column id counter `uid` and column creation by type tag;
  - `find`, `dump`, `restore`, `restoreRanking` and `deriveDefault`.

  Module `DataProvider`, classes `Provider` and `Ranking`. The text `exportTable` builds is in module `Export`.
- **`DateColumn`** (`src/model/DateColumn.ts`): value, label and the comparator with its missing-value rules. Module `DateColumn`.
- **The UpSet set helpers** (`src/renderer/UpSetCellRenderer.ts`):
  - `union`;
  - the `catindexes` part of `calculateSetPath`;
  - the left/right/hide logic of the DOM `render`, including its in-place `reverse()`.

  Module `UpSet`.

Helper modules:

- `Wrappers` defines `Option`.
- `Sorting` is an insertion sort, the model of `Array.prototype.sort`. It is proved to give a permutation, sorted under a total preorder, and to keep an element that may come first in front of later ones (`SortByPrecedes`, `SortByStable`).
  - Section 23.1.3.30 of ECMA-262 fixes the result of `sort` only for a consistent comparator (`Sorting.Consistent`: a total preorder whose sign flips when the arguments are swapped). For such a comparator `Sorting.SortByIsTheStableSort` proves that the model's result is the only sorted permutation that keeps ties in their order, which is what every engine must return.
  - For other comparators the engine's order is its own, and the model's is that of insertion sort.
- `Seqs` holds `indexOf` and the set of a sequence's elements.
- `Strings` holds `String(n)` for integers and the default string ordering of `sort()`.

Modelling choices, in the system's own terms:

- **Iterators and the host deadline.**
  - A scheduler iterator is a step machine. It answers "not done" a given number of times. Its next call then reports done with its value, or throws. A throw stands for an exception from `next()`, or from `calc()` inside a one-shot iterator.
  - The host deadline is a budget: how many times "is there time left?" is answered yes. Once time has run out it stays out.
  - Every promise the scheduler creates is a ticket. Settling it appends to the log `settled`. The `requestAnimationFrame` delay is not modelled.
  - The host hands out callback ids 1, 2, 3, …. The id `clear` cancels is logged in `cancelled`.
- **Provider events.**
  - Events the provider fires are appended to `events`.
  - Rankings handed to `triggerReorder` are appended to `reorders`.
  - Rankings that `reorderAll` marks dirty are appended to `dirtied`.
- **Selection.** The selection is a d3 set of `String(index)`. `String` is injective on integers (`Strings.IntToStringInjective`), so the selection is a `set<int>`.
- **Collaborators become parameters.** What a `Ranking` contributes is a parameter:
  - its filter, grouper, comparator and group comparator;
  - `isFiltered()`;
  - a column's cell label;
  - `isNumberColumn`;
  - `isSupportType`;
  - the d3 `timeParse` and `timeFormat`;
  - the constant `FIRST_IS_NAN`;
  - `localeCompare` of the lower-cased group names.
- **Rankings are flat.** A ranking holds a flat list of columns. Its `restore`, `find`, `dump` and `flatColumns` work on that list.
- **Column dumps.** A column dump whose description has no type is dropped by `createHelper`.
  - The model drops it the same way.
  - A type tag with no registered column class makes `new type(...)` throw in the source. All of `restore` is then abandoned. The model reports this as `ok == false`: the rankings restored before it stay in the list and get no new ids.
- **The order of `restore`'s steps.** `restore` restores, repairs and inserts each ranking in one `forEach`, then assigns new ids. The model runs the same steps as separate passes: restore the columns, repair the rank columns, insert, renumber. Each pass touches state the others do not read, so the final state is the same.
- **`exportTable` reassigns `options`.** `exportTable` assigns the result of `merge(op, options)` to `options` but goes on reading `op`. `merge` merges into its first argument, so `op` holds the merged options. The model uses those merged options.

## Model

| member | source | states |
|---|---|---|
| Scheduler.OneShot | src/internal/scheduler.ts:41-45 | the one-shot iterator reports done with `calc()` on its first call of `next()` |
| Scheduler.ThenKeepsAbort | src/internal/scheduler.ts:49-58 | a handle derived through any number of `then` calls aborts by the same id as the root handle |
| Scheduler.AbortEach | src/internal/scheduler.ts:160-162 | resolving each task ABORTED in a loop settles exactly the tickets of the tasks, in order |
| Scheduler.Run | src/internal/scheduler.ts:67-82 | the slice `runTasks` performs on the queue; what it computes is stated by `RunIsFifo`, `NoRoundRobin`, `RunConserves` and `RunKeepsIdsDistinct` below |
| Scheduler.RunIsFifo | src/internal/scheduler.ts:67-82 | the finished tasks of a slice are a prefix of the queue, each resolved with its own final value, in queue order; after them the queue is untouched, or its first task was put back with progress, or that task threw and is gone with its ticket lost |
| Scheduler.NoRoundRobin | src/internal/scheduler.ts:80 | when the front task cannot finish in the slice it goes back to the front after `budget` calls of `next()`, and nothing behind it runs |
| Scheduler.RunConserves | src/internal/scheduler.ts:67-82 | no task is duplicated by a slice: its tickets are those still queued, those finished, and the one whose `next()` threw |
| Scheduler.RunKeepsIdsDistinct | src/internal/scheduler.ts:67-82 | a slice keeps the queue's ids pairwise distinct |
| Scheduler.OneShotTasksCompleteInOrder | src/internal/scheduler.ts:138-140 | one-shot tasks whose `calc` returns, each given a slice of one step, all complete in FIFO order with their values |
| Scheduler.SettledAtMostOnce | src/internal/scheduler.ts:101-178 | while every created promise is queued or settled, none is settled twice and none is both queued and settled |
| Scheduler.AccountPushMulti | src/internal/scheduler.ts:101-128 | `pushMulti` keeps every created promise pending or settled exactly once |
| Scheduler.AccountAbort | src/internal/scheduler.ts:142-152 | `abort` keeps every created promise pending or settled exactly once |
| Scheduler.AccountAbortAll | src/internal/scheduler.ts:154-163 | `abortAll` keeps every created promise pending or settled exactly once |
| Scheduler.AccountClear | src/internal/scheduler.ts:177 | `clear` keeps every created promise pending or settled exactly once |
| Scheduler.AccountRun | src/internal/scheduler.ts:67-82 | a slice without a throw keeps every created promise pending or settled exactly once; after a throw, the lost task's promise is neither pending nor settled |
| Scheduler.FilterSplitsTickets | src/internal/scheduler.ts:155-159 | the matching tasks plus the rest are exactly the queue's tasks |
| Scheduler.RejectKeepsDistinct | src/internal/scheduler.ts:159 | keeping the non-matching tasks keeps the ids distinct |
| Scheduler.FilterNoneKeepsAll | src/internal/scheduler.ts:155-158 | when no task matches, the queue is unchanged |
| Scheduler.TaskScheduler.constructor | src/internal/scheduler.ts:63-65 | an empty queue, no callback registered, no promise created |
| Scheduler.TaskScheduler.ReSchedule | src/internal/scheduler.ts:88-99 | registers the host's next callback id exactly when the queue is non-empty and none is registered; nothing else changes |
| Scheduler.TaskScheduler.Abort | src/internal/scheduler.ts:142-152 | true iff a queued task has the id; that task alone is removed and resolved ABORTED, the rest keep their order; false changes nothing |
| Scheduler.TaskScheduler.AbortHandle | src/internal/scheduler.ts:103-112 | a handle's `abort` cancels whichever task is queued under its id |
| Scheduler.TaskScheduler.PushMulti | src/internal/scheduler.ts:101-136 | the task queued under the id is resolved ABORTED and removed, the new task goes to the back with a new ticket, ids stay distinct, a callback is registered if none was, and the handle aborts by the id |
| Scheduler.TaskScheduler.Push | src/internal/scheduler.ts:138-140 | `pushMulti` with the one-shot iterator of `calc` |
| Scheduler.TaskScheduler.AbortAllMatching | src/internal/scheduler.ts:154-163 | exactly the matching tasks are removed and resolved ABORTED in order, the rest keep their order; no change when none match |
| Scheduler.TaskScheduler.Clear | src/internal/scheduler.ts:165-178 | with no callback registered nothing changes; otherwise the callback is cancelled, `taskId` is -1 and every queued task is resolved ABORTED in order, leaving the queue empty |
| Scheduler.TaskScheduler.RunTasks | src/internal/scheduler.ts:67-86 | the queue and the settlements are those of the slice function `Run`; without a throw a callback is registered afterwards exactly when work is left; after a throw `taskId` keeps the id of the callback that ran and nothing is registered |
| Scheduler.ThrowStallsQueue | src/internal/scheduler.ts:69-99 | after a task's `next()` throws, its promise is neither pending nor settled, and a task pushed next stays queued with no callback registered |
| LocalData.FilterSpec | src/provider/LocalDataProvider.ts:138 | `filter` keeps exactly the elements that pass, and only elements of the input |
| LocalData.SurvivorsSpec | src/provider/LocalDataProvider.ts:134-142 | the surviving rows are, in data order, exactly the items with their positions that the filters keep: with `filterGlobally` those passing every filtered ranking (all rows when none filters), otherwise the ranking's own filter when it filters |
| LocalData.Pipeline | src/provider/LocalDataProvider.ts:127-187 | `sortImpl` as a function: there are no groups exactly when no row survives the filters (in particular when there is no data); the lemmas below state its groups and orders |
| LocalData.AssignedRow | src/provider/LocalDataProvider.ts:132 | each working row is an item with its original position and the grouper's group or the default group |
| LocalData.PipelineCovers | src/provider/LocalDataProvider.ts:150-184 | the orders of all groups together are a rearrangement of the surviving indices |
| LocalData.PipelineArgsort | src/provider/LocalDataProvider.ts:150-184 | over all groups, every kept row's index appears exactly once and no other index appears |
| LocalData.PipelineGroupsNamed | src/provider/LocalDataProvider.ts:170-181 | every index in a group's order belongs to a row of that group's name |
| LocalData.PipelineSingleGroup | src/provider/LocalDataProvider.ts:150-158 | with a single group name the result is one group with the first row's group, its order listing the rows sorted by the comparator, stably: a row the comparator lets come before a later one (in particular a tied one) stays before it; otherwise there are at least two groups, each carrying its rows |
| LocalData.PipelineStable | src/provider/LocalDataProvider.ts:154-168 | in every group of the result, of two surviving rows of that group the earlier of which the comparator lets come first (in particular two tied rows), the earlier is listed first in the group's order |
| LocalData.PipelineOrdered | src/provider/LocalDataProvider.ts:161-184 | with a strict name order and a total-preorder comparator, group names are distinct, each group's rows are sorted by the comparator, each group's order lists its rows' indices, and the groups are sorted by the group comparator |
| LocalData.Runs | src/provider/LocalDataProvider.ts:170-181 | the partition of the sorted rows into groups: some group for any rows, and every group carries its rows; `RunsCover`, `RunsAdjacentDiffer` and `RunsWellFormed` state the rest |
| LocalData.RunsCover | src/provider/LocalDataProvider.ts:170-181 | concatenating the runs' rows gives back the sorted rows |
| LocalData.RunsAdjacentDiffer | src/provider/LocalDataProvider.ts:174-179 | a new group starts exactly at a change of group name: neighbouring runs have different names |
| LocalData.RunsWellFormed | src/provider/LocalDataProvider.ts:170-181 | each run is non-empty, takes its group from its first row, lists its rows' indices, and every row in it has the run's name |
| LocalData.RunsMembers | src/provider/LocalDataProvider.ts:172-181 | every row of a run is one of the sorted rows |
| LocalData.RunsSortedWithin | src/provider/LocalDataProvider.ts:161-181 | rows sorted by name and then comparator give runs sorted by the comparator |
| LocalData.CompositeIsTotalPreorder | src/provider/LocalDataProvider.ts:161-168 | the two-level comparator is a total preorder when the name order is strict and the comparator is a total preorder |
| LocalData.SortedIsContiguous | src/provider/LocalDataProvider.ts:161-168 | after the two-level sort, rows of one name are contiguous |
| LocalData.RunsDistinctNames | src/provider/LocalDataProvider.ts:170-181 | over contiguous rows, no two runs share a name |
| LocalData.MixedNamesGiveSeveralRuns | src/provider/LocalDataProvider.ts:150 | rows with more than one group name never form a single run |
| LocalData.Partition | src/provider/LocalDataProvider.ts:170-181 | the partition loop builds exactly the runs `Runs` describes |
| LocalData.SortImpl | src/provider/LocalDataProvider.ts:127-187 | the method returns exactly `Pipeline`, whose properties are the lemmas above |
| LocalData.ToRowsFromAppend | src/provider/LocalDataProvider.ts:262-264 | numbering from 0 is `toRows`, and the rows of a concatenation are the first part's followed by the second part's numbered on from the first part's length |
| LocalData.OthersSpec | src/provider/LocalDataProvider.ts:65-69 | the rankings marked dirty are all rankings except the source, and all of them when there is no source |
| LocalData.LocalDataProvider.constructor | src/provider/LocalDataProvider.ts:55-58 | the rows are `toRows(data)`: row `i` is item `i` with index `i` |
| LocalData.LocalDataProvider.ReorderAll | src/provider/LocalDataProvider.ts:62-70 | every ranking except the source is marked dirty, in order; the data is untouched |
| LocalData.LocalDataProvider.SetData | src/provider/LocalDataProvider.ts:90-94 | the data is replaced, row `i` is item `i` with index `i`, and every ranking is marked dirty |
| LocalData.LocalDataProvider.ClearData | src/provider/LocalDataProvider.ts:96-98 | data and rows are empty and every ranking is marked dirty |
| LocalData.LocalDataProvider.AppendData | src/provider/LocalDataProvider.ts:104-108 | as written: the batch's rows are appended with indices counted from 0 within the batch, and every ranking is marked dirty |
| LocalData.AppendDataRestartsIndex | src/provider/LocalDataProvider.ts:106 | appending `[20]` to `[10]` puts row index 0 at position 1 |
| LocalData.LocalDataProvider.AppendDataIntended | src/provider/LocalDataProvider.ts:104-108 | appended rows carry their position in the whole data set, so the rows are exactly `toRows` of the whole data, as `setData` would build them, and every ranking is marked dirty |
| LocalData.AppendDataIntendedNumbers | src/provider/LocalDataProvider.ts:106 | with the intended numbering the appended row at position 1 has index 1 |
| LocalData.LocalDataProvider.ViewRaw | src/provider/LocalDataProvider.ts:190-193 | one entry per index: the item at that index of the data, and none exactly when the index is outside the data |
| LocalData.LocalDataProvider.ViewRawRows | src/provider/LocalDataProvider.ts:195-198 | one entry per index: the row at that index, and none exactly when the index is outside the rows |
| LocalData.LocalDataProvider.Fetch | src/provider/LocalDataProvider.ts:204-206 | one list per order and one entry per index of it: the row at that index, and none exactly when the index is outside the rows |
| LocalData.FetchSortedRows | src/provider/LocalDataProvider.ts:204-206 | fetching the orders `sortImpl` returns finds a row at every position: the row of an item that passed the filters, with its own index |
| LocalData.ViewRowsAgree | src/provider/LocalDataProvider.ts:190-198 | while the rows are consistent, `viewRawRows` finds a row exactly where `viewRaw` finds an item, and that row holds the item with the index asked for |
| LocalData.FetchedRowsCarryIndex | src/provider/LocalDataProvider.ts:195-206 | `fetch` finds a row exactly at the indices inside the data, and the row found is the item there with the index it was fetched at |
| LocalData.LocalDataProvider.SearchAndJump | src/provider/LocalDataProvider.ts:247-256 | the positions collected are increasing and in range, and a position is collected iff its lower-cased label contains the lower-cased search string |
| LocalData.StatsRows.GetD | src/provider/LocalDataProvider.ts:214-220 | the first call computes and caches `viewRawRows(indices)`; later calls return the cached rows |
| LocalData.StatsRowsStayCached | src/provider/LocalDataProvider.ts:214-220 | the cache keeps its first result even after the data changes |
| DataProvider.Ranking.Push | src/provider/ADataProvider.ts:218 | the column is appended to the ranking |
| DataProvider.Ranking.Insert | src/provider/ADataProvider.ts:234 | the column is spliced in at the clamped index |
| DataProvider.ClampIndexLaws | src/provider/ADataProvider.ts:132 | for `splice`'s start, a position of the array stays itself, a negative index names the same position as the index plus the length, indices past either end go to that end, and clamping twice changes nothing |
| DataProvider.Splice | src/provider/ADataProvider.ts:132 | the new element sits at the clamped index, removing it there gives the old array back, and the elements are the old ones plus the new one |
| Seqs.IndexOf | src/provider/ADataProvider.ts:153 | the first position of the element, or -1 exactly when it is absent |
| DataProvider.InsertRemoveRoundTrip | src/provider/ADataProvider.ts:131-163 | removing a ranking just inserted at an index finds it at the clamped index and restores the list |
| DataProvider.ColumnIdInjective | src/provider/ADataProvider.ts:244-246 | different counter values give different `'col' + n` ids |
| DataProvider.RenumberedDistinct | src/provider/ADataProvider.ts:418-421 | a ranking renumbered from a counter has pairwise distinct ids and keeps its descriptions |
| DataProvider.KeptIff | src/provider/ADataProvider.ts:361-372 | a dumped column is restored iff its description has a type |
| DataProvider.RestoredHasRank | src/provider/ADataProvider.ts:405-408 | every restored ranking has a rank column |
| DataProvider.LayoutOfDump | src/provider/ADataProvider.ts:401-411 | a ranking dump with typed columns and a rank column is restored with the same columns |
| DataProvider.RestoredIdsDistinct | src/provider/ADataProvider.ts:417-421 | the ids assigned across all restored rankings are pairwise distinct |
| DataProvider.Provider.constructor | src/provider/ADataProvider.ts:75-93 | no rankings, an empty selection, `uid` 0, and the known column types |
| DataProvider.Provider.IsSelected | src/provider/ADataProvider.ts:545-547 | true exactly when `String(index)` is among the string keys the source keeps, so the integer selection answers as the source's set of strings does |
| DataProvider.KeysMembership | src/provider/ADataProvider.ts:546 | `String(index)` is one of the selection's string keys iff `index` is selected |
| DataProvider.Provider.Select | src/provider/ADataProvider.ts:555-561 | an already selected row changes nothing and fires nothing; otherwise it is added with one `selectionChanged` |
| DataProvider.Provider.Deselect | src/provider/ADataProvider.ts:628-634 | an unselected row changes nothing and fires nothing; otherwise it is removed with one `selectionChanged` |
| DataProvider.Provider.SelectAll | src/provider/ADataProvider.ts:577-585 | nothing when all are selected; otherwise the union with one `selectionChanged` carrying `jump` |
| DataProvider.Provider.SetSelection | src/provider/ADataProvider.ts:592-598 | as written: no change when the sizes match and all indices are selected; otherwise the selection becomes the indices, and `[]` clears it without an event |
| DataProvider.SetSelectionKeepsStaleRow | src/provider/ADataProvider.ts:593 | with rows 1 and 2 selected, `setSelection([1, 1])` leaves both selected |
| DataProvider.Provider.SetSelectionIntended | src/provider/ADataProvider.ts:592-598 | afterwards the selection is exactly the set of the indices; no event when it already was, or when the indices are empty |
| DataProvider.SetSelectionIntendedDropsRow | src/provider/ADataProvider.ts:593 | with the set comparison, the same call leaves only row 1 selected |
| DataProvider.Provider.ToggleSelection | src/provider/ADataProvider.ts:606-622 | returns false iff the row was selected; the result is whether it is selected now; the new selection in each of the four cases |
| DataProvider.Provider.ClearSelection | src/provider/ADataProvider.ts:661-667 | the selection is empty; an event only when it was not |
| DataProvider.Values | src/provider/ADataProvider.ts:329 | `selection.values()`: each element of the set exactly once |
| DataProvider.Provider.GetSelection | src/provider/ADataProvider.ts:651-656 | each selected row exactly once, in the default string order of `sort()` |
| DataProvider.GetSelectionOrder | src/provider/ADataProvider.ts:654 | with rows 9 and 10 selected, the list is `[10, 9]` |
| DataProvider.Provider.InsertRanking | src/provider/ADataProvider.ts:131-141 | the ranking is spliced in at the index, one `addRanking` event with it and the index, and it is reordered |
| DataProvider.Provider.RemoveRanking | src/provider/ADataProvider.ts:152-163 | false and no change for a ranking not held; otherwise exactly that ranking is removed, the rest in order, with one `removeRanking` event with its position |
| DataProvider.Provider.ClearRankings | src/provider/ADataProvider.ts:168-176 | no rankings and one `removeRanking` event with no payload |
| DataProvider.Provider.GetRankings | src/provider/ADataProvider.ts:182-184 | the current list of rankings |
| DataProvider.Provider.NextId | src/provider/ADataProvider.ts:244-246 | the id is `'col' + uid`, and `uid` grows by one |
| DataProvider.Provider.Create | src/provider/ADataProvider.ts:265-273 | an unknown type gives null with `uid` unchanged; otherwise a column with id `'col' + uid`, and `uid` grows by one |
| DataProvider.Provider.Push | src/provider/ADataProvider.ts:215-222 | a created column is appended to the ranking and returned; otherwise null and nothing changes |
| DataProvider.Provider.Insert | src/provider/ADataProvider.ts:231-238 | a created column is inserted at the index and returned; otherwise null and nothing changes |
| DataProvider.FirstMatch | src/provider/ADataProvider.ts:313 | `ranking.find`: -1 exactly when no column passes the filter; otherwise a position whose column passes and before which none does |
| DataProvider.Provider.Find | src/provider/ADataProvider.ts:308-319 | the first matching column of the first ranking that has one; null exactly when none matches |
| DataProvider.Provider.Dump | src/provider/ADataProvider.ts:326-332 | the dump holds `uid`, each selected row once, and each ranking's columns in order |
| DataProvider.Provider.RestoreColumns | src/provider/ADataProvider.ts:361-372 | fails iff a typed column has an unknown type; otherwise exactly the typed columns are added |
| DataProvider.Provider.RepairRank | src/provider/ADataProvider.ts:405-408 | a ranking without a rank column gets one created at position 0, using one id; otherwise nothing changes |
| DataProvider.Provider.AssignNewIds | src/provider/ADataProvider.ts:382 | the ranking's columns get consecutive new ids from `uid` |
| DataProvider.Provider.RenumberAll | src/provider/ADataProvider.ts:417-421 | every ranking's columns are renumbered consecutively from `uid`, ranking after ranking; nothing else changes |
| DataProvider.Provider.RestoreRanking | src/provider/ADataProvider.ts:374-385 | a fresh ranking with the dump's typed columns, a rank column added if missing, all with consecutive ids; fails iff a type is unknown |
| DataProvider.Provider.RestoreFresh | src/provider/ADataProvider.ts:403-404 | a fresh ranking holding exactly the dump's typed columns; fails iff a typed column has an unknown type |
| DataProvider.Provider.RestoreColumnsAll | src/provider/ADataProvider.ts:401-404 | one fresh, distinct ranking per dump, each holding its typed columns; on an unknown type it stops at that dump and keeps the earlier ones |
| DataProvider.Provider.RepairAt | src/provider/ADataProvider.ts:405-408 | the ranking gets the dump's layout, and `uid` grows by one exactly when a rank column was missing |
| DataProvider.Provider.RepairAll | src/provider/ADataProvider.ts:402-408 | every restored ranking gets its dump's layout; `uid` grows by the number of rank columns added; the provider state is otherwise unchanged |
| DataProvider.Provider.InsertAll | src/provider/ADataProvider.ts:409 | the rankings are appended in order, each firing its `addRanking` event |
| DataProvider.Provider.RestoreRepaired | src/provider/ADataProvider.ts:401-408 | fresh distinct rankings holding the dumps' layouts, none inserted yet; fails iff a column type is unknown |
| DataProvider.Provider.RestoreRankings | src/provider/ADataProvider.ts:400-421 | onto an empty list, the restored rankings are inserted in order; on success their ids are numbered on from the counter after the repairs |
| DataProvider.Provider.AddSelection | src/provider/ADataProvider.ts:395-397 | the selection becomes the old one together with every dumped index; nothing else changes and no event fires |
| DataProvider.Provider.Restore | src/provider/ADataProvider.ts:387-422 | the dumped selection is added to the old one; the old rankings are cleared; `uid` starts from the dump's `uid` or 0; each dumped ranking is restored, with a rank column added if missing, inserted and renumbered; fails iff a column type is unknown |
| DataProvider.Provider.DeriveDefault | src/provider/ADataProvider.ts:429-440 | with rankings nothing changes; otherwise one new ranking with a column for every non-support description of a known type, ids consecutive from `uid`, one `addRanking` event |
| Export.Merge | src/provider/ADataProvider.ts:676-684 | no options keep the defaults, and options that give every field are taken as they are, whatever the defaults |
| Export.MergeLaws | src/provider/ADataProvider.ts:676-684 | merging no options keeps the defaults, merging the same options twice changes nothing more, and a call that gives every option gets exactly its own whatever the defaults |
| Export.MergeSeparatorOnly | src/provider/ADataProvider.ts:676-684 | overriding only the separator leaves every other default in place |
| Export.Quote | src/provider/ADataProvider.ts:686-691 | stripping the quote string where `quote` adds it gives every label back, and quoting adds the quote string twice exactly when quoting is on and the column is not numeric |
| Export.ExportedIff | src/provider/ADataProvider.ts:693 | a column is exported iff it belongs to the ranking and passes the filter |
| Export.CellsReadBack | src/provider/ADataProvider.ts:695-700 | there is one cell per exported column: unquoting the header cells gives the captions, and unquoting a row's cells gives its cell labels |
| Export.Lines | src/provider/ADataProvider.ts:695-701 | one line per row, plus one when the header is on; `LinesShape` gives each line |
| Export.LinesShape | src/provider/ADataProvider.ts:695-701 | the header line when asked for, then one line per row |
| Export.SplitJoin | src/provider/ADataProvider.ts:702 | lines joined by a character none contains are split back into the same lines |
| Export.TableReadsBack | src/provider/ADataProvider.ts:695-702 | with one-character separator and newline occurring in no cell, splitting the text gives back the header and every row's cells |
| Export.QuotedCells | src/provider/ADataProvider.ts:686-700 | with quoting on, header cells and non-numeric row cells are wrapped in the quote character |
| Export.ExportTable | src/provider/ADataProvider.ts:675-704 | the text is the lines of the exported columns joined by the newline option, under the merged options |
| DateColumn.GetValue | src/model/DateColumn.ts:37-46 | there is no date exactly when the value is missing or its string form does not parse, and a date is kept as it is; `GetValueCases` gives each case |
| DateColumn.GetLabel | src/model/DateColumn.ts:48-54 | a non-empty label is the formatted date; `LabelEmptyIffNoDate` and `LabelReadsBack` give the rest |
| DateColumn.CompareValues | src/model/DateColumn.ts:59-69 | equal values tie, and two dates compare by the sign of their timestamps' difference |
| DateColumn.Compare | src/model/DateColumn.ts:56-69 | rows whose values agree tie, and two dated rows compare as their timestamps do; `CompareMissing`, `CompareDates` and `CompareAntisymmetric` give each case |
| DateColumn.GetValueCases | src/model/DateColumn.ts:37-46 | a missing value has no date, a date is kept, anything else is parsed from its string form |
| DateColumn.LabelEmptyIffNoDate | src/model/DateColumn.ts:48-54 | the label is empty when there is no date, and only then when `format` never yields the empty string |
| DateColumn.LabelReadsBack | src/model/DateColumn.ts:33-54 | when `parse` reads back what `format` writes, the label of a date parses to the same date |
| DateColumn.CompareMissing | src/model/DateColumn.ts:59-67 | both missing compare 0; only the first missing gives `FIRST_IS_NAN`, only the second `-FIRST_IS_NAN` |
| DateColumn.CompareDates | src/model/DateColumn.ts:68 | two dates compare by the difference of their timestamps |
| DateColumn.CompareAntisymmetric | src/model/DateColumn.ts:56-69 | swapping the rows negates the result, and a row compares 0 with itself |
| DateColumn.PreorderIffFirstIsNaNNonZero | src/model/DateColumn.ts:56-69 | the comparator is a total preorder exactly when `FIRST_IS_NAN` is non-zero |
| DateColumn.ConsistentIffFirstIsNaNNonZero | src/model/DateColumn.ts:56-69 | the comparator is consistent in the sense of section 23.1.3.30 of ECMA-262, so `sort` by it has a single result, exactly when `FIRST_IS_NAN` is non-zero |
| DateColumn.MissingSortsFirst | src/model/DateColumn.ts:62-67 | with negative `FIRST_IS_NAN`, rows sorted by `compare` have every missing date before every present one |
| UpSet.Union | src/renderer/UpSetCellRenderer.ts:121-127 | one boolean per category, in its order, true iff some row yields that category; all false over no rows |
| UpSet.CatIndexes | src/renderer/UpSetCellRenderer.ts:17-18 | the strictly increasing positions of exactly the true entries |
| UpSet.SetPath | src/renderer/UpSetCellRenderer.ts:16-24 | the span runs from the first to the last true entry, and is absent exactly when there is none |
| UpSet.FirstTrue | src/renderer/UpSetCellRenderer.ts:41 | the first true position, or -1 exactly when there is none |
| UpSet.FirstTrueOfReversed | src/renderer/UpSetCellRenderer.ts:42 | the first true position of the reversed array is `length - 1` minus the last true position |
| UpSet.Reverse | src/renderer/UpSetCellRenderer.ts:42 | the array is reversed in place |
| UpSet.RenderSpan | src/renderer/UpSetCellRenderer.ts:41-46 | as written: `left` is the first and `right` the last true position; hidden iff `left < 0` or `left == right`; the caller's array is left reversed |
| UpSet.RenderSpanReversesCallerArray | src/renderer/UpSetCellRenderer.ts:42 | rendering `[true, false]` leaves the caller's array as `[false, true]` |
| UpSet.RenderSpanPure | src/renderer/UpSetCellRenderer.ts:41-46 | the same left, right and hidden results with the value untouched; hidden iff there is no true entry or exactly one |
| UpSet.SingleTrueIff | src/renderer/UpSetCellRenderer.ts:44 | the first and last true positions coincide iff there is exactly one true entry |
| Sorting.SortBy | src/provider/LocalDataProvider.ts:154 | `sort` rearranges its input: the result is a permutation of the same length, for every comparator |
| Sorting.SortBySorted | src/provider/LocalDataProvider.ts:184 | under a total preorder the result of `sort` is sorted |
| Sorting.SortByPrecedes | src/provider/LocalDataProvider.ts:154 | an element that the comparator lets come before a later one (`cmp <= 0`) is placed before it by `sort` |
| Sorting.SortByStable | src/provider/LocalDataProvider.ts:154 | insertion sort is stable: when the elements are told apart by a key, an element the comparator lets come before a later one (in particular a tied one) is found only at positions before it |
| Sorting.SortByStableSorted | src/provider/LocalDataProvider.ts:154 | for a consistent comparator and elements told apart by a key, the result is what ECMA-262 requires of `sort`: a sorted permutation that keeps tied elements in their order |
| Sorting.SortByIsTheStableSort | src/provider/LocalDataProvider.ts:154 | for a consistent comparator and elements told apart by a key, every sorted permutation that keeps tied elements in their order is the model's result, so the model returns exactly what any engine must |
| Sorting.ChainUnique | src/provider/LocalDataProvider.ts:154 | two arrangements of the same elements that both list them by comparator and then by input order are equal |
| Strings.IntToStringInjective | src/provider/ADataProvider.ts:548 | distinct integers have distinct `String` forms, so the set of strings is a set of row indices |
| Strings.CompareAsStringsIsTotalPreorder | src/provider/ADataProvider.ts:654 | the default `sort()` order of integers by their strings is a total preorder that ties only equal integers |
| Strings.TenBeforeNine | src/provider/ADataProvider.ts:654 | in that order 10 comes before 9 |

## Left out

- Host timing: the model assumes a host that has `requestIdleCallback`. The idle deadline becomes a budget of `next()` calls, `requestAnimationFrame` becomes a log of settlements, and callback ids come from a counter. `didTimeout`, which ignores the budget, is not modelled separately.
- Scheduler.TaskScheduler.ReSchedule: the `setTimeout(this.runTasks, 1)` fallback for hosts without `requestIdleCallback` (`src/internal/scheduler.ts:97`) is not modelled. It calls `runTasks` with no deadline argument, so on a non-empty queue reading `deadline.didTimeout` (:68) throws a TypeError before `taskId = -1` (:84) is reached, and the queue would stall as after a throwing task.
- Promises: the promise chaining of `then`, `view(...).then`, `fetch` and `selectedRows` is left out. Only the settlement log and the handle's `abort` are modelled. A task whose iterator yields a promise is treated like any other value.
- Event listeners and their forwarding (`AEventDispatcher`, `forward`/`unforward`) are left out. Only the event log is modelled. The same holds for the 100 ms `delayedCall` debounce of reordering and for `cleanUpRanking`.
- `Ranking` internals are represented by parameters: its sort order, `setOrder`, its nested columns and its own `dump`/`restore`. `ACommonDataProvider.cloneRanking` is not part of this model, and a cloned ranking is a fresh empty `Ranking`.
- `fixDesc`, `toDescRef`, `fromDescRef`, `restoreColumn`, `clone` and `takeSnapshot` are left out because they depend on the column classes. Descriptions are used as they are.
- `deriveRanking`, the legacy-layout branch of `restore`, is left out because it depends on column classes that are not part of this model.
- `searchSelect` and `jumpToNearest` are hooks with no logic here. `SearchAndJump` returns the collected positions instead of passing them on. The RegExp branch of `searchAndJump` is left out. `toLowerCase` is a parameter, with no Unicode case folding.
- `computeStats` and `computeHist` are not part of this model. Only the row cache `getD` that `stats` feeds them is modelled.
- `mappingSample` is left out because it uses `Math.random` and floating-point sampling.
- The pixel and percent arithmetic of `calculateSetPath` and `render` is left out. The DOM class toggling, canvas painting and the other renderers are left out too. So positions are returned in cells.
- Sorting.SortBy: for a comparator that is not consistent in the sense of section 23.1.3.30 of ECMA-262, the engine may return any order. The model returns insertion sort's order, which need not be the one a given engine produces. For consistent comparators `Sorting.SortByIsTheStableSort` shows the model's result is the one every engine must return.
- Sorting.SortBySorted: stated for every total preorder. A total preorder need not be consistent, e.g. a comparator that always answers -1, and for such a comparator the engine's result can differ from the model's. The statement is about the model's insertion order.
- Sorting.SortByPrecedes: the order it fixes is insertion sort's. It matches the engine only for consistent comparators. With `cmp(a, b) == 0` and `cmp(b, a) == 1`, the model puts `a` first in `[b, a]`, while an engine may keep `[b, a]`.
- Sorting.SortByStable: as for `Sorting.SortByPrecedes`, it describes the engine only for a consistent comparator. There ties are the pairs with `cmp == 0` both ways, and they keep their order.
- LocalData.PipelineSingleGroup: the `TiesKeepOrder` part is about insertion sort's order. It describes the source's `sort` only when the ranking's comparator is consistent (`Sorting.Consistent`).
- LocalData.PipelineStable: it holds for the model's insertion sort. It describes the source's `sort` only when the ranking's comparator is consistent; otherwise the engine's order is its own.
- LocalData.PipelineOrdered: its ordering results assume that `localeCompare` of the lower-cased names is a strict order on distinct names. Two names that differ only in case compare equal there, and the source can then interleave their rows. That case is not covered. Its sortedness results also describe the model's insertion sort. They describe the source's `sort` only when the comparators are consistent (`Sorting.Consistent`), since a total preorder alone does not fix the engine's order.
- DataProvider.Provider.Restore: when a column type is unknown the model reports `ok == false`. The source throws at that point instead. The ids of rankings restored before the failure are not stated.
- `getMaxGroupColumns`, `getMaxNestedSortingCriteria` and the `data` getter are plain accessors. They have no logic to model.
- LocalData.LocalDataProvider.AppendData: `data` is a value here. The source keeps the caller's array by reference, from the constructor (`src/provider/LocalDataProvider.ts:55`) and from `setData` (:91). `appendData` pushes into that same array (:105), and the `data` getter (:83) hands it out. So in the source the caller's own array grows as well. The model does not capture this aliasing. The `RangeError` that the `...data` spread throws on very large batches is not modelled either.
- DateColumn.Compare: a date is its integer timestamp. An Invalid Date, whose `getTime()` is NaN, passes `instanceof Date` in the source, and `compare` then returns NaN (`src/model/DateColumn.ts:68`). That breaks the total preorder. The model has no such value, so this case is not covered.
- Scheduler.TaskScheduler.Push: `calc` always returns here. A `calc` that throws behaves like `PushMulti` with an iterator that throws on its first call, which the model covers.

## Findings

| source | as written | input that shows it | evidently intended | confidence | as-written member | corrected member |
|---|---|---|---|---|---|---|
| src/provider/ADataProvider.ts:593 | "no change" is decided by comparing the selection's size with the number of indices | rows 1 and 2 selected, then `setSelection([1, 1])`: row 2 stays selected | the selection becomes exactly the set of the indices | not executed | DataProvider.SetSelectionKeepsStaleRow | DataProvider.Provider.SetSelectionIntended |
| src/provider/LocalDataProvider.ts:106 | appended rows get `dataIndex` counted from 0 within the batch | data `[10]`, then `appendData([20])`: the row at position 1 has `dataIndex` 0 | `dataIndex` is the row's position in the whole data set | not executed | LocalData.AppendDataRestartsIndex | LocalData.LocalDataProvider.AppendDataIntended |
| src/renderer/UpSetCellRenderer.ts:42 | `value.reverse()` reverses the caller's array in place | render `[true, false]`: the caller's array becomes `[false, true]` | find the last true entry without changing the value | not executed | UpSet.RenderSpanReversesCallerArray | UpSet.RenderSpanPure |
