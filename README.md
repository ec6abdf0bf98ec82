# Korobochka task store and its IndexedDB adapter, in Dafny

Korobochka ("little box") is a single-page to-do application. Its tasks are grouped
into six categories (0 "category not defined", 1 mandatory, 2 security, 3 simple joys,
4 ego joys, 5 accessibility of simple joys), and category 1 has the subcategories
`work` and `home` plus any the user adds. This project models the page's task store
and the IndexedDB adapter that persists it.

- The task store in `script.js` has three parts:
  - the global `tasks` array;
  - the custom-subcategory registry (`customSubcategories` in local storage);
  - the snapshots that the subcategory on/off switch keeps (`subcategoryActiveSnapshots`).

  Every handler that changes these is a method of the class `Store.TaskStore`. Each
  method states its new state through a specification function in `tasks.dfy`,
  `mutations.dfy`, `subcategories.dfy` or `repair.dfy`. The properties the application
  relies on are proved about those functions:
  - ids are fresh;
  - categories are valid;
  - a completed task is never active;
  - only the addressed tasks change;
  - the subcategory switch round-trips;
  - the load-time repair settles every task, except where the text sanitiser itself is not idempotent.
- The pure helpers are functions with their partners:
  - `sanitizeStoredText`;
  - `normalizeSubcategoryName`;
  - `getSubcategoryLabel`;
  - `getCategoryName`;
  - `escapeHtml`, partnered with an unescaper;
  - `taskMatchesSubcategory`;
  - the display comparator.
- The IndexedDB adapter in `db.js` is the class `Db.TaskDb`. It has three fields:
  - a table keyed by task id;
  - the `migrated_v1` flag;
  - the legacy local-storage blob.

  `saveAllTasks` clears the table and then puts the list in chunks of 200, with a loop
  over the chunks and an inner loop over each chunk's puts. The migration from local
  storage runs at most once. Failures of the underlying requests are an explicit
  fault parameter, so that each error path is stated as well.

Files:
- `wrappers.dfy`: the `Option` type.
- `text.dfy`: JavaScript white space, `trim` and lower-casing, the sanitiser, and the HTML escaper with its inverse.
- `categories.dfy`: category names and subcategory names.
- `tasks.dfy`: the task record, ids, adding lines, the comparator, and the count and random filters.
- `mutations.dfy`: the single-task changes, deletion, import, backdated tasks and moves.
- `subcategories.dfy`: the subcategory switch and the registry operations.
- `repair.dfy`: the stored form and the load-time repair.
- `store.dfy`: the store class.
- `db.dfy`: the IndexedDB adapter.

Clocks and randomness are inputs:
- `Date.now()` is the parameter `now`;
- `Math.random()` is `u` in [0, 1);
- the local calendar day is `Day`.

Confirmation dialogs are the boolean `confirmed`.

## Model

| member | source | states |
|---|---|---|
| Text.Trim | script.js:124 | `trim` leaves a string with no white space at either end, and the result is empty exactly when the input is all white space |
| Text.TrimIdempotent | script.js:210-215 | trimming twice is the same as trimming once |
| Text.TrimKeeps | script.js:124 | trimming introduces no character, and a string with no two adjacent blanks keeps that property |
| Text.RemoveChar | script.js:120-122 | removing U+FFFD or U+200B leaves none of it and adds no character |
| Text.StripSoftHyphens | script.js:121 | removing `&shy;`, `&#173;` and U+00AD leaves no U+00AD and adds no character |
| Text.JoinLineBreaks | script.js:123 | replacing each run of CR/LF by one space leaves no CR or LF and adds only spaces |
| Text.CollapseWhitespace | script.js:124 | replacing each run of two or more white-space characters by one space leaves no two adjacent white-space characters and adds only spaces |
| Text.SanitizeStoredText | script.js:118-126 | the sanitised text has no U+FFFD, U+00AD, U+200B, CR or LF, no two adjacent white-space characters, and no white space at either end |
| Text.SanitizeStoredValue | script.js:118-119 | non-string values pass through unchanged; strings are sanitised |
| Text.RemoveAbsentChar | script.js:120-122 | removing an absent character changes nothing |
| Text.StripSoftHyphensClean | script.js:121 | text without soft hyphens or their entities is unchanged by that step |
| Text.JoinLineBreaksClean | script.js:123 | text without line breaks is unchanged by that step |
| Text.CollapseWhitespaceClean | script.js:124 | text without adjacent white space is unchanged by that step |
| Text.TrimTrimmed | script.js:124 | trimmed text is unchanged by `trim` |
| Text.SanitizeCleanIsIdentity | script.js:118-126 | text that already has every output property (and no soft-hyphen entity) is a fixed point of the sanitiser |
| Text.JoinedEntity | script.js:121 | one pass of the entity replacement can create a new `&shy;` from the pieces around a removed one |
| Text.SanitizeEntity | script.js:118-126 | the sanitiser removes a whole `&shy;` |
| Text.SanitizeJoinedEntity | script.js:118-126 | the sanitiser maps `&s&shy;hy;` to `&shy;` |
| Text.SanitizeAfterStrip | script.js:118-126 | when the later steps have nothing to remove, sanitising is just the soft-hyphen step |
| Text.SanitizeNotIdempotent | script.js:118-126 | sanitising twice can differ from sanitising once, so the repair on every load is not idempotent on text |
| Text.EscapeChar | script.js:403 | the escape of any character contains no `<`, `>`, `"` or `'` |
| Text.EscapeHtml | script.js:401-404 | escaped text contains no `<`, `>`, `"` or `'` and is at least as long as the input |
| Text.UnescapeEntity | script.js:403 | each of the five entities decodes back to the character it replaced |
| Text.UnescapeEscapedChar | script.js:403 | the escape of any character decodes back to that character, whatever follows it |
| Text.UnescapeEscapeHtml | script.js:401-404 | decoding the escaped text gives back the original text (escaping loses nothing) |
| Text.SplitLines | script.js:2408 | splitting at `\n` yields at least one piece and no piece contains `\n` |
| Text.JoinSplitLines | script.js:2408 | joining the pieces with `\n` gives back the typed text |
| Categories.CategoryName | script.js:388-398 | the label is "category not defined" exactly for numbers outside 1..5 |
| Categories.NormalizeSubcategoryName | script.js:208-216 | the result is null exactly for a missing or empty name, and is otherwise trimmed |
| Categories.NormalizeMeaning | script.js:208-216 | in category 1 the work and home aliases map to `work` and `home` (case-insensitively after trimming); any other name maps to its trimmed form; the result is empty exactly when the name is blank |
| Categories.KeysAreAliases | script.js:211-213 | the canonical keys are aliases of themselves and of nothing else |
| Categories.AliasListsDisjoint | script.js:212-213 | no name is both a work alias and a home alias |
| Categories.NormalizeIdempotent | script.js:208-216 | normalising a non-empty normalised name changes nothing |
| Categories.NormalizeBlankNotIdempotent | script.js:208-216 | a blank name normalises to the empty string, which then normalises to null |
| Categories.SubcategoryLabel | script.js:217-226 | the label is empty exactly for a missing or empty key; outside category 1 it is the key; in category 1 `work` and any case of "работа" show "Работа", `home` and any case of "дом" show "Дом", and any other key is shown as it is |
| Categories.LabelOfNormalized | script.js:208-226 | every alias, once normalised, is labelled "Работа" or "Дом" |
| Categories.LabelNotCanonical | script.js:217-226 | an unnormalised Latin alias in another case is shown as typed, while Cyrillic aliases are matched in any case |
| Tasks.FindIndex | script.js:973 | `findIndex` returns -1 exactly when no task has the id, and otherwise the first index holding it |
| Tasks.MaxId | script.js:199-205 | the running maximum starts at 0 and so is never negative |
| Tasks.MaxIdIsMax | script.js:199-205 | every id is at most the maximum, and a positive maximum is some task's id |
| Tasks.NextId | script.js:199-205 | the next id is at least 1 |
| Tasks.NextIdAbove | script.js:199-205 | the next id exceeds every existing id |
| Tasks.NextIdAfterAppend | script.js:199-205 | pushing a task that has the next id raises the next id by one |
| Tasks.NonBlankLines | script.js:231-234 | only trimmed, non-empty lines are kept, and never more lines than given |
| Tasks.NonBlankLinesOfClean | script.js:2408 | lines the dialog has already trimmed and filtered pass through unchanged (also script.js lines 231-234) |
| Tasks.NonBlankLinesSnoc | script.js:231-234 | lines are kept in order, one at a time |
| Tasks.NewTasks | script.js:235-247 | one task per text, with consecutive ids from the first, the given category and subcategory, active, not completed, stamped `now` |
| Tasks.NewTasksSnoc | script.js:235-247 | adding one more text appends one more task with the next id |
| Tasks.AppendNewTask | script.js:235-247 | pushing the next new task one at a time builds the same list as creating them together |
| Tasks.SelectedSubcategory | script.js:243-246 | a subcategory is set exactly when a non-blank one is selected, and it is the normalised, non-empty name |
| Tasks.NewTasksKeepInvariants | script.js:229-250 | appended tasks keep ids distinct and tasks consistent, and every new id is above every old one |
| Tasks.NextIdAfterNewTasks | script.js:199-205 | after appending n new tasks the next id has advanced by n (also script.js lines 229-250) |
| Tasks.CompareForDisplay | script.js:509-516 | the comparator is negative or zero exactly when the sort key (active first; active by oldest stamp then id; inactive by newest stamp) is smaller or equal |
| Tasks.CompareIsOrder | script.js:509-516 | the comparator is antisymmetric and transitive, and two inactive tasks with equal stamps compare equal whatever their ids |
| Tasks.ActiveIn | script.js:1211-1218 | the pickable tasks are exactly those in a listed category that are active and not completed |
| Tasks.CountActive | script.js:1183-1188 | the count is zero exactly when no task is active, not completed and in a listed category |
| Tasks.ActiveInSnoc | script.js:1211-1218 | appending a task appends it to the pickable tasks exactly when it is pickable, so the filter keeps store order |
| Tasks.CountActiveTally | script.js:1183-1188 | the count is 0 for no tasks and grows by one for each pickable task appended |
| Tasks.RandomTask | script.js:1211-1228 | there is no pick exactly when the count is zero; otherwise the pick is an active, not completed task in a listed category |
| Mutations.ReplaceKeepsInvariants | script.js:997 | replacing one task with a task of the same id keeps ids distinct, and keeps consistency exactly when the new task is consistent |
| Mutations.ChangedTask | script.js:975-995 | the category is replaced; a non-blank explicit subcategory is stored trimmed, otherwise it is dropped only when the category changes; the task becomes active iff it was active or moves out of category 0; the stamp changes only on that activation, and is then `now`; the completion fields are kept |
| Mutations.ChangeTaskCategory | script.js:972-1000 | an unknown id changes nothing; otherwise only the first task with the id changes, as above |
| Mutations.ChangeTaskCategoryKeepsInvariants | script.js:972-1000 | moving a non-completed task to a valid category keeps ids distinct and tasks consistent |
| Mutations.ChangeTaskCategoryOnCompleted | script.js:990-992 | moving a completed inactive task out of category 0 makes it active and completed at once |
| Mutations.ToggleTaskActive | script.js:1003-1013 | an unknown id changes nothing; otherwise only that task flips `active` and is stamped |
| Mutations.ToggleTaskActiveTwice | script.js:1003-1013 | toggling twice restores every task up to the stamp |
| Mutations.ToggleTaskActiveConsistency | script.js:1003-1013 | the toggle keeps ids distinct, and keeps every task consistent exactly when the toggled task is not completed |
| Mutations.ToggleCategoryActive | script.js:1016-1022 | every task of the category gets `active` = "no task of it was active" and is stamped; other tasks are unchanged |
| Mutations.ToggleCategoryActiveConsistency | script.js:1016-1022 | the bulk toggle keeps consistency exactly when it deactivates or the category holds no completed task |
| Mutations.TimerDuration | script.js:2692 | the duration is `now - timerStartTime` when a timer ran, never negative, and 0 when no timer ran |
| Mutations.UndoReversesCompletion | script.js:883-915 | undo exactly reverses a completion with the timer; after the plain button, undo and return each give back the task with only its stamp changed (also script.js lines 2687-2703, 3037-3049) |
| Mutations.CompletionKeepsConsistent | script.js:883-915 | complete, complete-with-timer, return and undo each leave the task consistent (also script.js lines 2687-2703, 3037-3049) |
| Mutations.CompletionChange | script.js:883-915 | an unknown id changes nothing; otherwise only that task changes, and it ends completed and inactive, or not completed and active for return and undo (also script.js lines 2687-2703, 3037-3049) |
| Mutations.CompletionChangeKeepsInvariants | script.js:883-915 | every completion step keeps ids distinct and tasks consistent (also script.js lines 2687-2703, 3037-3049) |
| Mutations.DeleteTask | script.js:1113 | the remaining tasks are exactly those without the id; an unknown id changes nothing, a known one shortens the list |
| Mutations.DeleteKeepsInvariants | script.js:1113 | deletion keeps ids distinct and tasks consistent |
| Mutations.DeleteTaskConcat | script.js:1113 | deleting from a concatenation deletes from each part, so the survivors keep their order |
| Mutations.DeleteKeepsUniqueIds | script.js:1113 | filtering a list with distinct ids leaves distinct ids |
| Mutations.ImportOutcomeOf | script.js:1147-1171 | the import succeeds exactly for an array whose every element has a truthy text and a category, and reports its length; a format error means some element fails that test |
| Mutations.ImportedTasks | script.js:1164 | the store becomes exactly the imported array |
| Mutations.PastTask | script.js:3078-3111 | a blank text, a non-positive duration or a missing day each refuse in that order; otherwise the new task has the next id, the trimmed text, the category, is completed and inactive, completed at noon of the day, with the duration in milliseconds and the day's date |
| Mutations.PastTaskKeepsInvariants | script.js:3078-3111 | the backdated task keeps ids distinct and tasks consistent, lasts at least a minute and has text |
| Mutations.MovedTaskAsWritten | script.js:2557-2569 | the moved task keeps its id, text, completion and completion fields and gets the target category and subcategory, with the activation test as the code orders it |
| Mutations.MoveAsWrittenNeverActivates | script.js:2557-2569 | as written, moving never changes `active` or the stamp |
| Mutations.MoveFromUndefinedCounterexample | script.js:2557-2569 | an inactive task in category 0 moved to category 3 stays inactive as written, and becomes active under the intended test |
| Mutations.MovedTask | script.js:2557-2569 | the moved task gets the target category and subcategory, and becomes active iff it was active or leaves category 0; the stamp changes only then, and is then `now`; the completion fields are kept |
| Mutations.MovedTaskAgreesWithChange | script.js:2557-2569 | the corrected move activates and stamps exactly as `changeTaskCategory` does (also script.js lines 990-995) |
| Mutations.MoveTaskAsWritten | script.js:2555-2569 | an unknown id changes nothing; otherwise only that task changes, as the page's code moves it |
| Mutations.MoveTaskAsWrittenKeepsInvariants | script.js:2555-2569 | as written, a move to a valid category keeps ids distinct and tasks consistent, completed or not |
| Mutations.MoveTask | script.js:2555-2569 | the corrected move on the store: an unknown id changes nothing; otherwise only that task changes, by the corrected activation |
| Mutations.MoveTaskKeepsInvariants | script.js:2555-2569 | moving a non-completed task to a valid category keeps ids distinct and tasks consistent |
| Subcategories.MatchesSubcategoryMeaning | script.js:1046-1051 | a match needs the same category; a task without a subcategory matches only the empty name; outside category 1 the trimmed subcategory must equal the name; a category-1 work alias matches exactly `work` |
| Subcategories.RelevanceMask | script.js:1060 | the mask marks exactly the matching, non-completed tasks |
| Subcategories.IdsWhere | script.js:1074 | the ids listed are exactly those of marked (and, if asked, active) tasks (also script.js lines 1083) |
| Subcategories.KeepIds | script.js:1082 | the saved ids kept are exactly those still among the relevant tasks |
| Subcategories.Dedup | script.js:1084-1085 | the snapshot stored has the same ids, each once |
| Subcategories.Deactivated | script.js:1075-1080 | exactly the marked active tasks become inactive and are stamped |
| Subcategories.Restored | script.js:1086-1095 | exactly the marked tasks whose `active` differs from "id in the restore set" are changed to match it and stamped |
| Subcategories.SameButKeepsIds | script.js:1075-1095 | changing only `active` and stamps keeps ids and their distinctness |
| Subcategories.ToggleMaskedFrame | script.js:1054-1101 | the switch changes only `active` and stamps, and only on relevant tasks |
| Subcategories.ToggleMaskedNoneSelected | script.js:1062-1067 | with no relevant task the snapshot key is removed and the tasks are unchanged |
| Subcategories.ToggleMaskedOff | script.js:1073-1080 | if a relevant task is active, all relevant tasks become inactive and the snapshot records exactly the ids that were active |
| Subcategories.ToggleMaskedOn | script.js:1081-1096 | otherwise the snapshot is non-empty and holds exactly the saved ids still relevant, or every relevant id when none of those is; a relevant task ends active exactly when its id is in it |
| Subcategories.MaskIgnoresActive | script.js:1046-1051 | which tasks are relevant does not depend on `active` or stamps, so both calls see the same tasks |
| Subcategories.RestoreAfterDeactivate | script.js:1073-1096 | turning a subcategory off and then on restores every task up to the stamp |
| Subcategories.DeactivateAfterRestore | script.js:1073-1096 | turning it on from a valid snapshot and then off restores every task up to the stamp |
| Subcategories.OffThenOn | script.js:1054-1101 | the switch called twice, starting from "some active", restores the tasks up to the stamp |
| Subcategories.OnThenOff | script.js:1054-1101 | the switch called twice, starting from "none active", restores the tasks up to the stamp |
| Subcategories.ToggleMaskedTwice | script.js:1054-1101 | two consecutive calls of the switch restore the tasks up to the stamp in every case |
| Subcategories.ToggleSubcategoryTwice | script.js:1054-1101 | two consecutive calls of `toggleSubcategoryActiveByName` restore the original active set |
| Subcategories.ToggleSubcategoryKeepsConsistent | script.js:1054-1101 | the switch only touches relevant, non-completed tasks, so a consistent store stays consistent |
| Subcategories.RegistryAdd | script.js:1554-1562 | a blank name changes nothing; otherwise the trimmed name is in the category's list, nothing is lost, nothing else is added, and other categories are unchanged (also script.js lines 1705-1712) |
| Subcategories.RegistryAddIdempotent | script.js:1554-1562 | adding the same name twice is the same as adding it once (also script.js lines 1705-1712) |
| Subcategories.RegistryAddKeepsDistinct | script.js:1554-1562 | adding keeps a category's list free of duplicates (also script.js lines 1705-1712) |
| Subcategories.IndexOf | script.js:2230 | `indexOf` returns -1 exactly when the name is absent, and otherwise its first position |
| Subcategories.Resubcategorized | script.js:2233 | exactly the tasks of the category with that subcategory get the new one (also script.js lines 2265, 2317) |
| Subcategories.ResubcategorizedKeepsInvariants | script.js:2233 | renaming keeps ids distinct and tasks consistent, and no task keeps the old name unless it is the new one (also script.js lines 2265) |
| Subcategories.RenameSubcategory | script.js:2226-2234 | a blank name changes nothing; otherwise the trimmed name is in the category's list, the list has no duplicates, the tasks are renamed, every other name of the category stays listed, and other categories are unchanged |
| Subcategories.RenameRemovesOldName | script.js:2226-2234 | after a rename to a different name, neither the registry nor any task of the category has the old name |
| Subcategories.RemoveName | script.js:2265 | the filtered list holds exactly the other names |
| Subcategories.DeleteSubcategory | script.js:2263-2266 | the name leaves the category's list, nothing else does, other categories are unchanged, and its tasks lose their subcategory |
| Subcategories.MoveSubcategoryTasks | script.js:2313-2319 | exactly the tasks of the category with that subcategory get the target category and subcategory and are stamped |
| Subcategories.MoveSubcategoryKeepsInvariants | script.js:2313-2319 | a move to a valid category keeps ids distinct and tasks consistent, and empties the old subcategory unless it is the target |
| Repair.StoredAll | script.js:194-197 | the stored list is the tasks, one record each, in order |
| Repair.RepairCategory | script.js:148-151 | the repaired category is valid, a valid category is kept, and anything else becomes 0 |
| Repair.LoadedSubcategory | script.js:181-188 | only a non-blank category-1 subcategory is normalised; the rest pass through |
| Repair.LoadedSubcategoryNeverDrops | script.js:181-188 | the branch that removes a subcategory is never taken |
| Repair.LoadedSubcategoryIdempotent | script.js:181-188 | the subcategory normalisation on load is idempotent |
| Repair.RepairTask | script.js:146-154 | a repaired task has the repaired category (a valid one), a sanitised text, `active` defaulting to true, the loaded subcategory (present exactly when it had one), and every other field unchanged (also script.js lines 181-188) |
| Repair.RepairConsistentIff | script.js:149-154 | a repaired task is consistent exactly when it is not completed or was stored inactive, so a completed task without `active` loads active |
| Repair.SettledReloads | script.js:128-197 | a settled task survives a save and a reload unchanged |
| Repair.RepairSettles | script.js:128-197 | a repaired task (whose text the sanitiser does not reshape) is settled, so repairing twice equals repairing once |
| Repair.RepairAll | script.js:146-154 | every record is repaired, in order |
| Repair.SourceList | script.js:131-143 | a non-empty table wins; otherwise the legacy blob is used (missing means empty), and an unparseable or non-array blob fails |
| Repair.LoadedTasks | script.js:128-192 | loading succeeds exactly when a source list exists, and then gives every record of that list repaired, each with a valid category |
| Repair.SaveThenLoad | script.js:128-197 | saving settled tasks and loading them gives them back |
| Repair.FirstByTag | script.js:164-173 | the filter keeps only names with a non-empty tag not seen before |
| Repair.FirstByTagDistinct | script.js:164-173 | the kept names have distinct tags |
| Repair.ConsDistinctTags | script.js:169-171 | a name whose tag is new can go in front of names with distinct tags |
| Repair.FirstByTagCovers | script.js:164-173 | every name with a non-empty tag has its tag among the kept names |
| Repair.DedupCategoryOne | script.js:164-173 | the `forEach` with its `seen` set computes the first name for each tag |
| Repair.SanitizedRegistry | script.js:160-163 | every list is sanitised element by element, with no category added or removed |
| Repair.LoadedRegistry | script.js:157-177 | category 1 is deduplicated by tag after sanitising, and the other categories are only sanitised |
| Repair.LoadedRegistryProps | script.js:157-177 | every name after loading comes from a stored name, and category 1 has distinct non-empty tags |
| Store.TaskStore.constructor | script.js:2 | the store starts empty |
| Store.TaskStore.Save | script.js:194-197 | `saveTasks` hands the current list to storage and changes nothing else |
| Store.TaskStore.GetNextId | script.js:199-205 | the loop returns one more than the largest id (or 1), which exceeds every id |
| Store.TaskStore.FindTaskIndex | script.js:973 | the loop finds the first index with the id, or -1 exactly when there is none |
| Store.TaskStore.AppendLines | script.js:231-249 | one task per non-blank line is pushed with consecutive fresh ids, the count is returned, and nothing else changes |
| Store.TaskStore.AddLinesAsTasks | script.js:229-257 | as above with the selected subcategory normalised; an empty input saves nothing; validity is kept for a valid category |
| Store.TaskStore.AddFromDialog | script.js:2406-2434 | the dialog adds its typed lines (the primary category wins when a subcategory is selected); it adds nothing when nothing was typed or several lines are not confirmed |
| Store.TaskStore.PasteTasks | script.js:2622-2652 | pasting appends the typed lines to category 0 unless the archive is shown, nothing was typed, or several lines are not confirmed; validity is kept |
| Store.TaskStore.AddPastTask | script.js:3078-3111 | the backdated task is appended and saved when the inputs are complete, and nothing changes otherwise |
| Store.TaskStore.ChangeTaskCategory | script.js:972-1000 | the store changes as the change function says, is saved only for a known id, and stays valid for a non-completed task and a valid category |
| Store.TaskStore.ToggleTaskActive | script.js:1003-1013 | the store flips the task, is saved only for a known id, and stays valid for a non-completed task |
| Store.TaskStore.CompleteTask | script.js:883-896 | the plain button completes the task without timing fields and keeps validity |
| Store.TaskStore.CompleteCurrentTask | script.js:2687-2703 | the current task is completed with its duration, time and day; no current task changes nothing |
| Store.TaskStore.ReturnTask | script.js:897-915 | the return button reopens the task, clears its timing fields and stamps it |
| Store.TaskStore.UndoCompleteTask | script.js:3037-3049 | undo reopens the task and clears its timing fields without stamping it |
| Store.TaskStore.DeleteTask | script.js:1104-1118 | the confirmed delete filters the id out and saves |
| Store.TaskStore.MoveTask | script.js:2541-2575 | the move dialog moves the task as the page's code does (no activation), is saved only for a known id, and keeps the store valid for a valid category |
| Store.TaskStore.ToggleCategoryActive | script.js:1016-1022 | the bulk toggle is applied and saved |
| Store.TaskStore.ToggleSubcategoryActive | script.js:1054-1101 | tasks and snapshots change as the switch function says, tasks are saved only when some task is relevant, and a valid store stays valid |
| Store.TaskStore.ImportTasks | script.js:1143-1175 | a valid import replaces the tasks and saves; every error leaves the store unchanged |
| Store.TaskStore.AddSubcategoryName | script.js:1554-1562 | the registry gets the name as the add function says; tasks are untouched (also script.js lines 1705-1712) |
| Store.TaskStore.RenameSubcategory | script.js:2226-2234 | registry and tasks change as the rename function says, and validity is kept |
| Store.TaskStore.DeleteSubcategory | script.js:2263-2266 | registry and tasks change as the delete function says, and validity is kept |
| Store.TaskStore.MoveSubcategory | script.js:2313-2319 | the subcategory's tasks move as the move function says, and validity is kept for a valid target |
| Store.TaskStore.Load | script.js:128-192 | loading succeeds exactly when there is a source list; then the tasks are the repaired list, saved, and the registry is cleaned; a failed load changes nothing |
| Db.TableOfSnoc | db.js:69-76 | putting a record replaces whatever had its id |
| Db.Latest | db.js:69-76 | the latest record with an id is absent exactly when no record has it, and otherwise is one of them |
| Db.TableOfContents | db.js:78-88 | after the puts, the table holds an id exactly when some record had it, and holds the last such record (also db.js lines 16) |
| Db.TableOfKeyed | db.js:16 | every record is stored under its own id |
| Db.TableOfDistinct | db.js:78-88 | with distinct ids, the table holds exactly the records of the list |
| Db.TableOfEmpty | db.js:78-88 | the table is empty exactly when the list was |
| Db.ChunkEnd | db.js:82-84 | each slice ends after its start, within the list, at most 200 further, and on a multiple of 200 unless at the end |
| Db.ChunkEndInSlice | db.js:83-84 | every index of a slice has the same slice end |
| Db.Written | db.js:83-85 | when one put fails, the records stored are those before it and the rest of its slice, in order |
| Db.IssuedAll | db.js:83-85 | without a failure the puts issued so far are a prefix of the list |
| Db.IssuedSkip | db.js:83-85 | with a failure the puts issued are the list without the failed one |
| Db.FailedSlice | db.js:83-85 | the puts issued up to the failing slice's end are exactly the written records |
| Db.IssuedWhole | db.js:83-87 | a loop that completes issues every record exactly once, in order |
| Db.PutSlice | db.js:84-85 | the puts of a slice add its records in order, and report failure exactly when the failing put lies in the slice |
| Db.TaskDb.constructor | db.js:7-26 | a new database has an empty table and no migration flag |
| Db.TaskDb.SaveAllTasks | db.js:78-88 | success exactly when no request fails; then the table is exactly the list keyed by id (later duplicates win); a failed clear changes nothing; a failed put leaves the records written before it; the flag and the legacy copy are untouched |
| Db.TaskDb.Migrate | db.js:90-104 | migration succeeds exactly when it is due (no flag, empty table, non-empty array blob) and no request fails; then the table is the blob and the flag is set; it never changes anything when not due or when a read fails, never sets the flag on a failed save, and is not due again once done |
| Db.TaskDb.Init | db.js:106-110 | opening runs the migration: a due migration that completes copies the blob and sets the flag, and an undue one changes nothing |

## Left out

- The page's DOM, its events, timers, audio, push notifications, assets and the calendar widget are not modelled. They are user interface and browser APIs; only the state change each handler makes is modelled.
- Values that are not what the handlers expect are not modelled:
  - a task's text can be a non-string (`Text.TextValue`);
  - all other fields have the types the page writes;
  - non-string registry entries and non-integer or missing ids are not modelled.
- Lower-casing covers Latin A-Z and Cyrillic А-Я/Ё only. Those are the letters of the aliases; full Unicode case mapping is not modelled.
- Each handler reads `Date.now()` once, except four that read it per task: the add and paste loops, `toggleCategoryActive` (script.js:1019, `Mutations.ToggleCategoryActive`) and the subcategory move (script.js:2317, `Subcategories.MoveSubcategoryTasks`). The model gives every task of one call the same `now`.
- `completedDate` comes from the local time zone through `toISOString`. It is an opaque input (`Day`, or `day`).
- `exportTasks` (a file download) and the `FileReader` part of `importTasks` are not modelled. The import starts from the parsed value.
- `fixOrphans` (display typesetting) is not modelled.
- The inline text editor (script.js:918-945) is not modelled.
- `Store.TaskStore.Load`: when the blob parses to a non-array, the page sets `tasks` to that value before the repair throws. The model leaves the store unchanged.
- `Db.TaskDb`: `openDB`, the upgrade callback and the object-store handles are not modelled.
  - A failure to open the database is not modelled.
  - The meta store holds only the `migrated_v1` flag.
  - The table is a map, so `getAllTasks`'s key order is not modelled.
  - Each call has at most one failing request (`Fault`).
  - A save that overlaps another save is not modelled, because the page never awaits `saveAllTasks`.
- `Store.TaskStore.Save` records the list handed to storage. The IndexedDB and local-storage writes behind it are `Db.TaskDb.SaveAllTasks` and the legacy blob.
- `Store.TaskStore.AppendLines`: `getNextId` is computed from the list so far, as the loop does. The loop over `forEach` is modelled as a `while` loop.
- `Mutations.ChangeTaskCategory` and `Mutations.ToggleTaskActive` do not keep "completed ⇒ inactive" for a completed task. The page only hides their buttons for completed tasks (script.js:589-591), so the invariant is proved under that precondition.
- The design description of the application and its code differ in these places; the model follows the code:
  - The category-1 alias list has no `house` entry.
  - The registry is never normalised, only sanitised (and deduplicated for category 1) on load.
  - The sanitiser is not idempotent (`Text.SanitizeNotIdempotent`).
  - A completed task stored without `active` loads as active (`Repair.RepairConsistentIff`).
  - `normalizeSubcategoryName` is not idempotent on blank input: `"  "` becomes `""`, which becomes null (`Categories.NormalizeBlankNotIdempotent`).

## Findings

| source | as written | input that shows it | evidently intended | confidence | as-written member | corrected member |
|---|---|---|---|---|---|---|
| script.js:2557-2569 | the move dialog writes the new category first, then tests whether the task's category is 0, so the auto-activation never fires | an inactive task in category 0 moved to category 3 stays inactive | activate a task that leaves category 0, as `changeTaskCategory` does (script.js:990-995) | not executed | Mutations.MovedTaskAsWritten | Mutations.MovedTask |

`Store.TaskStore.MoveTask` follows the page's code as written (`Mutations.MoveTaskAsWritten`). The corrected move, `Mutations.MoveTask`, is stated and proved beside it.
